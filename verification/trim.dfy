/** `handleTrim` (src/App.js lines 164-195) reduced to what it decides: whether
    to act, which files and arguments it hands the ffmpeg engine, and what it
    publishes. The engine is a receiver of those calls; how far the
    handler gets, and what it reads back, is a parameter. */
module Trim {
  import opened Wrappers
  import opened TimeFormat
  import opened Session

  /** `s.split(sep)` for a one-character separator: the pieces between
      separators, empty ones included. */
  function Split(s: string, sep: char): (parts: seq<string>)
    ensures |parts| >= 1
    ensures forall i :: 0 <= i < |parts| ==> sep !in parts[i]
    ensures (|parts| >= 2) == (sep in s)
    decreases |s|
  {
    if |s| == 0 then [""]
    else
      var rest := Split(s[1..], sep);
      assert sep in s <==> s[0] == sep || sep in s[1..] by {
        assert s == [s[0]] + s[1..];
      }
      if s[0] == sep then [""] + rest
      else [[s[0]] + rest[0]] + rest[1..]
  }

  /** The pieces put back together with the separator between them. */
  function Join(parts: seq<string>, sep: char): string
    requires |parts| >= 1
    decreases |parts|
  {
    if |parts| == 1 then parts[0] else parts[0] + [sep] + Join(parts[1..], sep)
  }

  /** Splitting loses nothing: joining the pieces gives the string back. */
  lemma {:induction false} SplitJoin(s: string, sep: char)
    ensures Join(Split(s, sep), sep) == s
    decreases |s|
  {
    if |s| > 0 {
      var rest := Split(s[1..], sep);
      SplitJoin(s[1..], sep);
      var parts := Split(s, sep);
      if s[0] == sep {
        assert parts[1..] == rest;
        assert s == [sep] + s[1..];
      } else if |rest| == 1 {
        assert parts == [[s[0]] + rest[0]];
        assert s == [s[0]] + s[1..];
      } else {
        assert parts[1..] == rest[1..];
        assert Join(rest, sep) == rest[0] + [sep] + Join(rest[1..], sep);
        assert s == [s[0]] + s[1..];
      }
    }
  }

  /** A string without the separator is a single piece. */
  lemma SplitWithoutSeparator(s: string, sep: char)
    requires sep !in s
    ensures Split(s, sep) == [s]
  {
    SplitJoin(s, sep);
  }

  /** A type with exactly one "/" splits into the part before and after it. */
  lemma {:induction false} SplitAroundOne(p: string, q: string, sep: char)
    requires sep !in p && sep !in q
    ensures Split(p + [sep] + q, sep) == [p, q]
    decreases |p|
  {
    var s := p + [sep] + q;
    if |p| == 0 {
      assert s[1..] == q;
      SplitWithoutSeparator(q, sep);
    } else {
      assert s[1..] == p[1..] + [sep] + q;
      SplitAroundOne(p[1..], q, sep);
      assert [p[0]] + p[1..] == p;
    }
  }

  /** `"out." + type.split("/")[1]` (lines 173, 186 and 189): the output file
      named after the second piece of the declared type. */
  function OutputName(mimeType: string): (r: string)
    requires '/' in mimeType
    ensures |r| >= 4 && r[..4] == "out."
    ensures '/' !in r
  {
    "out." + Split(mimeType, '/')[1]
  }

  /** For a type `kind/subtype` with one slash, the output is `out.subtype`. */
  lemma OutputNameOfSubtype(kind: string, subtype: string)
    requires '/' !in kind && '/' !in subtype
    ensures OutputName(kind + "/" + subtype) == "out." + subtype
  {
    SplitAroundOne(kind, subtype, '/');
  }

  /** How a command line of `-flag value` pairs is read: the value after the
      first occurrence of `flag` in a flag position. */
  function Lookup(args: seq<string>, flag: string): Option<string>
    decreases |args|
  {
    if |args| < 2 then None
    else if args[0] == flag then Some(args[1])
    else Lookup(args[2..], flag)
  }

  /** The shape of the `ffmpeg.run` call (lines 175-187) for given input name,
      formatted start and end, and output name: read as a command line it
      names the input, the seek range and stream copy of both streams, and
      ends with the output. */
  function CommandLine(name: string, from: string, to: string, output: string): (args: seq<string>)
    ensures |args| == 11 && args[10] == output
    ensures args[..2] == ["-i", name]
    ensures args[2] == "-ss" && args[4] == "-to" && args[6] == "-acodec" && args[8] == "-vcodec"
    ensures Lookup(args, "-i") == Some(name)
    ensures Lookup(args, "-ss") == Some(from)
    ensures Lookup(args, "-to") == Some(to)
    ensures Lookup(args, "-acodec") == Some("copy")
    ensures Lookup(args, "-vcodec") == Some("copy")
  {
    var args := ["-i", name, "-ss", from, "-to", to, "-acodec", "copy", "-vcodec", "copy", output];
    LookupPairs(args);
    args
  }

  /** The argument vector of `ffmpeg.run` (lines 175-187): the input, the
      formatted start and end, stream copy, and `out.<subtype>`. */
  function TrimArgs(name: string, mimeType: string, start: real, end: real): (args: seq<string>)
    requires start >= 0.0 && end >= 0.0 && '/' in mimeType
    ensures |args| == 11 && args[..2] == ["-i", name]
    ensures Lookup(args, "-ss") == Some(ConvertToHHMMSS(start))
    ensures Lookup(args, "-to") == Some(ConvertToHHMMSS(end))
    ensures args[10] == OutputName(mimeType) && args[10][..4] == "out."
  {
    CommandLine(name, ConvertToHHMMSS(start), ConvertToHHMMSS(end), OutputName(mimeType))
  }

  /** Read as a command line, the vector names the input file, seeks to the
      start and stops at the end to the millisecond, copies both streams and
      ends with the output file. */
  lemma TrimArgsReadBack(name: string, mimeType: string, start: real, end: real)
    requires start >= 0.0 && end >= 0.0 && '/' in mimeType
    ensures var args := TrimArgs(name, mimeType, start, end);
      && Lookup(args, "-i") == Some(name)
      && Lookup(args, "-ss").Some?
      && ParseTimestamp(Lookup(args, "-ss").value).Some?
      && ParseTimestamp(Lookup(args, "-ss").value).value.Canonical()
      && ParseTimestamp(Lookup(args, "-ss").value).value.TotalMillis() == (start * 1000.0).Floor
      && Lookup(args, "-to").Some?
      && ParseTimestamp(Lookup(args, "-to").value).Some?
      && ParseTimestamp(Lookup(args, "-to").value).value.Canonical()
      && ParseTimestamp(Lookup(args, "-to").value).value.TotalMillis() == (end * 1000.0).Floor
      && Lookup(args, "-acodec") == Some("copy")
      && Lookup(args, "-vcodec") == Some("copy")
      && args[|args| - 1] == OutputName(mimeType)
  {
    FormatRoundTrip(start);
    FormatRoundTrip(end);
  }

  /** Where each flag of an eleven-element vector shaped like the trim
      command is found. */
  lemma LookupPairs(args: seq<string>)
    requires |args| == 11
    requires args[0] == "-i" && args[2] == "-ss" && args[4] == "-to"
    requires args[6] == "-acodec" && args[8] == "-vcodec"
    ensures Lookup(args, "-i") == Some(args[1])
    ensures Lookup(args, "-ss") == Some(args[3])
    ensures Lookup(args, "-to") == Some(args[5])
    ensures Lookup(args, "-acodec") == Some(args[7])
    ensures Lookup(args, "-vcodec") == Some(args[9])
  {
    assert args[2..][2..] == args[4..];
    assert args[4..][2..] == args[6..];
    assert args[6..][2..] == args[8..];
    assert Lookup(args, "-to") == Lookup(args[2..], "-to") == Lookup(args[4..], "-to");
    assert Lookup(args, "-acodec") == Lookup(args[2..], "-acodec") == Lookup(args[4..], "-acodec")
        == Lookup(args[6..], "-acodec");
    assert Lookup(args, "-vcodec") == Lookup(args[2..], "-vcodec") == Lookup(args[4..], "-vcodec")
        == Lookup(args[6..], "-vcodec") == Lookup(args[8..], "-vcodec");
  }

  /** One call the app makes on the engine's virtual file system or runner. */
  datatype EngineCall = WriteFile(name: string, data: seq<Byte>) | Run(args: seq<string>) | ReadFile(name: string)

  /** The state after a trim and the engine calls it made, in order. */
  datatype TrimStep = TrimStep(state: State, calls: seq<EngineCall>)

  /** What the Trim button relies on once the engine is ready: a file with a
      type containing "/" (the button only exists once a file is chosen) and a
      non-negative selection. */
  predicate TrimPossible(s: State) {
    s.engineReady ==>
      s.file.Some? && '/' in s.file.value.mimeType && s.startTime >= 0.0 && s.endTime >= 0.0
  }

  /** How far `handleTrim` gets once the engine is ready: reading the chosen
      file can reject (line 46) before any engine call; the write, the run and
      the read of the output can each fail, which ends the handler; or the
      output is read back. */
  datatype TrimOutcome =
    | InputUnreadable
    | WriteFailed
    | RunFailed
    | ReadFailed
    | Produced(data: seq<Byte>)

  /** The state `handleTrim` leaves behind (lines 189-193): the trimmed copy is
      published only when the engine is ready and the output was read back. */
  function TrimmedState(s: State, outcome: TrimOutcome): (r: State)
    requires TrimPossible(s)
    ensures s.engineReady && outcome.Produced? ==>
      r.trimmed == Some(Artifact(outcome.data, s.file.value.mimeType, s.startTime, s.endTime))
    ensures !(s.engineReady && outcome.Produced?) ==> r == s
    ensures r.(trimmed := s.trimmed) == s
  {
    if s.engineReady && outcome.Produced? then
      s.(trimmed := Some(Artifact(outcome.data, s.file.value.mimeType, s.startTime, s.endTime)))
    else s
  }

  /** `handleTrim`: the state it leaves and the engine calls it makes, in
      order, given how far it gets. */
  function HandleTrim(s: State, outcome: TrimOutcome): (r: TrimStep)
    requires TrimPossible(s)
    ensures !s.engineReady || outcome.InputUnreadable? ==> r.calls == []
    ensures s.engineReady && !outcome.InputUnreadable? ==>
      |r.calls| >= 1 && r.calls[0] == WriteFile(s.file.value.name, s.file.value.bytes)
    ensures s.engineReady && outcome.WriteFailed? ==> |r.calls| == 1
    ensures s.engineReady && !outcome.InputUnreadable? && !outcome.WriteFailed? ==>
      |r.calls| >= 2 && r.calls[1] == Run(TrimArgs(s.file.value.name, s.file.value.mimeType, s.startTime, s.endTime))
    ensures s.engineReady && outcome.RunFailed? ==> |r.calls| == 2
    ensures s.engineReady && (outcome.ReadFailed? || outcome.Produced?) ==>
      |r.calls| == 3 && r.calls[2] == ReadFile(r.calls[1].args[|r.calls[1].args| - 1])
    ensures s.engineReady && outcome.Produced? ==>
      && r.state.trimmed.Some?
      && r.state.trimmed.value.bytes == outcome.data
      && r.state.trimmed.value.mimeType == s.file.value.mimeType
      && r.state.trimmed.value.cutStart == s.startTime
      && r.state.trimmed.value.cutEnd == s.endTime
    ensures !(s.engineReady && outcome.Produced?) ==> r.state == s
    ensures r.state == s || r.state == s.(trimmed := r.state.trimmed)
  {
    var next := TrimmedState(s, outcome);
    if !s.engineReady || outcome.InputUnreadable? then TrimStep(next, [])
    else
      var f := s.file.value;
      var write := WriteFile(f.name, f.bytes);
      var run := Run(TrimArgs(f.name, f.mimeType, s.startTime, s.endTime));
      var read := ReadFile(OutputName(f.mimeType));
      match outcome
      case WriteFailed => TrimStep(next, [write])
      case RunFailed => TrimStep(next, [write, run])
      case _ => TrimStep(next, [write, run, read])
  }

  /** A trim whose output is read back runs the command built from the file
      and the selection. */
  lemma ProducedRunsTrimArgs(s: State, data: seq<Byte>)
    requires TrimPossible(s) && s.engineReady
    ensures |HandleTrim(s, Produced(data)).calls| == 3
    ensures HandleTrim(s, Produced(data)).calls[1]
         == Run(TrimArgs(s.file.value.name, s.file.value.mimeType, s.startTime, s.endTime))
  {
  }
}
