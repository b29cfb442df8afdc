/** The component as one event-driven state machine: every event src/App.js
    reacts to, applied as one sequential step, and the invariants the steps keep. */
module App {
  import opened Wrappers
  import opened JsNumber
  import opened TimeFormat
  import opened Session
  import opened Slider
  import opened Playback
  import opened Trim

  /** The events the component handles. */
  datatype Event =
    | FileChosen(f: VideoFile)
    | MetadataLoaded(d: real)
    | EngineReady
    | Render
    | SliderMoved(values: seq<real>, handle: nat)
    | PlayClicked
    | PauseClicked
    | TimeUpdate(t: real)
    | TrimClicked(outcome: TrimOutcome)

  /** What the browser and the slider guarantee about an event: file types of
      the form `kind/subtype`, non-negative durations and play-head positions,
      slider values in `[0, 2^31)` for an existing handle, and a Trim click only
      once a file is shown. */
  predicate Deliverable(s: State, e: Event) {
    match e
    case FileChosen(f) => '/' in f.mimeType
    case MetadataLoaded(d) => d >= 0.0
    case SliderMoved(values, handle) => handle < |values| && 0.0 <= values[handle] < TwoTo31 as real
    case TimeUpdate(t) => t >= 0.0
    case TrimClicked(_) => s.file.Some?
    case _ => true
  }

  /** The selection is non-negative and a chosen file's type has a "/". */
  predicate Consistent(s: State) {
    && s.startTime >= 0.0
    && s.endTime >= 0.0
    && s.position >= 0.0
    && (s.file.Some? ==> '/' in s.file.value.mimeType)
  }

  /** A published trimmed copy was cut from the current file and selection. */
  predicate ArtifactCurrent(s: State) {
    s.trimmed.Some? ==>
      && s.file.Some?
      && s.trimmed.value.mimeType == s.file.value.mimeType
      && s.trimmed.value.cutStart == s.startTime
      && s.trimmed.value.cutEnd == s.endTime
  }

  /** One event applied to one state. A time update is the element moving its
      play head followed by `handlePauseVideo`; a Trim click leaves the state
      `handleTrim` leaves, whose engine calls `HandleTrim` lists. */
  function Step(s: State, e: Event): (r: State)
    requires Consistent(s) && Deliverable(s, e)
    ensures Consistent(r)
  {
    match e
    case FileChosen(f) => SelectFile(s, f)
    case MetadataLoaded(d) => LoadedMetadata(s, d)
    case EngineReady => EngineLoaded(s)
    case Render => Rerender(s)
    case SliderMoved(values, handle) =>
      SliderUpdateFloor(s, values, handle);
      UpdateOnSliderChange(s, values, handle)
    case PlayClicked => HandlePlay(s)
    case PauseClicked => HandlePause(s)
    case TimeUpdate(t) => HandlePauseVideo(Progress(s, t))
    case TrimClicked(outcome) => TrimmedState(s, outcome)
  }

  /** Every event except a new file or new metadata keeps a published trimmed
      copy in step with the file and selection; slider moves drop it. This
      holds because a Trim click is one step here: in the code the handler
      awaits the engine, and a slider move in between is followed by the
      publication of a copy of the old selection, which
      `SliderMoveDuringTrimPublishesStale` exhibits. */
  lemma StepKeepsArtifactCurrent(s: State, e: Event)
    requires Consistent(s) && Deliverable(s, e) && ArtifactCurrent(s)
    requires !e.FileChosen? && !e.MetadataLoaded?
    ensures ArtifactCurrent(Step(s, e))
  {
  }

  /** A new file keeps the previous file's trimmed copy, which is then shown
      under the new file's type. */
  lemma NewFileKeepsStaleArtifact()
    ensures var first := VideoFile("a.mp4", "video/mp4", []);
      var s := Initial().(file := Some(first), videoMounted := true,
                          trimmed := Some(Artifact([], "video/mp4", 0.0, 0.0)));
      var r := Step(s, FileChosen(VideoFile("b.webm", "video/webm", [])));
      ArtifactCurrent(s) && r.trimmed.Some? && !ArtifactCurrent(r)
  {
  }

  /** New metadata moves the end under a published trimmed copy. */
  lemma MetadataKeepsStaleArtifact()
    ensures var f := VideoFile("a.mp4", "video/mp4", []);
      var s := Initial().(file := Some(f), videoMounted := true,
                          trimmed := Some(Artifact([], "video/mp4", 0.0, 0.0)));
      var r := Step(s, MetadataLoaded(5.0));
      ArtifactCurrent(s) && r.trimmed.Some? && !ArtifactCurrent(r)
  {
  }

  /** The interleaving the atomic step rules out: a Trim click captures the
      selection 0 to 10, the end handle moves to 4 while the engine runs, and
      the handler then publishes the copy cut from 0 to 10 over the new
      selection, which it no longer matches. */
  lemma SliderMoveDuringTrimPublishesStale(output: seq<Byte>)
    ensures var f := VideoFile("a.mp4", "video/mp4", []);
      var clicked := Initial().(file := Some(f), videoMounted := true, engineReady := true,
                                duration := 10.0, endTime := 10.0);
      var moved := Step(clicked, SliderMoved([0.0, 4.0], 1));
      var late := moved.(trimmed := TrimmedState(clicked, Produced(output)).trimmed);
      && ArtifactCurrent(clicked) && ArtifactCurrent(moved)
      && late.trimmed == Some(Artifact(output, "video/mp4", 0.0, 10.0))
      && late.endTime == 4.0
      && !ArtifactCurrent(late)
  {
    OrZeroIsFloor(4.0);
  }

  /** The state after loading a 10-second video and moving the end handle to 4. */
  function LoadAndSelectFour(f: VideoFile): State
    requires '/' in f.mimeType
  {
    var s1 := Step(Initial(), FileChosen(f));
    var s2 := Step(s1, MetadataLoaded(10.0));
    var s3 := Step(s2, EngineReady);
    Step(s3, SliderMoved([0.0, 4.0], 1))
  }

  lemma LoadAndSelectFourState(f: VideoFile)
    requires '/' in f.mimeType
    ensures var s := LoadAndSelectFour(f);
      s.file == Some(f) && s.engineReady && s.startTime == 0.0 && s.endTime == 4.0 && s.duration == 10.0
  {
    OrZeroIsFloor(4.0);
  }

  /** Load a 10-second video of type `kind/subtype`, move the end handle to 4
      and trim: ffmpeg runs from `00:00.000` to `00:04.000` into
      `out.subtype`, and the copy keeps the source's type. */
  lemma TrimFirstFourSeconds(f: VideoFile, kind: string, subtype: string, output: seq<Byte>)
    requires f.mimeType == kind + "/" + subtype && '/' !in kind && '/' !in subtype
    ensures var r := HandleTrim(LoadAndSelectFour(f), Produced(output));
      && r.calls[1] == Run(["-i", f.name, "-ss", "00:00.000", "-to", "00:04.000",
                            "-acodec", "copy", "-vcodec", "copy", "out." + subtype])
      && r.state.trimmed == Some(Artifact(output, f.mimeType, 0.0, 4.0))
  {
    LoadAndSelectFourState(f);
    TrimZeroToFour(LoadAndSelectFour(f), kind, subtype, output);
  }

  lemma TrimZeroToFour(s: State, kind: string, subtype: string, output: seq<Byte>)
    requires s.engineReady && s.file.Some? && s.startTime == 0.0 && s.endTime == 4.0
    requires s.file.value.mimeType == kind + "/" + subtype && '/' !in kind && '/' !in subtype
    ensures HandleTrim(s, Produced(output)).calls[1]
         == Run(["-i", s.file.value.name, "-ss", "00:00.000", "-to", "00:04.000",
                 "-acodec", "copy", "-vcodec", "copy", "out." + subtype])
    ensures HandleTrim(s, Produced(output)).state.trimmed
         == Some(Artifact(output, s.file.value.mimeType, 0.0, 4.0))
  {
    var f := s.file.value;
    assert f.mimeType[|kind|] == '/';
    ProducedRunsTrimArgs(s, output);
    TrimArgsFirstFour(f.name, kind, subtype);
    PublishedCopy(s, output);
  }

  lemma PublishedCopy(s: State, output: seq<Byte>)
    requires TrimPossible(s) && s.engineReady
    ensures HandleTrim(s, Produced(output)).state.trimmed
         == Some(Artifact(output, s.file.value.mimeType, s.startTime, s.endTime))
  {
  }

  lemma TrimArgsFirstFour(name: string, kind: string, subtype: string)
    requires '/' !in kind && '/' !in subtype
    ensures TrimArgs(name, kind + "/" + subtype, 0.0, 4.0)
         == ["-i", name, "-ss", "00:00.000", "-to", "00:04.000",
             "-acodec", "copy", "-vcodec", "copy", "out." + subtype]
  {
    FormatZero();
    FormatFourSeconds();
    OutputNameOfSubtype(kind, subtype);
  }

  lemma FormatFourSeconds()
    ensures ConvertToHHMMSS(4.0) == "00:04.000"
  {
    FormatWholeSecondsUnderMinute(4);
    PadFour();
  }

  lemma PadFour()
    ensures "00:" + Pad2(4) + ".000" == "00:04.000"
  {
    assert Pad2(4) == "04";
  }
}
