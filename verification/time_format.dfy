/** The timestamp formatter `convertToHHMMSS` of src/App.js and a reader of the
    `[HH:]MM:SS.mmm` shape it produces, which the trim engine parses. Seconds are
    exact reals; the formatter's `val % 1` on a non-negative `val` is
    `val - floor(val)`. */
module TimeFormat {
  import opened Wrappers
  import opened Decimal

  /** The four numeric fields of a timestamp. */
  datatype Timestamp = Timestamp(hours: nat, minutes: nat, seconds: nat, millis: nat)
  {
    /** Minutes and seconds below 60, milliseconds below 1000. */
    predicate Canonical() {
      minutes < 60 && seconds < 60 && millis < 1000
    }

    /** The position the fields denote, in whole milliseconds. */
    function TotalMillis(): nat {
      hours * 3600000 + minutes * 60000 + seconds * 1000 + millis
    }
  }

  /** Euclidean division has one quotient and one remainder. */
  lemma DivModUnique(a: int, d: int, q: int, r: int)
    requires d > 0 && 0 <= r < d && a == q * d + r
    ensures q == a / d && r == a % d
  {
    var k := q - a / d;
    assert k * d == a % d - r by {
      assert a == (a / d) * d + a % d;
      assert k * d == q * d - (a / d) * d;
    }
    MulSmall(k, d);
  }

  /** A multiple of `d` strictly between `-d` and `d` is zero. */
  lemma MulSmall(k: int, d: int)
    requires d > 0 && -d < k * d < d
    ensures k == 0
  {
    if k != 0 {
      var m := if k > 0 then k else -k;
      assert m * d == (if k > 0 then k * d else -(k * d));
      MulAtLeast(m, d);
    }
  }

  /** A positive multiple of a natural number is at least that number. */
  lemma {:induction false} MulAtLeast(m: nat, d: nat)
    requires m >= 1
    ensures m * d >= d
    decreases m
  {
    if m > 1 {
      MulAtLeast(m - 1, d);
      assert m * d == (m - 1) * d + d;
    }
  }

  /** The fields computed from `val` (src/App.js lines 61-65). */
  function Fields(val: real): (t: Timestamp)
    requires val >= 0.0
    ensures t.Canonical()
    ensures t.TotalMillis() == (val * 1000.0).Floor
    ensures (t.hours == 0) == (val.Floor < 3600)
  {
    var secNum := val.Floor;
    var frac := val - secNum as real;
    assert 0.0 <= frac < 1.0;
    var ms := (frac * 1000.0).Floor;
    assert (val * 1000.0).Floor == secNum * 1000 + ms by {
      assert val * 1000.0 == frac * 1000.0 + (secNum * 1000) as real;
    }
    var hours := secNum / 3600;
    var minutes := (secNum - hours * 3600) / 60;
    var seconds := secNum - hours * 3600 - minutes * 60;
    Timestamp(hours, minutes, seconds, ms)
  }

  /** The same fields, computed from the whole-millisecond count alone. */
  function FieldsOfMillis(total: nat): (t: Timestamp)
    ensures t.Canonical()
    ensures t.TotalMillis() == total
  {
    var secNum := total / 1000;
    var hours := secNum / 3600;
    var minutes := (secNum - hours * 3600) / 60;
    Timestamp(hours, minutes, secNum - hours * 3600 - minutes * 60, total % 1000)
  }

  /** The fields depend on `val` only through `floor(val * 1000)`. */
  lemma FieldsAgreeOnMillis(val: real)
    requires val >= 0.0
    ensures Fields(val) == FieldsOfMillis((val * 1000.0).Floor)
  {
    var t := Fields(val);
    var total := (val * 1000.0).Floor;
    DivModUnique(total, 1000, val.Floor, t.millis);
  }

  /** Canonical fields are determined by the position they denote. */
  lemma CanonicalUnique(t: Timestamp, u: Timestamp)
    requires t.Canonical() && u.Canonical()
    requires t.TotalMillis() == u.TotalMillis()
    ensures t == u
  {
    var total := t.TotalMillis();
    var secT := t.hours * 3600 + t.minutes * 60 + t.seconds;
    var secU := u.hours * 3600 + u.minutes * 60 + u.seconds;
    DivModUnique(total, 1000, secT, t.millis);
    DivModUnique(total, 1000, secU, u.millis);
    var minT := t.hours * 60 + t.minutes;
    var minU := u.hours * 60 + u.minutes;
    DivModUnique(secT, 60, minT, t.seconds);
    DivModUnique(secU, 60, minU, u.seconds);
    DivModUnique(minT, 60, t.hours, t.minutes);
    DivModUnique(minU, 60, u.hours, u.minutes);
  }

  /** Minutes, seconds and hours below 10 get one leading "0" (lines 67-75). */
  function Pad2(n: nat): (s: string)
    ensures |s| >= 2
    ensures n < 100 ==> |s| == 2
    ensures n >= 10 ==> s[0] != '0'
  {
    NatToStringWidth(n);
    if n < 10 then "0" + NatToString(n) else NatToString(n)
  }

  /** The padded field is all digits and denotes the number padded. */
  lemma Pad2Digits(n: nat)
    ensures AllDigits(Pad2(n)) && Value(Pad2(n)) == n
  {
    ValueOfNatToString(n);
    if n < 10 {
      LeadingZeroValue(NatToString(n));
    }
  }

  /** JavaScript's `s.slice(-k)` for `1 <= k <= |s|`: the last `k`
      characters (`s.slice(-0)` would be all of `s`, so `k` is positive). */
  function SliceFromEnd(s: string, k: nat): (r: string)
    requires 1 <= k <= |s|
    ensures |r| == k
    ensures s == s[..|s| - k] + r
  {
    s[|s| - k..]
  }

  /** Padding one to three digits to width 3 keeps the number they denote. */
  lemma LastThreeOfPadded(digits: string)
    requires AllDigits(digits) && 1 <= |digits| <= 3
    ensures AllDigits(SliceFromEnd("00" + digits, 3))
    ensures Value(SliceFromEnd("00" + digits, 3)) == Value(digits)
  {
    var z := "0" + digits;
    var zz := "0" + z;
    assert "00" + digits == zz;
    LeadingZeroValue(digits);
    LeadingZeroValue(z);
    if |digits| == 1 {
      assert zz[0..] == zz;
    } else if |digits| == 2 {
      assert zz[1..] == z;
    } else {
      assert zz[2..] == digits;
    }
  }

  /** `("00" + milliseconds).slice(-3)` (line 78). */
  function Pad3(n: nat): (s: string)
    requires n < 1000
    ensures |s| == 3
  {
    SliceFromEnd("00" + NatToString(n), 3)
  }

  /** The three-digit field is all digits and denotes the number padded. */
  lemma Pad3Digits(n: nat)
    requires n < 1000
    ensures AllDigits(Pad3(n)) && Value(Pad3(n)) == n
  {
    ValueOfNatToString(n);
    NatToStringWidth(n);
    LastThreeOfPadded(NatToString(n));
  }

  /** `hours === "00"` (line 83): `hours` has become a string only when it was
      below 10, and that string is "00" exactly when hours is 0. */
  predicate HoursFieldIsZero(hours: nat): (b: bool)
    ensures b == (hours == 0)
  {
    Pad2Digits(hours);
    hours < 10 && Pad2(hours) == "00"
  }

  /** Lines 80-90: `MM:SS.mmm`, with `HH:` in front unless the padded hours
      are "00" (the test of line 83). */
  function Render(t: Timestamp): (r: string)
    requires t.Canonical()
    ensures |r| >= 9
    ensures (|r| == 9) == (t.hours == 0)
  {
    var tail := Pad2(t.minutes) + ":" + Pad2(t.seconds) + "." + Pad3(t.millis);
    if HoursFieldIsZero(t.hours) then tail else Pad2(t.hours) + ":" + tail
  }

  /** `convertToHHMMSS` (lines 60-91) on a non-negative number of seconds. */
  function ConvertToHHMMSS(val: real): (r: string)
    requires val >= 0.0
    ensures (|r| == 9) == (val.Floor < 3600)
    ensures |r| >= 9
  {
    Render(Fields(val))
  }

  /** A reader for `MM:SS.mmm`: two-digit minutes and seconds, three-digit
      milliseconds, read character by character. */
  function ParseTail(s: string): Option<Timestamp>
    requires |s| == 9
  {
    if && IsDigit(s[0]) && IsDigit(s[1]) && s[2] == ':'
       && IsDigit(s[3]) && IsDigit(s[4]) && s[5] == '.'
       && IsDigit(s[6]) && IsDigit(s[7]) && IsDigit(s[8])
    then
      Some(Timestamp(0,
                     DigitValue(s[0]) * 10 + DigitValue(s[1]),
                     DigitValue(s[3]) * 10 + DigitValue(s[4]),
                     (DigitValue(s[6]) * 10 + DigitValue(s[7])) * 10 + DigitValue(s[8])))
    else None
  }

  /** A reader for `[HH:]MM:SS.mmm`: the last nine characters as above, after
      an optional hours field and a colon. */
  function ParseTimestamp(s: string): Option<Timestamp> {
    if |s| < 9 then None else ReadHours(s[..|s| - 9], ParseTail(s[|s| - 9..]))
  }

  /** What goes before the last nine characters: nothing, or an hours field
      followed by a colon. */
  function ReadHours(prefix: string, tail: Option<Timestamp>): Option<Timestamp> {
    var n := |prefix|;
    match tail
    case None => None
    case Some(t) =>
      if n == 0 then Some(t)
      else if n >= 3 && prefix[n - 1] == ':' && HoursField(prefix[..n - 1]) then Some(t.(hours := Value(prefix[..n - 1])))
      else None
  }

  /** A shown hours field: at least two digits, a leading zero only when it
      is exactly two digits, and not zero (zero hours are not shown). */
  predicate HoursField(hh: string) {
    && |hh| >= 2
    && AllDigits(hh)
    && (|hh| > 2 ==> hh[0] != '0')
    && Value(hh) != 0
  }

  /** A two-digit string, digit by digit. */
  lemma ValueOfTwo(s: string)
    requires |s| == 2 && AllDigits(s)
    ensures IsDigit(s[0]) && IsDigit(s[1])
    ensures Value(s) == DigitValue(s[0]) * 10 + DigitValue(s[1])
  {
    var p := s[..1];
    assert p[..0] == [] && p[0] == s[0];
    assert AllDigits(p);
    assert Value(p) == DigitValue(s[0]);
  }

  /** A three-digit string, digit by digit. */
  lemma ValueOfThree(s: string)
    requires |s| == 3 && AllDigits(s)
    ensures IsDigit(s[0]) && IsDigit(s[1]) && IsDigit(s[2])
    ensures Value(s) == (DigitValue(s[0]) * 10 + DigitValue(s[1])) * 10 + DigitValue(s[2])
  {
    var p := s[..2];
    assert p[0] == s[0] && p[1] == s[1];
    ValueOfTwo(p);
  }

  /** The tail reader takes apart what the tail renderer puts together. */
  lemma ParseTailOf(mm: string, ss: string, ms: string)
    requires |mm| == 2 && |ss| == 2 && |ms| == 3
    requires AllDigits(mm) && AllDigits(ss) && AllDigits(ms)
    ensures |mm + ":" + ss + "." + ms| == 9
    ensures ParseTail(mm + ":" + ss + "." + ms) == Some(Timestamp(0, Value(mm), Value(ss), Value(ms)))
  {
    ValueOfTwo(mm);
    ValueOfTwo(ss);
    ValueOfThree(ms);
    var tail := mm + ":" + ss + "." + ms;
    assert tail[0] == mm[0] && tail[1] == mm[1] && tail[2] == ':';
    assert tail[3] == ss[0] && tail[4] == ss[1] && tail[5] == '.';
    assert tail[6] == ms[0] && tail[7] == ms[1] && tail[8] == ms[2];
  }

  /** Whatever the reader takes for hours is a field of that shape: one digit,
      extra leading zeros and a zero field are refused. */
  lemma HoursFieldRequired(hh: string, tail: string)
    requires |tail| == 9
    ensures ParseTimestamp(hh + ":" + tail).Some? ==> HoursField(hh)
  {
    var s := hh + ":" + tail;
    AroundColon(hh, tail);
    assert |s| - 9 == |hh| + 1;
    assert ParseTimestamp(s) == ReadHours(hh + ":", ParseTail(tail));
  }

  /** The hours the formatter shows form such a field. */
  lemma Pad2IsHoursField(n: nat)
    requires n != 0
    ensures HoursField(Pad2(n))
  {
    Pad2Digits(n);
  }

  /** The two sides of the colon after the hours field. */
  lemma AroundColon(hh: string, tail: string)
    ensures (hh + ":" + tail)[..|hh| + 1] == hh + ":"
    ensures (hh + ":" + tail)[|hh| + 1..] == tail
    ensures (hh + ":")[..|hh|] == hh
  {
  }

  /** With an hours prefix, the reader takes the prefix as the hours. */
  lemma ParseWithHours(hh: string, tail: string)
    requires HoursField(hh) && |tail| == 9 && ParseTail(tail).Some?
    ensures ParseTimestamp(hh + ":" + tail) == Some(ParseTail(tail).value.(hours := Value(hh)))
  {
    var s := hh + ":" + tail;
    AroundColon(hh, tail);
    assert |s| - 9 == |hh| + 1;
    assert ParseTimestamp(s) == ReadHours(hh + ":", ParseTail(tail));
  }

  /** The reader recovers every canonical timestamp from its rendering. */
  lemma ParseRender(t: Timestamp)
    requires t.Canonical()
    ensures ParseTimestamp(Render(t)) == Some(t)
  {
    var tail := Pad2(t.minutes) + ":" + Pad2(t.seconds) + "." + Pad3(t.millis);
    Pad2Digits(t.minutes);
    Pad2Digits(t.seconds);
    Pad3Digits(t.millis);
    Pad2Digits(t.hours);
    ParseTailOf(Pad2(t.minutes), Pad2(t.seconds), Pad3(t.millis));
    if t.hours != 0 {
      Pad2IsHoursField(t.hours);
      ParseWithHours(Pad2(t.hours), tail);
    } else {
      assert tail[..0] == [] && tail[0..] == tail;
    }
  }

  /** Reading the formatted timestamp back gives `floor(val * 1000)` whole
      milliseconds, in canonical fields. */
  lemma FormatRoundTrip(val: real)
    requires val >= 0.0
    ensures ParseTimestamp(ConvertToHHMMSS(val)).Some?
    ensures ParseTimestamp(ConvertToHHMMSS(val)).value.Canonical()
    ensures ParseTimestamp(ConvertToHHMMSS(val)).value.TotalMillis() == (val * 1000.0).Floor
  {
    ParseRender(Fields(val));
  }

  /** The formatted timestamp is `MM:SS.mmm`, or `HH:MM:SS.mmm` whose hours
      field has the shape `HoursField` describes. */
  lemma FormatHoursShape(val: real)
    requires val >= 0.0
    ensures var r := ConvertToHHMMSS(val);
      |r| > 9 ==> r[|r| - 10] == ':' && HoursField(r[..|r| - 10])
  {
    var t := Fields(val);
    var r := ConvertToHHMMSS(val);
    if |r| > 9 {
      var hh := Pad2(t.hours);
      var tail := Pad2(t.minutes) + ":" + Pad2(t.seconds) + "." + Pad3(t.millis);
      assert r == hh + ":" + tail;
      assert |r| - 10 == |hh|;
      assert r[..|r| - 10] == hh;
      Pad2IsHoursField(t.hours);
    }
  }

  /** Two inputs format alike exactly when they agree to the millisecond. */
  lemma FormatDeterminedByMillis(a: real, b: real)
    requires a >= 0.0 && b >= 0.0
    ensures (ConvertToHHMMSS(a) == ConvertToHHMMSS(b)) == ((a * 1000.0).Floor == (b * 1000.0).Floor)
  {
    FormatRoundTrip(a);
    FormatRoundTrip(b);
    if (a * 1000.0).Floor == (b * 1000.0).Floor {
      CanonicalUnique(Fields(a), Fields(b));
    }
  }

  lemma RenderZero()
    ensures Render(Timestamp(0, 0, 0, 0)) == "00:00.000"
  {
    assert Pad2(0) == "00";
    assert Pad3(0) == "000";
  }

  /** Worked value: zero seconds. */
  lemma FormatZero()
    ensures ConvertToHHMMSS(0.0) == "00:00.000"
  {
    FieldsBelowOneMilli(0.0);
    RenderZero();
  }

  /** Anything below one millisecond has all fields zero. */
  lemma FieldsBelowOneMilli(val: real)
    requires 0.0 <= val < 0.001
    ensures Fields(val) == Timestamp(0, 0, 0, 0)
  {
    var t := Fields(val);
    assert (val * 1000.0).Floor == 0;
    assert t.TotalMillis() == 0;
  }

  /** Worked value: a minute, five and a quarter seconds. */
  lemma FormatMinuteExample()
    ensures ConvertToHHMMSS(65.25) == "01:05.250"
  {
    assert (65.25).Floor == 65;
    assert ((65.25 - 65.0) * 1000.0).Floor == 250;
    assert Fields(65.25) == Timestamp(0, 1, 5, 250);
    assert Pad2(1) == "01" && Pad2(5) == "05";
    assert NatToString(25) == "25";
    assert NatToString(250) == "250";
    assert Pad3(250) == "250";
  }

  /** Worked value: an hour, a minute, a second and four milliseconds. */
  lemma FormatHourExample()
    ensures ConvertToHHMMSS(3661.004) == "01:01:01.004"
  {
    assert (3661.004).Floor == 3661;
    assert ((3661.004 - 3661.0) * 1000.0).Floor == 4;
    assert Fields(3661.004) == Timestamp(1, 1, 1, 4);
    assert Pad2(1) == "01";
    assert NatToString(4) == "4";
    assert Pad3(4) == "004";
  }

  /** A whole number of seconds below a minute renders as `00:SS.000`. */
  lemma FormatWholeSecondsUnderMinute(n: nat)
    requires n < 60
    ensures ConvertToHHMMSS(n as real) == "00:" + Pad2(n) + ".000"
  {
    var t := Fields(n as real);
    assert (n as real).Floor == n;
    assert t.TotalMillis() == n * 1000;
    CanonicalUnique(t, Timestamp(0, 0, n, 0));
    RenderZeroMillis(n);
  }

  lemma RenderZeroMillis(n: nat)
    requires n < 60
    ensures Render(Timestamp(0, 0, n, 0)) == "00:" + Pad2(n) + ".000"
  {
    var t := Timestamp(0, 0, n, 0);
    assert Pad2(0) == "00";
    assert Pad3(0) == "000";
    assert Render(t) == Pad2(0) + ":" + Pad2(n) + "." + Pad3(0);
    assert "00" + ":" + Pad2(n) + "." + "000" == "00:" + Pad2(n) + ".000";
  }
}
