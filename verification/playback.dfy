/** The Play and Pause buttons (src/App.js lines 142-152) and the time-update
    handler that stops playback at the end of the selection (lines 155-161). */
module Playback {
  import opened Session

  /** `handlePlay`: starts the video if one is mounted. */
  function HandlePlay(s: State): (r: State)
    ensures r.playing == (s.playing || s.videoMounted)
    ensures r.(playing := s.playing) == s
  {
    if s.videoMounted then s.(playing := true) else s
  }

  /** `handlePause`: pauses the video if one is mounted. */
  function HandlePause(s: State): (r: State)
    ensures r.playing == (s.playing && !s.videoMounted)
    ensures r.(playing := s.playing) == s
  {
    if s.videoMounted then s.(playing := false) else s
  }

  /** The video element moving its play head while it plays; the element then
      reports a `timeupdate`. This step belongs to the browser, not the app. */
  function Progress(s: State, t: real): (r: State)
    ensures r.position == t
    ensures r.(position := s.position) == s
  {
    s.(position := t)
  }

  /** `handlePauseVideo`: on every time update, pause when the whole second of
      the play head equals `endTime`, and change nothing otherwise. */
  function HandlePauseVideo(s: State): (r: State)
    ensures r.playing == (s.playing && s.position.Floor as real != s.endTime)
    ensures r.(playing := s.playing) == s
  {
    var currentTime := s.position.Floor as real;
    if currentTime == s.endTime then s.(playing := false) else s
  }

  /** A time update never pauses while `endTime` is not a whole number. */
  lemma FractionalEndNeverPauses(s: State)
    requires s.endTime.Floor as real != s.endTime
    ensures HandlePauseVideo(s) == s
  {
  }

  /** Right after the metadata arrives, the end is the probed duration; if that
      is fractional, playing past it never auto-pauses, wherever the play head is. */
  lemma FractionalDurationNeverPauses(s: State, d: real, t: real)
    requires d.Floor as real != d
    ensures HandlePauseVideo(Progress(LoadedMetadata(s, d), t)).playing == s.playing
  {
  }

  /** With a whole-second end, the play head anywhere inside that second pauses
      a playing video. */
  lemma WholeEndPausesWithinSecond(s: State, t: real)
    requires s.endTime.Floor as real == s.endTime
    requires s.endTime <= t < s.endTime + 1.0
    ensures !HandlePauseVideo(Progress(s, t)).playing
  {
    var k := s.endTime.Floor;
    assert k as real <= t < k as real + 1.0;
    assert t.Floor == k;
  }
}
