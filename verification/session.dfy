/** The state of the `App` component of src/App.js as one immutable record,
    and the steps that load a file, probe its duration, mark the trim engine
    ready and re-render. */
module Session {
  import opened Wrappers

  newtype Byte = x: int | 0 <= x < 256

  /** The chosen file (`videoFileValue`): its name, declared MIME type and
      contents, which `fetchFile` reads. */
  datatype VideoFile = VideoFile(name: string, mimeType: string, bytes: seq<Byte>)

  /** The trimmed copy behind `videoTrimmedUrl`: its bytes, the type the blob is
      published under, and the selection it was cut from. */
  datatype Artifact = Artifact(bytes: seq<Byte>, mimeType: string, cutStart: real, cutEnd: real)

  /** One snapshot of the component and of its video element.
      `file == None` stands for `videoFileValue == ""`, `trimmed == None` for
      `videoTrimmedUrl == ""`; `videoMounted` says `videoRef.current` is set;
      `position` and `playing` are the element's `currentTime` and `!paused`. */
  datatype State = State(
    duration: real,
    startTime: real,
    endTime: real,
    file: Option<VideoFile>,
    videoMounted: bool,
    engineReady: bool,
    trimmed: Option<Artifact>,
    initialSliderValue: int,
    position: real,
    playing: bool)

  /** Lines 8-16: every hook starts at 0, false or "", and no video element exists. */
  function Initial(): (s: State)
    ensures s.file == None && s.trimmed == None && !s.videoMounted && !s.engineReady
    ensures s.startTime == 0.0 && s.endTime == 0.0 && s.duration == 0.0
    ensures s.initialSliderValue == 0 && s.position == 0.0 && !s.playing
  {
    State(0.0, 0.0, 0.0, None, false, false, None, 0, 0.0, false)
  }

  /** Both ends of the selection agree. */
  predicate SameSelection(s: State, r: State) {
    r.startTime == s.startTime && r.endTime == s.endTime
  }

  /** `handleFileUpload` (lines 52-57) and the mounting of the video element
      it causes: the file is recorded and the element is mounted on it,
      starting paused at 0. Nothing else is reset: the selection and any
      trimmed copy stay. The reset of the remembered slider value that every
      render makes (line 16) is the separate `Rerender` step. */
  function SelectFile(s: State, f: VideoFile): (r: State)
    ensures r.file == Some(f) && r.videoMounted
    ensures r.position == 0.0 && !r.playing
    ensures SameSelection(s, r) && r.trimmed == s.trimmed && r.duration == s.duration
    ensures r.(file := s.file, videoMounted := s.videoMounted, position := s.position, playing := s.playing) == s
  {
    s.(file := Some(f), videoMounted := true, position := 0.0, playing := false)
  }

  /** `onloadedmetadata` (lines 113-116): the probed duration becomes both the
      duration and the end of the selection; the start is left where it was. */
  function LoadedMetadata(s: State, d: real): (r: State)
    ensures r.duration == d && r.endTime == r.duration
    ensures r.startTime == s.startTime && r.trimmed == s.trimmed
    ensures r.file == s.file && r.engineReady == s.engineReady && r.playing == s.playing
    ensures r.(duration := s.duration, endTime := s.endTime) == s
  {
    s.(duration := d, endTime := d)
  }

  /** Line 104: `isScriptLoaded` becomes true once the engine script is in. */
  function EngineLoaded(s: State): (r: State)
    ensures r.engineReady
    ensures r.(engineReady := s.engineReady) == s
  {
    s.(engineReady := true)
  }

  /** Line 16: `initialSliderValue` is a plain local of the component, so every
      render starts it at 0 again. */
  function Rerender(s: State): (r: State)
    ensures r.initialSliderValue == 0
    ensures r.(initialSliderValue := s.initialSliderValue) == s
  {
    s.(initialSliderValue := 0)
  }
}
