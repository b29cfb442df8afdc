# VideoTrim handlers in Dafny

A model of the logic of the `App` component in `src/App.js` of VideoTrim. VideoTrim is a browser page:
- the user chooses a video and marks a start and an end on a two-handle range slider;
- the video pauses when the play head reaches the end;
- a Trim button hands the file and the selection to ffmpeg.wasm ("the engine"), which cuts the video;
- the trimmed copy is then offered for playback.

The component is modelled as one immutable state record (`Session.State`). Each event handler is a pure step function on that record. `App.Step` puts all the handlers together as one event-driven state machine.

Modules, one per file:

- `Wrappers` (wrappers.dfy): `Option`.
- `Decimal` (decimal.dfy): `String(n)` for natural numbers, and a reader of digit strings.
- `JsNumber` (js_number.dfy): JavaScript's `x | 0` on exact reals (truncate, then wrap into the signed 32-bit range).
- `TimeFormat` (time_format.dfy) covers `convertToHHMMSS`:
  - the fields it computes;
  - the two- and three-digit padding;
  - the optional hours field;
  - a reader of the `[HH:]MM:SS.mmm` shape, used to state what the rendered string means.
- `Session` (session.dfy): the state record, choosing a file, the metadata event, the engine becoming ready, and a re-render.
- `Slider` (slider.dfy): `updateOnSliderChange`.
- `Playback` (playback.dfy): `handlePlay`, `handlePause`, `handlePauseVideo`.
- `Trim` (trim.dfy) covers `handleTrim`:
  - the readiness guard;
  - `type.split("/")[1]`;
  - the ffmpeg argument vector;
  - the engine calls in order;
  - the published copy.
- `App` (app.dfy): the events, the step, the invariants the step keeps, and a worked scenario.

Numbers are exact `real`s:
- `Math.floor` is `.Floor`;
- `val % 1` on a non-negative `val` is `val - floor(val)`.

The engine is modelled only as a receiver of calls. A `HandleTrim` step lists the `WriteFile`, `Run` and `ReadFile` calls it makes. How far the handler gets is a parameter (`Trim.TrimOutcome`):
- reading the chosen file can reject (line 46), so no engine call is made;
- the write, the run or the read of the output can fail, which ends the handler after that call;
- or the output is read back, and its bytes are published.

The code keeps only a blob URL for the trimmed copy, made from the bytes read back under the source's type. The model's `Session.Artifact` also records the selection the copy was cut from (`cutStart`, `cutEnd`). These two fields are bookkeeping of the model, there to state `App.ArtifactCurrent`; `App.js` keeps no such record.

Behaviour of the code that a reader might not expect, which the model keeps:
- A new file does not reset the selection or drop a trimmed copy: `handleFileUpload` (lines 52-57) sets only the file and the video source. New metadata sets only the duration and the end (lines 113-116). `App.NewFileKeepsStaleArtifact` and `App.MetadataKeepsStaleArtifact` exhibit the stale copy that results.
- There is no guard against a second trim while one is in flight, and no check that discards the result of a trim whose selection has since changed.
- `isScriptLoaded` is set (line 104) right after `ffmpeg.load()` is started, without waiting for it to resolve. `Session.EngineLoaded` models the flag as the code sets it.
- Nothing in `App.js` keeps start ≤ end or clamps handle values; the slider widget is configured to (lines 212-221). `App.Deliverable` states what the slider delivers (non-negative values below 2^31), and nothing in the model claims start ≤ end.

## Model

| member | source | states |
|---|---|---|
| TimeFormat.Fields | src/App.js:61-65 | the hours, minutes, seconds and milliseconds are canonical (minutes and seconds below 60, milliseconds below 1000), they add up to `floor(val * 1000)` milliseconds, and the hours are zero exactly when `floor(val) < 3600` |
| TimeFormat.FieldsAgreeOnMillis | src/App.js:61-65 | the fields depend on the input only through its whole-millisecond count `floor(val * 1000)` |
| TimeFormat.CanonicalUnique | src/App.js:63-65 | two canonical field sets that denote the same number of milliseconds are equal, so hours/minutes/seconds is the unique mixed-radix split |
| TimeFormat.Pad2 | src/App.js:67-75 | a padded field is at least two characters, exactly two below 100, and from 10 on has no leading zero (padding adds at most one `0`, and only below 10) |
| TimeFormat.Pad2Digits | src/App.js:67-75 | a padded field is all digits and reads back as the number it came from |
| TimeFormat.SliceFromEnd | src/App.js:78 | `s.slice(-k)`, for `k` from 1 up to the length of `s`, keeps exactly the last `k` characters: the result has length `k` and `s` is what comes before it followed by the result |
| TimeFormat.LastThreeOfPadded | src/App.js:78 | taking the last three characters of `"00"` followed by one to three digits gives digits that denote the same number |
| TimeFormat.Pad3 | src/App.js:78 | the milliseconds field is exactly three characters |
| TimeFormat.Pad3Digits | src/App.js:78 | the milliseconds field is all digits and reads back as the milliseconds |
| TimeFormat.HoursFieldIsZero | src/App.js:83 | the test `hours === "00"` on the padded hours holds exactly when the hours are zero |
| TimeFormat.Render | src/App.js:80-90 | branching on the test `hours === "00"` of line 83, the rendering is at least nine characters, and exactly nine when the hours are zero; what the characters mean is stated by `TimeFormat.ParseRender` |
| TimeFormat.ConvertToHHMMSS | src/App.js:60-91 | the result is at least nine characters, and exactly nine (`MM:SS.mmm`, no hours field) when `floor(val) < 3600` |
| TimeFormat.ParseRender | src/App.js:80-90 | reading a rendered timestamp as `[HH:]MM:SS.mmm` gives back exactly the fields it was rendered from |
| TimeFormat.ParseWithHours | src/App.js:86-87 | with an hours field of the shown shape and a colon in front of a `MM:SS.mmm` tail, the reader takes the hours from that field and the rest from the tail |
| TimeFormat.HoursFieldRequired | src/App.js:67-69 | the reader accepts only an hours field of at least two digits, with a leading zero only when it is exactly two digits, and not zero; one-digit hours or extra padding are refused |
| TimeFormat.Pad2IsHoursField | src/App.js:67-69 | the padded hours the formatter shows (non-zero hours) always have that shape |
| TimeFormat.FormatRoundTrip | src/App.js:60-91 | the formatted string is a well-formed `[HH:]MM:SS.mmm` timestamp (with the hours shape of `TimeFormat.HoursFieldRequired`) with canonical fields, and it denotes `floor(val * 1000)` milliseconds |
| TimeFormat.FormatHoursShape | src/App.js:67-69 | when the result is longer than `MM:SS.mmm`, it is an hours field of at least two digits, padded only below 10 and never zero, then a colon, then `MM:SS.mmm` |
| TimeFormat.FormatDeterminedByMillis | src/App.js:60-91 | two inputs format to the same string if and only if they agree to the millisecond |
| TimeFormat.FormatZero | src/App.js:60-91 | 0 seconds formats as `00:00.000` |
| TimeFormat.FieldsBelowOneMilli | src/App.js:61-65 | any input below one millisecond has all four fields zero |
| TimeFormat.FormatMinuteExample | src/App.js:60-91 | 65.25 seconds formats as `01:05.250` |
| TimeFormat.FormatHourExample | src/App.js:60-91 | 3661.004 seconds formats as `01:01:01.004` under exact arithmetic |
| TimeFormat.FormatWholeSecondsUnderMinute | src/App.js:60-91 | a whole number `n` of seconds below 60 formats as `00:` then `n` padded to two digits, then `.000` |
| Decimal.NatToString | src/App.js:68 | `String(n)` is a non-empty string of decimal digits |
| Decimal.NatToStringWidth | src/App.js:67-75 | `String(n)` has no leading zero, and it has one digit exactly below 10, at most two below 100 and at most three below 1000 |
| Decimal.ValueOfNatToString | src/App.js:68 | reading `String(n)` back as a decimal number gives `n` |
| Decimal.LeadingZeroValue | src/App.js:68 | a leading `"0"` leaves the number a digit string denotes unchanged |
| JsNumber.OrZero | src/App.js:125 | `values[handle]` or-ed with 0 lies in the signed 32-bit range and agrees with truncation toward zero modulo 2^32 |
| JsNumber.OrZeroIsFloor | src/App.js:125 | on non-negative numbers below 2^31, or-ing with 0 is `Math.floor` |
| JsNumber.OrZeroWrapsAbove31 | src/App.js:125 | from 2^31 up to 2^32, or-ing with 0 gives `Math.floor(x) - 2^32`, a negative number |
| Slider.ReadValue | src/App.js:125 | the value read from the moved handle is in the signed 32-bit range and, for values in `[0, 2^31)`, is `Math.floor` of the value |
| Session.Initial | src/App.js:8-16 | the component starts with no file, no trimmed copy, the engine not ready, no video element, duration, start and end zero, the remembered slider value 0, and the play head at 0 and not playing |
| Session.SelectFile | src/App.js:52-57 | choosing a file records it and mounts a paused video at 0; nothing else changes: the selection, duration, engine flag, remembered slider value and any trimmed copy are left as they were |
| Session.LoadedMetadata | src/App.js:113-116 | the probed duration becomes both the duration and the end, and nothing else changes: the start, the file, the engine flag, the play head, playback and the trimmed copy are as they were |
| Session.EngineLoaded | src/App.js:104 | the engine is marked ready and nothing else changes |
| Session.Rerender | src/App.js:16 | a render resets the remembered slider value to 0 and nothing else changes |
| Slider.UpdateOnSliderChange | src/App.js:121-139 | every update drops the trimmed copy; a non-zero handle sets only the end; the start handle with an unchanged value changes nothing else; with a new value it remembers it, and moves the start and play head only when a video is mounted; the end is untouched by the start handle |
| Slider.SliderUpdateFloor | src/App.js:121-139 | for handle values in `[0, 2^31)`, the whole resulting state in terms of `Math.floor` of the value, case by case |
| Slider.SliderUpdateIdempotent | src/App.js:121-139 | applying the same update twice gives the same state as applying it once |
| Slider.StartHandleSeeksIff | src/App.js:129-137 | when the play head is not already at the value read, the start handle moves it if and only if a video is mounted and the value differs from the remembered one |
| Slider.StartHandleAfterRender | src/App.js:16 | after a render, the first start-handle update to any non-zero value seeks there and moves the start there, even when it equals the current start |
| Playback.HandlePlay | src/App.js:142-146 | Play makes the video play exactly when one is mounted and changes nothing else |
| Playback.HandlePause | src/App.js:148-152 | Pause stops the video exactly when one is mounted and changes nothing else |
| Playback.HandlePauseVideo | src/App.js:155-161 | a time update leaves the video playing if and only if it was playing and `floor(currentTime)` differs from the end; nothing else changes |
| Playback.FractionalEndNeverPauses | src/App.js:155-161 | a fractional end never triggers the auto-pause |
| Playback.FractionalDurationNeverPauses | src/App.js:113-116 | right after metadata with a fractional duration, no position of the play head pauses the video |
| Playback.WholeEndPausesWithinSecond | src/App.js:155-161 | with a whole-second end, any play-head position within that second pauses the video |
| Trim.Split | src/App.js:173 | `split` returns at least one piece, no piece contains the separator, and there are two or more pieces exactly when the separator occurs |
| Trim.SplitJoin | src/App.js:173 | joining the pieces of a split with the separator gives the original string back |
| Trim.SplitAroundOne | src/App.js:173 | a string with exactly one separator splits into the part before it and the part after it |
| Trim.OutputName | src/App.js:173-186 | the output name starts with `out.` and contains no `/` |
| Trim.OutputNameOfSubtype | src/App.js:173-186 | for a type `kind/subtype` with one slash, the output name is `out.subtype` |
| Trim.CommandLine | src/App.js:175-187 | the vector has eleven arguments, starts with `-i` and the input name (so the seek range applies to the output), then has the flags `-ss`, `-to`, `-acodec`, `-vcodec` in that order, ends with the output name, and read as `-flag value` pairs names the start, the end and stream copy for audio and video |
| Trim.TrimArgs | src/App.js:175-187 | the trim command has eleven arguments, starts with `-i` and the file name, gives `-ss` and `-to` exactly the formatter's strings for the start and the end, and ends with the output name `out.<subtype>` |
| Trim.TrimArgsReadBack | src/App.js:175-187 | the `-ss` and `-to` values of the trim command read back as canonical timestamps (minutes and seconds below 60, milliseconds below 1000) equal to the start and end to the millisecond; `-i` is the file name, both codecs are `copy`, and the last argument is the output name |
| Trim.HandleTrim | src/App.js:164-195 | before the engine is ready, or when the file cannot be read, trim makes no call and changes nothing; otherwise it writes the input file, then runs the trim command, then reads the run's last argument, stopping after the call that fails; only when the output is read back does it publish a copy holding those bytes and the source's type, recording the selection it was cut from; nothing but the trimmed copy ever changes |
| Trim.TrimmedState | src/App.js:189-193 | the state a trim leaves: a published copy of the output under the source's type when the engine is ready and the output was read back, and otherwise the unchanged state; only the trimmed copy can change |
| Trim.ProducedRunsTrimArgs | src/App.js:175-189 | a trim whose output is read back makes three calls, the second running the command built from the file and the selection |
| App.Step | src/App.js:52-195 | every event keeps the selection and play head non-negative and a chosen file's type containing `/` |
| App.StepKeepsArtifactCurrent | src/App.js:121-195 | with a trim taken as one atomic step, every event apart from a new file and new metadata keeps a published copy matching the current file's type and selection; the code does not keep this when the slider moves during an in-flight trim (see `App.SliderMoveDuringTrimPublishesStale`) |
| App.SliderMoveDuringTrimPublishesStale | src/App.js:121-193 | a slider move while the trim awaits the engine, followed by the handler publishing its output, leaves a published copy cut from the selection captured at the click, which no longer matches the current selection |
| App.NewFileKeepsStaleArtifact | src/App.js:52-57 | choosing a new file keeps the old trimmed copy, which then no longer matches the file |
| App.MetadataKeepsStaleArtifact | src/App.js:113-116 | new metadata moves the end under a published copy, which then no longer matches the selection |
| App.LoadAndSelectFourState | src/App.js:113-139 | loading a 10-second video, the engine becoming ready and moving the end handle to 4 gives the selection 0 to 4 of that file |
| App.TrimFirstFourSeconds | src/App.js:164-193 | trimming that selection runs ffmpeg with `-ss 00:00.000 -to 00:04.000` into `out.<subtype>` and publishes a copy of the source's type |
| App.TrimArgsFirstFour | src/App.js:175-187 | the exact argument vector for the selection 0 to 4 of a `kind/subtype` file |
| App.PublishedCopy | src/App.js:189-193 | a successful trim publishes the bytes read back, under the source's type |

## Left out

- Script loading (`loadScript`, the CDN fetch, `createFFmpeg`, `ffmpeg.load()`, lines 19-37 and 93-107): network and asynchronous script loading. Only the resulting ready flag is modelled.
- `fetchFile` and `FileReader` (lines 40-49): the file's contents are a field of the chosen file.
- What the engine does with its calls (`ffmpeg.FS`, `ffmpeg.run`, lines 168-189), and `URL.createObjectURL` and `Blob` (lines 54, 190-192): foreign WebAssembly and browser calls. The engine's output is a parameter, and a blob URL is the published copy itself.
- React rendering, JSX, the `useEffect` wiring, state batching and stale closures (lines 93-118, 197-240): each handler is one sequential step on the current state.
- The slider widget's clamping, margin, limit and step (lines 212-221): the library enforces them and its code is not part of this model. `App.Deliverable` only assumes values in `[0, 2^31)`.
- IEEE-754 doubles: all arithmetic is exact. Under doubles, `(val % 1) * 1000` can fall just below a whole millisecond; for example, 3661.004 can give `.003`. `Decimal.NatToString` writes every natural number in plain digits, while JavaScript writes numbers from 10^21 on in exponent form (`1e+21`).
- NaN and the infinities: a duration, play-head position or slider value is always a finite real.
- MIME types without `/` are excluded by `App.Deliverable`: for those, `split("/")[1]` is `undefined` and the output name would be `out.undefined`.
- App.Step: the play head moving while the video plays is the browser's doing. It is modelled as `Playback.Progress` followed by the time-update handler.
- Slider.SliderUpdateFloor: states the update with `Math.floor` only for values in `[0, 2^31)`. Beyond that, `x | 0` wraps, and only `JsNumber.OrZero` describes it.
- App.StepKeepsArtifactCurrent: holds only for a trim taken as one atomic step. In the code, `handleTrim` awaits `fetchFile` and `ffmpeg.run` (lines 171-175) with `-ss`/`-to` captured at the click (lines 179-181), so a slider move in between (lines 121-139) is followed by `setVideoTrimmedUrl` (line 193) publishing a copy of the old selection; `App.SliderMoveDuringTrimPublishesStale` shows that state.
- Concurrency between an in-flight trim and later events: the code awaits the engine with no guard, so interleavings are not modelled. `Trim.HandleTrim` is one atomic step.
- The slider delivers its values as formatted strings; the model takes the numbers they denote.
