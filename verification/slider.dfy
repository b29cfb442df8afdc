/** `updateOnSliderChange` (src/App.js lines 121-139): the handler the range
    slider calls with the values of both handles and the index of the handle
    that moved. */
module Slider {
  import opened Wrappers
  import opened JsNumber
  import opened Session

  /** `values[handle] | 0`: the whole second the moved handle points at. */
  function ReadValue(values: seq<real>, handle: nat): (v: int)
    requires handle < |values|
    ensures -TwoTo31 <= v < TwoTo31
    ensures 0.0 <= values[handle] < TwoTo31 as real ==> v == values[handle].Floor
  {
    OrZero(values[handle])
  }

  /** One slider update. Handle 0 is the start handle, any other handle the
      end handle (`if (handle)` is true exactly for a non-zero index). */
  function UpdateOnSliderChange(s: State, values: seq<real>, handle: nat): (r: State)
    requires handle < |values|
    ensures r.trimmed == None
    ensures r.duration == s.duration && r.file == s.file && r.videoMounted == s.videoMounted
    ensures r.engineReady == s.engineReady && r.playing == s.playing
    ensures handle != 0 ==>
      r.endTime == ReadValue(values, handle) as real
      && r.startTime == s.startTime && r.position == s.position
      && r.initialSliderValue == s.initialSliderValue
    ensures handle == 0 ==> r.endTime == s.endTime
    ensures handle == 0 && ReadValue(values, 0) == s.initialSliderValue ==>
      r == s.(trimmed := None)
    ensures handle == 0 && ReadValue(values, 0) != s.initialSliderValue ==>
      r.initialSliderValue == ReadValue(values, 0)
      && r.startTime == (if s.videoMounted then ReadValue(values, 0) as real else s.startTime)
      && r.position == (if s.videoMounted then ReadValue(values, 0) as real else s.position)
  {
    var cleared := s.(trimmed := None);
    var readValue := ReadValue(values, handle);
    if handle != 0 then
      if cleared.endTime != readValue as real then cleared.(endTime := readValue as real) else cleared
    else if cleared.initialSliderValue != readValue then
      var remembered := cleared.(initialSliderValue := readValue);
      if remembered.videoMounted then
        remembered.(position := readValue as real, startTime := readValue as real)
      else
        remembered
    else
      cleared
  }

  /** The update stated with `Math.floor`, for handle values in the range the
      slider delivers (non-negative and below 2^31). */
  lemma SliderUpdateFloor(s: State, values: seq<real>, handle: nat)
    requires handle < |values| && 0.0 <= values[handle] < TwoTo31 as real
    ensures var v := values[handle].Floor;
      var r := UpdateOnSliderChange(s, values, handle);
      && (handle != 0 ==> r == s.(trimmed := None, endTime := v as real))
      && (handle == 0 && v == s.initialSliderValue ==> r == s.(trimmed := None))
      && (handle == 0 && v != s.initialSliderValue && s.videoMounted ==>
            r == s.(trimmed := None, initialSliderValue := v, startTime := v as real, position := v as real))
      && (handle == 0 && v != s.initialSliderValue && !s.videoMounted ==>
            r == s.(trimmed := None, initialSliderValue := v))
  {
    OrZeroIsFloor(values[handle]);
  }

  /** Repeating an update with the same values and handle changes nothing more. */
  lemma SliderUpdateIdempotent(s: State, values: seq<real>, handle: nat)
    requires handle < |values|
    ensures UpdateOnSliderChange(UpdateOnSliderChange(s, values, handle), values, handle)
         == UpdateOnSliderChange(s, values, handle)
  {
  }

  /** The start handle seeks the video exactly when a video is mounted and the
      value differs from the remembered one. */
  lemma StartHandleSeeksIff(s: State, values: seq<real>)
    requires 0 < |values|
    requires s.position != ReadValue(values, 0) as real
    ensures (UpdateOnSliderChange(s, values, 0).position != s.position)
        == (s.videoMounted && ReadValue(values, 0) != s.initialSliderValue)
  {
  }

  /** Because a render forgets the remembered value, the first start-handle
      update after any render seeks to every non-zero value, even one equal to
      the current start. */
  lemma StartHandleAfterRender(s: State, values: seq<real>)
    requires 0 < |values| && s.videoMounted && ReadValue(values, 0) != 0
    ensures UpdateOnSliderChange(Rerender(s), values, 0).position == ReadValue(values, 0) as real
    ensures UpdateOnSliderChange(Rerender(s), values, 0).startTime == ReadValue(values, 0) as real
  {
  }
}
