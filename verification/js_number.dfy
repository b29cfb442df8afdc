/** JavaScript number operations used by the handlers, on exact reals
    (NaN and the infinities are not modelled). */
module JsNumber {

  const TwoTo31: int := 0x8000_0000
  const TwoTo32: int := 0x1_0000_0000

  /** Rounding toward zero, the first step of ToInt32. */
  function Trunc(x: real): (t: int)
    ensures x >= 0.0 ==> t as real <= x < t as real + 1.0
    ensures x < 0.0 ==> t as real - 1.0 < x <= t as real
  {
    if x >= 0.0 then x.Floor else -((-x).Floor)
  }

  /** `x | 0`: ToInt32, i.e. truncate, then wrap modulo 2^32 into the signed
      32-bit range. */
  function OrZero(x: real): (r: int)
    ensures -TwoTo31 <= r < TwoTo31
    ensures (r - Trunc(x)) % TwoTo32 == 0
  {
    var m := Trunc(x) % TwoTo32;
    if m >= TwoTo31 then m - TwoTo32 else m
  }

  /** On non-negative numbers below 2^31, `x | 0` is `Math.floor(x)`. */
  lemma OrZeroIsFloor(x: real)
    requires 0.0 <= x < TwoTo31 as real
    ensures OrZero(x) == x.Floor
  {
  }

  /** From 2^31 up to 2^32, `x | 0` wraps to a negative number. */
  lemma OrZeroWrapsAbove31(x: real)
    requires TwoTo31 as real <= x < TwoTo32 as real
    ensures OrZero(x) == x.Floor - TwoTo32
  {
  }
}
