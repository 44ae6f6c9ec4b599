/**
 * Bytes and the two ways the viewer turns a JavaScript number into one:
 * a store into a `Uint8Array` (the edge and brightness maps) and a store
 * into a `Uint8ClampedArray` (the `data` of every `ImageData`).
 * Numbers are exact reals here; NaN and the infinities never reach a store
 * in the modelled code and are not represented.
 */
module Bytes {

  newtype byte = x: int | 0 <= x < 256

  /** JavaScript's `Math.min(a, b)` on numbers that are not NaN. */
  function Min(a: real, b: real): (r: real)
    ensures r <= a && r <= b
    ensures r == a || r == b
  {
    if a <= b then a else b
  }

  /** `Math.max(0, Math.min(1, v))`: clamps a number to the unit interval. */
  function Clamp01(v: real): (r: real)
    ensures 0.0 <= r <= 1.0
    ensures 0.0 <= v <= 1.0 ==> r == v
    ensures v < 0.0 ==> r == 0.0
    ensures 1.0 < v ==> r == 1.0
  {
    if v < 0.0 then 0.0 else if v > 1.0 then 1.0 else v
  }

  /** Rounds toward zero, as ECMAScript's ToIntegerOrInfinity does. */
  function Truncate(v: real): (t: int)
    ensures 0.0 <= v ==> 0 <= t && t as real <= v < t as real + 1.0
    ensures v < 0.0 ==> t <= 0 && v <= t as real && t as real < v + 1.0
  {
    if v >= 0.0 then v.Floor else -((-v).Floor)
  }

  /**
   * ECMAScript ToUint8, the conversion a store into a `Uint8Array`
   * performs: truncate toward zero, then reduce modulo 256.
   */
  function TruncToByte(v: real): (b: byte)
    ensures (Truncate(v) - b as int) % 256 == 0
    ensures 0.0 <= v < 256.0 ==> b as real <= v < b as real + 1.0
  {
    (Truncate(v) % 256) as byte
  }

  /**
   * ECMAScript ToUint8Clamp, the conversion a store into a
   * `Uint8ClampedArray` performs: clamp to [0, 255], then round to the
   * nearest integer, ties to even.
   */
  function ClampToByte(v: real): (b: byte)
    ensures v <= 0.0 ==> b == 0
    ensures 255.0 <= v ==> b == 255
    ensures 0.0 <= v <= 255.0 ==> -0.5 <= b as real - v <= 0.5
    ensures 0.0 <= v <= 255.0 && (b as real - v == 0.5 || v - b as real == 0.5) ==> b as int % 2 == 0
  {
    if v <= 0.0 then 0
    else if v >= 255.0 then 255
    else
      var f := v.Floor;
      var frac := v - f as real;
      if frac < 0.5 then f as byte
      else if frac > 0.5 then (f + 1) as byte
      else if f % 2 == 0 then f as byte
      else (f + 1) as byte
  }

  /** The clamped store never reverses the order of two numbers. */
  lemma ClampToByteMonotone(u: real, v: real)
    requires u <= v
    ensures ClampToByte(u) <= ClampToByte(v)
  {
  }
}
