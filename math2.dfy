/** `Math2.clamp`. */
module Math2 {
  import Bits

  /** `clamp(min, v, max)`: `max` above `max`, otherwise the larger of `v` and `min`. */
  function Clamp(min: Bits.Int, v: Bits.Int, max: Bits.Int): (r: Bits.Int)
    requires min <= max
    ensures min <= r <= max
    ensures min <= v <= max ==> r == v
    ensures v > max ==> r == max
    ensures v < min ==> r == min
  {
    if v > max then max else if v > min then v else min
  }

  /** Clamping twice is clamping once. */
  lemma ClampIdempotent(min: Bits.Int, v: Bits.Int, max: Bits.Int)
    requires min <= max
    ensures Clamp(min, Clamp(min, v, max), max) == Clamp(min, v, max)
  {
  }
}
