/** The crate-level helper shared by the collision code. */
module Lib {

  /**
   * `clamp(x, min, max)`: `min` when `x` is below it, else `max` when `x` is above that,
   * else `x`. Nothing forces `min <= max`; when it fails, `min` wins for small `x`.
   */
  function Clamp(x: real, min: real, max: real): (r: real)
    ensures x < min ==> r == min
    ensures min <= x && x > max ==> r == max
    ensures min <= max ==> min <= r <= max
    ensures min <= max ==> (r == x <==> min <= x <= max)
  {
    if x < min then min
    else if x > max then max
    else x
  }

  /** With a well-formed range, clamping a clamped value changes nothing. */
  lemma ClampIdempotent(x: real, min: real, max: real)
    requires min <= max
    ensures Clamp(Clamp(x, min, max), min, max) == Clamp(x, min, max)
  {
  }

  /** With an inverted range, the result depends only on the order of the three values. */
  lemma ClampInvertedRange(x: real, min: real, max: real)
    requires max < min
    ensures Clamp(x, min, max) == (if x < min then min else max)
  {
  }
}
