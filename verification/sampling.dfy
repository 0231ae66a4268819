/** Turning random draws into the numbers the simulator uses. */
module Sampling {

  /** Python's `int()` on a float: truncation toward zero. */
  function Trunc(x: real): (r: int)
    ensures 0.0 <= x ==> 0 <= r && r as real <= x < r as real + 1.0
    ensures x < 0.0 ==> r <= 0 && x <= r as real < x + 1.0
  {
    if x >= 0.0 then x.Floor else -((-x).Floor)
  }

  /**
   * `max(0, int(draw * scale))`: the clamped count drawn for requests,
   * congestion, initial EVs and forecasts. It is never negative, whatever the
   * Gaussian draw, and it is the whole part of `draw * scale` when that is not.
   */
  function SampledCount(draw: real, scale: int): (c: nat)
    ensures draw * scale as real < 1.0 ==> c == 0
    ensures 0.0 <= draw * scale as real ==> c as real <= draw * scale as real < c as real + 1.0
  {
    var t := Trunc(draw * scale as real);
    if t < 0 then 0 else t
  }

  /**
   * `random.randint(lo, hi)` for the underlying draw `u` of `random.random()`:
   * one of the `hi - lo + 1` integers from `lo` to `hi`, picked by the share of
   * `[0, 1)` that `u` falls in.
   */
  function RandInt(lo: int, hi: int, u: real): (r: int)
    ensures lo <= hi && 0.0 <= u < 1.0 ==> lo <= r <= hi
  {
    var width := hi - lo + 1;
    assert 0 < width && 0.0 <= u ==> 0.0 <= u * width as real;
    assert 0 < width && u < 1.0 ==> u * width as real < 1.0 * width as real;
    lo + Trunc(u * width as real)
  }

  /** `random.uniform(lo, hi)` for the underlying draw `u` of `random.random()`. */
  function Uniform(lo: real, hi: real, u: real): (x: real)
    ensures lo < hi && 0.0 <= u < 1.0 ==> lo <= x < hi
  {
    var width := hi - lo;
    assert 0.0 < width && 0.0 <= u ==> 0.0 <= width * u;
    assert 0.0 < width && u < 1.0 ==> width * u < width * 1.0;
    lo + width * u
  }
}
