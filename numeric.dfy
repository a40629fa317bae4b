/** Rust's `f64` operations that the renderer relies on, idealised over `real`:
    the saturating float-to-integer `as` casts and the truncating remainder `%`. */
module Numeric {

  /** Largest value of Rust's `usize` on a 64-bit target. */
  const USIZE_MAX: nat := 0xFFFF_FFFF_FFFF_FFFF

  /** Rust's `u8`. */
  type Byte = b: int | 0 <= b <= 255

  function Abs(r: real): (a: real)
    ensures 0.0 <= a
    ensures a == r || a == -r
  {
    if r < 0.0 then -r else r
  }

  /** Rust's float-to-integer `as` cast into an unsigned type whose largest
      value is `max`: the fraction is dropped (rounding toward zero), and a
      value outside the range saturates to 0 or to `max`. */
  function SatCast(r: real, max: nat): (n: nat)
    ensures n <= max
    ensures r <= 0.0 ==> n == 0
    ensures max as real <= r ==> n == max
    ensures 0.0 <= r < max as real ==> n as real <= r < n as real + 1.0
  {
    if r <= 0.0 then 0 else if r >= max as real then max else r.Floor
  }

  /** `r as u8` */
  function AsU8(r: real): Byte
  {
    SatCast(r, 255)
  }

  /** `r as usize` */
  function AsUsize(r: real): nat
  {
    SatCast(r, USIZE_MAX)
  }

  /** The saturating cast never reverses the order of its arguments. */
  lemma SatCastMonotone(r1: real, r2: real, max: nat)
    requires r1 <= r2
    ensures SatCast(r1, max) <= SatCast(r2, max)
  {
  }

  /** The integer part of `r`, rounded toward zero. */
  function Trunc(r: real): (n: int)
    ensures 0.0 <= r ==> 0 <= n && n as real <= r < n as real + 1.0
    ensures r < 0.0 ==> n <= 0 && n as real - 1.0 < r <= n as real
  {
    if r >= 0.0 then r.Floor else -((-r).Floor)
  }

  /** Rust's `a % b` on floats: the remainder of the division truncated toward
      zero, which takes the sign of the dividend `a`. The bounds are stated
      for the two divisors the renderer uses. */
  function FRem(a: real, b: real): (r: real)
    requires b != 0.0
    ensures b == 360.0 && 0.0 <= a ==> 0.0 <= r < 360.0
    ensures b == 360.0 && a < 0.0 ==> -360.0 < r <= 0.0
    ensures b == 2.0 && 0.0 <= a ==> 0.0 <= r < 2.0
    ensures b == 2.0 && a < 0.0 ==> -2.0 < r <= 0.0
  {
    a - b * Trunc(a / b) as real
  }

  /** The magnitude keeps its sign: a negative dividend gives a negative
      remainder, which is why the hue needs the 360 added back. */
  lemma NegativeRemainder()
    ensures FRem(-1.0, 360.0) == -1.0
    ensures FRem(-420.0, 360.0) == -60.0
    ensures FRem(420.0, 360.0) == 60.0
  {
    assert Trunc(-1.0 / 360.0) == 0;
    assert Trunc(-420.0 / 360.0) == -1;
    assert Trunc(420.0 / 360.0) == 1;
  }
}
