/** Exact real-number stand-ins for the f64 operations the layout code uses:
    floor, ceil, round (half away from zero), min/max, abs, and the
    `as usize` / `as i32` casts applied to their results. */
module Numeric {

  /** f64::floor, returned as the integer it denotes. */
  function Floor(r: real): (i: int)
    ensures i as real <= r < i as real + 1.0
  {
    r.Floor
  }

  /** f64::ceil, returned as the integer it denotes. */
  function Ceil(r: real): (i: int)
    ensures r <= i as real < r + 1.0
  {
    -((-r).Floor)
  }

  /** f64::round: nearest integer, halfway cases away from zero. */
  function Round(r: real): (i: int)
    ensures r - 0.5 <= i as real <= r + 0.5
    ensures r >= 0.0 ==> i >= 0
    ensures r <= 0.0 ==> i <= 0
  {
    if r >= 0.0 then (r + 0.5).Floor else -((-r + 0.5).Floor)
  }

  lemma RoundOfInteger(k: int)
    ensures Round(k as real) == k
  {
  }

  /** Ties go away from zero, as Rust's `f64::round` does. */
  lemma {:induction false} RoundHalfAwayFromZero(k: nat)
    ensures Round(k as real + 0.5) == k + 1
    ensures Round(-(k as real) - 0.5) == -(k + 1)
  {
    assert (k as real + 0.5 + 0.5).Floor == k + 1;
    assert (-(-(k as real) - 0.5) + 0.5).Floor == k + 1;
  }

  /** `x as usize` for an integral float: negative values saturate to 0.
      (The saturation at usize::MAX is beyond any grid size and not modelled.) */
  function SatUsize(i: int): (n: nat)
    ensures i >= 0 ==> n == i
    ensures i <= 0 ==> n == 0
  {
    if i < 0 then 0 else i
  }

  const UsizeModulus: int := 0x1_0000_0000_0000_0000

  /** `v as usize` for an `i32` (two's-complement sign extension on a
      64-bit target), reduced modulo 2^64 like the wrapping `+` after it. */
  function WrapUsize(v: int): (n: nat)
    ensures n < UsizeModulus
    ensures 0 <= v < UsizeModulus ==> n == v
    ensures -UsizeModulus <= v < 0 ==> n == v + UsizeModulus
  {
    v % UsizeModulus
  }

  // `f64::min`/`f64::max` act on coordinates and `Ord::min`/`Ord::max` on
  // cell indices and counts; Dafny has no ordering type class to share one
  // definition between `real` and `int`, so each gets its own pair.

  function Min(a: real, b: real): (m: real)
    ensures m <= a && m <= b && (m == a || m == b)
  {
    if a <= b then a else b
  }

  function Max(a: real, b: real): (m: real)
    ensures m >= a && m >= b && (m == a || m == b)
  {
    if a >= b then a else b
  }

  function MinInt(a: int, b: int): (m: int)
    ensures m <= a && m <= b && (m == a || m == b)
  {
    if a <= b then a else b
  }

  function MaxInt(a: int, b: int): (m: int)
    ensures m >= a && m >= b && (m == a || m == b)
  {
    if a >= b then a else b
  }

  function Abs(r: real): (a: real)
    ensures a >= 0.0 && (a == r || a == -r)
  {
    if r < 0.0 then -r else r
  }
}
