/** Rust's 64-bit unsigned arithmetic, as far as the progress estimator uses it:
    saturating sums and products, and the sum that wraps. */
module Saturating {
  const U64_MAX: nat := 0xFFFF_FFFF_FFFF_FFFF

  type U64 = x: int | 0 <= x <= U64_MAX

  function Sat(x: nat): (r: U64) {
    if x <= U64_MAX then x else U64_MAX
  }

  function SatAdd(a: U64, b: U64): (r: U64) {
    Sat(a + b)
  }

  function SatMul(a: U64, b: U64): (r: U64) {
    Sat(a * b)
  }

  function Min(a: nat, b: nat): (r: nat) {
    if a <= b then a else b
  }

  function Max(a: nat, b: nat): (r: nat) {
    if a >= b then a else b
  }

  function Sum(xs: seq<nat>): (r: nat) {
    if xs == [] then 0 else Sum(xs[..|xs| - 1]) + xs[|xs| - 1]
  }

  /** Adding with saturation step by step is saturating the exact sum. */
  lemma SatSumStep(xs: seq<nat>, x: U64)
    ensures SatAdd(Sat(Sum(xs)), x) == Sat(Sum(xs + [x]))
  {
    assert (xs + [x])[..|xs|] == xs;
  }

  lemma DivAntitone(a: nat, b: nat, c: nat, d: nat)
    requires a <= b && 0 < d <= c
    ensures a / c <= b / d
  {
    var q := a / c;
    DivAtLeast(a, c, q);
    ProductGrows(q, d, c);
    DivAtLeast(b, d, q);
  }

  lemma ProductGrows(q: nat, d: nat, c: nat)
    requires d <= c
    ensures q * d <= q * c
  {
  }

  lemma DivAtLeast(n: nat, d: nat, q: nat)
    requires d > 0
    ensures q <= n / d <==> q * d <= n
  {
    var r := n / d;
    assert r * d <= n < (r + 1) * d;
    if q <= r { ProductGrows(d, q, r); } else { ProductGrows(d, r + 1, q); }
  }
}
