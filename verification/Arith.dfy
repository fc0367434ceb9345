/** Division with remainder and powers of two. */
module Arith {

  function Pow2(n: nat): (p: nat)
    ensures p >= 1
  {
    if n == 0 then 1 else 2 * Pow2(n - 1)
  }

  lemma MulAtLeast(d: int, k: int)
    requires d > 0 && k >= 1
    ensures d * k >= d
  {
  }

  lemma DivMod(x: int, d: int)
    requires d > 0
    ensures x == d * (x / d) + x % d
  {
  }

  /** Quotient and remainder are unique. */
  lemma DivModUnique(x: int, d: int, q: int, r: int)
    requires d > 0 && x == d * q + r && 0 <= r < d
    ensures x / d == q && x % d == r
  {
    var q', r' := x / d, x % d;
    DivMod(x, d);
    assert d * (q - q') == d * q - d * q' == r' - r;
    if q - q' >= 1 { MulAtLeast(d, q - q'); }
    if q' - q >= 1 { MulAtLeast(d, q' - q); }
  }

  lemma TimesMod(d: int, q: int)
    requires d > 0
    ensures (d * q) % d == 0 && (d * q) / d == q
  {
    DivModUnique(d * q, d, q, 0);
  }

  /** A multiple of a product is a multiple of its factors. */
  lemma MultipleOf(x: int, d: int, c: int)
    requires d > 0 && c > 0 && d * c > 0 && x % (d * c) == 0
    ensures x % d == 0
  {
    var q := x / (d * c);
    DivMod(x, d * c);
    assert (d * c) * q == d * (c * q);
    TimesMod(d, c * q);
  }

  lemma {:induction false} PowSplit(j: nat, k: nat)
    ensures Pow2(j + k) == Pow2(j) * Pow2(k)
  {
    if j > 0 { PowSplit(j - 1, k); }
  }

  lemma {:induction false} PowMonotone(a: nat, b: nat)
    requires a <= b
    ensures Pow2(a) <= Pow2(b)
  {
    if a < b { PowMonotone(a, b - 1); }
  }
}
