/** Aligned regions whose sizes are powers of two, and their buddies. */
module BuddyMath {
  import opened Arith
  import opened Common

  /** The lowest `k` bits of `a` are clear. */
  predicate Aligned(a: Addr, k: nat)
    decreases k
  {
    k == 0 || (a % 2 == 0 && Aligned(a / 2, k - 1))
  }

  /** `b` with bit `k` flipped. */
  function BuddyOf(b: Addr, k: nat): Addr
    decreases k
  {
    if k == 0 then if b % 2 == 0 then b + 1 else b - 1
    else 2 * BuddyOf(b / 2, k - 1) + b % 2
  }

  function Min(a: Addr, b: Addr): Addr {
    if a <= b then a else b
  }

  // ---------------------------------------------------------------- alignment

  /** Alignment in the usual sense. */
  lemma {:induction false} AlignedIsMultiple(a: Addr, k: nat)
    ensures Aligned(a, k) <==> a % Pow2(k) == 0
    decreases k
  {
    if k > 0 {
      AlignedIsMultiple(a / 2, k - 1);
      HalfMultiple(a, Pow2(k - 1));
    }
  }

  lemma HalfMultiple(a: int, p: int)
    requires p > 0
    ensures a % (2 * p) == 0 <==> a % 2 == 0 && (a / 2) % p == 0
  {
    var h := a / 2;
    var q, r := h / p, h % p;
    DivMod(h, p);
    DoubleTimes(p, q);
    DivModUnique(a, 2 * p, q, 2 * r + a % 2);
  }

  lemma DoubleTimes(p: int, q: int)
    ensures (2 * p) * q == 2 * (p * q)
  {
  }

  /** What is aligned to a power of two is aligned to every smaller one. */
  lemma {:induction false} AlignedLess(a: Addr, i: nat, j: nat)
    requires Aligned(a, j) && i <= j
    ensures Aligned(a, i)
    decreases i
  {
    if i > 0 { AlignedLess(a / 2, i - 1, j - 1); }
  }

  lemma {:induction false} AlignedSum(a: Addr, b: Addr, k: nat)
    requires Aligned(a, k) && Aligned(b, k)
    ensures Aligned(a + b, k)
    decreases k
  {
    if k > 0 { AlignedSum(a / 2, b / 2, k - 1); }
  }

  lemma {:induction false} PowAligned(k: nat, j: nat)
    requires k <= j
    ensures Aligned(Pow2(j), k)
    decreases k
  {
    if k > 0 { PowAligned(k - 1, j - 1); }
  }

  lemma {:induction false} AlignedGap(a: Addr, b: Addr, k: nat)
    requires Aligned(a, k) && Aligned(b, k) && a < b
    ensures a + Pow2(k) <= b
    decreases k
  {
    if k > 0 { AlignedGap(a / 2, b / 2, k - 1); }
  }

  /** A small aligned region that starts inside a larger one lies inside it. */
  lemma Nested(a: Addr, j: nat, b: Addr, i: nat)
    requires i <= j && Aligned(a, j) && Aligned(b, i) && b < a + Pow2(j)
    ensures b + Pow2(i) <= a + Pow2(j)
  {
    AlignedLess(a, i, j);
    PowAligned(i, j);
    AlignedSum(a, Pow2(j), i);
    AlignedGap(b, a + Pow2(j), i);
  }

  // ---------------------------------------------------------------- buddies

  /** The two halves of an aligned region are each other's buddies. */
  lemma {:induction false} Halves(b: Addr, k: nat)
    requires Aligned(b, k + 1)
    ensures Pow2(k + 1) == 2 * Pow2(k)
    ensures Aligned(b, k) && Aligned(b + Pow2(k), k)
    ensures BuddyOf(b, k) == b + Pow2(k) && BuddyOf(b + Pow2(k), k) == b
    decreases k
  {
    if k > 0 { Halves(b / 2, k - 1); }
  }

  /** A region and its buddy are the two halves of the region that starts at the lower one. */
  lemma {:induction false} BuddyHalves(b: Addr, k: nat)
    requires Aligned(b, k)
    ensures var g := BuddyOf(b, k);
            && Aligned(Min(b, g), k + 1) && Aligned(g, k) && BuddyOf(g, k) == b && g != b
            && (g == Min(b, g) + Pow2(k) || b == Min(b, g) + Pow2(k))
    decreases k
  {
    if k > 0 {
      BuddyHalves(b / 2, k - 1);
      var h, g := BuddyOf(b / 2, k - 1), BuddyOf(b, k);
      assert b == 2 * (b / 2) && g == 2 * h && g / 2 == h && g % 2 == 0;
      assert Min(b, g) == 2 * Min(b / 2, h) && Min(b, g) / 2 == Min(b / 2, h);
      assert Aligned(Min(b, g) / 2, k);
    }
  }

  // ---------------------------------------------------------------- exclusive or

  /** Bitwise exclusive or. */
  function Xor(a: nat, b: nat): nat {
    if a == 0 then b else if b == 0 then a else 2 * Xor(a / 2, b / 2) + (a % 2 + b % 2) % 2
  }

  /** Exclusive or with a power of two flips one bit. */
  lemma {:induction false} XorPow(a: nat, k: nat)
    ensures Xor(a, Pow2(k)) == BuddyOf(a, k)
    decreases k
  {
    if k == 0 {
      assert a > 0 ==> Xor(a / 2, 0) == a / 2;
    } else {
      XorPow(a / 2, k - 1);
    }
  }

  /** At level k, splitting a pool at `base` finds its upper half. */
  predicate UpperAt(base: nat, low: nat, k: nat) {
    Xor(base, Pow2(low + k)) == base + Pow2(low + k)
  }

  /** Splitting a pool at `base` finds the upper half at every level exactly when `base` is aligned to the
      size of the pool. */
  lemma {:induction false} BaseMustBeAligned(base: nat, low: nat, top: nat)
    requires Aligned(base, low)
    ensures Aligned(base, low + top) <==>
            forall k {:trigger UpperAt(base, low, k)} :: 0 <= k < top ==> UpperAt(base, low, k)
    decreases top
  {
    if top > 0 {
      var j := top - 1;
      BaseMustBeAligned(base, low, j);
      XorPow(base, low + j);
      if Aligned(base, low + top) {
        AlignedLess(base, low + j, low + top);
        Halves(base, low + j);
        assert UpperAt(base, low, j);
      } else if Aligned(base, low + j) {
        BuddyHalves(base, low + j);
        assert !UpperAt(base, low, j);
      }
    }
  }

  /** A pool whose base is the size of one of its smallest blocks finds the other half of its first two blocks
      at address 0. */
  lemma UnalignedBase(low: nat)
    ensures Aligned(Pow2(low), low) && Xor(Pow2(low), Pow2(low)) == 0 && !UpperAt(Pow2(low), low, 0)
  {
    PowAligned(low, low);
    ZeroAligned(low + 1);
    Halves(0, low);
    XorPow(Pow2(low), low);
  }

  lemma {:induction false} ZeroAligned(k: nat)
    ensures Aligned(0, k)
  {
    if k > 0 { ZeroAligned(k - 1); }
  }

  /** For example a pool of two pages at address 0x1000. */
  lemma UnalignedPage()
    ensures Aligned(0x1000, 12) && !UpperAt(0x1000, 12, 0)
  {
    assert Pow2(12) == 0x1000;
    UnalignedBase(12);
  }
}
