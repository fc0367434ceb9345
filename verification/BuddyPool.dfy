/** The state of the buddy allocator: a partition of the pool into blocks, each free or outstanding. */
module BuddyPool {
  import opened Arith
  import opened BuddyMath
  import opened Common
  import opened Links

  datatype Block = Block(level: nat, free: bool)

  /** A pool of `Pow2(low + top)` bytes from `base`. A block of level k has `Pow2(low + k)` bytes; `own`
      gives for each byte the block it belongs to. */
  datatype Pool = Pool(base: Addr, low: nat, top: nat, st: map<Addr, Block>, own: map<Addr, Addr>)

  function SizeOf(p: Pool, k: nat): nat {
    Pow2(p.low + k)
  }

  function PoolEnd(p: Pool): Addr {
    p.base + SizeOf(p, p.top)
  }

  function End(p: Pool, b: Addr): Addr {
    if b in p.st then b + SizeOf(p, p.st[b].level) else b
  }

  predicate FreeAt(p: Pool, b: Addr, k: nat) {
    b in p.st && p.st[b] == Block(k, true)
  }

  predicate Owns(own: map<Addr, Addr>, b: Addr, x: Addr) {
    x in own && own[x] == b
  }

  /** A block is aligned to its size, lies in the pool and owns its bytes. */
  ghost predicate BlockOk(p: Pool, b: Addr) {
    && b in p.st && p.st[b].level <= p.top && Aligned(b, p.low + p.st[b].level)
    && p.base <= b && End(p, b) <= PoolEnd(p)
    && forall x {:trigger Owns(p.own, b, x)} :: b <= x < End(p, b) ==> Owns(p.own, b, x)
  }

  /** Every byte belongs to a block. */
  ghost predicate OwnOk(p: Pool, x: Addr) {
    x in p.own && p.own[x] in p.st && p.own[x] <= x < End(p, p.own[x])
  }

  /** A free block below the top has no free buddy of its own level. */
  ghost predicate PairOk(p: Pool, b: Addr) {
    b in p.st && p.st[b].free && p.st[b].level < p.top ==> !FreeAt(p, BuddyOf(b, p.low + p.st[b].level), p.st[b].level)
  }

  ghost predicate PoolInv(p: Pool) {
    && Aligned(p.base, p.low + p.top)
    && (forall b {:trigger BlockOk(p, b)} :: b in p.st ==> BlockOk(p, b))
    && (forall x {:trigger OwnOk(p, x)} :: p.base <= x < PoolEnd(p) ==> OwnOk(p, x))
    && (forall b {:trigger PairOk(p, b)} :: PairOk(p, b))
  }

  predicate Within(a: Addr, k: nat, x: Addr) {
    a <= x < a + Pow2(k)
  }

  /** A fresh pool is one free block. */
  ghost function Fresh(base: Addr, low: nat, top: nat): Pool {
    var k := low + top;
    Pool(base, low, top, map[base := Block(top, true)],
         map x | base <= x < base + Pow2(k) && Within(base, k, x) :: base)
  }

  lemma FreshOk(base: Addr, low: nat, top: nat)
    requires Aligned(base, low + top)
    ensures PoolInv(Fresh(base, low, top))
  {
    var p := Fresh(base, low, top);
    assert BlockOk(p, base);
  }

  /** Blocks do not overlap. */
  lemma BlocksApart(p: Pool, b: Addr, c: Addr)
    requires PoolInv(p) && b in p.st && c in p.st && b < c
    ensures End(p, b) <= c
  {
    assert BlockOk(p, b) && BlockOk(p, c);
    assert Owns(p.own, c, c) && (c < End(p, b) ==> Owns(p.own, b, c));
  }

  /** Every block has room for a link, and every address fits in one. */
  ghost predicate Roomy(p: Pool) {
    SizeOf(p, 0) >= LINK_SIZE && 0 <= p.base && PoolEnd(p) <= U64_MAX + 1
  }

  /** The bytes of a link belong to the block that holds it and to no other. */
  lemma LinkInside(p: Pool, b: Addr, x: Addr)
    requires PoolInv(p) && Roomy(p) && b in p.st && b <= x < b + LINK_SIZE
    ensures x < End(p, b) && Owns(p.own, b, x)
  {
    assert BlockOk(p, b);
    PowMonotone(p.low, p.low + p.st[b].level);
    assert Owns(p.own, b, x);
  }

  /** The links of two blocks share no byte. */
  lemma LinksApart(p: Pool, b: Addr, c: Addr)
    requires PoolInv(p) && Roomy(p) && b in p.st && c in p.st && b != c
    ensures b + LINK_SIZE <= c || c + LINK_SIZE <= b
    ensures 0 <= b <= U64_MAX
  {
    LinkInside(p, b, b + LINK_SIZE - 1);
    LinkInside(p, c, c + LINK_SIZE - 1);
    if b < c { BlocksApart(p, b, c); } else { BlocksApart(p, c, b); }
    assert BlockOk(p, b);
  }

  // ---------------------------------------------------------------- freeing and taking

  function SetFree(p: Pool, b: Addr, free: bool): Pool
    requires b in p.st
  {
    p.(st := p.st[b := p.st[b].(free := free)])
  }

  /** A block may be taken at any time, and freed when its buddy is not free. */
  lemma SetFreeOk(p: Pool, b: Addr, free: bool)
    requires PoolInv(p) && b in p.st
    requires free && p.st[b].level < p.top ==> !FreeAt(p, BuddyOf(b, p.low + p.st[b].level), p.st[b].level)
    ensures PoolInv(SetFree(p, b, free))
  {
    var p' := SetFree(p, b, free);
    assert BlockOk(p, b);
    forall c {:trigger BlockOk(p', c)} | c in p'.st ensures BlockOk(p', c) {
      assert BlockOk(p, c);
    }
    forall x {:trigger OwnOk(p', x)} | p'.base <= x < PoolEnd(p') ensures OwnOk(p', x) {
      assert OwnOk(p, x);
    }
    forall c {:trigger PairOk(p', c)} ensures PairOk(p', c) {
      assert PairOk(p, c);
      if c in p.st {
        assert BlockOk(p, c);
        BuddyHalves(c, p.low + p.st[c].level);
      }
    }
  }

  // ---------------------------------------------------------------- splitting

  /** An outstanding block cut in two outstanding halves. */
  ghost function Split(p: Pool, b: Addr): Pool
    requires b in p.st && p.st[b].level > 0
  {
    var k := p.st[b].level - 1;
    var h := b + SizeOf(p, k);
    p.(st := p.st[b := Block(k, false)][h := Block(k, false)],
       own := map x | x in p.own :: if h <= x < h + SizeOf(p, k) then h else p.own[x])
  }

  ghost predicate CanSplit(p: Pool, b: Addr) {
    PoolInv(p) && b in p.st && !p.st[b].free && p.st[b].level > 0
  }

  lemma SplitFacts(p: Pool, b: Addr)
    requires CanSplit(p, b)
    ensures var k := p.st[b].level - 1;
            && End(p, b) == b + SizeOf(p, k) + SizeOf(p, k) && b + SizeOf(p, k) !in p.st
            && Aligned(b, p.low + k) && Aligned(b + SizeOf(p, k), p.low + k)
            && BuddyOf(b, p.low + k) == b + SizeOf(p, k) && BuddyOf(b + SizeOf(p, k), p.low + k) == b
  {
    var k := p.st[b].level - 1;
    assert BlockOk(p, b);
    Halves(b, p.low + k);
    if b + SizeOf(p, k) in p.st { BlocksApart(p, b, b + SizeOf(p, k)); }
  }

  lemma SplitOther(p: Pool, b: Addr, c: Addr)
    requires CanSplit(p, b) && c in p.st && c != b
    ensures BlockOk(Split(p, b), c)
  {
    var p' := Split(p, b);
    SplitFacts(p, b);
    assert BlockOk(p, c);
    if c < b { BlocksApart(p, c, b); } else { BlocksApart(p, b, c); }
    forall x {:trigger Owns(p'.own, c, x)} | c <= x < End(p', c) ensures Owns(p'.own, c, x) {
      assert Owns(p.own, c, x);
    }
  }

  lemma SplitHalf(p: Pool, b: Addr, c: Addr)
    requires CanSplit(p, b) && (c == b || c == b + SizeOf(p, p.st[b].level - 1))
    ensures BlockOk(Split(p, b), c)
  {
    var p' := Split(p, b);
    SplitFacts(p, b);
    assert BlockOk(p, b);
    forall x {:trigger Owns(p'.own, c, x)} | c <= x < End(p', c) ensures Owns(p'.own, c, x) {
      assert Owns(p.own, b, x);
    }
  }

  lemma SplitOwns(p: Pool, b: Addr, x: Addr)
    requires CanSplit(p, b) && p.base <= x < PoolEnd(p)
    ensures OwnOk(Split(p, b), x)
  {
    SplitFacts(p, b);
    assert OwnOk(p, x) && BlockOk(p, b);
  }

  lemma SplitOk(p: Pool, b: Addr)
    requires CanSplit(p, b)
    ensures PoolInv(Split(p, b))
  {
    var p' := Split(p, b);
    SplitFacts(p, b);
    forall c {:trigger BlockOk(p', c)} | c in p'.st ensures BlockOk(p', c) {
      if c in p.st && c != b { SplitOther(p, b, c); } else { SplitHalf(p, b, c); }
    }
    forall x {:trigger OwnOk(p', x)} | p'.base <= x < PoolEnd(p') ensures OwnOk(p', x) { SplitOwns(p, b, x); }
    forall c {:trigger PairOk(p', c)} ensures PairOk(p', c) { assert PairOk(p, c); }
  }

  // ---------------------------------------------------------------- merging

  /** Two outstanding halves of `s` bytes from `lo` on joined to one block of level k + 1. */
  ghost function Join(p: Pool, lo: Addr, s: nat, k: nat): Pool {
    p.(st := (p.st - {lo + s})[lo := Block(k + 1, false)],
       own := map x | x in p.own :: if lo <= x < lo + s + s then lo else p.own[x])
  }

  ghost predicate CanJoin(p: Pool, lo: Addr, s: nat, k: nat) {
    && PoolInv(p) && k < p.top && s == SizeOf(p, k) && SizeOf(p, k + 1) == s + s && s > 0
    && Aligned(lo, p.low + (k + 1))
    && lo in p.st && p.st[lo] == Block(k, false) && lo + s in p.st && p.st[lo + s] == Block(k, false)
  }

  lemma JoinOther(p: Pool, lo: Addr, s: nat, k: nat, c: Addr)
    requires CanJoin(p, lo, s, k) && c in p.st && c != lo && c != lo + s
    ensures BlockOk(Join(p, lo, s, k), c)
  {
    var p' := Join(p, lo, s, k);
    assert BlockOk(p, c);
    if c < lo {
      BlocksApart(p, c, lo);
    } else {
      BlocksApart(p, lo, c);
      BlocksApart(p, lo + s, c);
    }
    forall x {:trigger Owns(p'.own, c, x)} | c <= x < End(p', c) ensures Owns(p'.own, c, x) {
      assert Owns(p.own, c, x);
    }
  }

  lemma JoinWhole(p: Pool, lo: Addr, s: nat, k: nat)
    requires CanJoin(p, lo, s, k)
    ensures BlockOk(Join(p, lo, s, k), lo)
  {
    var p' := Join(p, lo, s, k);
    assert BlockOk(p, lo) && BlockOk(p, lo + s);
    forall x {:trigger Owns(p'.own, lo, x)} | lo <= x < End(p', lo) ensures Owns(p'.own, lo, x) {
      assert Owns(p.own, if x >= lo + s then lo + s else lo, x);
    }
  }

  lemma JoinOwns(p: Pool, lo: Addr, s: nat, k: nat, x: Addr)
    requires CanJoin(p, lo, s, k) && p.base <= x < PoolEnd(p)
    ensures OwnOk(Join(p, lo, s, k), x)
  {
    assert OwnOk(p, x) && BlockOk(p, lo) && BlockOk(p, lo + s);
  }

  lemma JoinOk(p: Pool, lo: Addr, s: nat, k: nat)
    requires CanJoin(p, lo, s, k)
    ensures PoolInv(Join(p, lo, s, k))
  {
    var p' := Join(p, lo, s, k);
    forall c {:trigger BlockOk(p', c)} | c in p'.st ensures BlockOk(p', c) {
      if c == lo { JoinWhole(p, lo, s, k); } else { JoinOther(p, lo, s, k, c); }
    }
    forall x {:trigger OwnOk(p', x)} | p'.base <= x < PoolEnd(p') ensures OwnOk(p', x) { JoinOwns(p, lo, s, k, x); }
    forall c {:trigger PairOk(p', c)} ensures PairOk(p', c) { assert PairOk(p, c); }
  }

  /** An outstanding block joined with its buddy, which is outstanding too and of the same level. */
  ghost function Merge(p: Pool, b: Addr): Pool
    requires b in p.st
  {
    var k := p.st[b].level;
    Join(p, Min(b, BuddyOf(b, p.low + k)), SizeOf(p, k), k)
  }

  ghost predicate CanMerge(p: Pool, b: Addr) {
    && PoolInv(p) && b in p.st && !p.st[b].free && p.st[b].level < p.top
    && BuddyOf(b, p.low + p.st[b].level) in p.st && p.st[BuddyOf(b, p.low + p.st[b].level)] == p.st[b]
  }

  lemma MergeFacts(p: Pool, b: Addr)
    requires CanMerge(p, b)
    ensures CanJoin(p, Min(b, BuddyOf(b, p.low + p.st[b].level)), SizeOf(p, p.st[b].level), p.st[b].level)
  {
    assert BlockOk(p, b);
    BuddyHalves(b, p.low + p.st[b].level);
  }

  lemma MergeOk(p: Pool, b: Addr)
    requires CanMerge(p, b)
    ensures PoolInv(Merge(p, b))
  {
    MergeFacts(p, b);
    JoinOk(p, Min(b, BuddyOf(b, p.low + p.st[b].level)), SizeOf(p, p.st[b].level), p.st[b].level);
  }

  // ---------------------------------------------------------------- free regions

  ghost predicate FreeByte(p: Pool, x: Addr) {
    x in p.own && p.own[x] in p.st && p.st[p.own[x]].free
  }

  /** Some aligned region of the size of level k, with all its bytes free. */
  ghost predicate FreeRegion(p: Pool, a: Addr, k: nat) {
    && Aligned(a, p.low + k) && p.base <= a && a + SizeOf(p, k) <= PoolEnd(p)
    && forall x {:trigger FreeByte(p, x)} :: a <= x < a + SizeOf(p, k) ==> FreeByte(p, x)
  }

  lemma OwnStart(p: Pool, a: Addr, k: nat)
    requires PoolInv(p) && p.base <= a < PoolEnd(p) && Aligned(a, p.low + k)
    requires OwnOk(p, a) && p.st[p.own[a]].level <= k
    ensures p.own[a] == a
  {
    var b := p.own[a];
    assert BlockOk(p, b);
    AlignedLess(a, p.low + p.st[b].level, p.low + k);
    if b < a { AlignedGap(b, a, p.low + p.st[b].level); }
  }

  lemma OwnLow(p: Pool, a: Addr, k: nat)
    requires PoolInv(p) && p.base <= a < PoolEnd(p) && Aligned(a, p.low + k + 1)
    requires OwnOk(p, a + SizeOf(p, k)) && p.st[p.own[a + SizeOf(p, k)]].level > k
    ensures a in p.own && p.own[a] == p.own[a + SizeOf(p, k)]
  {
    var b := p.own[a + SizeOf(p, k)];
    assert BlockOk(p, b);
    AlignedLess(b, p.low + k + 1, p.low + p.st[b].level);
    if a < b { AlignedGap(a, b, p.low + k + 1); }
    assert Owns(p.own, b, a);
  }

  lemma HalfRegions(p: Pool, a: Addr, k: nat)
    requires FreeRegion(p, a, k + 1)
    ensures FreeRegion(p, a, k) && FreeRegion(p, a + SizeOf(p, k), k)
  {
    Halves(a, p.low + k);
    assert p.low + (k + 1) == (p.low + k) + 1;
  }

  ghost predicate FreeFrom(p: Pool, a: Addr, k: nat) {
    OwnOk(p, a) && p.st[p.own[a]].free && p.st[p.own[a]].level >= k
  }

  /** Two buddies held by free blocks are held by one, since two free blocks would have been merged. */
  lemma JoinHalves(p: Pool, a: Addr, k: nat)
    requires PoolInv(p) && k < p.top && p.base <= a && a + SizeOf(p, k) < PoolEnd(p) && Aligned(a, p.low + k + 1)
    requires FreeFrom(p, a, k) && FreeFrom(p, a + SizeOf(p, k), k)
    ensures FreeFrom(p, a, k + 1)
  {
    var s := SizeOf(p, k);
    assert PairOk(p, a);
    Halves(a, p.low + k);
    if p.st[p.own[a]].level == k {
      OwnStart(p, a, k);
      if p.st[p.own[a + s]].level == k {
        OwnStart(p, a + s, k);
      } else {
        OwnLow(p, a, k);
      }
    }
  }

  /** A free region is never split over several free blocks: one free block holds all of it. */
  lemma {:induction false} FreeRegionInBlock(p: Pool, a: Addr, k: nat)
    requires PoolInv(p) && k <= p.top && FreeRegion(p, a, k)
    ensures FreeFrom(p, a, k)
    decreases k
  {
    assert FreeByte(p, a) && OwnOk(p, a);
    if k > 0 {
      var s := SizeOf(p, k - 1);
      HalfRegions(p, a, k - 1);
      FreeRegionInBlock(p, a, k - 1);
      FreeRegionInBlock(p, a + s, k - 1);
      assert FreeByte(p, a + s);
      JoinHalves(p, a, k - 1);
    }
  }

  lemma NoRegion(p: Pool, a: Addr, k: nat)
    requires PoolInv(p) && k <= p.top && forall b, j {:trigger FreeAt(p, b, j)} :: k <= j <= p.top ==> !FreeAt(p, b, j)
    ensures !FreeRegion(p, a, k)
  {
    if FreeRegion(p, a, k) {
      FreeRegionInBlock(p, a, k);
      assert BlockOk(p, p.own[a]);
      assert FreeAt(p, p.own[a], p.st[p.own[a]].level);
    }
  }

  lemma FreeBlockRegion(p: Pool, b: Addr, k: nat)
    requires PoolInv(p) && b in p.st && p.st[b].free && k <= p.st[b].level
    ensures FreeRegion(p, b, k)
  {
    assert BlockOk(p, b);
    AlignedLess(b, p.low + k, p.low + p.st[b].level);
    PowMonotone(p.low + k, p.low + p.st[b].level);
    forall x {:trigger FreeByte(p, x)} | b <= x < b + SizeOf(p, k) ensures FreeByte(p, x) {
      assert Owns(p.own, b, x);
    }
  }

  /** `b` is a free block of the least level, from `k` on, that has a free block. */
  ghost predicate LeastFree(p: Pool, b: Addr, k: nat) {
    && b in p.st && p.st[b].free && k <= p.st[b].level
    && forall c, j {:trigger FreeAt(p, c, j)} :: k <= j && FreeAt(p, c, j) ==> p.st[b].level <= j
  }

  /** There is a free region of level k exactly when there is a free block of level k or more. */
  lemma FreeRegionIffBlock(p: Pool, k: nat)
    requires PoolInv(p) && k <= p.top
    ensures (exists a :: FreeRegion(p, a, k)) <==> exists b :: b in p.st && p.st[b].free && p.st[b].level >= k
  {
    if a :| FreeRegion(p, a, k) {
      FreeRegionInBlock(p, a, k);
    }
    if b :| b in p.st && p.st[b].free && p.st[b].level >= k {
      FreeBlockRegion(p, b, k);
    }
  }

  /** When every block is free there is only one, the whole pool. */
  lemma AllFreeIsFresh(p: Pool)
    requires PoolInv(p) && forall b :: b in p.st ==> p.st[b].free
    ensures p.st == map[p.base := Block(p.top, true)]
  {
    forall x {:trigger FreeByte(p, x)} | p.base <= x < PoolEnd(p) ensures FreeByte(p, x) {
      assert OwnOk(p, x);
    }
    FreeRegionInBlock(p, p.base, p.top);
    assert BlockOk(p, p.own[p.base]);
    OwnStart(p, p.base, p.top);
    forall b | b in p.st ensures b == p.base {
      assert BlockOk(p, b) && Owns(p.own, b, b) && Owns(p.own, p.base, b);
    }
  }

  // ---------------------------------------------------------------- outstanding blocks

  /** The level of the outstanding block at `b`, or -1 if there is none. */
  function OutLevel(p: Pool, b: Addr): int {
    if b in p.st && !p.st[b].free then p.st[b].level else -1
  }

  /** Apart from `b` the same blocks are outstanding. */
  ghost predicate SameOuts(p: Pool, p': Pool, b: Addr) {
    && p'.base == p.base && p'.low == p.low && p'.top == p.top
    && forall c {:trigger OutLevel(p', c)} :: c != b ==> OutLevel(p', c) == OutLevel(p, c)
  }

  /** The bytes from `b` to `e` did not change. */
  ghost predicate BytesKept(m: Bytes, m': Bytes, b: Addr, e: Addr) {
    forall x {:trigger SameByte(m, m', x)} :: b <= x < e ==> SameByte(m, m', x)
  }

  /** The contents of all outstanding blocks but `b` did not change. */
  ghost predicate OutsKept(p: Pool, m: Bytes, m': Bytes, b: Addr) {
    forall c {:trigger OutLevel(p, c)} :: c != b && OutLevel(p, c) >= 0 ==>
      BytesKept(m, m', c, c + SizeOf(p, OutLevel(p, c)))
  }

  /** A link written in a block that is not outstanding, or is `b`, leaves the clients alone. */
  lemma WriteKeeps(p0: Pool, m0: Bytes, p: Pool, m: Bytes, m': Bytes, b: Addr, x: Addr)
    requires PoolInv(p) && Roomy(p) && x in p.st && p.low == p0.low && OnlyIn(m, m', x, x + LINK_SIZE)
    requires x == b || OutLevel(p0, x) == -1
    requires forall c {:trigger OutLevel(p, c)} :: c != b && OutLevel(p0, c) >= 0 ==> OutLevel(p, c) == OutLevel(p0, c)
    requires OutsKept(p0, m0, m, b)
    ensures OutsKept(p0, m0, m', b)
  {
    forall c {:trigger OutLevel(p0, c)} | c != b && OutLevel(p0, c) >= 0
      ensures BytesKept(m0, m', c, c + SizeOf(p0, OutLevel(p0, c)))
    {
      assert OutLevel(p, c) == OutLevel(p0, c);
      assert BlockOk(p, c);
      var e := c + SizeOf(p0, OutLevel(p0, c));
      forall y {:trigger SameByte(m0, m', y)} | c <= y < e ensures SameByte(m0, m', y) {
        assert BytesKept(m0, m, c, e) && SameByte(m0, m, y) && Owns(p.own, c, y);
        if x <= y < x + LINK_SIZE { LinkInside(p, x, y); }
        assert SameByte(m, m', y);
      }
    }
  }

  lemma OutsKeptSame(p: Pool, p': Pool, m: Bytes, m': Bytes, b: Addr)
    requires SameOuts(p, p', b) && OutsKept(p', m, m', b)
    ensures OutsKept(p, m, m', b)
  {
    forall c {:trigger OutLevel(p, c)} | c != b && OutLevel(p, c) >= 0
      ensures BytesKept(m, m', c, c + SizeOf(p, OutLevel(p, c)))
    {
      assert OutLevel(p', c) == OutLevel(p, c);
    }
  }

  lemma SameOutsTrans(p: Pool, p': Pool, p'': Pool, b: Addr)
    requires SameOuts(p, p', b) && SameOuts(p', p'', b)
    ensures SameOuts(p, p'', b)
  {
    forall c {:trigger OutLevel(p'', c)} | c != b ensures OutLevel(p'', c) == OutLevel(p, c) {
      assert OutLevel(p', c) == OutLevel(p, c);
    }
  }

  /** Cutting `b` in two and freeing the upper half changes no other outstanding block. */
  lemma SplitOuts(p: Pool, b: Addr)
    requires CanSplit(p, b)
    ensures var k, p' := p.st[b].level - 1, Split(p, b);
            var h := b + SizeOf(p, k);
            && b in p'.st && p'.st[b] == Block(k, false) && h in p'.st && p'.st[h] == Block(k, false)
            && BuddyOf(b, p.low + k) == h && !FreeAt(p', BuddyOf(h, p.low + k), k)
            && SameOuts(p, SetFree(p', h, true), b)
  {
    SplitFacts(p, b);
  }

  /** The blocks of `p0` other than `b` are outstanding in `p` too; `f`, which is `b` or was not a block
      with a client, is the only other one. */
  ghost predicate InHand(p0: Pool, p: Pool, b: Addr, f: Addr) {
    && p.base == p0.base && p.low == p0.low && p.top == p0.top
    && (f != b ==> OutLevel(p0, f) == -1 && OutLevel(p, b) == -1)
    && forall c {:trigger OutLevel(p, c)} :: c != b && c != f ==> OutLevel(p, c) == OutLevel(p0, c)
  }

  /** Joining the block in hand with its buddy, which was free, changes no other outstanding block. */
  lemma MergeInHand(p0: Pool, p: Pool, b: Addr, f: Addr, g: Addr)
    requires InHand(p0, p, b, f) && f in p.st && g in p.st && p.st[g].free && g == BuddyOf(f, p.low + p.st[f].level)
    requires CanMerge(SetFree(p, g, false), f)
    ensures InHand(p0, Merge(SetFree(p, g, false), f), b, Min(f, g))
  {
    var q := SetFree(p, g, false);
    MergeFacts(q, f);
    assert BlockOk(q, f);
    BuddyHalves(f, p.low + p.st[f].level);
    var p' := Merge(q, f);
    assert OutLevel(p, g) == -1 && OutLevel(p, f) >= 0;
    forall c {:trigger OutLevel(p', c)} | c != b && c != Min(f, g) ensures OutLevel(p', c) == OutLevel(p0, c) {
      assert c != f ==> OutLevel(p, c) == OutLevel(p0, c);
    }
  }

  lemma HandKeeps(p0: Pool, m0: Bytes, p: Pool, m: Bytes, m': Bytes, b: Addr, f: Addr, x: Addr)
    requires PoolInv(p) && Roomy(p) && InHand(p0, p, b, f) && f in p.st && !p.st[f].free
    requires x in p.st && (p.st[x].free || x == f) && OnlyIn(m, m', x, x + LINK_SIZE)
    requires OutsKept(p0, m0, m, b)
    ensures OutsKept(p0, m0, m', b)
  {
    assert p.st[x].free ==> OutLevel(p, x) == -1;
    WriteKeeps(p0, m0, p, m, m', b, x);
  }

  lemma ReleaseHand(p0: Pool, p: Pool, b: Addr, f: Addr)
    requires InHand(p0, p, b, f) && f in p.st
    ensures SameOuts(p0, SetFree(p, f, true), b) && OutLevel(SetFree(p, f, true), b) == -1
  {
    var p' := SetFree(p, f, true);
    forall c {:trigger OutLevel(p', c)} | c != b ensures OutLevel(p', c) == OutLevel(p0, c) {
      assert c != f ==> OutLevel(p, c) == OutLevel(p0, c);
    }
  }

  // ---------------------------------------------------------------- what a request leaves free

  /** When `r` becomes outstanding at level k, a byte of another free block stays free. */
  lemma OtherByteFree(p: Pool, p': Pool, r: Addr, k: nat, d: Addr, x: Addr)
    requires PoolInv(p) && PoolInv(p') && SameOuts(p, p', r) && OutLevel(p', r) == k
    requires r in p.st && k <= p.st[r].level && d in p.st && p.st[d].free && d != r && d <= x < End(p, d)
    ensures FreeByte(p', x)
  {
    assert BlockOk(p, d) && BlockOk(p, r) && Owns(p.own, d, x);
    PowMonotone(p.low + k, p.low + p.st[r].level);
    assert OwnOk(p', x);
    var c := p'.own[x];
    assert c == r && !p'.st[c].free ==> Owns(p.own, r, x);
    assert c != r ==> OutLevel(p', c) == OutLevel(p, c);
    assert c != r && !p'.st[c].free ==> BlockOk(p, c);
    assert c != r && !p'.st[c].free ==> Owns(p.own, c, x);
  }

  /** A request does not touch a free region of a higher level while there is a free block of a lower one that
      is large enough. */
  lemma HigherRegionsKept(p: Pool, p': Pool, r: Addr, k: nat, i: nat, c: Addr, a: Addr, j: nat)
    requires PoolInv(p) && PoolInv(p') && SameOuts(p, p', r) && OutLevel(p', r) == k && LeastFree(p, r, k)
    requires k <= i < j <= p.top && FreeAt(p, c, i) && FreeRegion(p, a, j)
    ensures FreeRegion(p', a, j)
  {
    FreeRegionInBlock(p, a, j);
    var d := p.own[a];
    assert BlockOk(p, d);
    Nested(d, p.low + p.st[d].level, a, p.low + j);
    forall x {:trigger FreeByte(p', x)} | a <= x < a + SizeOf(p', j) ensures FreeByte(p', x) {
      OtherByteFree(p, p', r, k, d, x);
    }
  }

  // ---------------------------------------------------------------- the clients determine the pool

  /** The same blocks are outstanding. */
  ghost predicate EqualOuts(p: Pool, q: Pool) {
    && q.base == p.base && q.low == p.low && q.top == p.top
    && forall c {:trigger OutLevel(p, c)} {:trigger OutLevel(q, c)} :: OutLevel(q, c) == OutLevel(p, c)
  }

  lemma SameFreeByte(p: Pool, q: Pool, x: Addr)
    requires PoolInv(p) && PoolInv(q) && EqualOuts(p, q) && p.base <= x < PoolEnd(p) && FreeByte(p, x)
    ensures FreeByte(q, x)
  {
    assert OwnOk(q, x);
    var c := q.own[x];
    assert OutLevel(p, c) == OutLevel(q, c);
    assert !q.st[c].free ==> BlockOk(p, c);
    assert !q.st[c].free ==> Owns(p.own, c, x);
  }

  lemma SameFreeRegion(p: Pool, q: Pool, a: Addr, k: nat)
    requires PoolInv(p) && PoolInv(q) && EqualOuts(p, q) && FreeRegion(p, a, k)
    ensures FreeRegion(q, a, k)
  {
    forall x {:trigger FreeByte(q, x)} | a <= x < a + SizeOf(q, k) ensures FreeByte(q, x) {
      assert FreeByte(p, x);
      SameFreeByte(p, q, x);
    }
  }

  /** A free block of one pool is a free block of the other. */
  lemma SameFreeBlock(p: Pool, q: Pool, b: Addr)
    requires PoolInv(p) && PoolInv(q) && EqualOuts(p, q) && b in p.st && p.st[b].free
    ensures b in q.st && q.st[b] == p.st[b]
  {
    var k := p.st[b].level;
    assert BlockOk(p, b) && Owns(p.own, b, b);
    FreeBlockRegion(p, b, k);
    SameFreeRegion(p, q, b, k);
    FreeRegionInBlock(q, b, k);
    var c := q.own[b];
    var j := q.st[c].level;
    assert BlockOk(q, c);
    FreeBlockRegion(q, c, j);
    SameFreeRegion(q, p, c, j);
    FreeRegionInBlock(p, c, j);
    var d := p.own[c];
    assert BlockOk(p, d);
    Nested(d, p.low + p.st[d].level, c, p.low + j);
    assert Owns(p.own, d, b);
  }

  /** Two pools with the same outstanding blocks have the same free blocks: how they came about does not
      matter. */
  lemma ClientsDeterminePool(p: Pool, q: Pool)
    requires PoolInv(p) && PoolInv(q) && EqualOuts(p, q)
    ensures p.st == q.st
  {
    forall b | b in p.st ensures b in q.st && q.st[b] == p.st[b] {
      if p.st[b].free { SameFreeBlock(p, q, b); } else { assert OutLevel(q, b) == OutLevel(p, b); }
    }
    forall b | b in q.st ensures b in p.st && q.st[b] == p.st[b] {
      if q.st[b].free { SameFreeBlock(q, p, b); } else { assert OutLevel(q, b) == OutLevel(p, b); }
    }
  }
}
