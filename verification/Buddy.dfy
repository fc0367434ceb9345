/** The buddy allocator: one free list per block size, threaded through the free blocks themselves. */
module Buddy {
  import opened Arith
  import opened BuddyMath
  import opened BuddyPool
  import opened Common
  import opened Links

  const MIN_HEAP_ALIGN: nat := 8192

  // ---------------------------------------------------------------- sizes and levels

  /** The number of bits of `a`. */
  function Bits(a: nat): nat {
    if a == 0 then 0 else 1 + Bits(a / 2)
  }

  lemma {:induction false} BitsPow(k: nat)
    ensures Bits(Pow2(k)) == k + 1
  {
    if k > 0 { BitsPow(k - 1); }
  }

  /** One more than the logarithm, rounded down. */
  method Log2(a: nat) returns (power: nat)
    ensures power == Bits(a)
  {
    var rest := a;
    power := 0;
    while rest != 0
      invariant power + Bits(rest) == Bits(a)
    {
      rest := rest / 2;
      power := power + 1;
    }
  }

  lemma {:induction false} BitsBound(a: nat)
    requires a > 0
    ensures Bits(a) > 0 && Pow2(Bits(a) - 1) <= a < Pow2(Bits(a))
  {
    if a > 1 { BitsBound(a / 2); }
  }

  /** The exponent of the next power of two. */
  function CeilLog(n: nat): nat {
    if n <= 1 then 0 else 1 + CeilLog((n + 1) / 2)
  }

  lemma {:induction false} CeilLogLeast(n: nat)
    ensures n <= Pow2(CeilLog(n))
    ensures CeilLog(n) > 0 ==> Pow2(CeilLog(n) - 1) < n
  {
    if n > 1 { CeilLogLeast((n + 1) / 2); }
  }

  lemma ExponentInRange(n: nat, lo: nat, hi: nat)
    requires Pow2(lo) <= n <= Pow2(hi)
    ensures lo <= CeilLog(n) <= hi && n <= Pow2(CeilLog(n)) && (CeilLog(n) > lo ==> Pow2(CeilLog(n) - 1) < n)
  {
    var e := CeilLog(n);
    CeilLogLeast(n);
    if e < lo { PowMonotone(e + 1, lo); }
    if e > hi { PowMonotone(hi, e - 1); }
  }

  /** Level `k` is the least one whose blocks have `size` bytes and are aligned to `align`. */
  ghost predicate IsLevelFor(low: nat, size: nat, align: nat, k: nat) {
    && size <= Pow2(low + k) && align <= Pow2(low + k)
    && (k > 0 ==> size > Pow2(low + k - 1) || align > Pow2(low + k - 1))
  }

  lemma LevelInRange(size: nat, align: nat, low: nat, top: nat, s: nat)
    requires size <= Pow2(low + top) && align <= Pow2(low + top) && s == Max(Max(size, align), Pow2(low))
    ensures low <= CeilLog(s) <= low + top && IsLevelFor(low, size, align, CeilLog(s) - low)
    ensures Bits(Pow2(CeilLog(s))) == CeilLog(s) + 1
  {
    PowMonotone(low, low + top);
    ExponentInRange(s, low, low + top);
    BitsPow(CeilLog(s));
    if CeilLog(s) > low { PowMonotone(low, CeilLog(s) - 1); }
  }

  function Max(a: nat, b: nat): nat {
    if a < b then b else a
  }

  /** A request has one level only, so freeing finds the level the block was allocated with. */
  lemma LevelUnique(low: nat, size: nat, align: nat, k: nat, j: nat)
    requires IsLevelFor(low, size, align, k) && IsLevelFor(low, size, align, j)
    ensures k == j
  {
    if k < j { PowMonotone(low + k, low + j - 1); }
    if j < k { PowMonotone(low + j, low + k - 1); }
  }

  // ---------------------------------------------------------------- free lists

  predicate NoDup(s: seq<Addr>) {
    forall i, j {:trigger s[i], s[j]} :: 0 <= i < j < |s| ==> s[i] != s[j]
  }

  function First(s: seq<Addr>): Addr {
    if s == [] then 0 else s[0]
  }

  /** The i-th element, or null past the end. */
  function Nth(s: seq<Addr>, i: nat): Addr {
    if i < |s| then s[i] else 0
  }

  ghost predicate LinkOk(m: Bytes, s: seq<Addr>, i: nat)
    requires i < |s|
  {
    Link(m, s[i]) == Nth(s, i + 1)
  }

  /** Each block holds the address of the next one on its list, the last one null. */
  ghost predicate Chain(m: Bytes, s: seq<Addr>) {
    forall i {:trigger LinkOk(m, s, i)} :: 0 <= i < |s| ==> LinkOk(m, s, i)
  }

  /** The link at `y` shares no byte with [x, e). */
  predicate Beside(x: Addr, e: Addr, y: Addr) {
    y + LINK_SIZE <= x || e <= y
  }

  /** The links of the list share no byte with [x, e). */
  ghost predicate Clear(x: Addr, e: Addr, s: seq<Addr>) {
    forall i {:trigger s[i]} :: 0 <= i < |s| ==> Beside(x, e, s[i])
  }

  /** The links of the list share no byte, and its addresses fit in a link. */
  ghost predicate Spread(s: seq<Addr>) {
    && (forall i {:trigger s[i]} :: 0 <= i < |s| ==> 0 <= s[i] <= U64_MAX)
    && forall i, j {:trigger s[i], s[j]} :: 0 <= i < j < |s| ==> Beside(s[i], s[i] + LINK_SIZE, s[j])
  }

  /** A write elsewhere does not touch a list. */
  lemma ChainKept(m: Bytes, m': Bytes, s: seq<Addr>, x: Addr, e: Addr)
    requires Chain(m, s) && OnlyIn(m, m', x, e) && Clear(x, e, s)
    ensures Chain(m', s)
  {
    forall i {:trigger LinkOk(m', s, i)} | 0 <= i < |s| ensures LinkOk(m', s, i) {
      assert LinkOk(m, s, i);
      LinkSame(m, m', x, e, s[i]);
    }
  }

  lemma ChainPush(m: Bytes, s: seq<Addr>, b: Addr)
    requires Chain(m, s) && Clear(b, b + LINK_SIZE, s) && Spread(s)
    ensures Chain(SetLink(m, b, First(s)), [b] + s)
  {
    var m', s' := SetLink(m, b, First(s)), [b] + s;
    SetLinkOnly(m, b, First(s));
    ChainKept(m, m', s, b, b + LINK_SIZE);
    LinkSet(m, b, First(s));
    forall i {:trigger LinkOk(m', s', i)} | 0 <= i < |s'| ensures LinkOk(m', s', i) {
      if i > 0 {
        assert LinkOk(m', s, i - 1);
        assert s'[i] == s[i - 1];
      }
    }
  }

  /** The list `s` of level k holds the free blocks of that level, each once, and is linked through them.
      On the top list the one block there may be need not hold a link. */
  ghost predicate LevelOk(p: Pool, m: Bytes, s: seq<Addr>, head: Addr, k: nat) {
    && NoDup(s) && head == First(s)
    && (forall b {:trigger b in s} {:trigger FreeAt(p, b, k)} :: b in s <==> FreeAt(p, b, k))
    && (k < p.top ==> Chain(m, s))
  }

  lemma FreeSpread(p: Pool, s: seq<Addr>, k: nat)
    requires PoolInv(p) && Roomy(p) && NoDup(s)
    requires forall b {:trigger b in s} :: b in s ==> FreeAt(p, b, k)
    ensures Spread(s)
  {
    forall i {:trigger s[i]} | 0 <= i < |s| ensures 0 <= s[i] <= U64_MAX {
      assert s[i] in s && BlockOk(p, s[i]);
      LinkInside(p, s[i], s[i]);
    }
    forall i, j {:trigger s[i], s[j]} | 0 <= i < j < |s| ensures Beside(s[i], s[i] + LINK_SIZE, s[j]) {
      assert s[i] in s && s[j] in s;
      LinksApart(p, s[i], s[j]);
    }
  }

  /** The link of a block that is not on the list shares no byte with the links of the list. */
  lemma FreeClear(p: Pool, s: seq<Addr>, k: nat, x: Addr)
    requires PoolInv(p) && Roomy(p) && x in p.st && x !in s
    requires forall b {:trigger b in s} :: b in s ==> FreeAt(p, b, k)
    ensures Clear(x, x + LINK_SIZE, s)
  {
    forall i {:trigger s[i]} | 0 <= i < |s| ensures Beside(x, x + LINK_SIZE, s[i]) {
      assert s[i] in s;
      LinksApart(p, x, s[i]);
    }
  }

  lemma PushLevel(p: Pool, m: Bytes, s: seq<Addr>, head: Addr, k: nat, b: Addr)
    requires PoolInv(p) && Roomy(p) && LevelOk(p, m, s, head, k) && b in p.st && p.st[b] == Block(k, false)
    ensures head >= 0 && LevelOk(SetFree(p, b, true), SetLink(m, b, head), [b] + s, b, k)
  {
    var p', s' := SetFree(p, b, true), [b] + s;
    assert b !in s;
    FreeSpread(p, s, k);
    FreeClear(p, s, k, b);
    forall c {:trigger c in s'} ensures c in s' <==> FreeAt(p', c, k) {
      assert c in s' <==> c == b || c in s;
      assert c in s <==> FreeAt(p, c, k);
    }
    if k < p.top { ChainPush(m, s, b); }
  }

  /** Another list does not notice that a block is taken or freed, nor a link written in a block that is not
      on it. */
  lemma OtherLevel(p: Pool, m: Bytes, m': Bytes, s: seq<Addr>, head: Addr, j: nat, b: Addr, free: bool, x: Addr)
    requires PoolInv(p) && Roomy(p) && LevelOk(p, m, s, head, j) && b in p.st && p.st[b].level != j
    requires x in p.st && !FreeAt(p, x, j) && OnlyIn(m, m', x, x + LINK_SIZE)
    ensures LevelOk(SetFree(p, b, free), m', s, head, j)
  {
    var p' := SetFree(p, b, free);
    forall c {:trigger c in s} ensures c in s <==> FreeAt(p', c, j) {
      assert c in s <==> FreeAt(p, c, j);
    }
    assert x !in s;
    FreeClear(p, s, j, x);
    if j < p.top { ChainKept(m, m', s, x, x + LINK_SIZE); }
  }

  function Dropped(s: seq<Addr>, i: nat): seq<Addr>
    requires i < |s|
  {
    s[..i] + s[i + 1..]
  }

  lemma DroppedMembers(s: seq<Addr>, i: nat, c: Addr)
    requires NoDup(s) && i < |s|
    ensures c in Dropped(s, i) <==> c in s && c != s[i]
  {
    if c in s && c != s[i] {
      var j :| 0 <= j < |s| && s[j] == c;
      assert Dropped(s, i)[if j < i then j else j - 1] == c;
    }
  }

  /** The memory after the i-th block was cut out of its list. */
  function CutBytes(m: Bytes, s: seq<Addr>, i: nat): Bytes
    requires i < |s|
  {
    if i == 0 then m else SetLink(m, s[i - 1], Link(m, s[i]))
  }

  lemma CutOnly(m: Bytes, s: seq<Addr>, i: nat)
    requires i < |s|
    ensures var x := if i == 0 then s[i] else s[i - 1];
            OnlyIn(m, CutBytes(m, s, i), x, x + LINK_SIZE)
  {
    if i > 0 { SetLinkOnly(m, s[i - 1], Link(m, s[i])); }
  }

  lemma CutLink(m: Bytes, s: seq<Addr>, i: nat, j: nat)
    requires Spread(s) && Chain(m, s) && i < |s| && j < |s| - 1
    ensures LinkOk(CutBytes(m, s, i), Dropped(s, i), j)
  {
    var s', m' := Dropped(s, i), CutBytes(m, s, i);
    var o := if j < i then j else j + 1;
    assert s'[j] == s[o] && LinkOk(m, s, o) && LinkOk(m, s, i);
    assert Nth(s', j + 1) == if j + 1 < i then Nth(s, j + 1) else Nth(s, j + 2);
    if i > 0 {
      if o == i - 1 {
        LinkSet(m, s[i - 1], Link(m, s[i]));
      } else {
        CutOnly(m, s, i);
        assert Beside(s[i - 1], s[i - 1] + LINK_SIZE, s[o]);
        LinkSame(m, m', s[i - 1], s[i - 1] + LINK_SIZE, s[o]);
      }
    }
  }

  lemma CutChain(m: Bytes, s: seq<Addr>, i: nat)
    requires Spread(s) && Chain(m, s) && i < |s|
    ensures Chain(CutBytes(m, s, i), Dropped(s, i))
  {
    var s', m' := Dropped(s, i), CutBytes(m, s, i);
    forall j {:trigger LinkOk(m', s', j)} | 0 <= j < |s'| ensures LinkOk(m', s', j) {
      CutLink(m, s, i, j);
    }
  }

  lemma TakeLevel(p: Pool, m: Bytes, s: seq<Addr>, head: Addr, k: nat, i: nat)
    requires PoolInv(p) && Roomy(p) && LevelOk(p, m, s, head, k) && k < p.top && i < |s|
    ensures s[i] in p.st
    ensures LevelOk(SetFree(p, s[i], false), CutBytes(m, s, i), Dropped(s, i),
                    if i == 0 then Link(m, s[i]) else head, k)
  {
    assert s[i] in s;
    assert FreeAt(p, s[i], k) && LinkOk(m, s, i);
    var p', s' := SetFree(p, s[i], false), Dropped(s, i);
    FreeSpread(p, s, k);
    CutChain(m, s, i);
    forall c {:trigger c in s'} ensures c in s' <==> FreeAt(p', c, k) {
      DroppedMembers(s, i, c);
      assert c in s <==> FreeAt(p, c, k);
    }
  }

  /** Walks a list to the place of a block. */
  method Locate(head: Addr, m: Bytes, block: Addr, ghost s: seq<Addr>)
    returns (found: bool, prev: Addr, ghost i: nat)
    requires head == First(s) && Chain(m, s) && 0 !in s
    ensures found <==> block in s
    ensures found ==> i < |s| && s[i] == block && prev == if i == 0 then 0 else s[i - 1]
  {
    prev, i := 0, 0;
    var curr := head;
    while curr != 0
      invariant i <= |s| && curr == (if i < |s| then s[i] else 0) && prev == (if i == 0 then 0 else s[i - 1])
      invariant block !in s[..i]
      decreases |s| - i
    {
      if curr == block {
        return true, prev, i;
      }
      assert LinkOk(m, s, i);
      prev, curr := curr, Link(m, curr);
      i := i + 1;
    }
    assert s[..i] == s;
    found := false;
  }

  // ---------------------------------------------------------------- the allocator

  lemma FreshLevel(base: Addr, low: nat, top: nat, m: Bytes, k: nat)
    requires k <= top
    ensures LevelOk(Fresh(base, low, top), m, if k == top then [base] else [], if k == top then base else 0, k)
  {
  }

  /** Halving a power of two. */
  lemma MinSize(exponent: nat, n: nat)
    requires n <= exponent
    ensures Pow2(exponent) / Pow2(n) == Pow2(exponent - n) && Bits(Pow2(exponent - n)) == exponent - n + 1
  {
    PowSplit(n, exponent - n);
    TimesMod(Pow2(n), Pow2(exponent - n));
    BitsPow(exponent - n);
  }

  /** `level - 1 + log2` on bytes. */
  function Shift(level: nat, log2: nat): nat {
    ((level + 255) % 256 + log2 % 256) % 256
  }

  lemma ShiftIs(level: nat, low: nat)
    requires level + low < 64
    ensures Shift(level, low + 1) == level + low
  {
  }

  class BuddyAllocator {
    const baseAddr: Addr
    const maxBlkSize: nat
    const minBlkSize: nat
    const log2MinBlkSize: nat
    const freeLists: array<Addr>
    /** The memory of the pool. */
    var bytes: Bytes
    ghost const low: nat
    ghost const top: nat
    ghost var pool: Pool
    ghost var lists: seq<seq<Addr>>

    ghost predicate Sizes()
      reads this
    {
      && freeLists.Length == top + 1 && low + top < 64
      && minBlkSize == Pow2(low) && maxBlkSize == Pow2(low + top) && log2MinBlkSize == low + 1
      && maxBlkSize >= MIN_HEAP_ALIGN && minBlkSize >= LINK_SIZE
      && baseAddr > 0 && baseAddr + maxBlkSize <= U64_MAX + 1
      && pool.base == baseAddr && pool.low == low && pool.top == top
    }

    ghost predicate Valid()
      reads this, freeLists
    {
      && Sizes() && PoolInv(pool) && |lists| == top + 1
      && (forall x {:trigger x in bytes} :: baseAddr <= x < PoolEnd(pool) ==> x in bytes)
      && (forall k {:trigger LevelOk(pool, bytes, lists[k], freeLists[k], k)} ::
           0 <= k <= top ==> LevelOk(pool, bytes, lists[k], freeLists[k], k))
    }

    constructor (baseAddr: Addr, maxBlkSize: nat, levels: nat, memory: Bytes, ghost exponent: nat)
      requires maxBlkSize == Pow2(exponent) && exponent < 64 && 0 < levels <= exponent + 1
      requires baseAddr > 0 && Aligned(baseAddr, exponent) && baseAddr + maxBlkSize <= U64_MAX + 1
      requires maxBlkSize / Pow2(levels - 1) >= LINK_SIZE && maxBlkSize >= MIN_HEAP_ALIGN
      requires forall x {:trigger x in memory} :: baseAddr <= x < baseAddr + maxBlkSize ==> x in memory
      ensures Valid() && top == levels - 1 && low + top == exponent && pool == Fresh(baseAddr, low, top)
      ensures this.baseAddr == baseAddr && bytes == memory && fresh(freeLists)
    {
      this.baseAddr := baseAddr;
      this.maxBlkSize := maxBlkSize;
      ghost var l: nat := exponent - (levels - 1);
      MinSize(exponent, levels - 1);
      minBlkSize := maxBlkSize / Pow2(levels - 1);
      var bits := Log2(maxBlkSize / Pow2(levels - 1));
      log2MinBlkSize := bits;
      var heads := new Addr[levels](_ => 0);
      heads[levels - 1] := baseAddr;
      freeLists := heads;
      bytes := memory;
      low, top := l, levels - 1;
      pool := Fresh(baseAddr, l, levels - 1);
      lists := seq(levels, k requires 0 <= k < levels => if k == levels - 1 then [baseAddr] else []);
      new;
      FreshValid();
    }

    lemma FreshValid()
      requires Sizes() && Aligned(baseAddr, low + top) && pool == Fresh(baseAddr, low, top) && |lists| == top + 1
      requires forall x {:trigger x in bytes} :: baseAddr <= x < baseAddr + maxBlkSize ==> x in bytes
      requires forall k {:trigger lists[k]} :: 0 <= k <= top ==> lists[k] == if k == top then [baseAddr] else []
      requires forall k {:trigger freeLists[k]} :: 0 <= k <= top ==> freeLists[k] == if k == top then baseAddr else 0
      ensures Valid()
    {
      FreshOk(baseAddr, low, top);
      forall k {:trigger LevelOk(pool, bytes, lists[k], freeLists[k], k)} | 0 <= k <= top
        ensures LevelOk(pool, bytes, lists[k], freeLists[k], k)
      {
        FreshLevel(baseAddr, low, top, bytes, k);
      }
    }

    /** The block size of a level. */
    function LevelSize(level: nat): nat {
      minBlkSize * Pow2(level)
    }

    /** The buddy of a block, none for the whole pool. The shift is computed on bytes, so at level 0 it
        wraps around. */
    function FindBuddy(block: nat, level: nat): Option<Addr>
      requires baseAddr <= block <= baseAddr + maxBlkSize
    {
      if LevelSize(level) == maxBlkSize then None
      else Some(Xor(block, Pow2(Shift(level, log2MinBlkSize))))
    }

    lemma LevelSizeIs(level: nat)
      requires Sizes() && level <= top
      ensures LevelSize(level) == Pow2(low + level) && (LevelSize(level) == maxBlkSize <==> level == top)
    {
      PowSplit(low, level);
      if level < top { PowMonotone(low + level + 1, low + top); }
    }

    /** On the blocks of the pool this is the other half of the region of twice the size. */
    lemma FindBuddyIs(block: nat, level: nat)
      requires Sizes() && level <= top && baseAddr <= block <= baseAddr + maxBlkSize
      ensures FindBuddy(block, level) == if level == top then None else Some(BuddyOf(block, low + level))
    {
      LevelSizeIs(level);
      ShiftIs(level, low);
      XorPow(block, low + level);
    }

    method AllocationLevel(size: nat, align: nat) returns (level: nat)
      requires Sizes() && size < maxBlkSize && align < MIN_HEAP_ALIGN
      ensures level <= top && IsLevelFor(low, size, align, level)
    {
      var s := Max(Max(size, align), minBlkSize);
      LevelInRange(size, align, low, top, s);
      var bits := Log2(Pow2(CeilLog(s)));
      level := bits - log2MinBlkSize;
    }

    // -------------------------------------------------------------- single list operations

    /** Frees a block: its first eight bytes link it to the head of its list. */
    method FreeBlk(block: Addr, level: nat)
      requires Valid() && level <= top && block in pool.st && pool.st[block] == Block(level, false)
      requires level < top ==> !FreeAt(pool, BuddyOf(block, low + level), level)
      modifies this`bytes, this`pool, this`lists, freeLists
      ensures Valid() && pool == SetFree(old(pool), block, true)
      ensures old(freeLists[level]) >= 0 && bytes == SetLink(old(bytes), block, old(freeLists[level]))
      ensures OnlyIn(old(bytes), bytes, block, block + LINK_SIZE)
      ensures lists == old(lists)[level := [block] + old(lists[level])]
    {
      SetFreeOk(pool, block, true);
      PushLevel(pool, bytes, lists[level], freeLists[level], level, block);
      ghost var m' := SetLink(bytes, block, freeLists[level]);
      SetLinkOnly(bytes, block, freeLists[level]);
      forall k | 0 <= k <= top && k != level
        ensures LevelOk(SetFree(pool, block, true), m', lists[k], freeLists[k], k)
      {
        OtherLevel(pool, bytes, m', lists[k], freeLists[k], k, block, true, block);
      }
      bytes := SetLink(bytes, block, freeLists[level]);
      freeLists[level] := block;
      lists := lists[level := [block] + lists[level]];
      pool := SetFree(pool, block, true);
    }

    lemma TopList()
      requires Valid()
      ensures |lists[top]| <= 1
    {
      var s := lists[top];
      assert LevelOk(pool, bytes, s, freeLists[top], top);
      assert |s| >= 2 ==> s[0] != s[1];
      forall i | 0 <= i < |s| ensures s[i] == baseAddr {
        assert s[i] in s && BlockOk(pool, s[i]);
      }
    }

    lemma TakeTop()
      requires Valid() && lists[top] != []
      ensures var b := lists[top][0]; b in pool.st && LevelOk(SetFree(pool, b, false), bytes, [], 0, top)
    {
      TopList();
      var s := lists[top];
      assert LevelOk(pool, bytes, s, freeLists[top], top);
      var b := s[0];
      assert b in s && s == [b];
      forall c ensures !FreeAt(SetFree(pool, b, false), c, top) {
        assert c in s <==> FreeAt(pool, c, top);
      }
    }

    /** What holds after the first block of a list was taken. */
    lemma PopOk(level: nat)
      requires Valid() && level <= top && lists[level] != []
      ensures var b, s := freeLists[level], lists[level];
              && b == s[0] && FreeAt(pool, b, level) && PoolInv(SetFree(pool, b, false))
              && LevelOk(SetFree(pool, b, false), bytes, Dropped(s, 0),
                         if level == top then 0 else Link(bytes, b), level)
              && forall k {:trigger lists[k]} :: 0 <= k <= top && k != level ==>
                   LevelOk(SetFree(pool, b, false), bytes, lists[k], freeLists[k], k)
    {
      var b, s := freeLists[level], lists[level];
      assert LevelOk(pool, bytes, s, b, level);
      assert s[0] in s && BlockOk(pool, b);
      SetFreeOk(pool, b, false);
      if level == top {
        TakeTop();
        TopList();
        assert Dropped(s, 0) == [];
      } else {
        TakeLevel(pool, bytes, s, b, level, 0);
      }
      forall k {:trigger lists[k]} | 0 <= k <= top && k != level
        ensures LevelOk(SetFree(pool, b, false), bytes, lists[k], freeLists[k], k)
      {
        OtherLevel(pool, bytes, bytes, lists[k], freeLists[k], k, b, false, b);
      }
    }

    lemma HeadIsNull(level: nat)
      requires Valid() && level <= top
      ensures freeLists[level] == 0 <==> lists[level] == []
      ensures lists[level] == [] ==> forall b :: !FreeAt(pool, b, level)
    {
      var s := lists[level];
      assert LevelOk(pool, bytes, s, freeLists[level], level);
      if s != [] { assert s[0] in s && BlockOk(pool, s[0]); }
    }

    /** Takes the first block of a list. */
    method PopBlkWithLevel(level: nat) returns (r: Option<Addr>)
      requires Valid() && level <= top
      modifies this`pool, this`lists, freeLists
      ensures Valid()
      ensures r.None? ==> pool == old(pool) && lists == old(lists) && forall b :: !FreeAt(pool, b, level)
      ensures r.Some? ==> FreeAt(old(pool), r.value, level) && pool == SetFree(old(pool), r.value, false)
      ensures r.Some? ==> old(lists[level]) == [r.value] + lists[level] && lists == old(lists)[level := lists[level]]
    {
      HeadIsNull(level);
      var head := freeLists[level];
      if head == 0 {
        return None;
      }
      PopOk(level);
      if level == freeLists.Length - 1 {
        freeLists[level] := 0;
      } else {
        freeLists[level] := Link(bytes, head);
      }
      lists := lists[level := Dropped(lists[level], 0)];
      pool := SetFree(pool, head, false);
      return Some(head);
    }

    lemma RemoveOk(level: nat, i: nat)
      requires Valid() && level < top && i < |lists[level]|
      ensures var b, m', s := lists[level][i], CutBytes(bytes, lists[level], i), lists[level];
              var x := if i == 0 then b else s[i - 1];
              && FreeAt(pool, b, level) && baseAddr <= b && PoolInv(SetFree(pool, b, false))
              && FreeAt(pool, x, level) && x > 0 && OnlyIn(bytes, m', x, x + LINK_SIZE)
              && LevelOk(SetFree(pool, b, false), m', Dropped(s, i),
                         if i == 0 then Link(bytes, b) else freeLists[level], level)
              && forall k {:trigger lists[k]} :: 0 <= k <= top && k != level ==>
                   LevelOk(SetFree(pool, b, false), m', lists[k], freeLists[k], k)
    {
      var s := lists[level];
      assert LevelOk(pool, bytes, s, freeLists[level], level);
      var b, m' := s[i], CutBytes(bytes, s, i);
      assert b in s && BlockOk(pool, b);
      var x := if i == 0 then b else s[i - 1];
      assert x in s && BlockOk(pool, x);
      TakeLevel(pool, bytes, s, freeLists[level], level, i);
      SetFreeOk(pool, b, false);
      CutOnly(bytes, s, i);
      forall k {:trigger lists[k]} | 0 <= k <= top && k != level
        ensures LevelOk(SetFree(pool, b, false), m', lists[k], freeLists[k], k)
      {
        OtherLevel(pool, bytes, m', lists[k], freeLists[k], k, b, false, x);
      }
    }

    lemma ListMembers(level: nat)
      requires Valid() && level < top
      ensures var s := lists[level];
              && Chain(bytes, s) && freeLists[level] == First(s)
              && forall b {:trigger b in s} :: (b in s <==> FreeAt(pool, b, level)) && (b in s ==> b != 0)
    {
      var s := lists[level];
      assert LevelOk(pool, bytes, s, freeLists[level], level);
      forall b {:trigger b in s} | b in s ensures b != 0 {
        assert BlockOk(pool, b);
      }
    }

    /** Takes the i-th block off its list. */
    method CutFromList(block: Addr, level: nat, prev: Addr, ghost i: nat) returns (ghost x: Addr)
      requires Valid() && level < top && i < |lists[level]| && lists[level][i] == block
      requires prev == if i == 0 then 0 else lists[level][i - 1]
      modifies this`bytes, this`pool, this`lists, freeLists
      ensures Valid() && block in old(pool).st && pool == SetFree(old(pool), block, false)
      ensures FreeAt(old(pool), x, level) && OnlyIn(old(bytes), bytes, x, x + LINK_SIZE)
    {
      RemoveOk(level, i);
      x := if i == 0 then block else prev;
      if prev == 0 {
        freeLists[level] := Link(bytes, block);
      } else {
        bytes := SetLink(bytes, prev, Link(bytes, block));
      }
      lists := lists[level := Dropped(lists[level], i)];
      pool := SetFree(pool, block, false);
    }

    /** Takes a given block off its list, if it is there. Only the link of a free block may
        change. */
    method RemoveBlk(block: Addr, level: nat) returns (removed: bool, ghost x: Addr)
      requires Valid() && level < top
      modifies this`bytes, this`pool, this`lists, freeLists
      ensures Valid() && (removed <==> FreeAt(old(pool), block, level))
      ensures !removed ==> pool == old(pool) && bytes == old(bytes)
      ensures removed ==>
        && pool == SetFree(old(pool), block, false) && FreeAt(old(pool), x, level)
        && OnlyIn(old(bytes), bytes, x, x + LINK_SIZE)
    {
      ListMembers(level);
      var prev;
      ghost var i;
      removed, prev, i := Locate(freeLists[level], bytes, block, lists[level]);
      x := block;
      if !removed {
        return;
      }
      x := CutFromList(block, level, prev, i);
    }

    // -------------------------------------------------------------- allocating

    lemma SameFreeValid(p': Pool, k: nat)
      requires Valid() && k <= top && p'.top == top
      requires forall c {:trigger FreeAt(p', c, k)} :: FreeAt(p', c, k) <==> FreeAt(pool, c, k)
      ensures LevelOk(p', bytes, lists[k], freeLists[k], k)
    {
      assert LevelOk(pool, bytes, lists[k], freeLists[k], k);
    }

    /** Cuts an outstanding block in two. */
    ghost method CutBlock(block: Addr)
      requires Valid() && CanSplit(pool, block)
      modifies this`pool
      ensures Valid() && pool == Split(old(pool), block)
    {
      SplitOk(pool, block);
      SplitFacts(pool, block);
      forall k | 0 <= k <= top ensures LevelOk(Split(pool, block), bytes, lists[k], freeLists[k], k) {
        SameFreeValid(Split(pool, block), k);
      }
      pool := Split(pool, block);
    }

    lemma SplitBuddy(block: Addr, level: nat)
      requires Valid() && block in pool.st && pool.st[block] == Block(level + 1, false)
      ensures level < top && 0 <= baseAddr <= block <= baseAddr + maxBlkSize
      ensures FindBuddy(block, level) == Some(BuddyOf(block, low + level))
    {
      assert BlockOk(pool, block);
      FindBuddyIs(block, level);
    }

    lemma SplitReady(block: Addr, level: nat)
      requires Valid() && block in pool.st && pool.st[block] == Block(level + 1, false)
      ensures CanSplit(pool, block) && level < top && baseAddr <= block <= baseAddr + maxBlkSize
      ensures FindBuddy(block, level) == Some(block + SizeOf(pool, level))
      ensures var h, p := block + SizeOf(pool, level), Split(pool, block);
              && block in p.st && p.st[block] == Block(level, false) && h in p.st && p.st[h] == Block(level, false)
              && !FreeAt(p, BuddyOf(h, low + level), level) && SameOuts(pool, SetFree(p, h, true), block)
    {
      SplitBuddy(block, level);
      SplitOuts(pool, block);
    }

    /** Halves an outstanding block and frees the upper half. */
    method SplitOnce(block: Addr, level: nat)
      requires Valid() && block in pool.st && pool.st[block] == Block(level + 1, false)
      modifies this`bytes, this`pool, this`lists, freeLists
      ensures Valid() && block in pool.st && pool.st[block] == Block(level, false) && SameOuts(old(pool), pool, block)
      ensures var h := block + SizeOf(pool, level);
              FreeAt(pool, h, level) && OnlyIn(old(bytes), bytes, h, h + LINK_SIZE)
    {
      SplitReady(block, level);
      CutBlock(block);
      var buddy := FindBuddy(block, level).value;
      FreeBlk(buddy, level);
    }

    /** Halves an outstanding block until it has the new level. */
    method SplitBlk(block: Addr, level: nat, newLevel: nat)
      requires Valid() && newLevel <= level && block in pool.st && pool.st[block] == Block(level, false)
      modifies this`bytes, this`pool, this`lists, freeLists
      ensures Valid() && block in pool.st && pool.st[block] == Block(newLevel, false)
      ensures SameOuts(old(pool), pool, block) && OutsKept(old(pool), old(bytes), bytes, block)
    {
      var l := level;
      while l > newLevel
        invariant newLevel <= l && Valid() && block in pool.st && pool.st[block] == Block(l, false)
        invariant SameOuts(old(pool), pool, block) && OutsKept(old(pool), old(bytes), bytes, block)
      {
        l := l - 1;
        ghost var p, m := pool, bytes;
        SplitOnce(block, l);
        SameOutsTrans(old(pool), p, pool, block);
        ghost var h := block + SizeOf(pool, l);
        assert OutLevel(pool, h) == -1;
        WriteKeeps(old(pool), old(bytes), pool, m, bytes, block, h);
      }
    }

    /** Hands out a block of the level the request needs: the front of the first block on the first list, from
        that level up, that is not empty. The result is null exactly when no aligned region of that size is
        free. */
    method Allocate(size: nat, align: nat) returns (block: Addr, ghost level: nat)
      requires Valid() && size < maxBlkSize && align < MIN_HEAP_ALIGN
      modifies this`bytes, this`pool, this`lists, freeLists
      ensures Valid() && level <= top && IsLevelFor(low, size, align, level)
      ensures block == 0 <==> forall a {:trigger FreeRegion(old(pool), a, level)} :: !FreeRegion(old(pool), a, level)
      ensures block == 0 ==> pool == old(pool) && bytes == old(bytes)
      ensures block != 0 ==>
        && FreeRegion(old(pool), block, level) && block in pool.st && pool.st[block] == Block(level, false)
        && LeastFree(old(pool), block, level) && old(pool).st[block].level < |old(lists)|
        && block == First(old(lists)[old(pool).st[block].level])
        && SameOuts(old(pool), pool, block) && OutsKept(old(pool), old(bytes), bytes, block)
    {
      var levelReq := AllocationLevel(size, align);
      level := levelReq;
      var l := levelReq;
      while l < freeLists.Length
        invariant levelReq <= l && Valid() && pool == old(pool) && bytes == old(bytes) && lists == old(lists)
        invariant forall b, k {:trigger FreeAt(pool, b, k)} :: levelReq <= k < l ==> !FreeAt(pool, b, k)
      {
        var r := PopBlkWithLevel(l);
        if r.Some? {
          ghost var p := pool;
          FreeBlockRegion(old(pool), r.value, levelReq);
          if l > levelReq {
            SplitBlk(r.value, l, levelReq);
          }
          OutsKeptSame(old(pool), p, old(bytes), bytes, r.value);
          return r.value, level;
        }
        l := l + 1;
      }
      forall a {:trigger FreeRegion(pool, a, level)} ensures !FreeRegion(pool, a, level) {
        NoRegion(pool, a, level);
      }
      block := 0;
    }

    // -------------------------------------------------------------- freeing

    /** Joins an outstanding block with its outstanding buddy. */
    ghost method JoinBlock(block: Addr)
      requires Valid() && CanMerge(pool, block)
      modifies this`pool
      ensures Valid() && pool == Merge(old(pool), block)
    {
      MergeOk(pool, block);
      MergeFacts(pool, block);
      forall k | 0 <= k <= top ensures LevelOk(Merge(pool, block), bytes, lists[k], freeLists[k], k) {
        SameFreeValid(Merge(pool, block), k);
      }
      pool := Merge(pool, block);
    }

    /** Merges an outstanding block with its buddy if that one is free. */
    method MergeBuddy(block: Addr, level: nat, buddy: Addr) returns (merged: bool, ghost x: Addr)
      requires Valid() && level < top && block in pool.st && pool.st[block] == Block(level, false)
      requires buddy == BuddyOf(block, low + level)
      modifies this`bytes, this`pool, this`lists, freeLists
      ensures Valid() && (merged <==> FreeAt(old(pool), buddy, level))
      ensures !merged ==> pool == old(pool) && bytes == old(bytes)
      ensures merged ==>
        && FreeAt(old(pool), x, level) && OnlyIn(old(bytes), bytes, x, x + LINK_SIZE)
        && CanMerge(SetFree(old(pool), buddy, false), block) && pool == Merge(SetFree(old(pool), buddy, false), block)
    {
      assert BlockOk(pool, block);
      BuddyHalves(block, low + level);
      merged, x := RemoveBlk(buddy, level);
      if merged {
        JoinBlock(block);
      }
    }

    /** One round of the merge: the block in hand grows, and no client notices. */
    method MergeRound(full: Addr, level: nat, buddy: Addr, ghost block: Addr, ghost p0: Pool, ghost m0: Bytes)
      returns (merged: bool)
      requires Valid() && level < top && full in pool.st && pool.st[full] == Block(level, false)
      requires buddy == BuddyOf(full, low + level) && InHand(p0, pool, block, full) && OutsKept(p0, m0, bytes, block)
      modifies this`bytes, this`pool, this`lists, freeLists
      ensures Valid() && OutsKept(p0, m0, bytes, block) && (merged <==> FreeAt(old(pool), buddy, level))
      ensures !merged ==> pool == old(pool)
      ensures merged ==>
        && Min(buddy, full) in pool.st && pool.st[Min(buddy, full)] == Block(level + 1, false)
        && InHand(p0, pool, block, Min(buddy, full))
    {
      ghost var p, m, x := pool, bytes, 0;
      merged, x := MergeBuddy(full, level, buddy);
      if merged {
        HandKeeps(p0, m0, p, m, bytes, block, full, x);
        MergeInHand(p0, p, block, full, buddy);
        MergeFacts(SetFree(p, buddy, false), full);
      }
    }

    /** The end of the merge: the block in hand becomes free. */
    method Release(full: Addr, level: nat, ghost block: Addr, ghost p0: Pool, ghost m0: Bytes)
      requires Valid() && level <= top && full in pool.st && pool.st[full] == Block(level, false)
      requires level < top ==> !FreeAt(pool, BuddyOf(full, low + level), level)
      requires InHand(p0, pool, block, full) && OutsKept(p0, m0, bytes, block)
      modifies this`bytes, this`pool, this`lists, freeLists
      ensures Valid() && SameOuts(p0, pool, block) && OutLevel(pool, block) == -1 && OutsKept(p0, m0, bytes, block)
    {
      ghost var p, m := pool, bytes;
      ReleaseHand(p0, pool, block, full);
      FreeBlk(full, level);
      HandKeeps(p0, m0, p, m, bytes, block, full, full);
    }

    /** Gives a block back, merged with its buddy as long as that one is free. */
    method Deallocate(block: Addr, size: nat, align: nat)
      requires Valid() && size < maxBlkSize && align < MIN_HEAP_ALIGN
      requires block in pool.st && !pool.st[block].free && IsLevelFor(low, size, align, pool.st[block].level)
      modifies this`bytes, this`pool, this`lists, freeLists
      ensures Valid() && SameOuts(old(pool), pool, block) && OutLevel(pool, block) == -1
      ensures OutsKept(old(pool), old(bytes), bytes, block)
    {
      ghost var p0, m0 := pool, bytes;
      var level := AllocationLevel(size, align);
      LevelUnique(low, size, align, level, pool.st[block].level);
      var fullBlock := block;
      while level < freeLists.Length
        invariant level <= top && Valid() && fullBlock in pool.st && pool.st[fullBlock] == Block(level, false)
        invariant InHand(p0, pool, block, fullBlock) && OutsKept(p0, m0, bytes, block)
        decreases freeLists.Length - level
      {
        assert BlockOk(pool, fullBlock);
        FindBuddyIs(fullBlock, level);
        var buddy := FindBuddy(fullBlock, level);
        if buddy.Some? {
          var merged := MergeRound(fullBlock, level, buddy.value, block, p0, m0);
          if merged {
            fullBlock := Min(buddy.value, fullBlock);
            level := level + 1;
            continue;
          }
        }
        Release(fullBlock, level, block, p0, m0);
        return;
      }
      assert false;
    }
  }
}
