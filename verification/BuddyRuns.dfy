/** Whole runs of the buddy allocator: clients allocate, free and write, in any order. */
module BuddyRuns {
  import opened Arith
  import opened BuddyMath
  import opened BuddyPool
  import opened Buddy
  import opened Common
  import opened Links
  import opened Traces

  /** A request for `size` bytes aligned to `Pow2(shift)`. */
  datatype Layout = Layout(size: nat, shift: nat)

  datatype Op = Alloc(layout: Layout) | Free(p: Addr) | Write(p: Addr, x: Addr, v: Byte)

  ghost predicate TrackOk(p: Pool, live: map<Addr, Layout>, b: Addr) {
    && (b in live <==> OutLevel(p, b) >= 0)
    && (b in live ==> IsLevelFor(p.low, live[b].size, Pow2(live[b].shift), OutLevel(p, b)))
  }

  /** `live` holds the requests that were served and not given back. */
  ghost predicate Tracks(p: Pool, live: map<Addr, Layout>) {
    forall b {:trigger TrackOk(p, live, b)} :: TrackOk(p, live, b)
  }

  predicate Disjoint(b: Addr, n: nat, c: Addr, m: nat) {
    b + n <= c || c + m <= b
  }

  /** Every live allocation has its size and alignment, lies in the pool and shares no byte with another. */
  ghost predicate LiveApart(p: Pool, live: map<Addr, Layout>) {
    && (forall b {:trigger live[b]} :: b in live ==>
         Aligned(b, live[b].shift) && p.base <= b && b + live[b].size <= PoolEnd(p))
    && forall b, c {:trigger live[b], live[c]} :: b in live && c in live && b != c ==>
         Disjoint(b, live[b].size, c, live[c].size)
  }

  lemma PowInjective(i: nat, j: nat)
    requires Pow2(i) <= Pow2(j)
    ensures i <= j
  {
    if j < i { PowMonotone(j + 1, i); }
  }

  lemma TracksApart(p: Pool, live: map<Addr, Layout>)
    requires PoolInv(p) && Tracks(p, live)
    ensures LiveApart(p, live)
  {
    forall b {:trigger live[b]} | b in live
      ensures Aligned(b, live[b].shift) && p.base <= b && b + live[b].size <= PoolEnd(p)
    {
      assert TrackOk(p, live, b) && BlockOk(p, b);
      PowInjective(live[b].shift, p.low + p.st[b].level);
      AlignedLess(b, live[b].shift, p.low + p.st[b].level);
    }
    forall b, c {:trigger live[b], live[c]} | b in live && c in live && b != c
      ensures Disjoint(b, live[b].size, c, live[c].size)
    {
      assert TrackOk(p, live, b) && TrackOk(p, live, c);
      if b < c { BlocksApart(p, b, c); } else { BlocksApart(p, c, b); }
    }
  }

  lemma AllocTracks(p: Pool, p': Pool, live: map<Addr, Layout>, b: Addr, layout: Layout, k: nat)
    requires Tracks(p, live) && SameOuts(p, p', b) && OutLevel(p', b) == k
    requires IsLevelFor(p.low, layout.size, Pow2(layout.shift), k)
    ensures Tracks(p', live[b := layout])
  {
    forall c {:trigger TrackOk(p', live[b := layout], c)} ensures TrackOk(p', live[b := layout], c) {
      assert TrackOk(p, live, c);
      assert c != b ==> OutLevel(p', c) == OutLevel(p, c);
    }
  }

  lemma FreeTracks(p: Pool, p': Pool, live: map<Addr, Layout>, b: Addr)
    requires Tracks(p, live) && SameOuts(p, p', b) && OutLevel(p', b) == -1
    ensures Tracks(p', live - {b})
  {
    forall c {:trigger TrackOk(p', live - {b}, c)} ensures TrackOk(p', live - {b}, c) {
      assert TrackOk(p, live, c);
      assert c != b ==> OutLevel(p', c) == OutLevel(p, c);
    }
  }

  /** The free lists do not pass through the bytes of an outstanding block. */
  lemma WriteOk(p: Pool, m: Bytes, s: seq<Addr>, head: Addr, k: nat, b: Addr, x: Addr, v: Byte)
    requires PoolInv(p) && Roomy(p) && LevelOk(p, m, s, head, k) && OutLevel(p, b) >= 0 && b <= x < End(p, b)
    ensures LevelOk(p, m[x := v], s, head, k)
  {
    assert BlockOk(p, b) && Owns(p.own, b, x);
    forall i {:trigger s[i]} | 0 <= i < |s| ensures Beside(x, x + 1, s[i]) {
      assert s[i] in s;
      if s[i] <= x < s[i] + LINK_SIZE { LinkInside(p, s[i], x); }
    }
    if k < p.top { ChainKept(m, m[x := v], s, x, x + 1); }
  }

  /** A client stores a byte in its block. */
  method ClientWrite(heap: BuddyAllocator, b: Addr, x: Addr, v: Byte)
    requires heap.Valid() && OutLevel(heap.pool, b) >= 0 && b <= x < End(heap.pool, b)
    modifies heap`bytes
    ensures heap.Valid() && heap.bytes == old(heap.bytes)[x := v]
  {
    forall k | 0 <= k <= heap.top
      ensures LevelOk(heap.pool, heap.bytes[x := v], heap.lists[k], heap.freeLists[k], k)
    {
      WriteOk(heap.pool, heap.bytes, heap.lists[k], heap.freeLists[k], k, b, x, v);
    }
    heap.bytes := heap.bytes[x := v];
  }

  /** The requests the allocator admits. */
  predicate LayoutOk(maxBlkSize: nat, layout: Layout) {
    layout.size < maxBlkSize && Pow2(layout.shift) < MIN_HEAP_ALIGN
  }

  predicate AllOk(maxBlkSize: nat, live: map<Addr, Layout>) {
    forall b {:trigger live[b]} :: b in live ==> LayoutOk(maxBlkSize, live[b])
  }

  // ---------------------------------------------------------------- what one operation does

  datatype State = State(pool: Pool, bytes: Bytes)

  /** A request of level `k` that was answered with `r`: null iff no aligned region of the level is free, else
      such a region, at the start of a free block that is no larger than needed; no other block becomes or stops
      being outstanding, and clients keep their data. */
  ghost predicate Allocated(s: State, k: nat, r: Addr, s': State) {
    && (r == 0 <==> forall a {:trigger FreeRegion(s.pool, a, k)} :: !FreeRegion(s.pool, a, k))
    && (r == 0 ==> s' == s)
    && (r != 0 ==>
         && FreeRegion(s.pool, r, k) && OutLevel(s'.pool, r) == k && LeastFree(s.pool, r, k)
         && SameOuts(s.pool, s'.pool, r) && OutsKept(s.pool, s.bytes, s'.bytes, r))
  }

  /** The block at `b`, and no other, stopped being outstanding; the other clients keep their data. */
  ghost predicate Deallocated(s: State, b: Addr, s': State) {
    && OutLevel(s'.pool, b) == -1 && SameOuts(s.pool, s'.pool, b) && OutsKept(s.pool, s.bytes, s'.bytes, b)
  }

  /** One operation by clients who hold `live`. Frees and writes with other pointers are not made. */
  ghost predicate StepRel(live: map<Addr, Layout>, s: State, op: Op, r: Addr, s': State) {
    match op
    case Alloc(layout) =>
      exists k: nat {:trigger IsLevelFor(s.pool.low, layout.size, Pow2(layout.shift), k)} ::
        IsLevelFor(s.pool.low, layout.size, Pow2(layout.shift), k) && k <= s.pool.top && Allocated(s, k, r, s')
    case Free(b) => r == 0 && if b in live then Deallocated(s, b, s') else s' == s
    case Write(b, x, v) =>
      r == 0 && s' == if b in live && b <= x < b + live[b].size then s.(bytes := s.bytes[x := v]) else s
  }

  /** What clients hold after an operation that was answered with `r`. */
  function LiveStep(live: map<Addr, Layout>, op: Op, r: Addr): map<Addr, Layout> {
    match op
    case Alloc(layout) => if r != 0 then live[r := layout] else live
    case Free(b) => live - {b}
    case Write(_, _, _) => live
  }

  function LiveAfter(ops: seq<Op>, results: seq<Addr>): map<Addr, Layout>
    requires |results| == |ops|
  {
    HeldAfter(map[], LiveStep, ops, results, |ops|)
  }

  // ---------------------------------------------------------------- runs

  method StepAlloc(heap: BuddyAllocator, layout: Layout, ghost live: map<Addr, Layout>) returns (b: Addr)
    requires heap.Valid() && Tracks(heap.pool, live) && LayoutOk(heap.maxBlkSize, layout)
    modifies heap`bytes, heap`pool, heap`lists, heap.freeLists
    ensures heap.Valid() && Tracks(heap.pool, LiveStep(live, Alloc(layout), b))
    ensures StepRel(live, old(State(heap.pool, heap.bytes)), Alloc(layout), b, State(heap.pool, heap.bytes))
  {
    ghost var p, k := heap.pool, 0;
    b, k := heap.Allocate(layout.size, Pow2(layout.shift));
    if b != 0 { AllocTracks(p, heap.pool, live, b, layout, k); }
    assert IsLevelFor(p.low, layout.size, Pow2(layout.shift), k);
  }

  method Step(heap: BuddyAllocator, op: Op, live: map<Addr, Layout>) returns (r: Addr)
    requires heap.Valid() && Tracks(heap.pool, live) && AllOk(heap.maxBlkSize, live)
    requires op.Alloc? ==> LayoutOk(heap.maxBlkSize, op.layout)
    modifies heap`bytes, heap`pool, heap`lists, heap.freeLists
    ensures heap.Valid() && Tracks(heap.pool, LiveStep(live, op, r)) && AllOk(heap.maxBlkSize, LiveStep(live, op, r))
    ensures StepRel(live, old(State(heap.pool, heap.bytes)), op, r, State(heap.pool, heap.bytes))
  {
    ghost var p := heap.pool;
    r := 0;
    match op
    case Alloc(layout) =>
      r := StepAlloc(heap, layout, live);
    case Free(b) =>
      if b in live {
        assert TrackOk(p, live, b);
        heap.Deallocate(b, live[b].size, Pow2(live[b].shift));
        FreeTracks(p, heap.pool, live, b);
      } else {
        assert live - {b} == live;
      }
    case Write(b, x, v) =>
      if b in live && b <= x < b + live[b].size {
        assert TrackOk(p, live, b);
        ClientWrite(heap, b, x, v);
      }
  }

  /** The invariants hold, and what clients hold is disjoint, aligned and inside the pool. */
  ghost predicate StateOk(live: map<Addr, Layout>, s: State) {
    PoolInv(s.pool) && Backed(s) && Tracks(s.pool, live) && LiveApart(s.pool, live)
  }

  ghost predicate Backed(s: State) {
    forall x {:trigger x in s.bytes} :: s.pool.base <= x < PoolEnd(s.pool) ==> x in s.bytes
  }

  lemma Sound(live: map<Addr, Layout>, s: State)
    requires PoolInv(s.pool) && Backed(s) && Tracks(s.pool, live)
    ensures StateOk(live, s)
  {
    TracksApart(s.pool, live);
  }

  /** Any run on a fresh pool: every operation does what it promises, and what clients hold at the end is
      what was handed to them and not given back. If that is nothing, the pool is again one free block. */
  method Run(baseAddr: Addr, maxBlkSize: nat, levels: nat, memory: Bytes, ghost exponent: nat, ops: seq<Op>)
    returns (heap: BuddyAllocator, live: map<Addr, Layout>, results: seq<Addr>, ghost trace: seq<State>)
    requires maxBlkSize == Pow2(exponent) && exponent < 64 && 0 < levels <= exponent + 1
    requires baseAddr > 0 && Aligned(baseAddr, exponent) && baseAddr + maxBlkSize <= U64_MAX + 1
    requires maxBlkSize / Pow2(levels - 1) >= LINK_SIZE && maxBlkSize >= MIN_HEAP_ALIGN
    requires forall x {:trigger x in memory} :: baseAddr <= x < baseAddr + maxBlkSize ==> x in memory
    requires forall i {:trigger ops[i]} :: 0 <= i < |ops| && ops[i].Alloc? ==> LayoutOk(maxBlkSize, ops[i].layout)
    ensures heap.Valid() && |results| == |ops| && IsRun(map[], LiveStep, StateOk, StepRel, ops, results, trace)
    ensures live == LiveAfter(ops, results)
    ensures trace[0].pool.st == map[baseAddr := Block(levels - 1, true)] && trace[0].bytes == memory
    ensures trace[|ops|] == State(heap.pool, heap.bytes)
    ensures live == map[] ==> heap.pool.st == map[baseAddr := Block(levels - 1, true)]
  {
    heap := new BuddyAllocator(baseAddr, maxBlkSize, levels, memory, exponent);
    ghost var start := State(heap.pool, heap.bytes);
    live, results, trace := map[], [], [start];
    NothingHeld(heap.pool);
    Sound(live, start);
    StartRun(map[], LiveStep, StateOk, StepRel, ops, start);
    for i := 0 to |ops|
      invariant fresh(heap) && fresh(heap.freeLists) && heap.Valid() && heap.maxBlkSize == maxBlkSize && |results| == i
      invariant Recorded(map[], LiveStep, StateOk, StepRel, ops, results, trace, start, live,
                         State(heap.pool, heap.bytes))
      invariant Tracks(heap.pool, live) && AllOk(maxBlkSize, live)
    {
      ghost var s := State(heap.pool, heap.bytes);
      var r := Step(heap, ops[i], live);
      ghost var s' := State(heap.pool, heap.bytes);
      Sound(LiveStep(live, ops[i], r), s');
      Record(map[], LiveStep, StateOk, StepRel, ops, results, trace, start, live, s, r, s');
      live, results, trace := LiveStep(live, ops[i], r), results + [r], trace + [s'];
    }
    if live == map[] { NothingLeft(heap.pool); }
  }

  lemma NothingHeld(p: Pool)
    requires p == Fresh(p.base, p.low, p.top)
    ensures Tracks(p, map[])
  {
    forall b {:trigger TrackOk(p, map[], b)} ensures TrackOk(p, map[], b) {
    }
  }

  lemma NothingLeft(p: Pool)
    requires PoolInv(p) && Tracks(p, map[])
    ensures p.st == map[p.base := Block(p.top, true)]
  {
    forall b | b in p.st ensures p.st[b].free {
      assert TrackOk(p, map[], b);
    }
    AllFreeIsFresh(p);
  }

  // ---------------------------------------------------------------- what a pool remembers

  /** After runs that leave clients with the same allocations two pools have the same free blocks, whatever
      happened in between. */
  lemma LiveDeterminesPool(p: Pool, q: Pool, live: map<Addr, Layout>)
    requires PoolInv(p) && PoolInv(q) && q.base == p.base && q.low == p.low && q.top == p.top
    requires Tracks(p, live) && Tracks(q, live)
    ensures p.st == q.st
  {
    forall b {:trigger OutLevel(p, b)} {:trigger OutLevel(q, b)} ensures OutLevel(q, b) == OutLevel(p, b) {
      assert TrackOk(p, live, b) && TrackOk(q, live, b);
      if b in live {
        LevelUnique(p.low, live[b].size, Pow2(live[b].shift), OutLevel(p, b), OutLevel(q, b));
      }
    }
    ClientsDeterminePool(p, q);
  }

  /** Giving an allocation back restores the free blocks there were before it. */
  lemma FreeUndoesAlloc(s: State, k: nat, r: Addr, s': State, s'': State)
    requires PoolInv(s.pool) && PoolInv(s''.pool) && r != 0 && Allocated(s, k, r, s') && Deallocated(s', r, s'')
    ensures s''.pool.st == s.pool.st
  {
    SameOutsTrans(s.pool, s'.pool, s''.pool, r);
    NotYetOut(s.pool, r, k);
    ClientsDeterminePool(s.pool, s''.pool);
  }

  // ---------------------------------------------------------------- client data

  /** The `n` bytes at `b` are as they were. */
  ghost predicate DataSame(b: Addr, n: nat, s: State, s': State) {
    BytesKept(s.bytes, s'.bytes, b, b + n)
  }

  /** The client that holds `b` neither gives it back nor writes through it. */
  predicate LeavesAlone(op: Op, b: Addr) {
    match op
    case Alloc(_) => true
    case Free(c) => c != b
    case Write(c, _, _) => c != b
  }

  lemma OutsData(live: map<Addr, Layout>, s: State, s': State, b: Addr, c: Addr)
    requires StateOk(live, s) && OutsKept(s.pool, s.bytes, s'.bytes, c) && b in live && b != c
    ensures DataSame(b, live[b].size, s, s')
  {
    assert TrackOk(s.pool, live, b);
    var e := b + SizeOf(s.pool, OutLevel(s.pool, b));
    assert BytesKept(s.bytes, s'.bytes, b, e);
  }

  lemma StepKeeps(live: map<Addr, Layout>, s: State, op: Op, r: Addr, s': State, b: Addr)
    requires StateOk(live, s) && StepRel(live, s, op, r, s') && b in live && LeavesAlone(op, b)
    ensures b in LiveStep(live, op, r) && LiveStep(live, op, r)[b] == live[b] && DataSame(b, live[b].size, s, s')
  {
    assert TrackOk(s.pool, live, b);
    match op
    case Alloc(layout) =>
      if r != 0 {
        var k: nat :| && IsLevelFor(s.pool.low, layout.size, Pow2(layout.shift), k) && k <= s.pool.top
                      && Allocated(s, k, r, s');
        NotYetOut(s.pool, r, k);
        OutsData(live, s, s', b, r);
      }
    case Free(c) =>
      if c in live { OutsData(live, s, s', b, c); }
    case Write(c, x, v) =>
      assert c in live ==> Disjoint(b, live[b].size, c, live[c].size);
  }

  /** After the first `k` operations a client holds `b`, for a request `layout`. */
  predicate HoldsAt(ops: seq<Op>, results: seq<Addr>, b: Addr, layout: Layout, k: nat)
    requires k <= |ops| && k <= |results|
  {
    var live := HeldAfter(map[], LiveStep, ops, results, k);
    b in live && live[b] == layout
  }

  lemma DataStep(ops: seq<Op>, results: seq<Addr>, trace: seq<State>, b: Addr, layout: Layout, k: nat)
    requires IsRun(map[], LiveStep, StateOk, StepRel, ops, results, trace) && k < |results|
    requires HoldsAt(ops, results, b, layout, k) && LeavesAlone(ops[k], b)
    ensures HoldsAt(ops, results, b, layout, k + 1) && DataSame(b, layout.size, trace[k], trace[k + 1])
  {
    RunStep(map[], LiveStep, StateOk, StepRel, ops, results, trace, k);
    StepKeeps(HeldAfter(map[], LiveStep, ops, results, k), trace[k], ops[k], results[k], trace[k + 1], b);
  }

  /** From one point of a run to any later one, no operation changes a byte of an allocation, as long as the
      client that holds it neither gives it back nor writes to it. */
  lemma {:induction false} DataKept(ops: seq<Op>, results: seq<Addr>, trace: seq<State>, b: Addr, layout: Layout,
                                    i: nat, j: nat)
    requires IsRun(map[], LiveStep, StateOk, StepRel, ops, results, trace) && i <= j <= |results|
    requires HoldsAt(ops, results, b, layout, i)
    requires forall k {:trigger ops[k]} :: i <= k < j ==> LeavesAlone(ops[k], b)
    ensures HoldsAt(ops, results, b, layout, j) && DataSame(b, layout.size, trace[i], trace[j])
  {
    if i < j {
      DataKept(ops, results, trace, b, layout, i, j - 1);
      DataStep(ops, results, trace, b, layout, j - 1);
      DataTrans(b, layout.size, trace[i], trace[j - 1], trace[j]);
    }
  }

  lemma DataTrans(b: Addr, n: nat, s: State, s': State, s'': State)
    requires DataSame(b, n, s, s') && DataSame(b, n, s', s'')
    ensures DataSame(b, n, s, s'')
  {
    forall x {:trigger SameByte(s.bytes, s''.bytes, x)} | b <= x < b + n ensures SameByte(s.bytes, s''.bytes, x) {
      assert SameByte(s.bytes, s'.bytes, x) && SameByte(s'.bytes, s''.bytes, x);
    }
  }

  lemma NotYetOut(p: Pool, b: Addr, k: nat)
    requires PoolInv(p) && FreeRegion(p, b, k)
    ensures OutLevel(p, b) == -1
  {
    assert FreeByte(p, b);
    assert b in p.st ==> BlockOk(p, b) && Owns(p.own, b, b);
  }
}
