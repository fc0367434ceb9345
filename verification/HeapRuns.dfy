/** Whole runs of the kernel heap allocator: clients allocate, free and write, and free memory changes, in any
    order. */
module HeapRuns {
  import A = AllocHeader
  import opened Arith
  import opened Cells
  import opened Common
  import opened RbShape
  import opened RbFix
  import opened HeapLayout
  import opened HeapMeaning
  import opened HeapPages
  import opened KernelHeap
  import opened Pages
  import opened Traces

  const MAX_LAYOUT_SIZE: nat := 0x7FFF_FFFF_FFFF_FFFF

  /** A free block is a node of exactly one tree; an outstanding or lost block is in neither. */
  lemma OneTreeEach(heap: KernelHeapAllocator, b: Addr)
    requires heap.Valid() && b in heap.st
    ensures b in heap.mapped.iv <==> heap.st[b] == InMapped
    ensures b in heap.unmapped.iv <==> heap.st[b] == InUnmapped
    ensures heap.st[b].Out? || heap.st[b] == Leaked <==> b !in heap.mapped.iv && b !in heap.unmapped.iv
  {
    assert MatchOk(heap.mapped.iv, heap.unmapped.iv, heap.end, heap.st, b);
    assert BlockOk(heap.Layout(), b);
  }

  // ---------------------------------------------------------------- client writes

  /** The cell at `x` after the bytes [lo, hi) were overwritten with those of `v`. */
  function Blend(x: Addr, n: Node, v: Node, lo: Addr, hi: Addr): Node {
    Node(if Overlap(x, x + 16, lo, hi) then v.header else n.header,
         if Overlap(x + 16, x + 24, lo, hi) then v.parent else n.parent,
         if Overlap(x + 24, x + 32, lo, hi) then v.left else n.left,
         if Overlap(x + 32, x + 40, lo, hi) then v.right else n.right)
  }

  /** The memory after the client that holds `p` stored `v` at `x`: the bytes in its block changed. */
  ghost function Written(h: Heap, p: Addr, x: Addr, v: Node): Cells {
    if x in h.m then h.m[x := Blend(x, h.m[x], v, p, Next(h, p - HEADER_SIZE))] else h.m
  }

  ghost function Ends(heap: KernelHeapAllocator): set<Addr> {
    {heap.end, heap.mapped.nil, heap.unmapped.nil}
  }

  lemma TreesRestOnRoles(t: View, bh: map<Addr, nat>, h: Heap, ends: set<Addr>, m': Cells)
    requires Rb(t, bh) && Sorted(t.m, t.s) && t.m == h.m && SameRoles(h, ends, m') && t.nil in ends
    requires forall a :: a in t.iv ==> a in ends || (a in h.st && (h.st[a] == InMapped || h.st[a] == InUnmapped))
    ensures Rb(t.(m := m'), bh) && Sorted(m', t.s)
  {
    forall a | a in t.iv || a == t.nil ensures a in h.m && a in m' && m'[a] == h.m[a] {
      if a in ends { assert SameRole(h, m', Beyond(a)); } else { assert SameRole(h, m', TreeNode(a)); }
    }
    AgreeValid(t, bh, m');
  }

  /** The whole allocator rests on the roles: any other part of memory may change between two calls. */
  lemma HeapRestsOnRoles(heap: KernelHeapAllocator, m': Cells)
    requires heap.Valid() && SameRoles(heap.Layout(), Ends(heap), m')
    ensures heap.TreesSurvive(m') && HeapInv(heap.Layout().(m := m'))
  {
    var h, ends := heap.Layout(), Ends(heap);
    LayoutRestsOnRoles(h, ends, m');
    forall a | a in heap.mapped.iv ensures a in ends || (a in h.st && h.st[a] == InMapped) {
      assert MatchOk(heap.mapped.iv, heap.unmapped.iv, heap.end, heap.st, a);
    }
    forall a | a in heap.unmapped.iv ensures a in h.st && h.st[a] == InUnmapped {
      assert MatchOk(heap.mapped.iv, heap.unmapped.iv, heap.end, heap.st, a);
    }
    TreesRestOnRoles(heap.mapped.Snapshot(), heap.mapped.bh, h, ends, m');
    TreesRestOnRoles(heap.unmapped.Snapshot(), heap.unmapped.bh, h, ends, m');
  }

  lemma EndsPlaced(heap: KernelHeapAllocator)
    requires heap.Valid()
    ensures EndsApart(heap.Layout(), Ends(heap)) && forall x :: x in Ends(heap) ==> x in heap.mem.cells
  {
    assert MatchOk(heap.mapped.iv, heap.unmapped.iv, heap.end, heap.st, heap.end);
  }

  /** A store of the bytes of `v` at `x` that fall in [lo, hi), where it keeps all roles. */
  method Store(heap: KernelHeapAllocator, x: Addr, v: Node, lo: Addr, hi: Addr)
    requires heap.Valid() && x in heap.mem.cells
    requires SameRoles(heap.Layout(), Ends(heap), heap.mem.cells[x := Blend(x, heap.mem.cells[x], v, lo, hi)])
    modifies heap.mem
    ensures heap.Valid() && heap.mem.cells == old(heap.mem.cells)[x := Blend(x, old(heap.mem.cells)[x], v, lo, hi)]
  {
    ghost var h := heap.Layout();
    EndsPlaced(heap);
    HeapRestsOnRoles(heap, heap.mem.cells[x := Blend(x, heap.mem.cells[x], v, lo, hi)]);
    heap.mem.cells := heap.mem.cells[x := Blend(x, heap.mem.cells[x], v, lo, hi)];
    assert heap.Layout() == h.(m := heap.mem.cells);
  }

  /** A client stores any value at any address: the bytes that fall in its block change. */
  method ClientWrite(heap: KernelHeapAllocator, p: Addr, x: Addr, v: Node)
    requires heap.Valid() && p - HEADER_SIZE in heap.st && heap.st[p - HEADER_SIZE].Out?
    modifies heap.mem
    ensures heap.Valid() && heap.mem.cells == Written(old(heap.Layout()), p, x, v)
  {
    ghost var h := heap.Layout();
    assert BlockOk(h, p - HEADER_SIZE);
    EndsPlaced(heap);
    var size := heap.mem.cells[p - HEADER_SIZE].header.size;
    if x in heap.mem.cells {
      ClientWriteKeepsRoles(h, Ends(heap), p - HEADER_SIZE, h.m[x := Blend(x, h.m[x], v, p, p + size)]);
      Store(heap, x, v, p, p + size);
    }
  }

  // ---------------------------------------------------------------- free memory

  /** The block `b`, which no client holds, contains the address `x`. */
  ghost predicate Inside(h: Heap, live: map<Addr, nat>, b: Addr, x: Addr) {
    b in h.st && b <= x < Next(h, b) && b + HEADER_SIZE !in live
  }

  /** The memory after the cell at `x` changed to `v` where it lies inside the free block `b`. */
  ghost function Scribbled(h: Heap, b: Addr, x: Addr, v: Node): Cells {
    if x in h.m then h.m[x := Blend(x, h.m[x], v, b + NODE_SIZE, Next(h, b) - HEADER_SIZE)] else h.m
  }

  lemma OneInside(h: Heap, live: map<Addr, nat>, b: Addr, c: Addr, x: Addr)
    requires HeapInv(h) && Inside(h, live, b, x) && c in h.st && c <= x < Next(h, c)
    ensures b == c
  {
    assert Apart(h, b, c) && Apart(h, c, b);
  }

  /** The block that contains an address of the heap. */
  method BlockAt(heap: KernelHeapAllocator, x: Addr) returns (b: Addr)
    requires heap.Valid() && heap.start <= x < heap.fence
    ensures b in heap.st && b <= x < Next(heap.Layout(), b)
  {
    b := heap.start;
    assert BlockOk(heap.Layout(), b);
    while b + heap.mem.cells[b].header.size + HEADER_SIZE <= x
      invariant BlockOk(heap.Layout(), b) && b <= x
      decreases x - b
    {
      b := b + heap.mem.cells[b].header.size + HEADER_SIZE;
      assert BlockOk(heap.Layout(), b);
    }
  }

  /** What a change of free memory does: nothing outside a free block, and inside one nothing to its ends. */
  ghost predicate ScribbleRel(live: map<Addr, nat>, h: Heap, x: Addr, v: Node, h': Heap) {
    && (forall b {:trigger Inside(h, live, b, x)} :: Inside(h, live, b, x) ==> h' == h.(m := Scribbled(h, b, x, v)))
    && ((forall b {:trigger Inside(h, live, b, x)} :: !Inside(h, live, b, x)) ==> h' == h)
  }

  lemma ScribbleInside(live: map<Addr, nat>, h: Heap, b: Addr, x: Addr, v: Node)
    requires HeapInv(h) && Inside(h, live, b, x)
    ensures ScribbleRel(live, h, x, v, h.(m := Scribbled(h, b, x, v)))
  {
    forall c {:trigger Inside(h, live, c, x)} | Inside(h, live, c, x) ensures c == b {
      OneInside(h, live, c, b, x);
    }
  }

  lemma ScribbleNowhere(live: map<Addr, nat>, h: Heap, x: Addr, v: Node)
    requires HeapInv(h)
    requires x < h.start || h.fence <= x || exists b :: b in h.st && b <= x < Next(h, b) && b + HEADER_SIZE in live
    ensures ScribbleRel(live, h, x, v, h)
  {
    forall c {:trigger Inside(h, live, c, x)} ensures !Inside(h, live, c, x) {
      if Inside(h, live, c, x) {
        assert BlockOk(h, c);
        var b :| b in h.st && b <= x < Next(h, b) && b + HEADER_SIZE in live;
        OneInside(h, live, c, b, x);
      }
    }
  }

  /** The inside of a free block changes: what it holds there is stale and of no meaning. */
  method ScribbleBlock(heap: KernelHeapAllocator, b: Addr, x: Addr, v: Node)
    requires heap.Valid() && b in heap.st && !heap.st[b].Out?
    modifies heap.mem
    ensures heap.Valid() && heap.Layout() == old(heap.Layout()).(m := Scribbled(old(heap.Layout()), b, x, v))
  {
    ghost var h := heap.Layout();
    assert BlockOk(h, b);
    EndsPlaced(heap);
    if x in heap.mem.cells {
      var hi := b + heap.mem.cells[b].header.size;
      FreeMemoryKeepsRoles(h, Ends(heap), b, h.m[x := Blend(x, h.m[x], v, b + NODE_SIZE, hi)]);
      Store(heap, x, v, b + NODE_SIZE, hi);
    }
  }

  /** Free memory changes at any address. */
  method Scribble(heap: KernelHeapAllocator, x: Addr, v: Node, live: map<Addr, nat>)
    requires heap.Valid() && Tracks(heap.st, live)
    modifies heap.mem
    ensures heap.Valid() && heap.st == old(heap.st) && ScribbleRel(live, old(heap.Layout()), x, v, heap.Layout())
  {
    ghost var h := heap.Layout();
    if heap.start <= x < heap.start + (heap.size - PAGE_SIZE / 2) + HEADER_SIZE {
      var b := BlockAt(heap, x);
      if b + HEADER_SIZE !in live {
        assert TrackOk(h.st, live, b + HEADER_SIZE);
        ScribbleInside(live, h, b, x, v);
        ScribbleBlock(heap, b, x, v);
        return;
      }
    }
    ScribbleNowhere(live, h, x, v);
  }

  // ---------------------------------------------------------------- runs

  /** `pages` is what the frame allocator answers, if it is asked. */
  datatype Op =
    | Alloc(size: nat, align: nat, pages: Option<Addr>)
    | Free(p: Addr)
    | Write(p: Addr, x: Addr, v: Node)
    | Scribble(x: Addr, v: Node)

  datatype State = State(h: Heap, frames: Frames)

  ghost predicate TrackOk(st: map<Addr, Status>, live: map<Addr, nat>, p: Addr) {
    && (p in live <==> p - HEADER_SIZE in st && st[p - HEADER_SIZE].Out?)
    && (p in live ==> st[p - HEADER_SIZE].req == live[p])
  }

  /** `live` maps the pointers that were handed out and not given back to the sizes asked for. */
  ghost predicate Tracks(st: map<Addr, Status>, live: map<Addr, nat>) {
    forall p {:trigger TrackOk(st, live, p)} :: TrackOk(st, live, p)
  }

  /** Every live pointer has the bytes its client asked for to itself, 16-aligned and inside the heap. */
  ghost predicate LiveApart(h: Heap, live: map<Addr, nat>) {
    && (forall p {:trigger live[p]} :: p in live ==> p % 16 == 0 && h.start < p && p + live[p] <= h.fence)
    && forall p, q {:trigger live[p], live[q]} :: p in live && q in live && p != q ==>
         !Overlap(p, p + live[p], q, q + live[q])
  }

  lemma TracksApart(h: Heap, live: map<Addr, nat>)
    requires HeapInv(h) && Tracks(h.st, live)
    ensures LiveApart(h, live)
  {
    forall p {:trigger live[p]} | p in live ensures p % 16 == 0 && h.start < p && p + live[p] <= h.fence {
      assert TrackOk(h.st, live, p) && BlockOk(h, p - HEADER_SIZE);
    }
    forall p, q {:trigger live[p], live[q]} | p in live && q in live && p != q
      ensures !Overlap(p, p + live[p], q, q + live[q])
    {
      assert TrackOk(h.st, live, p) && TrackOk(h.st, live, q);
      PayloadsDisjoint(h, p - HEADER_SIZE, q - HEADER_SIZE);
      assert BlockOk(h, q - HEADER_SIZE);
    }
  }

  lemma ServedTracks(h: Heap, live: map<Addr, nat>, inMapped: bool, v: nat, size: nat, b: Addr, addr: Addr, h': Heap)
    requires HeapInv(h) && Tracks(h.st, live) && Served(h, inMapped, v, size, b, addr, h')
    ensures Tracks(h'.st, live[addr := size])
  {
    var r := b + AllocSize(size) + HEADER_SIZE;
    assert BlockOk(h, b);
    assert r in h.st ==> Apart(h, b, r);
    forall p {:trigger TrackOk(h'.st, live[addr := size], p)} ensures TrackOk(h'.st, live[addr := size], p) {
      assert TrackOk(h.st, live, p);
    }
  }

  lemma LeakedTracks(h: Heap, live: map<Addr, nat>, b: Addr)
    requires Tracks(h.st, live) && b in h.st && !h.st[b].Out?
    ensures Tracks(h.st[b := Leaked], live)
  {
    forall p {:trigger TrackOk(h.st[b := Leaked], live, p)} ensures TrackOk(h.st[b := Leaked], live, p) {
      assert TrackOk(h.st, live, p);
    }
  }

  lemma FreedTracks(h: Heap, live: map<Addr, nat>, b: Addr, cur: Addr, e: Addr, h': Heap)
    requires HeapInv(h) && Tracks(h.st, live) && b in h.st && h.st[b].Out? && Freed(h, b, cur, e, h')
    ensures Tracks(h'.st, live - {b + HEADER_SIZE})
  {
    var live' := live - {b + HEADER_SIZE};
    forall p {:trigger TrackOk(h'.st, live', p)} ensures TrackOk(h'.st, live', p) {
      var c := p - HEADER_SIZE;
      assert TrackOk(h.st, live, p);
      if c in h.st && cur < c < e && c != b {
        assert BlockOk(h, b) && Apart(h, cur, c) && Apart(h, b, c) && Apart(h, c, b);
        assert BlockOk(h, c) && Apart(h, Next(h, b), c);
        assert c == Next(h, b);
      }
    }
  }

  // ---------------------------------------------------------------- what a run promises

  /** What clients hold after one more operation. */
  function LiveStep(live: map<Addr, nat>, op: Op, r: Addr): map<Addr, nat> {
    match op
    case Alloc(size, _, _) => if r == 0 then live else live[r := size]
    case Free(p) => live - {p}
    case Write(_, _, _) => live
    case Scribble(_, _) => live
  }

  function LiveAfter(ops: seq<Op>, results: seq<Addr>): map<Addr, nat>
    requires |results| == |ops|
  {
    HeldAfter(map[], LiveStep, ops, results, |ops|)
  }

  /** A request, and the pages mapped for it. */
  ghost predicate Requested(s: State, size: nat, pages: Option<Addr>, block: Addr, r: Addr, s': State) {
    && Kalloced(s.h, size, pages.Some?, block, r, s'.h)
    && FramesRel(s.h, s.frames, size, pages, block, s'.frames)
  }

  /** What giving `p` back does. No byte of another client changes. */
  ghost predicate Kfreed(h: Heap, p: Addr, cur: Addr, e: Addr, h': Heap) {
    Freed(h, p - HEADER_SIZE, cur, e, h') && ClientsKept(h.(st := h.st[p - HEADER_SIZE := Held]), h'.m)
  }

  /** What one operation does. Pointers that are not live are not freed and not written through. */
  ghost predicate StepRel(live: map<Addr, nat>, s: State, op: Op, r: Addr, s': State) {
    var h, h' := s.h, s'.h;
    && h'.start == h.start && h'.fence == h.fence && h'.dummy == h.dummy
    && (op.Alloc? || (r == 0 && s'.frames == s.frames))
    && match op
       case Alloc(size, _, pages) => exists block :: Requested(s, size, pages, block, r, s')
       case Free(p) => if p in live then exists cur, e :: Kfreed(h, p, cur, e, h') else h' == h
       case Write(p, x, v) => h' == if p in live then h.(m := Written(h, p, x, v)) else h
       case Scribble(x, v) => ScribbleRel(live, h, x, v, h')
  }

  /** All that clients hold is backed by frames. */
  ghost predicate LiveBacked(live: map<Addr, nat>, f: Frames) {
    forall p {:trigger live[p]} :: p in live ==> RangeBacked(f, p, p + live[p])
  }

  /** The blocks tile the heap, none is in hand, what clients hold is disjoint, aligned and inside, and all of it
      is backed by frames. */
  ghost predicate StateOk(live: map<Addr, nat>, s: State) {
    && Quiet(s.h) && Tracks(s.h.st, live) && LiveApart(s.h, live) && Backed(s.h, s.frames)
    && LiveBacked(live, s.frames) && Bytes(s.h, Walk(s.h, s.h.start)) == s.h.fence - s.h.start
  }

  lemma Sound(live: map<Addr, nat>, s: State)
    requires Quiet(s.h) && Tracks(s.h.st, live) && Backed(s.h, s.frames)
    ensures StateOk(live, s)
  {
    TracksApart(s.h, live);
    Tiling(s.h);
    forall p {:trigger live[p]} | p in live ensures RangeBacked(s.frames, p, p + live[p]) {
      var b := p - HEADER_SIZE;
      assert TrackOk(s.h.st, live, p) && BlockOk(s.h, b) && BlockBacked(s.h, s.frames, b);
    }
  }

  // ---------------------------------------------------------------- steps

  method StepAlloc(heap: KernelHeapAllocator, size: nat, align: nat, pages: Option<Addr>, ghost live: map<Addr, nat>)
    returns (p: Addr)
    requires heap.Valid() && Tracks(heap.st, live) && Backed(heap.Layout(), heap.frames) && size <= MAX_LAYOUT_SIZE
    modifies heap`st, heap`frames, heap.mem, heap.mapped, heap.unmapped
    ensures heap.Valid() && Tracks(heap.st, LiveStep(live, Alloc(size, align, pages), p))
    ensures Backed(heap.Layout(), heap.frames)
    ensures StepRel(live, old(State(heap.Layout(), heap.frames)), Alloc(size, align, pages), p,
                    State(heap.Layout(), heap.frames))
  {
    ghost var s, b := State(heap.Layout(), heap.frames), 0;
    p, b := heap.KallocLayout(size, align, pages);
    AllocTracks(s.h, live, size, pages.Some?, b, p, heap.Layout());
    RequestBacked(s.h, s.frames, size, pages, b, p, heap.Layout(), heap.frames);
    assert Requested(s, size, pages, b, p, State(heap.Layout(), heap.frames));
  }

  lemma AllocTracks(h: Heap, live: map<Addr, nat>, size: nat, pages: bool, b: Addr, p: Addr, h': Heap)
    requires HeapInv(h) && h.start >= 0 && Tracks(h.st, live) && Kalloced(h, size, pages, b, p, h')
    ensures Tracks(h'.st, if p == 0 then live else live[p := size])
  {
    var n := AllocSize(size);
    if p != 0 {
      ServedTracks(h, live, !NoBlock(h, true, n), if NoBlock(h, true, n) then PageRound(n) else n, size, b, p, h');
    } else if h' != h {
      assert b in h.st ==> BlockOk(h, b);
      LeakedTracks(h, live, b);
    }
  }

  method StepFree(heap: KernelHeapAllocator, p: Addr, ghost live: map<Addr, nat>)
    requires heap.Valid() && Tracks(heap.st, live) && Backed(heap.Layout(), heap.frames) && p in live
    modifies heap`st, heap.mem, heap.mapped, heap.unmapped
    ensures heap.Valid() && Tracks(heap.st, live - {p}) && Backed(heap.Layout(), heap.frames)
    ensures exists cur, e :: Kfreed(old(heap.Layout()), p, cur, e, heap.Layout())
  {
    ghost var h := heap.Layout();
    assert TrackOk(h.st, live, p) && BlockOk(h, p - HEADER_SIZE);
    ghost var cur, e := heap.Kfree(p);
    FreedTracks(h, live, p - HEADER_SIZE, cur, e, heap.Layout());
    FreeBacked(h, heap.frames, p - HEADER_SIZE, cur, e, heap.Layout());
    assert Kfreed(h, p, cur, e, heap.Layout());
  }

  method Step(heap: KernelHeapAllocator, op: Op, live: map<Addr, nat>) returns (r: Addr)
    requires heap.Valid() && Tracks(heap.st, live) && Backed(heap.Layout(), heap.frames)
    requires op.Alloc? ==> op.size <= MAX_LAYOUT_SIZE
    modifies heap`st, heap`frames, heap.mem, heap.mapped, heap.unmapped
    ensures heap.Valid() && Tracks(heap.st, LiveStep(live, op, r)) && Backed(heap.Layout(), heap.frames)
    ensures StepRel(live, old(State(heap.Layout(), heap.frames)), op, r, State(heap.Layout(), heap.frames))
  {
    ghost var h := heap.Layout();
    r := 0;
    match op
    case Alloc(size, align, pages) =>
      r := StepAlloc(heap, size, align, pages, live);
    case Free(p) =>
      if p in live { StepFree(heap, p, live); } else { assert live - {p} == live; }
    case Write(p, x, v) =>
      if p in live {
        assert TrackOk(heap.st, live, p);
        ClientWrite(heap, p, x, v);
        SameBlocksBacked(h, heap.Layout(), heap.frames);
      }
    case Scribble(x, v) =>
      Scribble(heap, x, v, live);
      SameBlocksBacked(h, heap.Layout(), heap.frames);
  }

  // ---------------------------------------------------------------- runs

  /** Any run of requests, frees, writes and changes of free memory on a fresh heap: every operation does what it
      promises, and what clients hold at the end is what was handed to them and not given back. */
  method Run(mem: Memory, heapStart: Addr, heapSize: nat, frames: Frames, ops: seq<Op>)
    returns (heap: KernelHeapAllocator, live: map<Addr, nat>, results: seq<Addr>, ghost trace: seq<State>)
    requires heapStart >= 0 && heapStart % PAGE_SIZE == 0 && heapSize > MIN_HEAP_SIZE && heapSize % 16 == 0
    requires heapStart + heapSize <= U64_MAX && FirstPages(heapStart, heapSize, frames)
    requires forall x :: heapStart <= x < heapStart + heapSize ==> x in mem.cells
    requires !mem.cells[heapStart + (heapSize - PAGE_SIZE / 2) + HEADER_SIZE].header.mapped
    requires forall i {:trigger ops[i]} :: 0 <= i < |ops| && ops[i].Alloc? ==> ops[i].size <= MAX_LAYOUT_SIZE
    modifies mem
    ensures |results| == |ops| && live == LiveAfter(ops, results)
    ensures IsRun(map[], LiveStep, StateOk, StepRel, ops, results, trace)
    ensures trace[0].h.st == map[heapStart := InUnmapped] && trace[0].h.start == heapStart && trace[0].frames == frames
    ensures trace[0].h.fence == heapStart + (heapSize - 0x800) + 16
    ensures heap.mem == mem && heap.Valid() && trace[|ops|] == State(heap.Layout(), heap.frames)
  {
    heap := new KernelHeapAllocator(mem, heapStart, heapSize, frames);
    ghost var start := State(heap.Layout(), heap.frames);
    live, results, trace := map[], [], [start];
    FreshBacked(start.h, heapStart, heapSize, frames);
    Sound(live, start);
    StartRun(map[], LiveStep, StateOk, StepRel, ops, start);
    for i := 0 to |ops|
      invariant heap.mem == mem && fresh(heap) && fresh(heap.mapped) && fresh(heap.unmapped) && |results| == i
      invariant heap.Valid() && Tracks(heap.st, live) && Backed(heap.Layout(), heap.frames)
      invariant Recorded(map[], LiveStep, StateOk, StepRel, ops, results, trace, start, live,
                         State(heap.Layout(), heap.frames))
    {
      ghost var s := State(heap.Layout(), heap.frames);
      var r := Step(heap, ops[i], live);
      ghost var s' := State(heap.Layout(), heap.frames);
      Sound(LiveStep(live, ops[i], r), s');
      Record(map[], LiveStep, StateOk, StepRel, ops, results, trace, start, live, s, r, s');
      live, results, trace := LiveStep(live, ops[i], r), results + [r], trace + [s'];
    }
  }

  /** The kernel's own heap: its first and last page are mapped and it is set up over them. */
  method InitKernelHeap(mem: Memory, heapStart: Addr, heapSize: nat, first: Addr, last: Addr)
    returns (heap: KernelHeapAllocator)
    requires heapStart >= 0 && heapStart % PAGE_SIZE == 0 && heapSize > MIN_HEAP_SIZE && heapSize % PAGE_SIZE == 0
    requires heapStart + heapSize <= U64_MAX
    requires forall x :: heapStart <= x < heapStart + heapSize ==> x in mem.cells
    requires !mem.cells[heapStart + (heapSize - PAGE_SIZE / 2) + HEADER_SIZE].header.mapped
    modifies mem
    ensures heap.Valid() && fresh(heap) && fresh(heap.mapped) && fresh(heap.unmapped) && heap.mem == mem
    ensures heap.frames == map[heapStart := first, heapStart + heapSize - 0x1000 := last]
    ensures OwnFrames(heap.frames) <==> FrameApart(first, last)
    ensures heap.st == map[heapStart := InUnmapped]
    ensures heap.fence == heapStart + (heapSize - 0x800) + 16
    ensures StateOk(map[], State(heap.Layout(), heap.frames)) && FirstPages(heapStart, heapSize, heap.frames)
  {
    TwoPagesEnough(heapStart, heapSize, first, last);
    heap := new KernelHeapAllocator(mem, heapStart, heapSize, FirstFrames(heapStart, heapSize, first, last));
    FreshBacked(heap.Layout(), heapStart, heapSize, heap.frames);
    Sound(map[], State(heap.Layout(), heap.frames));
    assert heap.frames[heapStart] == first && heap.frames[heapStart + heapSize - PAGE_SIZE] == last;
  }

  // ---------------------------------------------------------------- client data

  lemma WriteKeeps(h: Heap, q: Addr, x: Addr, v: Node, b: Addr)
    requires HeapInv(h) && b in h.st && h.st[b].Out? && q - HEADER_SIZE in h.st && q - HEADER_SIZE != b
    ensures Kept(h.m, Written(h, q, x, v), b, Next(h, b))
  {
    var c, m' := q - HEADER_SIZE, Written(h, q, x, v);
    assert BlockOk(h, b) && BlockOk(h, c) && Apart(h, b, c) && Apart(h, c, b);
    forall y {:trigger CellKept(h.m, m', b, Next(h, b), y)} | y in h.m ensures CellKept(h.m, m', b, Next(h, b), y) {
    }
  }

  lemma ScribbleKeeps(h: Heap, c: Addr, x: Addr, v: Node, b: Addr)
    requires HeapInv(h) && b in h.st && h.st[b].Out? && c in h.st && c != b
    ensures Kept(h.m, Scribbled(h, c, x, v), b, Next(h, b))
  {
    var m' := Scribbled(h, c, x, v);
    assert BlockOk(h, b) && BlockOk(h, c) && Apart(h, b, c) && Apart(h, c, b);
    forall y {:trigger CellKept(h.m, m', b, Next(h, b), y)} | y in h.m ensures CellKept(h.m, m', b, Next(h, b), y) {
    }
  }

  lemma FreeMemoryKeeps(live: map<Addr, nat>, h: Heap, x: Addr, v: Node, h': Heap, p: Addr)
    requires HeapInv(h) && Tracks(h.st, live) && ScribbleRel(live, h, x, v, h') && p in live
    ensures DataSame(p, h, h')
  {
    var b := p - HEADER_SIZE;
    assert TrackOk(h.st, live, p) && BlockOk(h, b);
    KeptRefl(h.m, b, Next(h, b));
    if c :| Inside(h, live, c, x) { ScribbleKeeps(h, c, x, v, b); }
  }

  /** The block of the pointer `p` kept its size and its data. */
  ghost predicate DataSame(p: Addr, h: Heap, h': Heap) {
    Kept(h.m, h'.m, p - HEADER_SIZE, Next(h, p - HEADER_SIZE))
  }

  /** The client that holds `p` neither gives it back nor writes through it. */
  predicate LeavesAlone(op: Op, p: Addr) {
    match op
    case Alloc(_, _, _) => true
    case Free(q) => q != p
    case Write(q, _, _) => q != p
    case Scribble(_, _) => true
  }

  lemma StepKeeps(live: map<Addr, nat>, s: State, op: Op, r: Addr, s': State, p: Addr)
    requires StateOk(live, s) && StepRel(live, s, op, r, s') && p in live && LeavesAlone(op, p)
    ensures DataSame(p, s.h, s'.h) && p in LiveStep(live, op, r)
  {
    var h, b := s.h, p - HEADER_SIZE;
    assert TrackOk(h.st, live, p) && BlockOk(h, b);
    KeptRefl(h.m, b, Next(h, b));
    match op
    case Alloc(_, _, _) =>
    case Free(q) =>
      if q in live { FreeKeeps(h, q, s'.h, b); }
    case Write(q, x, v) =>
      if q in live {
        assert TrackOk(h.st, live, q);
        WriteKeeps(h, q, x, v, b);
      }
    case Scribble(x, v) =>
      FreeMemoryKeeps(live, h, x, v, s'.h, p);
  }

  lemma FreeKeeps(h: Heap, q: Addr, h': Heap, b: Addr)
    requires (exists cur, e :: Kfreed(h, q, cur, e, h')) && b in h.st && h.st[b].Out? && b != q - HEADER_SIZE
    ensures Kept(h.m, h'.m, b, Next(h, b))
  {
    var h1 := h.(st := h.st[q - HEADER_SIZE := Held]);
    assert Next(h1, b) == Next(h, b) && b in h1.st && h1.st[b].Out?;
  }

  lemma DataStep(ops: seq<Op>, results: seq<Addr>, trace: seq<State>, p: Addr, k: nat)
    requires IsRun(map[], LiveStep, StateOk, StepRel, ops, results, trace) && k < |results|
    requires p in HeldAfter(map[], LiveStep, ops, results, k) && LeavesAlone(ops[k], p)
    ensures p in HeldAfter(map[], LiveStep, ops, results, k + 1) && DataSame(p, trace[k].h, trace[k + 1].h)
  {
    RunStep(map[], LiveStep, StateOk, StepRel, ops, results, trace, k);
    StepKeeps(HeldAfter(map[], LiveStep, ops, results, k), trace[k], ops[k], results[k], trace[k + 1], p);
  }

  /** From one point of a run to any later one, no operation changes a byte of an allocation, as long as the
      client that holds it neither gives it back nor writes to it. */
  lemma {:induction false} DataKept(ops: seq<Op>, results: seq<Addr>, trace: seq<State>, p: Addr, i: nat, j: nat)
    requires IsRun(map[], LiveStep, StateOk, StepRel, ops, results, trace) && i <= j <= |results|
    requires p in HeldAfter(map[], LiveStep, ops, results, i)
    requires forall k {:trigger ops[k]} :: i <= k < j ==> LeavesAlone(ops[k], p)
    ensures p in HeldAfter(map[], LiveStep, ops, results, j) && DataSame(p, trace[i].h, trace[j].h)
  {
    if i == j {
      KeptRefl(trace[i].h.m, p - HEADER_SIZE, Next(trace[i].h, p - HEADER_SIZE));
    } else {
      DataKept(ops, results, trace, p, i, j - 1);
      DataStep(ops, results, trace, p, j - 1);
      DataTrans(p, trace[i].h, trace[j - 1].h, trace[j].h);
    }
  }

  lemma DataTrans(p: Addr, h: Heap, h': Heap, h'': Heap)
    requires DataSame(p, h, h') && DataSame(p, h', h'')
    ensures DataSame(p, h, h'')
  {
    KeptTrans(h.m, h'.m, h''.m, p - HEADER_SIZE, Next(h, p - HEADER_SIZE));
  }

  // ---------------------------------------------------------------- headers in memory

  /** The header of every block can be read back from the word it is stored in. */
  lemma HeadersStored(heap: KernelHeapAllocator, b: Addr)
    requires heap.Valid() && b in heap.st
    ensures b in heap.mem.cells
    ensures var hd := heap.mem.cells[b].header; A.AsHeader(A.Unpack(A.Pack(A.AsFields(hd)))) == hd
  {
    heap.BlockPackable(b);
    assert BlockOk(heap.Layout(), b);
    A.HeaderStored(heap.mem.cells[b].header);
  }

  // ---------------------------------------------------------------- alignment

  /** The only block of a fresh heap serves the first request. */
  lemma FirstServed(h: Heap, heapStart: Addr, heapSize: nat, req: nat, block: Addr, addr: Addr, h': Heap)
    requires HeapInv(h) && h.st == map[heapStart := InUnmapped] && Kalloced(h, req, true, block, addr, h')
    requires h.fence == heapStart + (heapSize - PAGE_SIZE / 2) + HEADER_SIZE
    requires 0 < req && req + 2 * PAGE_SIZE <= heapSize
    ensures addr == heapStart + HEADER_SIZE
  {
    assert BlockOk(h, heapStart) && h.st[heapStart] == InUnmapped;
  }

  /** The first allocation of a heap, whatever its alignment. */
  method FirstAddress(mem: Memory, heapStart: Addr, heapSize: nat, req: nat, align: nat, pages: Addr)
    returns (addr: Addr)
    requires heapStart >= 0 && heapStart % PAGE_SIZE == 0 && heapSize > MIN_HEAP_SIZE && heapSize % 16 == 0
    requires heapStart + heapSize <= U64_MAX
    requires forall x :: heapStart <= x < heapStart + heapSize ==> x in mem.cells
    requires !mem.cells[heapStart + (heapSize - PAGE_SIZE / 2) + HEADER_SIZE].header.mapped
    requires 0 < req && req + 2 * PAGE_SIZE <= heapSize && req <= MAX_LAYOUT_SIZE
    modifies mem
    ensures addr == heapStart + HEADER_SIZE
  {
    var heap := new KernelHeapAllocator(mem, heapStart, heapSize, map[]);
    ghost var h, b := heap.Layout(), 0;
    addr, b := heap.KallocLayout(req, align, Some(pages));
    FirstServed(h, heapStart, heapSize, req, b, addr, heap.Layout());
  }

  /** The heap aligns to 16 and no further: the alignment asked for is met by the first allocation of a
      heap exactly when it is at most 16, whatever the heap and the request. */
  method FirstAllocation(mem: Memory, heapStart: Addr, heapSize: nat, req: nat, k: nat, pages: Addr)
    returns (addr: Addr)
    requires heapStart >= 0 && heapStart % PAGE_SIZE == 0 && heapSize > MIN_HEAP_SIZE && heapSize % 16 == 0
    requires heapStart + heapSize <= U64_MAX
    requires forall x :: heapStart <= x < heapStart + heapSize ==> x in mem.cells
    requires !mem.cells[heapStart + (heapSize - PAGE_SIZE / 2) + HEADER_SIZE].header.mapped
    requires 0 < req && req + 2 * PAGE_SIZE <= heapSize && req <= MAX_LAYOUT_SIZE
    modifies mem
    ensures addr == heapStart + 16 && (addr % Pow2(k) == 0 <==> k <= 4)
  {
    addr := FirstAddress(mem, heapStart, heapSize, req, Pow2(k), pages);
    PastPage(heapStart, k);
  }

  /** An address 16 bytes past a page boundary is a multiple of a power of two up to 16 only. */
  lemma PastPage(start: Addr, k: nat)
    requires start % PAGE_SIZE == 0
    ensures (start + 16) % Pow2(k) == 0 <==> k <= 4
  {
    var q := start / PAGE_SIZE;
    DivModUnique(start + 16, 16, 256 * q + 1, 0);
    DivModUnique(start + 16, 32, 128 * q, 16);
    assert Pow2(4) == 16 && Pow2(5) == 32;
    if k <= 4 {
      PowSplit(k, 4 - k);
      MultipleOf(start + 16, Pow2(k), Pow2(4 - k));
    } else {
      PowSplit(5, k - 5);
      NotMultiple(start + 16, 32, Pow2(k - 5));
    }
  }

  lemma NotMultiple(x: int, d: nat, c: nat)
    requires d > 0 && c > 0 && d * c > 0 && x % d != 0
    ensures x % (d * c) != 0
  {
    if x % (d * c) == 0 { MultipleOf(x, d, c); }
  }
}
