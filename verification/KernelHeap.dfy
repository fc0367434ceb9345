/** The kernel heap allocator: boundary tags over one memory, free blocks in two red-black trees. */
module KernelHeap {
  import opened Cells
  import opened Common
  import opened RbShape
  import opened RbFix
  import opened RbAlgebra
  import opened HeapLayout
  import opened Pages
  import T = RbTree

  const MIN_HEAP_SIZE: nat := 0x1000

  // ---------------------------------------------------------------- tags

  /** The headers a new free block writes: its own, a copy of it as footer, and the left-allocated bit
      of the right neighbour. */
  function FreeTags(m: Cells, node: Addr, size: nat): Cells
    requires node in m && node + size in m && node + size + HEADER_SIZE in m
  {
    var e := node + size + HEADER_SIZE;
    var m1 := m[node := m[node].(header := m[node].header.(size := size, color := Red, leftAllocated := true))];
    var m2 := m1[node + size := m1[node + size].(header := m1[node].header)];
    m2[e := m2[e].(header := m2[e].header.(leftAllocated := false))]
  }

  lemma FreeTagsAgree(t: View, node: Addr, size: nat)
    requires Shape(t) && node in t.m && node + size in t.m && node + size + HEADER_SIZE in t.m && size > 0
    requires node !in t.iv && node != t.nil && node + size !in t.iv && node + size != t.nil
    ensures TreeAgrees(t, FreeTags(t.m, node, size)) && KeysAgree(t, FreeTags(t.m, node, size))
  {
    var m' := FreeTags(t.m, node, size);
    forall a {:trigger SameNode(t.m, m', a)} | a in t.iv || a == t.nil ensures SameNode(t.m, m', a) {
      if a in t.iv { assert NodeOk(t, a); }
    }
  }

  /** The cell at `x` changed at most in a header that lies in [b, e) or at `e`, or as a node in [b, e). */
  ghost predicate Confined(m: Cells, m': Cells, b: Addr, e: Addr, x: Addr) {
    && x in m && x in m'
    && (m'[x].header == m[x].header || (b <= x && x + HEADER_SIZE <= e) || x == e)
    && (m'[x] == m[x].(header := m'[x].header) || (b <= x && x + NODE_SIZE <= e))
  }

  /** Apart from the nodes `w`, writes stayed between `b` and `e`, except for the header at `e`. */
  ghost predicate Untouched(m: Cells, m': Cells, w: set<Addr>, b: Addr, e: Addr) {
    && m'.Keys == m.Keys
    && forall x {:trigger Confined(m, m', b, e, x)} :: x in m && x !in w ==> Confined(m, m', b, e, x)
  }

  lemma FreeTagsUntouched(m: Cells, node: Addr, size: nat, m': Cells, ks: set<Addr>, w: set<Addr>)
    requires node in m && node + size in m && node + size + HEADER_SIZE in m && size >= MIN_ALLOC_SIZE
    requires Framed(FreeTags(m, node, size), m', ks) && ks <= w + {node}
    ensures Untouched(m, m', w, node, node + size + HEADER_SIZE)
  {
    var m1, e := FreeTags(m, node, size), node + size + HEADER_SIZE;
    forall x {:trigger Confined(m, m', node, e, x)} | x in m && x !in w ensures Confined(m, m', node, e, x) {
      assert CellFramed(m1, m', ks, x);
    }
  }

  /** The headers of a split block, whose front `b` is handed out, and of its rest `r`. */
  function SplitTags(m: Cells, b: Addr, n: nat, r: Addr, mapped: bool): Cells
    requires b in m && r in m
  {
    var m1 := m[b := m[b].(header := m[b].header.(size := n, leftAllocated := true, isAllocated := true))];
    m1[r := m1[r].(header := m1[r].header.(mapped := mapped))]
  }

  lemma SplitTagsAgree(t: View, b: Addr, n: nat, r: Addr, mapped: bool)
    requires Shape(t) && b in t.m && r in t.m && b != r && b !in t.iv && b != t.nil
    ensures TreeAgrees(t, SplitTags(t.m, b, n, r, mapped)) && KeysAgree(t, SplitTags(t.m, b, n, r, mapped))
  {
    var m' := SplitTags(t.m, b, n, r, mapped);
    forall a {:trigger SameNode(t.m, m', a)} | a in t.iv || a == t.nil ensures SameNode(t.m, m', a) {
      if a in t.iv { assert NodeOk(t, a); }
    }
  }

  lemma SplitHeaders(m: Cells, b: Addr, n: nat, e: Addr, mapped: bool, m2: Cells)
    requires b in m && b + n + HEADER_SIZE in m && e in m && b + n + 2 * HEADER_SIZE < e && e - HEADER_SIZE in m
    requires SameHeaders(FreeTags(m, b + n + HEADER_SIZE, e - b - n - 2 * HEADER_SIZE), m2)
    ensures b in m2 && b + n + HEADER_SIZE in m2
    ensures CarveHeaders(m, b, n, e, mapped, SplitTags(m2, b, n, b + n + HEADER_SIZE, mapped))
  {
    var r, f := b + n + HEADER_SIZE, e - HEADER_SIZE;
    var m1 := FreeTags(m, r, f - r);
    var m3 := SplitTags(m2, b, n, r, mapped);
    assert SameBare(m1, m2, b) && SameBare(m1, m2, r) && SameBare(m1, m2, e) && SameBare(m1, m2, f);
    forall a {:trigger SameBare(m, m3, a)} | a in m && a != b && a != r && a != e && a != f ensures SameBare(m, m3, a) {
      assert SameBare(m1, m2, a);
    }
  }

  lemma SplitUntouched(m: Cells, m2: Cells, w: set<Addr>, b: Addr, n: nat, r: Addr, mapped: bool, e: Addr)
    requires Untouched(m, m2, w, r, e) && b in m2 && r in m2 && b <= r && r + HEADER_SIZE <= e
    ensures Untouched(m, SplitTags(m2, b, n, r, mapped), w, b, e)
  {
    var m3 := SplitTags(m2, b, n, r, mapped);
    forall x {:trigger Confined(m, m3, b, e, x)} | x in m && x !in w ensures Confined(m, m3, b, e, x) {
      assert Confined(m, m2, r, e, x);
    }
  }

  /** What a split leaves of the memory. */
  lemma SplitResult(m: Cells, m2: Cells, w: set<Addr>, b: Addr, n: nat, e: Addr, mapped: bool)
    requires b in m && b + n + HEADER_SIZE in m && e in m && b + n + 2 * HEADER_SIZE < e && e - HEADER_SIZE in m
    requires SameHeaders(FreeTags(m, b + n + HEADER_SIZE, e - b - n - 2 * HEADER_SIZE), m2)
    requires Untouched(m, m2, w, b + n + HEADER_SIZE, e)
    ensures b in m2 && b + n + HEADER_SIZE in m2
    ensures var m3 := SplitTags(m2, b, n, b + n + HEADER_SIZE, mapped);
            CarveHeaders(m, b, n, e, mapped, m3) && Untouched(m, m3, w, b, e)
  {
    SplitHeaders(m, b, n, e, mapped, m2);
    SplitUntouched(m, m2, w, b, n, b + n + HEADER_SIZE, mapped, e);
  }

  /** The headers of a block `b` handed out whole and of its right neighbour `e`. */
  function WholeTags(m: Cells, b: Addr, e: Addr): Cells
    requires b in m && e in m
  {
    var m1 := m[e := m[e].(header := m[e].header.(leftAllocated := true))];
    m1[b := m1[b].(header := m1[b].header.(leftAllocated := true, isAllocated := true))]
  }

  lemma WholeTagsAgree(t: View, b: Addr, e: Addr)
    requires Shape(t) && b in t.m && e in t.m
    ensures TreeAgrees(t, WholeTags(t.m, b, e)) && KeysAgree(t, WholeTags(t.m, b, e))
  {
    var m' := WholeTags(t.m, b, e);
    forall a {:trigger SameNode(t.m, m', a)} | a in t.iv || a == t.nil ensures SameNode(t.m, m', a) {
      if a in t.iv { assert NodeOk(t, a); }
    }
  }

  /** Marks the sentinels of both trees as allocated. */
  function SentinelTags(m: Cells, start: Addr, size: nat): Cells
    requires start + size - 3 * NODE_SIZE in m && start + size - NODE_SIZE in m
  {
    var u, v := start + size - 3 * NODE_SIZE, start + size - NODE_SIZE;
    var m1 := m[u := m[u].(header := m[u].header.(isAllocated := true))];
    m1[v := m1[v].(header := m1[v].header.(isAllocated := true))]
  }

  function Tagged(m: Cells, a: Addr, size: nat): Cells
    requires a in m
  {
    m[a := m[a].(header := m[a].header.(size := size, leftAllocated := true))]
  }

  /** Copies the headers of the first block and of the dummy root to their ends. */
  function FooterTags(m: Cells, start: Addr, size: nat): Cells
    requires size > MIN_HEAP_SIZE && start in m && start + (size - PAGE_SIZE / 2) in m
  {
    var f := start + (size - PAGE_SIZE / 2);
    m[f := m[f].(header := m[start].header)]
  }

  lemma InitTagsSteps(m: Cells, start: Addr, size: nat)
    requires size > MIN_HEAP_SIZE && start in m && start + (size - PAGE_SIZE / 2) in m
    requires start + size - 3 * NODE_SIZE in m && start + size - 2 * NODE_SIZE in m && start + size - NODE_SIZE in m
    ensures var m1 := Tagged(SentinelTags(m, start, size), start, size - PAGE_SIZE / 2);
            FooterTags(Tagged(m1, start + size - 2 * NODE_SIZE, 0), start, size) == InitTags(m, start, size)
  {
  }

  /** The headers written when the heap is set up: the sentinels are marked allocated, the first block and
      the dummy root get their sizes, and the first block its footer. */
  function InitTags(m: Cells, start: Addr, size: nat): Cells
    requires size > MIN_HEAP_SIZE && start in m
  {
    var first, end := size - PAGE_SIZE / 2, start + size - 2 * NODE_SIZE;
    map a | a in m ::
      var hd := m[a].header;
      m[a].(header :=
        if a == end - NODE_SIZE || a == end + NODE_SIZE then hd.(isAllocated := true)
        else if a == start then hd.(size := first, leftAllocated := true)
        else if a == end then hd.(size := 0, leftAllocated := true)
        else if a == start + first then m[start].header.(size := first, leftAllocated := true)
        else hd)
  }

  lemma InitTagsAgree(t: View, start: Addr, size: nat)
    requires Shape(t) && size > MIN_HEAP_SIZE && start in t.m
    requires start + size - PAGE_SIZE / 2 !in t.iv && start + size - PAGE_SIZE / 2 != t.nil
    ensures TreeAgrees(t, InitTags(t.m, start, size))
  {
    var m' := InitTags(t.m, start, size);
    forall a {:trigger SameNode(t.m, m', a)} | a in t.iv || a == t.nil ensures SameNode(t.m, m', a) {
      if a in t.iv { assert NodeOk(t, a); }
    }
  }

  ghost function InitialHeap(m: Cells, start: Addr, size: nat): Heap
    requires size > MIN_HEAP_SIZE
  {
    Heap(m, start, start + (size - PAGE_SIZE / 2) + HEADER_SIZE, start + size - 2 * NODE_SIZE, map[start := InUnmapped])
  }

  /** The tags of a fresh heap: those of its block, at both ends, and those that mark the sentinels as taken. */
  ghost predicate FreshTags(m: Cells, start: Addr, size: nat) {
    && size >= 0x800 && start in m && start + size - 0x800 in m && start + size - 40 in m && start + size - 120 in m
    && m[start].header == Header(size - 0x800, false, true, Black, false)
    && m[start + size - 0x800].header == m[start].header
    && m[start + size - 40].header.isAllocated && m[start + size - 120].header.isAllocated
  }

  /** One unmapped block fills a fresh heap. */
  lemma InitTagsOk(m: Cells, start: Addr, size: nat)
    requires start % 16 == 0 && size % 16 == 0 && size > MIN_HEAP_SIZE
    requires forall x :: start <= x < start + size ==> x in m
    requires m[start].header == NULL_HEADER && !m[start + (size - PAGE_SIZE / 2) + HEADER_SIZE].header.mapped
    ensures HeapInv(InitialHeap(InitTags(m, start, size), start, size))
    ensures FreshTags(InitTags(m, start, size), start, size)
  {
    var h := InitialHeap(InitTags(m, start, size), start, size);
    assert BlockOk(h, start);
  }

  ghost predicate MatchOk(mk: map<Addr, Span>, uk: map<Addr, Span>, end: Addr, st: map<Addr, Status>, b: Addr) {
    && (b in mk <==> b == end || (b in st && st[b] == InMapped))
    && (b in uk <==> b in st && st[b] == InUnmapped)
  }

  /** A request is served with at least 64 bytes, rounded up to a multiple of 16. */
  function AllocSize(size: nat): (n: nat)
    ensures n % 16 == 0 && n >= size && n >= 64 && (n > 64 ==> n < size + 16)
  {
    var s := if size < MIN_ALLOC_SIZE then MIN_ALLOC_SIZE else size;
    if s % 16 != 0 then s - s % 16 + 16 else s
  }

  function PageRound(n: nat): (p: nat)
    ensures p % 0x1000 == 0 && n <= p < n + 0x1000
  {
    (if n % PAGE_SIZE != 0 then n / PAGE_SIZE + 1 else n / PAGE_SIZE) * PAGE_SIZE
  }

  /** The first page that starts after `b`. */
  function PageAbove(b: Addr): Addr {
    PageOf(b) + PAGE_SIZE
  }

  /** The number of pages mapped for a block of `n` bytes. */
  function PageCount(n: nat): nat {
    n / PAGE_SIZE + 1
  }

  /** The blocks after `n` bytes of the block `b` of `size` bytes went to a client who asked for `req`. */
  function Allotted(st: map<Addr, Status>, b: Addr, size: nat, n: nat, req: nat, inMapped: bool): map<Addr, Status> {
    if size >= n + MIN_BLOCK_SIZE then st[b := Out(req)][b + n + HEADER_SIZE := TreeStatus(inMapped)]
    else st[b := Out(req)]
  }

  class KernelHeapAllocator {
    const mem: Memory
    const start: Addr
    const end: Addr
    const size: nat
    const mapped: T.RbTree
    const unmapped: T.RbTree
    /** Where the last block ends. */
    ghost const fence: Addr
    /** The pages mapped so far. */
    var frames: Frames
    /** The blocks and where they are. */
    ghost var st: map<Addr, Status>

    ghost function Layout(): Heap
      reads this, mem
    {
      Heap(mem.cells, start, fence, end, st)
    }

    ghost predicate Trees()
      reads this, mem, mapped, unmapped
    {
      && mapped != unmapped && mapped.mem == mem && unmapped.mem == mem
      && mapped.Valid() && unmapped.Valid()
      && mapped.nil != unmapped.nil && mapped.nil !in unmapped.iv && unmapped.nil !in mapped.iv
      && forall a {:trigger a in mapped.iv, a in unmapped.iv} :: a in mapped.iv ==> a !in unmapped.iv
    }

    /** The sentinels and the dummy root lie beyond the fence. */
    ghost predicate Placed() {
      && start >= 0 && size > MIN_HEAP_SIZE && end == start + size - 2 * NODE_SIZE && end <= U64_MAX
      && fence == start + (size - PAGE_SIZE / 2) + HEADER_SIZE
      && mapped.nil == end + NODE_SIZE && unmapped.nil == end - NODE_SIZE
    }

    /** A block is in a tree exactly when its status says so; the mapped tree also holds the dummy root. */
    ghost predicate Matches()
      reads this, mapped, unmapped
    {
      AllMatch(mapped.iv, unmapped.iv, end, st)
    }

    ghost predicate Holds()
      reads this, mem, mapped, unmapped
    {
      Trees() && Placed() && Matches() && HeapInv(Layout())
    }

    ghost predicate Valid()
      reads this, mem, mapped, unmapped
    {
      Holds() && forall b {:trigger st[b]} :: b in st ==> st[b] != Held
    }

    ghost predicate OnlyHeld(b: Addr)
      reads this
    {
      b in st && st[b] == Held && forall c {:trigger st[c]} :: c in st && c != b ==> st[c] != Held
    }

    constructor (mem: Memory, heapStart: Addr, heapSize: nat, frames: Frames)
      requires heapStart >= 0 && heapStart % PAGE_SIZE == 0 && heapSize > MIN_HEAP_SIZE && heapSize % 16 == 0
      requires heapStart + heapSize <= U64_MAX
      requires forall x :: heapStart <= x < heapStart + heapSize ==> x in mem.cells
      requires !mem.cells[heapStart + (heapSize - PAGE_SIZE / 2) + HEADER_SIZE].header.mapped
      modifies mem
      ensures Valid() && fresh(mapped) && fresh(unmapped) && this.mem == mem
      ensures start == heapStart && size == heapSize && st == map[start := InUnmapped] && this.frames == frames
      ensures fence == heapStart + (heapSize - 0x800) + 16 && end == heapStart + heapSize - 80
      ensures mapped.nil == heapStart + heapSize - 40 && unmapped.nil == heapStart + heapSize - 120
      ensures FreshTags(mem.cells, heapStart, heapSize)
    {
      this.mem := mem;
      this.frames := frames;
      start := heapStart;
      size := heapSize;
      end := heapStart + heapSize - 2 * NODE_SIZE;
      st := map[heapStart := InUnmapped];
      fence := heapStart + (heapSize - PAGE_SIZE / 2) + HEADER_SIZE;
      assert heapStart % 16 == 0;
      var mappedTree, unmappedTree := NewTrees(mem, heapStart, heapSize);
      mapped, unmapped := mappedTree, unmappedTree;
      new;
      Setup();
    }

    static method NewTrees(mem: Memory, heapStart: Addr, heapSize: nat) returns (mapped: T.RbTree, unmapped: T.RbTree)
      requires heapSize > MIN_HEAP_SIZE && forall x :: heapStart <= x < heapStart + heapSize ==> x in mem.cells
      modifies mem
      ensures fresh(mapped) && fresh(unmapped) && mapped != unmapped && mapped.mem == mem && unmapped.mem == mem
      ensures mapped.Valid() && unmapped.Valid()
      ensures var end := heapStart + heapSize - 2 * NODE_SIZE;
              && mapped.iv.Keys == {end} && |mapped.s| == 1 && mapped.nil == end + NODE_SIZE
              && unmapped.iv.Keys == {heapStart} && |unmapped.s| == 1 && unmapped.nil == end - NODE_SIZE
      ensures mem.cells.Keys == old(mem.cells.Keys) && mem.cells[heapStart].header == NULL_HEADER
      ensures var e := heapStart + (heapSize - PAGE_SIZE / 2) + HEADER_SIZE; mem.cells[e] == old(mem.cells[e])
    {
      unmapped := new T.RbTree(mem, heapStart, heapStart + heapSize - 3 * NODE_SIZE);
      ghost var tu := unmapped.Snapshot();
      mapped := new T.RbTree(mem, heapStart + heapSize - 2 * NODE_SIZE, heapStart + heapSize - NODE_SIZE);
      AgreeValid(tu, unmapped.bh, mem.cells);
    }

    /** Gives the two one-node trees of a new heap their headers. */
    method Setup()
      requires Trees() && Placed() && start % 16 == 0 && size % 16 == 0 && st == map[start := InUnmapped]
      requires mapped.iv.Keys == {end} && |mapped.s| == 1 && unmapped.iv.Keys == {start} && |unmapped.s| == 1
      requires forall x :: start <= x < start + size ==> x in mem.cells
      requires mem.cells[start].header == NULL_HEADER && !mem.cells[fence].header.mapped
      modifies mem
      ensures Valid() && FreshTags(mem.cells, start, size)
    {
      ghost var m' := InitTags(mem.cells, start, size);
      InitTagsAgree(mapped.Snapshot(), start, size);
      InitTagsAgree(unmapped.Snapshot(), start, size);
      AgreeRb(mapped.Snapshot(), mapped.bh, m');
      AgreeRb(unmapped.Snapshot(), unmapped.bh, m');
      InitTagsOk(mem.cells, start, size);
      WriteInitTags();
      assert Layout() == InitialHeap(mem.cells, start, size);
    }

    method WriteInitTags()
      requires Placed() && Packable(size - PAGE_SIZE / 2)
      requires start in mem.cells && end in mem.cells && mapped.nil in mem.cells && unmapped.nil in mem.cells
      requires start + (size - PAGE_SIZE / 2) in mem.cells
      modifies mem
      ensures mem.cells == InitTags(old(mem.cells), start, size)
    {
      mem.SetHeader(unmapped.nil, mem.cells[unmapped.nil].header.(isAllocated := true));
      mem.SetHeader(mapped.nil, mem.cells[mapped.nil].header.(isAllocated := true));
      assert mem.cells == SentinelTags(old(mem.cells), start, size);
      InitNodeHeader(start, size - PAGE_SIZE / 2);
      InitNodeHeader(end, 0);
      WriteFooters();
      InitTagsSteps(old(mem.cells), start, size);
    }

    method WriteFooters()
      requires Placed() && start in mem.cells && end in mem.cells && start + (size - PAGE_SIZE / 2) in mem.cells
      modifies mem
      ensures mem.cells == FooterTags(old(mem.cells), start, size)
    {
      mem.SetHeader(start + (size - PAGE_SIZE / 2), mem.cells[start].header);
      mem.SetHeader(end, mem.cells[end].header);
    }

    method InitNodeHeader(node: Addr, size: nat)
      requires node in mem.cells && Packable(size)
      modifies mem
      ensures mem.cells == old(mem.cells)[node := old(mem.cells)[node].(header :=
                old(mem.cells)[node].header.(size := size, leftAllocated := true))]
    {
      mem.SetHeader(node, mem.cells[node].header.(size := size));
      mem.SetHeader(node, mem.cells[node].header.(leftAllocated := true));
    }

    method WriteFreeTags(node: Addr, size: nat)
      requires node in mem.cells && node + size in mem.cells && node + size + HEADER_SIZE in mem.cells
      requires Packable(size) && size > 0
      modifies mem
      ensures mem.cells == FreeTags(old(mem.cells), node, size)
    {
      mem.SetHeader(node, mem.cells[node].header.(size := size));
      mem.SetHeader(node, mem.cells[node].header.(color := Red));
      mem.SetHeader(node, mem.cells[node].header.(leftAllocated := true));
      mem.SetHeader(node + size, mem.cells[node].header);
      var right := node + size + HEADER_SIZE;
      mem.SetHeader(right, mem.cells[right].header.(leftAllocated := false));
    }

    /** Nodes and sentinels of the two trees. */
    ghost function TreeCells(): set<Addr>
      reads mapped, unmapped
    {
      mapped.iv.Keys + unmapped.iv.Keys + {mapped.nil, unmapped.nil}
    }

    /** Writes the tags of a free block and inserts it in a tree. */
    method InitFreeNode(node: Addr, size: nat, inMapped: bool)
      requires Trees() && Packable(size) && size >= MIN_ALLOC_SIZE
      requires node in mem.cells && node + size in mem.cells && node + size + HEADER_SIZE in mem.cells
      requires node !in TreeCells() && node + size !in TreeCells()
      modifies mem, mapped, unmapped
      ensures Trees()
      ensures mapped.iv.Keys == old(mapped.iv.Keys) + if inMapped then {node} else {}
      ensures unmapped.iv.Keys == old(unmapped.iv.Keys) + if inMapped then {} else {node}
      ensures SameHeaders(FreeTags(old(mem.cells), node, size), mem.cells)
      ensures Untouched(old(mem.cells), mem.cells, old(TreeCells()), node, node + size + HEADER_SIZE)
    {
      FreeTagsAgree(mapped.Snapshot(), node, size);
      AgreeValid(mapped.Snapshot(), mapped.bh, FreeTags(mem.cells, node, size));
      FreeTagsAgree(unmapped.Snapshot(), node, size);
      AgreeValid(unmapped.Snapshot(), unmapped.bh, FreeTags(mem.cells, node, size));
      WriteFreeTags(node, size);
      InsertInTree(node, inMapped);
      ghost var ks := old(TreeCells()) + {node};
      FramedHeaders(FreeTags(old(mem.cells), node, size), mem.cells, ks);
      FreeTagsUntouched(old(mem.cells), node, size, mem.cells, ks, old(TreeCells()));
    }

    /** Inserts a node in one of the trees; the other one stays valid. */
    method InsertInTree(node: Addr, inMapped: bool)
      requires Trees() && node in mem.cells && node !in TreeCells()
      modifies mem, mapped, unmapped
      ensures Trees()
      ensures mapped.iv.Keys == old(mapped.iv.Keys) + if inMapped then {node} else {}
      ensures unmapped.iv.Keys == old(unmapped.iv.Keys) + if inMapped then {} else {node}
      ensures Framed(old(mem.cells), mem.cells, old(TreeCells()) + {node})
    {
      ghost var m, tm, tu := mem.cells, mapped.Snapshot(), unmapped.Snapshot();
      ghost var ks := TreeCells() + {node};
      if inMapped {
        ghost var k, path := mapped.InsertNode(node);
        FramedAgrees(tu, mem.cells, mapped.iv.Keys);
        AgreeValid(tu, unmapped.bh, mem.cells);
        FramedMore(m, mem.cells, mapped.iv.Keys, ks);
      } else {
        ghost var k, path := unmapped.InsertNode(node);
        FramedAgrees(tm, mem.cells, unmapped.iv.Keys);
        AgreeValid(tm, mapped.bh, mem.cells);
        FramedMore(m, mem.cells, unmapped.iv.Keys, ks);
      }
    }

    /** Both trees stay valid when the memory becomes `m'`. */
    ghost predicate TreesSurvive(m': Cells)
      reads this, mem, mapped, unmapped
    {
      && Rb(View(m', mapped.nil, mapped.root, mapped.s, mapped.iv), mapped.bh) && Sorted(m', mapped.s)
      && Rb(View(m', unmapped.nil, unmapped.root, unmapped.s, unmapped.iv), unmapped.bh) && Sorted(m', unmapped.s)
    }

    /** Cells of a held block belong to neither tree. */
    lemma HeldAway(b: Addr, a: Addr)
      requires Holds() && b in st && st[b] == Held && b <= a < Next(Layout(), b)
      ensures a in mem.cells && a !in TreeCells() && a < fence && a != end
      ensures b in mem.cells && Next(Layout(), b) in mem.cells && BlockOk(Layout(), b)
    {
      var h := Layout();
      assert BlockOk(h, b);
      assert a in st ==> Apart(h, b, a);
      assert MatchOk(mapped.iv, unmapped.iv, end, st, a);
    }

    lemma BlockPackable(b: Addr)
      requires Holds() && b in st
      ensures Packable(Key(mem.cells, b))
    {
      assert BlockOk(Layout(), b);
    }

    // -------------------------------------------------------------- handing out a block

    method WriteWholeTags(block: Addr, blockSize: nat)
      requires block in mem.cells && block + blockSize + HEADER_SIZE in mem.cells
      requires blockSize == mem.cells[block].header.size && Packable(blockSize)
      modifies mem
      ensures mem.cells == WholeTags(old(mem.cells), block, block + blockSize + HEADER_SIZE)
    {
      var right := block + blockSize + HEADER_SIZE;
      mem.SetHeader(right, mem.cells[right].header.(leftAllocated := true));
      InitNodeHeader(block, blockSize);
      mem.SetHeader(block, mem.cells[block].header.(isAllocated := true));
      assert mem.cells == WholeTags(old(mem.cells), block, right);
    }

    lemma WholeSurvives(b: Addr, e: Addr)
      requires Trees() && b in mem.cells && e in mem.cells && b != e
      ensures TreesSurvive(WholeTags(mem.cells, b, e)) && WholeHeaders(mem.cells, b, e, WholeTags(mem.cells, b, e))
    {
      WholeTagsAgree(mapped.Snapshot(), b, e);
      WholeTagsAgree(unmapped.Snapshot(), b, e);
      AgreeValid(mapped.Snapshot(), mapped.bh, WholeTags(mem.cells, b, e));
      AgreeValid(unmapped.Snapshot(), unmapped.bh, WholeTags(mem.cells, b, e));
    }

    lemma WholeOk(b: Addr, req: nat)
      requires Holds() && OnlyHeld(b) && req <= Key(mem.cells, b)
      ensures b in mem.cells && Next(Layout(), b) in mem.cells
      ensures var m' := WholeTags(mem.cells, b, Next(Layout(), b));
              && TreesSurvive(m') && HeapInv(Layout().(m := m', st := st[b := Out(req)])) && ClientsKept(Layout(), m')
              && WholeHeaders(mem.cells, b, Next(Layout(), b), m')
    {
      HeldAway(b, b);
      var h, e := Layout(), Next(Layout(), b);
      WholeSurvives(b, e);
      AllocWhole(h, b, req, WholeTags(mem.cells, b, e));
      UntouchedKeepsOne(h, {}, b, WholeTags(mem.cells, b, e));
    }

    /** Hands out the whole of a held block. */
    method HandOutWhole(block: Addr, blockSize: nat, ghost sizeReq: nat, ghost req: nat, ghost inMapped: bool)
      returns (addr: Addr)
      requires Holds() && OnlyHeld(block) && blockSize == Key(mem.cells, block) && req <= blockSize
      requires blockSize < sizeReq + MIN_BLOCK_SIZE
      modifies this`st, mem
      ensures Valid() && addr == block + HEADER_SIZE && ClientsKept(old(Layout()), mem.cells)
      ensures st == Allotted(old(st), block, blockSize, sizeReq, req, inMapped)
      ensures AllotHeaders(old(mem.cells), block, sizeReq, inMapped, mem.cells)
    {
      WholeOk(block, req);
      BlockPackable(block);
      WriteWholeTags(block, blockSize);
      ghost var st0 := st;
      st := st[block := Out(req)];
      forall b {:trigger MatchOk(mapped.iv, unmapped.iv, end, st, b)}
        ensures MatchOk(mapped.iv, unmapped.iv, end, st, b)
      {
        assert MatchOk(mapped.iv, unmapped.iv, end, st0, b);
      }
      addr := block + HEADER_SIZE;
    }

    lemma SplitSurvives(b: Addr, n: nat, r: Addr, inMapped: bool)
      requires Trees() && b in mem.cells && r in mem.cells && b != r && b !in TreeCells()
      ensures TreesSurvive(SplitTags(mem.cells, b, n, r, inMapped))
    {
      SplitTagsAgree(mapped.Snapshot(), b, n, r, inMapped);
      SplitTagsAgree(unmapped.Snapshot(), b, n, r, inMapped);
      AgreeValid(mapped.Snapshot(), mapped.bh, SplitTags(mem.cells, b, n, r, inMapped));
      AgreeValid(unmapped.Snapshot(), unmapped.bh, SplitTags(mem.cells, b, n, r, inMapped));
    }

    method WriteSplitTags(block: Addr, sizeReq: nat, rest: Addr, inMapped: bool)
      requires block in mem.cells && rest in mem.cells && block != rest && Packable(sizeReq)
      modifies mem
      ensures mem.cells == SplitTags(old(mem.cells), block, sizeReq, rest, inMapped)
    {
      InitNodeHeader(block, sizeReq);
      mem.SetHeader(rest, mem.cells[rest].header.(mapped := inMapped));
      mem.SetHeader(block, mem.cells[block].header.(isAllocated := true));
      assert mem.cells == SplitTags(old(mem.cells), block, sizeReq, rest, inMapped);
    }

    /** Writes the headers of both parts of a split block and inserts the rest in a tree. */
    method SplitBlock(block: Addr, blockSize: nat, sizeReq: nat, rest: Addr, inMapped: bool)
      requires Trees() && blockSize >= sizeReq + MIN_BLOCK_SIZE && rest == block + sizeReq + HEADER_SIZE
      requires Packable(sizeReq) && Packable(blockSize - sizeReq - HEADER_SIZE)
      requires rest in mem.cells && block + blockSize in mem.cells && block + blockSize + HEADER_SIZE in mem.cells
      requires block in mem.cells
      requires block !in TreeCells() && rest !in TreeCells() && block + blockSize !in TreeCells()
      modifies mem, mapped, unmapped
      ensures Trees()
      ensures mapped.iv.Keys == old(mapped.iv.Keys) + if inMapped then {rest} else {}
      ensures unmapped.iv.Keys == old(unmapped.iv.Keys) + if inMapped then {} else {rest}
      ensures CarveHeaders(old(mem.cells), block, sizeReq, block + blockSize + HEADER_SIZE, inMapped, mem.cells)
      ensures Untouched(old(mem.cells), mem.cells, old(TreeCells()), block, block + blockSize + HEADER_SIZE)
    {
      InitFreeNode(rest, blockSize - sizeReq - HEADER_SIZE, inMapped);
      SplitResult(old(mem.cells), mem.cells, old(TreeCells()), block, sizeReq, block + blockSize + HEADER_SIZE,
                  inMapped);
      TagFront(block, sizeReq, rest, inMapped);
    }

    /** Writes the headers of both parts; the trees do not notice. */
    method TagFront(block: Addr, sizeReq: nat, rest: Addr, inMapped: bool)
      requires Trees() && block in mem.cells && rest in mem.cells && block != rest && Packable(sizeReq)
      requires block !in TreeCells()
      modifies mem
      ensures Trees() && mem.cells == SplitTags(old(mem.cells), block, sizeReq, rest, inMapped)
    {
      SplitSurvives(block, sizeReq, rest, inMapped);
      WriteSplitTags(block, sizeReq, rest, inMapped);
    }

    lemma RestPackable(b: Addr, n: nat)
      requires Holds() && b in st && n % 16 == 0 && Key(mem.cells, b) >= n + MIN_BLOCK_SIZE
      ensures Packable(n) && Packable(Key(mem.cells, b) - n - HEADER_SIZE)
    {
      BlockPackable(b);
    }

    lemma FrontReady(b: Addr, n: nat, req: nat, inMapped: bool)
      requires Holds() && OnlyHeld(b) && Key(mem.cells, b) >= n + MIN_BLOCK_SIZE
      requires req <= n && n % 16 == 0 && n >= MIN_ALLOC_SIZE && (!inMapped ==> Next(Layout(), b) == fence)
      ensures CanCarve(Layout(), b, n, req, inMapped) && BeyondBlocks(Layout(), TreeCells())
      ensures Packable(n) && Packable(Key(mem.cells, b) - n - HEADER_SIZE)
      ensures var r, f, e := b + n + HEADER_SIZE, b + Key(mem.cells, b), b + Key(mem.cells, b) + HEADER_SIZE;
              && e == Next(Layout(), b) && b in mem.cells && r in mem.cells && f in mem.cells && e in mem.cells
              && b !in TreeCells() && r !in TreeCells() && f !in TreeCells() && r != end && r !in st
    {
      RestAway(b, b + n + HEADER_SIZE);
      RestPackable(b, n);
    }

    /** Hands out the front of a held block and frees the rest. */
    method HandOutFront(block: Addr, blockSize: nat, sizeReq: nat, ghost req: nat, inMapped: bool) returns (addr: Addr)
      requires Holds() && OnlyHeld(block) && blockSize == Key(mem.cells, block) && blockSize >= sizeReq + MIN_BLOCK_SIZE
      requires req <= sizeReq && sizeReq % 16 == 0 && sizeReq >= MIN_ALLOC_SIZE
      requires !inMapped ==> Next(Layout(), block) == fence
      modifies this`st, mem, mapped, unmapped
      ensures Valid() && addr == block + HEADER_SIZE && ClientsKept(old(Layout()), mem.cells)
      ensures st == Allotted(old(st), block, blockSize, sizeReq, req, inMapped)
      ensures AllotHeaders(old(mem.cells), block, sizeReq, inMapped, mem.cells)
    {
      ghost var h, w, mk, uk := Layout(), TreeCells(), mapped.iv, unmapped.iv;
      var rest := block + sizeReq + HEADER_SIZE;
      FrontReady(block, sizeReq, req, inMapped);
      SplitBlock(block, blockSize, sizeReq, rest, inMapped);
      CommitFront(h, w, mk, uk, block, sizeReq, req, inMapped);
      addr := block + HEADER_SIZE;
    }

    /** Records that the front of a block went to a client. */
    ghost method CommitFront(h: Heap, w: set<Addr>, mk: map<Addr, Span>, uk: map<Addr, Span>, b: Addr, n: nat, req: nat,
                             inMapped: bool)
      requires Trees() && Placed() && OnlyHeld(b) && Layout() == h.(m := mem.cells) && AllMatch(mk, uk, end, st)
      requires CanCarve(h, b, n, req, inMapped) && CarveHeaders(h.m, b, n, Next(h, b), inMapped, mem.cells)
      requires BeyondBlocks(h, w) && Untouched(h.m, mem.cells, w, b, Next(h, b)) && b != end
      requires var r := b + n + HEADER_SIZE;
               && r !in st && r != end && mapped.iv.Keys == mk.Keys + (if inMapped then {r} else {})
               && unmapped.iv.Keys == uk.Keys + (if inMapped then {} else {r})
      modifies this`st
      ensures Valid() && st == Allotted(old(st), b, Key(h.m, b), n, req, inMapped)
      ensures ClientsKept(h, mem.cells) && AllotHeaders(h.m, b, n, inMapped, mem.cells)
    {
      var rest := b + n + HEADER_SIZE;
      FrontOk(h, w, b, n, req, inMapped, mem.cells);
      MatchesCarved(mk, uk, mapped.iv, unmapped.iv, end, st, b, rest, req, inMapped);
      st := st[b := Out(req)][rest := if inMapped then InMapped else InUnmapped];
      assert Layout() == Carved(h, b, n, req, inMapped, mem.cells);
    }

    // -------------------------------------------------------------- finding a block

    /** Takes the best fitting block out of the mapped tree. */
    method TakeMapped(value: nat) returns (fit: Option<Addr>)
      requires Valid() && 0 < value <= U64_MAX
      modifies mem, mapped
      ensures Trees()
      ensures fit.None? ==>
                && mem.cells == old(mem.cells) && NoFit(old(mem.cells), old(mapped.s), value)
                && mapped.iv == old(mapped.iv)
      ensures fit.Some? ==>
        && IsBestFit(old(mem.cells), old(mapped.s), value, fit.value) && fit.value in old(mapped.iv)
        && mapped.iv.Keys == old(mapped.iv.Keys) - {fit.value}
        && Framed(old(mem.cells), mem.cells, old(mapped.iv.Keys) + {mapped.nil})
    {
      ghost var tu, ks := unmapped.Snapshot(), mapped.iv.Keys + {mapped.nil};
      fit := mapped.FindBestNodeFit(value);
      if fit.Some? {
        FramedAgrees(tu, mem.cells, ks);
        AgreeValid(tu, unmapped.bh, mem.cells);
      }
    }

    method TakeUnmapped(value: nat) returns (fit: Option<Addr>)
      requires Valid() && 0 < value <= U64_MAX
      modifies mem, unmapped
      ensures Trees()
      ensures fit.None? ==>
                && mem.cells == old(mem.cells) && NoFit(old(mem.cells), old(unmapped.s), value)
                && unmapped.iv == old(unmapped.iv)
      ensures fit.Some? ==>
        && IsBestFit(old(mem.cells), old(unmapped.s), value, fit.value) && fit.value in old(unmapped.iv)
        && unmapped.iv.Keys == old(unmapped.iv.Keys) - {fit.value}
        && Framed(old(mem.cells), mem.cells, old(unmapped.iv.Keys) + {unmapped.nil})
    {
      ghost var tm, ks := mapped.Snapshot(), unmapped.iv.Keys + {unmapped.nil};
      fit := unmapped.FindBestNodeFit(value);
      if fit.Some? {
        FramedAgrees(tm, mem.cells, ks);
        AgreeValid(tm, mapped.bh, mem.cells);
      }
    }

    lemma BeyondTrees()
      requires Holds()
      ensures BeyondBlocks(Layout(), TreeCells())
      ensures BeyondBlocks(Layout(), mapped.iv.Keys + {mapped.nil})
      ensures BeyondBlocks(Layout(), unmapped.iv.Keys + {unmapped.nil})
    {
      forall x {:trigger x in TreeCells()} | x in TreeCells() ensures (x in st && !st[x].Out?) || x >= fence {
        assert MatchOk(mapped.iv, unmapped.iv, end, st, x);
      }
    }

    /** Takes the best fitting block out of one of the trees; nothing else changes. */
    method TakeFit(inMapped: bool, value: nat) returns (fit: Option<Addr>)
      requires Valid() && 0 < value <= U64_MAX
      modifies this`st, mem, mapped, unmapped
      ensures fit.None? ==>
                Valid() && st == old(st) && mem.cells == old(mem.cells) && NoBlock(old(Layout()), inMapped, value)
      ensures fit.Some? ==>
        && Holds() && BestBlock(old(Layout()), inMapped, value, fit.value) && st == old(st)[fit.value := Held]
        && SameHeaders(old(mem.cells), mem.cells) && ClientsKept(old(Layout()), mem.cells)
    {
      ghost var h, mk, uk := Layout(), mapped.iv, unmapped.iv;
      ghost var t := if inMapped then mapped.Snapshot() else unmapped.Snapshot();
      BeyondTrees();
      if inMapped {
        fit := TakeMapped(value);
      } else {
        fit := TakeUnmapped(value);
      }
      if fit.None? {
        NoNodeIsNoBlock(h, t, mk, uk, inMapped, value);
      } else {
        BestNodeIsBestBlock(h, t, mk, uk, inMapped, value, fit.value);
        CommitTake(h, mk, uk, t.iv.Keys + {t.nil}, fit.value);
      }
    }

    /** Records that a block left its tree and is in hand. */
    ghost method CommitTake(h: Heap, mk: map<Addr, Span>, uk: map<Addr, Span>, ks: set<Addr>, b: Addr)
      requires HeapInv(h) && AllMatch(mk, uk, end, st) && b in h.st && (h.st[b] == InMapped || h.st[b] == InUnmapped)
      requires Trees() && Placed() && Layout() == h.(m := mem.cells)
      requires Framed(h.m, mem.cells, ks) && BeyondBlocks(h, ks)
      requires mapped.iv.Keys == mk.Keys - {b} && unmapped.iv.Keys == uk.Keys - {b}
      modifies this`st
      ensures Holds() && st == old(st)[b := Held] && SameHeaders(h.m, mem.cells) && ClientsKept(h, mem.cells)
    {
      TreeStepOk(h, mem.cells, ks);
      Hold(h.(m := mem.cells), b);
      assert BlockOk(h, b);
      MatchesHeld(mk, uk, mapped.iv, unmapped.iv, end, st, b);
      st := st[b := Held];
      assert Layout() == h.(m := mem.cells, st := st);
    }

    // -------------------------------------------------------------- allocating

    /** Hands out a block of the mapped tree, or its front if the rest is worth keeping. */
    method SplitAlloc(freeBlock: Addr, sizeReq: nat, ghost req: nat) returns (addr: Addr)
      requires Holds() && OnlyHeld(freeBlock) && req <= sizeReq <= Key(mem.cells, freeBlock)
      requires sizeReq % 16 == 0 && sizeReq >= MIN_ALLOC_SIZE
      modifies this`st, mem, mapped, unmapped
      ensures Valid() && addr == freeBlock + HEADER_SIZE && ClientsKept(old(Layout()), mem.cells)
      ensures st == Allotted(old(st), freeBlock, Key(old(mem.cells), freeBlock), sizeReq, req, true)
      ensures AllotHeaders(old(mem.cells), freeBlock, sizeReq, true, mem.cells)
    {
      HeldAway(freeBlock, freeBlock);
      var blockSize := mem.cells[freeBlock].header.size;
      if blockSize >= sizeReq + MIN_BLOCK_SIZE {
        addr := HandOutFront(freeBlock, blockSize, sizeReq, req, true);
      } else {
        addr := HandOutWhole(freeBlock, blockSize, sizeReq, req, true);
      }
    }

    /** Maps the pages after the one in which a held block starts. */
    method MapBlock(block: Addr, sizeReq: nat, pages: Addr)
      requires Holds() && OnlyHeld(block)
      modifies this`frames
      ensures Holds() && OnlyHeld(block) && BlockMapped(old(frames), frames, block, sizeReq, pages)
    {
      MapPagesIs(frames, PageAbove(block), pages, PageCount(sizeReq));
      frames := MapPages(frames, PageAbove(block), pages, PageCount(sizeReq));
    }

    /** Gives up a held block for which there are no pages: it is in neither tree and with no client. */
    ghost method LoseBlock(block: Addr)
      requires Holds() && OnlyHeld(block) && Next(Layout(), block) == fence
      requires block in mem.cells && !mem.cells[block].header.mapped
      modifies this`st
      ensures Valid() && st == old(st)[block := Leaked] && ClientsKept(old(Layout()), mem.cells)
    {
      Leak(Layout(), block);
      ClientsRefl(Layout());
      MatchesLeaked(mapped.iv, unmapped.iv, end, st, block);
      st := st[block := Leaked];
    }

    /** The same for a block of the unmapped tree, which first needs physical pages. Without pages the
        block is lost. */
    method SplitAllocAndMap(freeBlock: Addr, sizeReq: nat, ghost req: nat, pages: Option<Addr>) returns (addr: Addr)
      requires Holds() && OnlyHeld(freeBlock) && req <= sizeReq <= Key(mem.cells, freeBlock)
      requires sizeReq % 16 == 0 && sizeReq >= MIN_ALLOC_SIZE
      requires Next(Layout(), freeBlock) == fence && freeBlock in mem.cells && !mem.cells[freeBlock].header.mapped
      modifies this`st, this`frames, mem, mapped, unmapped
      ensures Valid() && ClientsKept(old(Layout()), mem.cells)
      ensures addr == if pages.Some? then freeBlock + HEADER_SIZE else 0
      ensures st == if pages.None? then old(st)[freeBlock := Leaked]
                    else Allotted(old(st), freeBlock, Key(old(mem.cells), freeBlock), sizeReq, req, false)
      ensures if pages.None? then mem.cells == old(mem.cells)
              else AllotHeaders(old(mem.cells), freeBlock, sizeReq, false, mem.cells)
      ensures if pages.None? then frames == old(frames)
              else BlockMapped(old(frames), frames, freeBlock, sizeReq, pages.value)
    {
      var blockSize := mem.cells[freeBlock].header.size;
      if pages.None? {
        LoseBlock(freeBlock);
        return 0;
      }
      MapBlock(freeBlock, sizeReq, pages.value);
      if blockSize >= sizeReq + MIN_BLOCK_SIZE {
        addr := HandOutFront(freeBlock, blockSize, sizeReq, req, false);
      } else {
        addr := HandOutWhole(freeBlock, blockSize, sizeReq, req, false);
      }
    }

    /** Allocates from the mapped tree if a block is large enough. */
    method AllocMapped(size: nat, ghost req: nat) returns (addr: Option<Addr>, ghost block: Addr)
      requires Valid() && 0 < req && size == AllocSize(req) && size <= U64_MAX
      modifies this`st, mem, mapped, unmapped
      ensures Valid() && ClientsKept(old(Layout()), mem.cells)
      ensures addr.None? ==> st == old(st) && mem.cells == old(mem.cells) && NoBlock(old(Layout()), true, size)
      ensures addr.Some? ==> Served(old(Layout()), true, size, req, block, addr.value, Layout())
    {
      ghost var h := Layout();
      var fit := TakeFit(true, size);
      block := 0;
      match fit
      case None =>
        ClientsRefl(h);
        addr := None;
      case Some(node) =>
        var a := ServeMapped(node, size, req, h);
        addr, block := Some(a), node;
    }

    /** Hands out a block that was taken from the mapped tree of `h`. */
    method ServeMapped(node: Addr, size: nat, ghost req: nat, ghost h: Heap) returns (addr: Addr)
      requires Holds() && 0 < req && size == AllocSize(req)
      requires HeapInv(h) && BestBlock(h, true, size, node) && SameHeaders(h.m, mem.cells)
      requires st == h.st[node := Held] && fence == h.fence && ClientsKept(h, mem.cells)
      requires forall b {:trigger h.st[b]} :: b in h.st ==> h.st[b] != Held
      modifies this`st, mem, mapped, unmapped
      ensures Valid() && ClientsKept(h, mem.cells) && Served(h, true, size, req, node, addr, Layout())
    {
      ghost var h1 := Layout();
      TakenOk(h, h1, true, size, node);
      addr := SplitAlloc(node, size, req);
      ServedOk(h, h1, true, size, req, node, addr, Layout());
    }

    /** Allocates from the unmapped tree if a block is large enough for whole pages. */
    method AllocUnmapped(size: nat, ghost req: nat, pages: Option<Addr>) returns (addr: Addr, ghost block: Addr)
      requires Valid() && 0 < req && size == AllocSize(req) && size + PAGE_SIZE <= U64_MAX
      modifies this`st, this`frames, mem, mapped, unmapped
      ensures Valid() && ClientsKept(old(Layout()), mem.cells)
      ensures var h, p := old(Layout()), PageRound(size);
              if NoBlock(h, false, p) then addr == 0 && st == old(st) && mem.cells == old(mem.cells)
              else if pages.Some? then Served(h, false, p, req, block, addr, Layout())
              else Lost(h, p, block, addr, Layout())
      ensures if NoBlock(old(Layout()), false, PageRound(size)) || pages.None? then frames == old(frames)
              else BlockMapped(old(frames), frames, block, size, pages.value)
    {
      ghost var h := Layout();
      var pageSize := PageRound(size);
      var fit := TakeFit(false, pageSize);
      block := 0;
      match fit
      case None =>
        ClientsRefl(h);
        addr := 0;
      case Some(node) =>
        addr := ServeUnmapped(node, size, req, pages, h, pageSize);
        block := node;
    }

    /** Hands out a block that was taken from the unmapped tree of `h`. */
    method ServeUnmapped(node: Addr, size: nat, ghost req: nat, pages: Option<Addr>, ghost h: Heap, ghost pageSize: nat)
      returns (addr: Addr)
      requires Holds() && 0 < req && size == AllocSize(req) && size <= pageSize
      requires HeapInv(h) && BestBlock(h, false, pageSize, node) && SameHeaders(h.m, mem.cells)
      requires st == h.st[node := Held] && fence == h.fence && ClientsKept(h, mem.cells)
      requires forall b {:trigger h.st[b]} :: b in h.st ==> h.st[b] != Held
      modifies this`st, this`frames, mem, mapped, unmapped
      ensures Valid() && ClientsKept(h, mem.cells)
      ensures if pages.Some? then Served(h, false, pageSize, req, node, addr, Layout())
              else Lost(h, pageSize, node, addr, Layout())
      ensures if pages.None? then frames == old(frames)
              else BlockMapped(old(frames), frames, node, size, pages.value)
    {
      ghost var h1 := Layout();
      TakenOk(h, h1, false, pageSize, node);
      addr := SplitAllocAndMap(node, size, req, pages);
      if pages.Some? {
        ServedOk(h, h1, false, pageSize, req, node, addr, Layout());
      } else {
        ClientsTrans(h, h1, mem.cells);
      }
    }

    /** Serves a request, whatever the alignment asked for. `pages` is what the frame allocator would answer. */
    method KallocLayout(allocSize: nat, allocAlign: nat, pages: Option<Addr>) returns (addr: Addr, ghost block: Addr)
      requires Valid() && allocSize <= 0x7FFF_FFFF_FFFF_FFFF
      modifies this`st, this`frames, mem, mapped, unmapped
      ensures Valid() && Kalloced(old(Layout()), allocSize, pages.Some?, block, addr, Layout())
      ensures FramesRel(old(Layout()), old(frames), allocSize, pages, block, frames)
    {
      if allocSize == 0 {
        ClientsRefl(Layout());
        return 0, 0;
      }
      var size := AllocSize(allocSize);
      var fromMapped;
      fromMapped, block := AllocMapped(size, allocSize);
      match fromMapped
      case Some(a) =>
        addr := a;
      case None =>
        addr, block := AllocUnmapped(size, allocSize, pages);
    }

    // -------------------------------------------------------------- freeing

    /** The free neighbours of an outstanding block that the boundary tags show, and the size of all together. */
    method MergeScanNeighbors(node: Addr) returns (left: Option<Addr>, right: Option<Addr>, newSize: nat)
      requires Valid() && node in st && st[node].Out?
      ensures MergeScan(Layout(), node, left, right)
      ensures newSize == MergeEnd(Layout(), node, right) - MergeStart(node, left) - HEADER_SIZE
    {
      ghost var h := Layout();
      assert BlockOk(h, node);
      left, right, newSize := None, None, mem.cells[node].header.size;
      var rightNode := node + newSize + HEADER_SIZE;
      var tag := mem.cells[rightNode].header;
      if !tag.isAllocated && tag.mapped {
        assert BlockOk(h, rightNode);
        newSize := newSize + tag.size + HEADER_SIZE;
        right := Some(rightNode);
      }
      if node != start && !mem.cells[node].header.leftAllocated {
        var leftNode := node - mem.cells[node - HEADER_SIZE].header.size - HEADER_SIZE;
        assert leftNode == LeftOf(h, node) && BlockOk(h, leftNode);
        left := Some(leftNode);
        newSize := newSize + mem.cells[leftNode].header.size + HEADER_SIZE;
      }
    }

    /** Takes a free neighbour out of the mapped tree. */
    method TakeNeighbor(node: Addr)
      requires Holds() && node in st && st[node] == InMapped
      modifies this`st, mem, mapped
      ensures Holds() && st == old(st)[node := Held] && SameHeaders(old(mem.cells), mem.cells)
      ensures ClientsKept(old(Layout()), mem.cells)
    {
      ghost var h, tu, mk, ks := Layout(), unmapped.Snapshot(), mapped.iv, mapped.iv.Keys + {mapped.nil};
      BeyondTrees();
      assert MatchOk(mk, unmapped.iv, end, st, node) && BlockOk(h, node);
      var removed;
      ghost var path;
      removed, path := mapped.RemoveNode(node);
      FramedAgrees(tu, mem.cells, ks);
      AgreeValid(tu, unmapped.bh, mem.cells);
      CommitTake(h, mk, unmapped.iv, ks, node);
    }

    lemma HandAway(cur: Addr, e: Addr, a: Addr)
      requires Holds() && InHand(Layout(), cur, e) && cur <= a < e
      ensures a in mem.cells && a !in TreeCells() && a != end
      ensures e in mem.cells && cur + HEADER_SIZE < e
    {
      var h := Layout();
      assert BlockOk(h, cur);
      assert e in st ==> Apart(h, cur, e) && BlockOk(h, e);
      assert MatchOk(mapped.iv, unmapped.iv, end, st, a);
    }

    lemma HandPackable(cur: Addr, newSize: nat)
      requires Holds() && InHand(Layout(), cur, cur + newSize + HEADER_SIZE)
      ensures Packable(newSize) && newSize >= MIN_ALLOC_SIZE
    {
      HandSize(Layout(), cur, newSize);
    }

    /** Cells between `cur` and its end belong to neither tree when all blocks there are in hand. */
    lemma HandReady(cur: Addr, newSize: nat)
      requires Holds() && InHand(Layout(), cur, cur + newSize + HEADER_SIZE)
      ensures Packable(newSize) && newSize >= MIN_ALLOC_SIZE && cur != end && BeyondBlocks(Layout(), TreeCells())
      ensures cur in mem.cells && cur + newSize in mem.cells && cur + newSize + HEADER_SIZE in mem.cells
      ensures cur !in TreeCells() && cur + newSize !in TreeCells()
    {
      HandPackable(cur, newSize);
      HandAway(cur, cur + newSize + HEADER_SIZE, cur);
      HandAway(cur, cur + newSize + HEADER_SIZE, cur + newSize);
      BeyondTrees();
    }

    lemma MergedSurvives(cur: Addr, newSize: nat)
      requires Trees() && cur in mem.cells && cur !in TreeCells()
      ensures TreesSurvive(NewHeader(mem.cells, cur, newSize))
    {
      NewHeaderAgrees(mapped.Snapshot(), cur, newSize);
      NewHeaderAgrees(unmapped.Snapshot(), cur, newSize);
      AgreeValid(mapped.Snapshot(), mapped.bh, NewHeader(mem.cells, cur, newSize));
      AgreeValid(unmapped.Snapshot(), unmapped.bh, NewHeader(mem.cells, cur, newSize));
    }

    /** Writes the header and the tags of a merged block and inserts it in the mapped tree. */
    method InsertMerged(cur: Addr, newSize: nat)
      requires Trees() && Packable(newSize) && newSize >= MIN_ALLOC_SIZE
      requires cur in mem.cells && cur + newSize in mem.cells && cur + newSize + HEADER_SIZE in mem.cells
      requires cur !in TreeCells() && cur + newSize !in TreeCells()
      modifies mem, mapped, unmapped
      ensures Trees() && mapped.iv.Keys == old(mapped.iv.Keys) + {cur} && unmapped.iv.Keys == old(unmapped.iv.Keys)
      ensures var m1 := NewHeader(old(mem.cells), cur, newSize);
              && SameHeaders(FreeTags(m1, cur, newSize), mem.cells)
              && Untouched(m1, mem.cells, old(TreeCells()), cur, cur + newSize + HEADER_SIZE)
    {
      MergedSurvives(cur, newSize);
      InitNodeHeader(cur, newSize);
      InitFreeNode(cur, newSize, true);
    }

    /** Turns the blocks in hand into one free block of the mapped tree. */
    method Coalesce(cur: Addr, newSize: nat)
      requires Holds() && InHand(Layout(), cur, cur + newSize + HEADER_SIZE)
      modifies this`st, mem, mapped, unmapped
      ensures Valid() && st == Released(old(Layout()), cur, mem.cells).st && Key(mem.cells, cur) == newSize
      ensures ClientsKept(old(Layout()), mem.cells)
      ensures ReleaseHeaders(old(mem.cells), cur, cur + newSize + HEADER_SIZE, mem.cells)
    {
      ghost var h, w, mk, uk := Layout(), TreeCells(), mapped.iv, unmapped.iv;
      HandReady(cur, newSize);
      InsertMerged(cur, newSize);
      MergedOk(h, w, cur, newSize, mem.cells);
      MatchesReleased(h, mk, uk, mapped.iv, unmapped.iv, cur, mem.cells);
      st := Released(h, cur, mem.cells).st;
      assert Layout() == Released(h, cur, mem.cells);
    }

    ghost method HoldNode(node: Addr)
      requires Holds() && node in st && st[node].Out?
      modifies this`st
      ensures Holds() && st == old(st)[node := Held]
    {
      Hold(Layout(), node);
      assert BlockOk(Layout(), node);
      assert MatchOk(mapped.iv, unmapped.iv, end, st, node);
      MatchesHeld(mapped.iv, unmapped.iv, mapped.iv, unmapped.iv, end, st, node);
      st := st[node := Held];
    }

    /** Takes the neighbours found by the scan out of the mapped tree. */
    method Merge(left: Option<Addr>, right: Option<Addr>)
      requires Holds() && (left.Some? ==> left != right)
      requires left.Some? ==> left.value in st && st[left.value] == InMapped
      requires right.Some? ==> right.value in st && st[right.value] == InMapped
      modifies this`st, mem, mapped
      ensures Holds() && st == HoldOption(HoldOption(old(st), left), right) && SameHeaders(old(mem.cells), mem.cells)
      ensures ClientsKept(old(Layout()), mem.cells)
    {
      ghost var h := Layout();
      SameHeadersRefl(h.m);
      ClientsRefl(h);
      if left.Some? {
        TakeNeighbor(left.value);
      }
      ghost var h1 := Layout();
      if right.Some? {
        TakeNeighbor(right.value);
        SameHeadersTrans(h.m, h1.m, mem.cells);
        ClientsTrans(h, h1, mem.cells);
      }
    }

    /** Takes an outstanding block and the neighbours found by the scan in hand. */
    method TakeInHand(node: Addr, left: Option<Addr>, right: Option<Addr>)
      requires Valid() && node in st && st[node].Out? && MergeScan(Layout(), node, left, right)
      modifies this`st, mem, mapped
      ensures Holds() && st == HoldOption(HoldOption(old(st)[node := Held], left), right)
      ensures InHand(Layout(), MergeStart(node, left), MergeEnd(old(Layout()), node, right))
      ensures ClientsKept(old(Layout()).(st := old(st)[node := Held]), mem.cells)
      ensures SameHeaders(old(mem.cells), mem.cells)
    {
      ghost var h := Layout();
      assert BlockOk(h, node);
      HoldNode(node);
      Merge(left, right);
      HandFull(h, node, left, right, Layout());
    }

    /** Gives an outstanding block back, merged with the neighbours whose tags show them free. Null is
        accepted and ignored. */
    method Kfree(block: Addr) returns (ghost cur: Addr, ghost e: Addr)
      requires Valid() && (block != 0 ==> block - HEADER_SIZE in st && st[block - HEADER_SIZE].Out?)
      modifies this`st, mem, mapped, unmapped
      ensures Valid()
      ensures block == 0 ==> st == old(st) && mem.cells == old(mem.cells)
      ensures block != 0 ==>
        && Freed(old(Layout()), block - HEADER_SIZE, cur, e, Layout())
        && ClientsKept(old(Layout()).(st := old(st)[block - HEADER_SIZE := Held]), mem.cells)
    {
      cur, e := 0, 0;
      if block != 0 {
        cur, e := FreeNode(block - HEADER_SIZE);
      }
    }

    method FreeNode(node: Addr) returns (ghost cur: Addr, ghost e: Addr)
      requires Valid() && node in st && st[node].Out?
      modifies this`st, mem, mapped, unmapped
      ensures Valid() && Freed(old(Layout()), node, cur, e, Layout())
      ensures ClientsKept(old(Layout()).(st := old(st)[node := Held]), mem.cells)
    {
      var left, right, newSize := MergeScanNeighbors(node);
      ghost var h := Layout();
      TakeInHand(node, left, right);
      cur, e := MergeStart(node, left), MergeEnd(h, node, right);
      CoalesceAll(if left.Some? then left.value else node, newSize, h, node, left, right);
    }

    /** Turns the block to free and its neighbours, all in hand, into one free block. */
    method CoalesceAll(current: Addr, newSize: nat, ghost h: Heap, ghost node: Addr, ghost left: Option<Addr>,
                       ghost right: Option<Addr>)
      requires HeapInv(h) && node in h.st && MergeScan(h, node, left, right) && current == MergeStart(node, left)
      requires forall c {:trigger h.st[c]} :: c in h.st ==> h.st[c] != Held
      requires Holds() && st == HoldOption(HoldOption(h.st[node := Held], left), right)
      requires newSize == MergeEnd(h, node, right) - MergeStart(node, left) - HEADER_SIZE
      requires InHand(Layout(), MergeStart(node, left), MergeEnd(h, node, right))
      requires ClientsKept(h.(st := h.st[node := Held]), mem.cells) && SameHeaders(h.m, mem.cells)
      modifies this`st, mem, mapped, unmapped
      ensures Valid() && Freed(h, node, MergeStart(node, left), MergeEnd(h, node, right), Layout())
      ensures ClientsKept(h.(st := h.st[node := Held]), mem.cells)
    {
      ghost var h1 := Layout();
      Coalesce(current, newSize);
      KfreeDone(h, node, left, right, h1, Layout());
    }

    /** Any part of a held block can become a node of a tree. */
    lemma RestAway(b: Addr, r: Addr)
      requires Holds() && OnlyHeld(b) && b <= r < b + Key(mem.cells, b)
      ensures b in mem.cells && r in mem.cells && b + Key(mem.cells, b) in mem.cells && Next(Layout(), b) in mem.cells
      ensures b !in TreeCells() && r !in TreeCells() && b + Key(mem.cells, b) !in TreeCells() && r != end
      ensures r != b ==> r !in st
      ensures BeyondBlocks(Layout(), TreeCells())
    {
      HeldAway(b, b);
      HeldAway(b, r);
      HeldAway(b, b + Key(mem.cells, b));
      assert r in st ==> Apart(Layout(), b, r);
      BeyondTrees();
    }
  }

  /** The cells `w` are headers of blocks that are not outstanding, or lie beyond the blocks. */
  lemma HandSize(h: Heap, cur: Addr, size: nat)
    requires HeapInv(h) && InHand(h, cur, cur + size + HEADER_SIZE) && h.start >= 0 && h.fence <= U64_MAX
    ensures Packable(size) && size >= MIN_ALLOC_SIZE
  {
    var e := cur + size + HEADER_SIZE;
    assert BlockOk(h, cur);
    assert e in h.st ==> BlockOk(h, e) && Apart(h, cur, e);
    assert e % 16 == 0 && cur % 16 == 0;
  }

  ghost predicate BeyondBlocks(h: Heap, w: set<Addr>) {
    forall x {:trigger x in w} :: x in w ==> (x in h.st && !h.st[x].Out?) || x >= h.fence
  }

  ghost predicate AllMatch(mk: map<Addr, Span>, uk: map<Addr, Span>, end: Addr, st: map<Addr, Status>) {
    forall b {:trigger MatchOk(mk, uk, end, st, b)} :: MatchOk(mk, uk, end, st, b)
  }

  lemma MatchesCarved(mk: map<Addr, Span>, uk: map<Addr, Span>, mk': map<Addr, Span>, uk': map<Addr, Span>, end: Addr,
                      st: map<Addr, Status>, b: Addr, r: Addr, req: nat, mapped: bool)
    requires AllMatch(mk, uk, end, st) && b in st && st[b] == Held && r !in st && b != end && r != end && b != r
    requires mk'.Keys == mk.Keys + if mapped then {r} else {}
    requires uk'.Keys == uk.Keys + if mapped then {} else {r}
    ensures AllMatch(mk', uk', end, st[b := Out(req)][r := if mapped then InMapped else InUnmapped])
  {
    var st' := st[b := Out(req)][r := if mapped then InMapped else InUnmapped];
    forall c {:trigger MatchOk(mk', uk', end, st', c)} ensures MatchOk(mk', uk', end, st', c) {
      assert MatchOk(mk, uk, end, st, c);
      assert c in mk' <==> c in mk || (mapped && c == r);
      assert c in uk' <==> c in uk || (!mapped && c == r);
    }
  }

  function TreeStatus(inMapped: bool): Status {
    if inMapped then InMapped else InUnmapped
  }

  /** No block in the given tree has `v` bytes. */
  ghost predicate NoBlock(h: Heap, inMapped: bool, v: nat) {
    forall b {:trigger h.st[b]} :: b in h.st && h.st[b] == TreeStatus(inMapped) ==> Size(h, b) < v
  }

  /** `b` is a smallest block in the given tree with `v` bytes. */
  ghost predicate BestBlock(h: Heap, inMapped: bool, v: nat, b: Addr) {
    && b in h.st && h.st[b] == TreeStatus(inMapped) && v <= Size(h, b)
    && forall c {:trigger h.st[c]} :: c in h.st && h.st[c] == TreeStatus(inMapped) && v <= Size(h, c) ==>
         Size(h, b) <= Size(h, c)
  }

  /** A best fit among the nodes of a tree is a best fit among its blocks: the dummy root is too small. */
  lemma BestNodeIsBestBlock(h: Heap, t: View, mk: map<Addr, Span>, uk: map<Addr, Span>, inMapped: bool, v: nat, a: Addr)
    requires HeapInv(h) && Shape(t) && t.m == h.m && AllMatch(mk, uk, h.dummy, h.st)
    requires t.iv == (if inMapped then mk else uk)
    requires v > 0 && IsBestFit(t.m, t.s, v, a) && a in t.iv
    ensures BestBlock(h, inMapped, v, a)
  {
    assert MatchOk(mk, uk, h.dummy, h.st, a);
    forall c {:trigger h.st[c]} | c in h.st && h.st[c] == TreeStatus(inMapped) && v <= Size(h, c)
      ensures Size(h, a) <= Size(h, c)
    {
      assert MatchOk(mk, uk, h.dummy, h.st, c);
      assert NodeOk(t, c);
      assert t.s[t.iv[c].pos] == c;
    }
  }

  lemma NoNodeIsNoBlock(h: Heap, t: View, mk: map<Addr, Span>, uk: map<Addr, Span>, inMapped: bool, v: nat)
    requires HeapInv(h) && h.start >= 0 && h.fence < U64_MAX
    requires Shape(t) && t.m == h.m && AllMatch(mk, uk, h.dummy, h.st) && t.iv == (if inMapped then mk else uk)
    requires NoFit(t.m, t.s, v)
    ensures NoBlock(h, inMapped, v)
  {
    forall c {:trigger h.st[c]} | c in h.st && h.st[c] == TreeStatus(inMapped) ensures Size(h, c) < v {
      assert MatchOk(mk, uk, h.dummy, h.st, c) && BlockOk(h, c);
      assert NodeOk(t, c);
      assert t.s[t.iv[c].pos] == c;
    }
  }

  /** A tree node shares no byte with an outstanding block. */
  lemma NodeAway(h: Heap, w: set<Addr>, x: Addr, c: Addr)
    requires HeapInv(h) && BeyondBlocks(h, w) && x in w && c in h.st && h.st[c].Out?
    ensures !Overlap(x, x + NODE_SIZE, c, Next(h, c))
  {
    assert BlockOk(h, c);
    if x in h.st { assert BlockOk(h, x) && Apart(h, x, c) && Apart(h, c, x); }
  }

  /** A tree operation changes no header but its colours, and no client data. */
  lemma TreeStepOk(h: Heap, m': Cells, ks: set<Addr>)
    requires HeapInv(h) && Framed(h.m, m', ks) && BeyondBlocks(h, ks)
    ensures HeapInv(h.(m := m')) && SameHeaders(h.m, m') && ClientsKept(h, m')
  {
    FramedHeaders(h.m, m', ks);
    HeapSameHeaders(h, m');
    forall c {:trigger Kept(h.m, m', c, Next(h, c))} | c in h.st && h.st[c].Out? ensures Kept(h.m, m', c, Next(h, c)) {
      assert BlockOk(h, c) && SameBare(h.m, m', c);
      forall x {:trigger CellKept(h.m, m', c, Next(h, c), x)} | x in h.m ensures CellKept(h.m, m', c, Next(h, c), x) {
        assert CellFramed(h.m, m', ks, x);
        if x in ks { NodeAway(h, ks, x, c); }
      }
    }
  }

  lemma ClientsRefl(h: Heap)
    requires HeapInv(h)
    ensures ClientsKept(h, h.m)
  {
    forall c {:trigger Kept(h.m, h.m, c, Next(h, c))} | c in h.st && h.st[c].Out?
      ensures Kept(h.m, h.m, c, Next(h, c))
    {
      assert BlockOk(h, c);
    }
  }

  lemma ClientsTrans(h: Heap, h': Heap, m': Cells)
    requires forall c {:trigger h.st[c]} :: c in h.st && h.st[c].Out? ==> c in h'.st && h'.st[c].Out?
    requires ClientsKept(h, h'.m) && ClientsKept(h', m')
    ensures ClientsKept(h, m')
  {
    forall c {:trigger Kept(h.m, m', c, Next(h, c))} | c in h.st && h.st[c].Out? ensures Kept(h.m, m', c, Next(h, c)) {
      assert Kept(h.m, h'.m, c, Next(h, c));
      assert Kept(h'.m, m', c, Next(h', c));
      KeptTrans(h.m, h'.m, m', c, Next(h, c));
    }
  }

  lemma TakenOk(h: Heap, h': Heap, inMapped: bool, v: nat, b: Addr)
    requires HeapInv(h) && BestBlock(h, inMapped, v, b) && SameHeaders(h.m, h'.m) && h'.fence == h.fence
    ensures !NoBlock(h, inMapped, v) && Size(h', b) == Size(h, b)
    ensures !inMapped ==> Next(h', b) == h'.fence && b in h'.m && !h'.m[b].header.mapped
  {
    assert BlockOk(h, b) && SameBare(h.m, h'.m, b);
  }

  /** A tag that shows a free block of the mapped tree. */
  predicate ShowsFree(m: Cells, b: Addr) {
    b in m && !m[b].header.isAllocated && m[b].header.mapped
  }

  function MergeStart(b: Addr, left: Option<Addr>): Addr {
    if left.Some? then left.value else b
  }

  function MergeEnd(h: Heap, b: Addr, right: Option<Addr>): Addr {
    if right.Some? then Next(h, right.value) else Next(h, b)
  }

  /** The neighbours of `b` whose tags show them free, and which are indeed free. */
  ghost predicate MergeScan(h: Heap, b: Addr, left: Option<Addr>, right: Option<Addr>)
  {
    && b in h.m
    && (right.Some? <==> ShowsFree(h.m, Next(h, b)))
    && (right.Some? ==> right.value == Next(h, b) && right.value in h.st && h.st[right.value] == InMapped)
    && (left.Some? <==> b != h.start && !h.m[b].header.leftAllocated)
    && (left.Some? ==> left.value in h.st && h.st[left.value] == InMapped && Next(h, left.value) == b)
  }

  function NewHeader(m: Cells, b: Addr, size: nat): Cells
    requires b in m
  {
    m[b := m[b].(header := m[b].header.(size := size, leftAllocated := true))]
  }

  lemma NewHeaderAgrees(t: View, b: Addr, size: nat)
    requires Shape(t) && b in t.m && b !in t.iv
    ensures TreeAgrees(t, NewHeader(t.m, b, size)) && KeysAgree(t, NewHeader(t.m, b, size))
  {
    var m' := NewHeader(t.m, b, size);
    forall a {:trigger SameNode(t.m, m', a)} | a in t.iv || a == t.nil ensures SameNode(t.m, m', a) {
      if a in t.iv { assert NodeOk(t, a); }
    }
  }

  lemma MergedHeaders(m: Cells, cur: Addr, size: nat, m': Cells)
    requires cur in m && cur + size in m && cur + size + HEADER_SIZE in m && size > 0
    requires SameHeaders(FreeTags(NewHeader(m, cur, size), cur, size), m')
    ensures ReleaseHeaders(m, cur, cur + size + HEADER_SIZE, m')
  {
    var f, e := cur + size, cur + size + HEADER_SIZE;
    var m1 := FreeTags(NewHeader(m, cur, size), cur, size);
    assert SameBare(m1, m', cur) && SameBare(m1, m', f) && SameBare(m1, m', e);
    forall a {:trigger SameBare(m, m', a)} | a in m && a != cur && a != e && a != f ensures SameBare(m, m', a) {
      assert SameBare(m1, m', a);
    }
  }

  lemma MergedOk(h: Heap, w: set<Addr>, cur: Addr, size: nat, m': Cells)
    requires HeapInv(h) && InHand(h, cur, cur + size + HEADER_SIZE) && BeyondBlocks(h, w)
    requires cur in h.m && cur + size in h.m && cur + size + HEADER_SIZE in h.m && size > 0
    requires SameHeaders(FreeTags(NewHeader(h.m, cur, size), cur, size), m')
    requires Untouched(NewHeader(h.m, cur, size), m', w, cur, cur + size + HEADER_SIZE)
    ensures HeapInv(Released(h, cur, m')) && ClientsKept(h, m') && Key(m', cur) == size
    ensures ReleaseHeaders(h.m, cur, cur + size + HEADER_SIZE, m')
  {
    var e := cur + size + HEADER_SIZE;
    MergedHeaders(h.m, cur, size, m');
    Release(h, cur, e, m');
    forall x {:trigger Confined(h.m, m', cur, e, x)} | x in h.m && x !in w ensures Confined(h.m, m', cur, e, x) {
      assert Confined(NewHeader(h.m, cur, size), m', cur, e, x);
    }
    UntouchedKeeps(h, w, cur, e, m');
  }

  lemma MatchesReleased(h: Heap, mk: map<Addr, Span>, uk: map<Addr, Span>, mk': map<Addr, Span>, uk': map<Addr, Span>,
                        cur: Addr, m': Cells)
    requires AllMatch(mk, uk, h.dummy, h.st) && cur in h.st && h.st[cur] == Held && mk'.Keys == mk.Keys + {cur}
    requires h.dummy != cur && uk'.Keys == uk.Keys
    ensures AllMatch(mk', uk', h.dummy, Released(h, cur, m').st)
  {
    var st' := Released(h, cur, m').st;
    forall c {:trigger MatchOk(mk', uk', h.dummy, st', c)} ensures MatchOk(mk', uk', h.dummy, st', c) {
      assert MatchOk(mk, uk, h.dummy, h.st, c);
      assert c in mk' <==> c in mk || c == cur;
      assert c in uk' <==> c in uk;
    }
  }

  function HoldOption(st: map<Addr, Status>, b: Option<Addr>): map<Addr, Status> {
    if b.Some? then st[b.value := Held] else st
  }

  /** The block `b` of `h` became part of one free block from `cur` to `e`. Of the other blocks only those
      that were free on either side of `b`, at most one on each side, are gone; they were merged exactly
      when their tags showed them free. */
  ghost predicate Freed(h: Heap, b: Addr, cur: Addr, e: Addr, h': Heap) {
    && b in h.m && cur in h.st && cur <= b < e
    && h'.st == (map c | c in h.st && (c <= cur || c >= e) :: if c == cur then InMapped else h.st[c])
    && Next(h', cur) == e && ReleaseHeaders(h.m, cur, e, h'.m)
    && (if b != h.start && !h.m[b].header.leftAllocated then Next(h, cur) == b && h.st[cur] == InMapped else cur == b)
    && (if ShowsFree(h.m, Next(h, b))
        then Next(h, b) in h.st && h.st[Next(h, b)] == InMapped && e == Next(h, Next(h, b))
        else e == Next(h, b))
  }

  lemma SameHeadersRefl(m: Cells)
    ensures SameHeaders(m, m)
  {
  }

  lemma SameHeadersTrans(m: Cells, m': Cells, m'': Cells)
    requires SameHeaders(m, m') && SameHeaders(m', m'')
    ensures SameHeaders(m, m'')
  {
    forall a {:trigger SameBare(m, m'', a)} | a in m ensures SameBare(m, m'', a) {
      assert SameBare(m, m', a) && SameBare(m', m'', a);
    }
  }

  /** After the merge the blocks in hand are the freed one and the neighbours that were found. */
  lemma HandFull(h: Heap, b: Addr, left: Option<Addr>, right: Option<Addr>, h': Heap)
    requires HeapInv(h) && b in h.st && MergeScan(h, b, left, right) && SameHeaders(h.m, h'.m)
    requires forall c {:trigger h.st[c]} :: c in h.st ==> h.st[c] != Held
    requires h'.st == HoldOption(HoldOption(h.st[b := Held], left), right) && h'.fence == h.fence
    ensures InHand(h', MergeStart(b, left), MergeEnd(h, b, right))
  {
    var cur, e := MergeStart(b, left), MergeEnd(h, b, right);
    assert BlockOk(h, b) && BlockOk(h, cur);
    assert right.Some? ==> BlockOk(h, right.value);
    forall c {:trigger h'.st[c]} | c in h'.st ensures h'.st[c] == Held <==> cur <= c < e {
      assert Apart(h, b, c) && Apart(h, c, b) && Apart(h, cur, c) && Apart(h, c, cur);
      assert right.Some? ==> Apart(h, right.value, c) && Apart(h, c, right.value);
      assert BlockOk(h, c);
    }
  }

  lemma HandClients(h: Heap, b: Addr, left: Option<Addr>, right: Option<Addr>, h1: Heap, m': Cells)
    requires b in h.st && MergeScan(h, b, left, right) && h1.st == HoldOption(HoldOption(h.st[b := Held], left), right)
    requires ClientsKept(h.(st := h.st[b := Held]), h1.m) && ClientsKept(h1, m')
    ensures ClientsKept(h.(st := h.st[b := Held]), m')
  {
    ClientsTrans(h.(st := h.st[b := Held]), h1, m');
  }

  lemma KfreeDone(h: Heap, b: Addr, left: Option<Addr>, right: Option<Addr>, h1: Heap, h': Heap)
    requires HeapInv(h) && b in h.st && MergeScan(h, b, left, right)
    requires forall c {:trigger h.st[c]} :: c in h.st ==> h.st[c] != Held
    requires h1.st == HoldOption(HoldOption(h.st[b := Held], left), right)
    requires InHand(h1, MergeStart(b, left), MergeEnd(h, b, right))
    requires ClientsKept(h.(st := h.st[b := Held]), h1.m) && ClientsKept(h1, h'.m) && SameHeaders(h.m, h1.m)
    requires h'.st == Released(h1, MergeStart(b, left), h'.m).st
    requires Size(h', MergeStart(b, left)) == MergeEnd(h, b, right) - MergeStart(b, left) - HEADER_SIZE
    requires ReleaseHeaders(h1.m, MergeStart(b, left), MergeEnd(h, b, right), h'.m)
    ensures Freed(h, b, MergeStart(b, left), MergeEnd(h, b, right), h')
    ensures ClientsKept(h.(st := h.st[b := Held]), h'.m)
  {
    HandClients(h, b, left, right, h1, h'.m);
    ReleaseSame(h.m, h1.m, MergeStart(b, left), MergeEnd(h, b, right), h'.m);
    FreedOk(h, b, left, right, h1, h');
  }

  lemma FreedOk(h: Heap, b: Addr, left: Option<Addr>, right: Option<Addr>, h1: Heap, h': Heap)
    requires HeapInv(h) && b in h.st && MergeScan(h, b, left, right)
    requires forall c {:trigger h.st[c]} :: c in h.st ==> h.st[c] != Held
    requires h1.st == HoldOption(HoldOption(h.st[b := Held], left), right)
    requires InHand(h1, MergeStart(b, left), MergeEnd(h, b, right))
    requires h'.st == Released(h1, MergeStart(b, left), h'.m).st
    requires Size(h', MergeStart(b, left)) == MergeEnd(h, b, right) - MergeStart(b, left) - HEADER_SIZE
    requires ReleaseHeaders(h.m, MergeStart(b, left), MergeEnd(h, b, right), h'.m)
    ensures Freed(h, b, MergeStart(b, left), MergeEnd(h, b, right), h')
  {
    var cur, e := MergeStart(b, left), MergeEnd(h, b, right);
    assert BlockOk(h, b) && BlockOk(h, cur);
    assert h'.st == map c | c in h.st && (c <= cur || c >= e) :: if c == cur then InMapped else h.st[c] by {
      forall c ensures c in h'.st <==> c in h.st && (c <= cur || c >= e) {
      }
      forall c | c in h'.st ensures h'.st[c] == if c == cur then InMapped else h.st[c] {
      }
    }
  }

  /** What an allocation from a block of the given tree does, to the blocks and to the tags. */
  ghost predicate Served(h: Heap, inMapped: bool, v: nat, size: nat, b: Addr, addr: Addr, h': Heap) {
    && BestBlock(h, inMapped, v, b) && addr == b + HEADER_SIZE
    && h'.st == Allotted(h.st, b, Size(h, b), AllocSize(size), size, inMapped)
    && AllotHeaders(h.m, b, AllocSize(size), inMapped, h'.m)
  }

  /** Handing out a block that was taken from a tree serves the request. */
  lemma ServedOk(h: Heap, h1: Heap, inMapped: bool, v: nat, size: nat, b: Addr, addr: Addr, h': Heap)
    requires BestBlock(h, inMapped, v, b) && b in h.m && SameHeaders(h.m, h1.m) && h1.st == h.st[b := Held]
    requires ClientsKept(h, h1.m) && ClientsKept(h1, h'.m) && addr == b + HEADER_SIZE
    requires h'.st == Allotted(h1.st, b, Key(h1.m, b), AllocSize(size), size, inMapped)
    requires AllotHeaders(h1.m, b, AllocSize(size), inMapped, h'.m)
    ensures Served(h, inMapped, v, size, b, addr, h') && ClientsKept(h, h'.m)
  {
    assert SameBare(h.m, h1.m, b);
    AllotSame(h.m, h1.m, b, AllocSize(size), inMapped, h'.m);
    ClientsTrans(h, h1, h'.m);
  }

  /** What happens when there are no frames: the block is lost, and its tags are as they were. */
  ghost predicate Lost(h: Heap, v: nat, b: Addr, addr: Addr, h': Heap) {
    addr == 0 && BestBlock(h, false, v, b) && h'.st == h.st[b := Leaked] && SameHeaders(h.m, h'.m)
  }

  /** The pages after the one in which `b` starts, one more than the whole pages in `n`, were mapped to the frames
      from `phys` on, in order, and no other page changed. */
  ghost predicate BlockMapped(f: Frames, f': Frames, b: Addr, n: nat, phys: Addr) {
    MapsTo(f, f', b - b % 0x1000 + 0x1000, phys, 0x1000 * (n / 0x1000 + 1))
  }

  /** The pages after a request: new ones if it took a block of the unmapped tree and there were frames. */
  ghost predicate FramesRel(h: Heap, f: Frames, size: nat, pages: Option<Addr>, block: Addr, f': Frames) {
    var n := AllocSize(size);
    if size == 0 || !NoBlock(h, true, n) || NoBlock(h, false, PageRound(n)) || pages.None? then f' == f
    else BlockMapped(f, f', block, n, pages.value)
  }

  /** What a request for `size` bytes does: it is served from a smallest block of the mapped tree that fits,
      else from a block of the unmapped tree with room for whole pages. The answer is null exactly when the
      request is for no bytes, or neither tree has such a block, or there are no pages for the unmapped one. */
  ghost predicate Kalloced(h: Heap, size: nat, pages: bool, block: Addr, addr: Addr, h': Heap) {
    var n, p := AllocSize(size), PageRound(AllocSize(size));
    && ClientsKept(h, h'.m)
    && if size == 0 then addr == 0 && h' == h
       else if !NoBlock(h, true, n) then Served(h, true, n, size, block, addr, h')
       else if NoBlock(h, false, p) then addr == 0 && h' == h
       else if pages then Served(h, false, p, size, block, addr, h')
       else Lost(h, p, block, addr, h')
  }

  lemma MatchesLeaked(mk: map<Addr, Span>, uk: map<Addr, Span>, end: Addr, st: map<Addr, Status>, b: Addr)
    requires AllMatch(mk, uk, end, st) && b in st && st[b] == Held
    ensures AllMatch(mk, uk, end, st[b := Leaked])
  {
    var st' := st[b := Leaked];
    forall c {:trigger MatchOk(mk, uk, end, st', c)} ensures MatchOk(mk, uk, end, st', c) {
      assert MatchOk(mk, uk, end, st, c);
    }
  }

  lemma MatchesHeld(mk: map<Addr, Span>, uk: map<Addr, Span>, mk': map<Addr, Span>, uk': map<Addr, Span>, end: Addr,
                    st: map<Addr, Status>, b: Addr)
    requires AllMatch(mk, uk, end, st) && b in st && b != end
    requires mk'.Keys == mk.Keys - {b} && uk'.Keys == uk.Keys - {b}
    ensures AllMatch(mk', uk', end, st[b := Held])
  {
    var st' := st[b := Held];
    forall c {:trigger MatchOk(mk', uk', end, st', c)} ensures MatchOk(mk', uk', end, st', c) {
      assert MatchOk(mk, uk, end, st, c);
      assert c in mk' <==> c in mk && c != b;
      assert c in uk' <==> c in uk && c != b;
    }
  }

  lemma FrontOk(h: Heap, w: set<Addr>, b: Addr, n: nat, req: nat, mapped: bool, m': Cells)
    requires CanCarve(h, b, n, req, mapped) && CarveHeaders(h.m, b, n, Next(h, b), mapped, m')
    requires BeyondBlocks(h, w)
    requires Untouched(h.m, m', w, b, Next(h, b))
    ensures HeapInv(Carved(h, b, n, req, mapped, m')) && ClientsKept(h, m')
  {
    AllocCarve(h, b, n, req, mapped, m');
    UntouchedKeepsOne(h, w, b, m');
  }

  lemma UntouchedKeepsOne(h: Heap, w: set<Addr>, b: Addr, m': Cells)
    requires HeapInv(h) && BeyondBlocks(h, w) && Untouched(h.m, m', w, b, Next(h, b)) && b in h.st && !h.st[b].Out?
    requires Key(m', Next(h, b)) == Key(h.m, Next(h, b))
    ensures ClientsKept(h, m')
  {
    assert BlockOk(h, b);
    forall c {:trigger h.st[c]} | c in h.st && b <= c < Next(h, b) ensures !h.st[c].Out? {
      assert Apart(h, b, c);
    }
    UntouchedKeeps(h, w, b, Next(h, b), m');
  }

  /** Writes to the trees and from `b` to `e`, where no block is outstanding, leave all clients alone. */
  lemma UntouchedKeeps(h: Heap, w: set<Addr>, b: Addr, e: Addr, m': Cells)
    requires HeapInv(h) && BeyondBlocks(h, w) && Untouched(h.m, m', w, b, e)
    requires b in h.st && b < e && (e == h.fence || e in h.st)
    requires Key(m', e) == Key(h.m, e) && forall c {:trigger h.st[c]} :: c in h.st && b <= c < e ==> !h.st[c].Out?
    ensures ClientsKept(h, m')
  {
    forall c {:trigger Kept(h.m, m', c, Next(h, c))} | c in h.st && h.st[c].Out? ensures Kept(h.m, m', c, Next(h, c)) {
      assert BlockOk(h, c) && Apart(h, c, b);
      assert e in h.st ==> Apart(h, e, c) && BlockOk(h, e);
      assert Confined(h.m, m', b, e, c);
      forall x {:trigger CellKept(h.m, m', c, Next(h, c), x)} | x in h.m ensures CellKept(h.m, m', c, Next(h, c), x) {
        if x in w { NodeAway(h, w, x, c); } else { assert Confined(h.m, m', b, e, x); }
      }
    }
  }
}
