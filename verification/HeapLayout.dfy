/** The layout of the kernel heap: blocks with boundary tags tiling a region of memory.

    A block at `b` spans [b, b + size + 16): a header of 16 bytes and the payload. The right neighbour
    starts where the block ends. A block in a tree keeps a copy of its header in its last 16 bytes. */
module HeapLayout {
  import opened Cells
  import opened Common
  import opened RbFix

  const HEADER_SIZE: nat := 16
  const NODE_SIZE: nat := 40
  const MIN_ALLOC_SIZE: nat := 0x40
  const MIN_BLOCK_SIZE: nat := 0x80

  /** Where a block is: with a client that asked for `req` bytes, in one of the trees, lost because no
      physical page could be had for it, or in the hands of a running operation. */
  datatype Status = Out(req: nat) | InMapped | InUnmapped | Leaked | Held

  /** The blocks are the keys of `st` and fill [start, fence); `dummy` is a node of size zero beyond the
      fence that never leaves the mapped tree. */
  datatype Heap = Heap(m: Cells, start: Addr, fence: Addr, dummy: Addr, st: map<Addr, Status>)

  function Size(h: Heap, b: Addr): nat {
    Key(h.m, b)
  }

  function Next(h: Heap, b: Addr): Addr {
    b + Size(h, b) + HEADER_SIZE
  }

  predicate Free(s: Status) {
    s == InMapped || s == Held
  }

  /** What the flags of a block header promise. A clear allocated bit means free, but a free block may
      have it set; a block whose bit is clear and that is marked mapped is in the mapped tree. */
  ghost predicate TagOk(h: Heap, b: Addr)
    requires b in h.m && b in h.st
  {
    var hd := h.m[b].header;
    && (h.st[b].Out? ==> hd.isAllocated && h.st[b].req <= hd.size)
    && (!hd.isAllocated && hd.mapped ==> Free(h.st[b]))
    && (h.st[b] == InUnmapped || h.st[b] == Leaked ==> Next(h, b) == h.fence && !hd.mapped)
  }

  /** A clear left-allocated bit means that the footer before the block leads to a free left neighbour. */
  ghost predicate LeftOk(h: Heap, b: Addr)
    requires b in h.m
  {
    b == h.start || h.m[b].header.leftAllocated ||
    (b - HEADER_SIZE in h.m &&
     var c := LeftOf(h, b);
     c in h.st && Free(h.st[c]) && Next(h, c) == b)
  }

  /** The left neighbour of `b` according to the footer before `b`. */
  function LeftOf(h: Heap, b: Addr): Addr
    requires b - HEADER_SIZE in h.m
  {
    b - h.m[b - HEADER_SIZE].header.size - HEADER_SIZE
  }

  ghost predicate BlockOk(h: Heap, b: Addr) {
    && b in h.st && b in h.m && h.start <= b && b % 16 == 0
    && Size(h, b) % 16 == 0 && Size(h, b) >= MIN_ALLOC_SIZE
    && (Next(h, b) == h.fence || (Next(h, b) in h.st && Next(h, b) < h.fence))
    && TagOk(h, b) && LeftOk(h, b)
  }

  ghost predicate Apart(h: Heap, b: Addr, c: Addr) {
    b < c ==> Next(h, b) <= c
  }

  ghost predicate HeapInv(h: Heap) {
    && h.start in h.st && h.fence % 16 == 0 && h.fence in h.m && !h.m[h.fence].header.mapped
    && h.dummy > h.fence && h.dummy in h.m && Key(h.m, h.dummy) == 0
    && (forall x :: h.start <= x <= h.fence ==> x in h.m)
    && (forall b {:trigger BlockOk(h, b)} :: b in h.st ==> BlockOk(h, b))
    && (forall b, c {:trigger Apart(h, b, c)} :: b in h.st && c in h.st ==> Apart(h, b, c))
  }

  // ---------------------------------------------------------------- headers without colours

  /** Header fields other than the colour, which belongs to the trees. */
  function Bare(m: Cells, a: Addr): Header
    requires a in m
  {
    m[a].header.(color := Black)
  }

  ghost predicate SameBare(m: Cells, m': Cells, a: Addr) {
    a in m && a in m' && Bare(m', a) == Bare(m, a)
  }

  ghost predicate SameHeaders(m: Cells, m': Cells) {
    && m'.Keys == m.Keys
    && forall a {:trigger SameBare(m, m', a)} :: a in m ==> SameBare(m, m', a)
  }

  lemma FramedHeaders(m: Cells, m': Cells, ks: set<Addr>)
    requires Framed(m, m', ks)
    ensures SameHeaders(m, m')
  {
    forall a {:trigger SameBare(m, m', a)} | a in m ensures SameBare(m, m', a) {
      assert CellFramed(m, m', ks, a);
    }
  }

  lemma LeftSame(h: Heap, h': Heap, b: Addr)
    requires BlockOk(h, b) && b in h'.m && h'.start == h.start && SameBare(h.m, h'.m, b)
    requires b != h.start && !h.m[b].header.leftAllocated ==>
               && SameBare(h.m, h'.m, b - HEADER_SIZE) && LeftOf(h, b) in h'.st && Free(h'.st[LeftOf(h, b)])
               && Size(h', LeftOf(h, b)) == Size(h, LeftOf(h, b))
    ensures LeftOk(h', b)
  {
  }

  /** Colours and links do not matter to the layout. */
  lemma HeapSameHeaders(h: Heap, m': Cells)
    requires HeapInv(h) && SameHeaders(h.m, m')
    ensures HeapInv(h.(m := m'))
  {
    var h' := h.(m := m');
    assert SameBare(h.m, m', h.fence) && SameBare(h.m, m', h.dummy);
    forall b {:trigger BlockOk(h', b)} | b in h'.st ensures BlockOk(h', b) {
      assert BlockOk(h, b);
      assert SameBare(h.m, m', b);
      if b != h.start && !h.m[b].header.leftAllocated {
        assert BlockOk(h, LeftOf(h, b));
        assert SameBare(h.m, m', b - HEADER_SIZE) && SameBare(h.m, m', LeftOf(h, b));
      }
      LeftSame(h, h', b);
    }
    forall b, c {:trigger Apart(h', b, c)} | b in h'.st && c in h'.st ensures Apart(h', b, c) {
      assert BlockOk(h, b);
      assert SameBare(h.m, m', b);
      assert Apart(h, b, c);
    }
  }

  // ---------------------------------------------------------------- taking blocks in hand

  /** An operation may take any block that is not leaked. */
  lemma Hold(h: Heap, b: Addr)
    requires HeapInv(h) && b in h.st
    ensures HeapInv(h.(st := h.st[b := Held]))
    ensures h.st[b] == InUnmapped ==> Next(h, b) == h.fence && b in h.m && !h.m[b].header.mapped
  {
    var h' := h.(st := h.st[b := Held]);
    assert BlockOk(h, b);
    forall c {:trigger BlockOk(h', c)} | c in h'.st ensures BlockOk(h', c) { assert BlockOk(h, c); }
    forall c, d {:trigger Apart(h', c, d)} | c in h'.st && d in h'.st ensures Apart(h', c, d) { assert Apart(h, c, d); }
  }

  /** A last block that is dropped instead of being handed out stays in the tiling, in neither tree. */
  lemma Leak(h: Heap, b: Addr)
    requires HeapInv(h) && b in h.st && h.st[b] == Held && Next(h, b) == h.fence && b in h.m && !h.m[b].header.mapped
    ensures HeapInv(h.(st := h.st[b := Leaked]))
  {
    var h' := h.(st := h.st[b := Leaked]);
    forall c {:trigger BlockOk(h', c)} | c in h'.st ensures BlockOk(h', c) {
      assert BlockOk(h, c);
    }
    forall c, d {:trigger Apart(h', c, d)} | c in h'.st && d in h'.st ensures Apart(h', c, d) { assert Apart(h, c, d); }
  }

  // ---------------------------------------------------------------- handing out a block

  /** The headers after the whole of `b`, which ends at `e`, was handed out. */
  ghost predicate WholeHeaders(m: Cells, b: Addr, e: Addr, m': Cells) {
    && m'.Keys == m.Keys && b in m && e in m
    && Bare(m', b) == Bare(m, b).(isAllocated := true, leftAllocated := true)
    && Bare(m', e) == Bare(m, e).(leftAllocated := true)
    && forall a {:trigger SameBare(m, m', a)} :: a in m && a != b && a != e ==> SameBare(m, m', a)
  }

  ghost predicate WholeReady(h: Heap, b: Addr, req: nat, m': Cells) {
    && HeapInv(h) && b in h.st && h.st[b] == Held && req <= Size(h, b)
    && WholeHeaders(h.m, b, Next(h, b), m')
  }

  lemma WholeBlock(h: Heap, b: Addr, req: nat, m': Cells, c: Addr)
    requires WholeReady(h, b, req, m') && c in h.st && c != b
    ensures BlockOk(h.(m := m', st := h.st[b := Out(req)]), c)
  {
    assert BlockOk(h, b) && BlockOk(h, c);
    assert Apart(h, b, c) && Apart(h, c, b);
    if c != Next(h, b) {
      assert SameBare(h.m, m', c);
      if c != h.start && !h.m[c].header.leftAllocated {
        var l := LeftOf(h, c);
        assert BlockOk(h, l);
        assert Apart(h, b, l) && Apart(h, l, b);
        assert SameBare(h.m, m', c - HEADER_SIZE);
        if l != Next(h, b) { assert SameBare(h.m, m', l); }
      }
    }
  }

  /** Handing out a whole block keeps the layout. */
  lemma AllocWhole(h: Heap, b: Addr, req: nat, m': Cells)
    requires WholeReady(h, b, req, m')
    ensures HeapInv(h.(m := m', st := h.st[b := Out(req)]))
  {
    var h' := h.(m := m', st := h.st[b := Out(req)]);
    assert BlockOk(h, b);
    assert SameBare(h.m, m', h.dummy);
    if h.fence != Next(h, b) { assert SameBare(h.m, m', h.fence); }
    forall c {:trigger BlockOk(h', c)} | c in h'.st ensures BlockOk(h', c) {
      if c != b { WholeBlock(h, b, req, m', c); }
    }
    forall c, d {:trigger Apart(h', c, d)} | c in h'.st && d in h'.st ensures Apart(h', c, d) {
      assert Apart(h, c, d) && BlockOk(h, c);
      if c != b && c != Next(h, b) { assert SameBare(h.m, m', c); }
    }
  }

  /** The headers after the first `n` bytes of `b` were handed out and the rest became the block `r`. */
  ghost predicate CarveHeaders(m: Cells, b: Addr, n: nat, e: Addr, mapped: bool, m': Cells) {
    var r := b + n + HEADER_SIZE;
    && m'.Keys == m.Keys && b in m && r in m && e in m && e - HEADER_SIZE in m && r < e - HEADER_SIZE
    && Bare(m', b) == Bare(m, b).(size := n, isAllocated := true, leftAllocated := true)
    && Bare(m', r) == Bare(m, r).(size := e - r - HEADER_SIZE, leftAllocated := true, mapped := mapped)
    && Bare(m', e - HEADER_SIZE) == Bare(m, r).(size := e - r - HEADER_SIZE, leftAllocated := true)
    && Bare(m', e) == Bare(m, e).(leftAllocated := false)
    && forall a {:trigger SameBare(m, m', a)} ::
         a in m && a != b && a != r && a != e && a != e - HEADER_SIZE ==> SameBare(m, m', a)
  }

  /** The headers after `n` bytes of the block `b` were handed out: the front of it, if at least 128 bytes more are
      there, and else all of it. */
  ghost predicate AllotHeaders(m: Cells, b: Addr, n: nat, mapped: bool, m': Cells) {
    var e := b + Key(m, b) + HEADER_SIZE;
    if Key(m, b) >= n + 0x80 then CarveHeaders(m, b, n, e, mapped, m') else WholeHeaders(m, b, e, m')
  }

  lemma AllotSame(m: Cells, m1: Cells, b: Addr, n: nat, mapped: bool, m': Cells)
    requires SameHeaders(m, m1) && b in m && AllotHeaders(m1, b, n, mapped, m')
    ensures AllotHeaders(m, b, n, mapped, m')
  {
    var r, e := b + n + HEADER_SIZE, b + Key(m, b) + HEADER_SIZE;
    assert SameBare(m, m1, b);
    assert SameBare(m, m1, e);
    if Key(m, b) >= n + 0x80 { assert SameBare(m, m1, r) && SameBare(m, m1, e - HEADER_SIZE); }
    forall a {:trigger SameBare(m, m', a)} | a in m && SameBare(m1, m', a) ensures SameBare(m, m', a) {
      assert SameBare(m, m1, a);
    }
  }

  /** The held block `b` has room for `n` bytes and a rest worth keeping. */
  ghost predicate CanCarve(h: Heap, b: Addr, n: nat, req: nat, mapped: bool) {
    && HeapInv(h) && b in h.st && h.st[b] == Held && req <= n && n % 16 == 0 && n >= MIN_ALLOC_SIZE
    && Size(h, b) >= n + MIN_BLOCK_SIZE && (!mapped ==> Next(h, b) == h.fence)
  }

  ghost predicate CarveReady(h: Heap, b: Addr, n: nat, req: nat, mapped: bool, m': Cells) {
    CanCarve(h, b, n, req, mapped) && CarveHeaders(h.m, b, n, Next(h, b), mapped, m')
  }

  function Carved(h: Heap, b: Addr, n: nat, req: nat, mapped: bool, m': Cells): Heap {
    h.(m := m', st := h.st[b := Out(req)][b + n + HEADER_SIZE := if mapped then InMapped else InUnmapped])
  }

  lemma CarveFresh(h: Heap, b: Addr, n: nat, req: nat, mapped: bool, m': Cells)
    requires CarveReady(h, b, n, req, mapped, m')
    ensures b + n + HEADER_SIZE !in h.st
  {
    assert BlockOk(h, b);
    assert b + n + HEADER_SIZE in h.st ==> Apart(h, b, b + n + HEADER_SIZE);
  }

  lemma CarveBlock(h: Heap, b: Addr, n: nat, req: nat, mapped: bool, m': Cells, c: Addr)
    requires CarveReady(h, b, n, req, mapped, m') && c in h.st && c != b && c != Next(h, b)
    ensures BlockOk(Carved(h, b, n, req, mapped, m'), c)
  {
    var h', e := Carved(h, b, n, req, mapped, m'), Next(h, b);
    CarveFresh(h, b, n, req, mapped, m');
    assert BlockOk(h, b) && BlockOk(h, c);
    assert Apart(h, b, c) && Apart(h, c, b);
    assert SameBare(h.m, m', c);
    if c != h.start && !h.m[c].header.leftAllocated {
      var l := LeftOf(h, c);
      assert BlockOk(h, l);
      assert Apart(h, b, l) && Apart(h, l, b);
      assert SameBare(h.m, m', c - HEADER_SIZE);
      if l != e { assert SameBare(h.m, m', l); }
    }
    LeftSame(h, h', c);
  }

  lemma CarveFront(h: Heap, b: Addr, n: nat, req: nat, mapped: bool, m': Cells)
    requires CarveReady(h, b, n, req, mapped, m')
    ensures BlockOk(Carved(h, b, n, req, mapped, m'), b)
  {
    CarveFresh(h, b, n, req, mapped, m');
    assert BlockOk(h, b);
  }

  lemma CarveRest(h: Heap, b: Addr, n: nat, req: nat, mapped: bool, m': Cells)
    requires CarveReady(h, b, n, req, mapped, m')
    ensures BlockOk(Carved(h, b, n, req, mapped, m'), b + n + HEADER_SIZE)
  {
    CarveFresh(h, b, n, req, mapped, m');
    assert BlockOk(h, b);
  }

  lemma CarveRight(h: Heap, b: Addr, n: nat, req: nat, mapped: bool, m': Cells)
    requires CarveReady(h, b, n, req, mapped, m') && Next(h, b) in h.st
    ensures BlockOk(Carved(h, b, n, req, mapped, m'), Next(h, b))
  {
    CarveFresh(h, b, n, req, mapped, m');
    assert BlockOk(h, b) && BlockOk(h, Next(h, b));
  }

  lemma CarveApart(h: Heap, b: Addr, n: nat, req: nat, mapped: bool, m': Cells, c: Addr, d: Addr)
    requires CarveReady(h, b, n, req, mapped, m')
    requires c in h.st || c == b + n + HEADER_SIZE
    requires d in h.st || d == b + n + HEADER_SIZE
    ensures Apart(Carved(h, b, n, req, mapped, m'), c, d)
  {
    var r, e := b + n + HEADER_SIZE, Next(h, b);
    assert BlockOk(h, b);
    if c in h.st { assert Apart(h, b, c) && Apart(h, c, b) && BlockOk(h, c); }
    if d in h.st { assert Apart(h, b, d) && Apart(h, d, b); }
    if c in h.st && d in h.st { assert Apart(h, c, d); }
    if c in h.st && c != b && c != e { assert SameBare(h.m, m', c); }
  }

  /** Handing out the front of a block and keeping the rest keeps the layout. */
  lemma AllocCarve(h: Heap, b: Addr, n: nat, req: nat, mapped: bool, m': Cells)
    requires CarveReady(h, b, n, req, mapped, m')
    ensures HeapInv(Carved(h, b, n, req, mapped, m'))
  {
    var h', r, e := Carved(h, b, n, req, mapped, m'), b + n + HEADER_SIZE, Next(h, b);
    assert BlockOk(h, b);
    CarveFresh(h, b, n, req, mapped, m');
    assert SameBare(h.m, m', h.dummy);
    if h.fence != e { assert SameBare(h.m, m', h.fence); }
    forall c {:trigger BlockOk(h', c)} | c in h'.st ensures BlockOk(h', c) {
      if c == b { CarveFront(h, b, n, req, mapped, m'); }
      else if c == r { CarveRest(h, b, n, req, mapped, m'); }
      else if c == e { CarveRight(h, b, n, req, mapped, m'); }
      else { CarveBlock(h, b, n, req, mapped, m', c); }
    }
    forall c, d {:trigger Apart(h', c, d)} | c in h'.st && d in h'.st ensures Apart(h', c, d) {
      CarveApart(h, b, n, req, mapped, m', c, d);
    }
  }

  // ---------------------------------------------------------------- giving blocks back

  /** The headers after everything from `cur` to `e` became one free block. */
  ghost predicate ReleaseHeaders(m: Cells, cur: Addr, e: Addr, m': Cells) {
    && m'.Keys == m.Keys && cur in m && e in m && cur + HEADER_SIZE < e && e - HEADER_SIZE in m
    && Bare(m', cur) == Bare(m, cur).(size := e - cur - HEADER_SIZE, leftAllocated := true)
    && Bare(m', e - HEADER_SIZE) == Bare(m', cur)
    && Bare(m', e) == Bare(m, e).(leftAllocated := false)
    && forall a {:trigger SameBare(m, m', a)} ::
         a in m && a != cur && a != e && a != e - HEADER_SIZE ==> SameBare(m, m', a)
  }

  lemma ReleaseSame(m: Cells, m1: Cells, cur: Addr, e: Addr, m': Cells)
    requires SameHeaders(m, m1) && ReleaseHeaders(m1, cur, e, m')
    ensures ReleaseHeaders(m, cur, e, m')
  {
    assert SameBare(m, m1, cur) && SameBare(m, m1, e);
    forall a {:trigger SameBare(m, m', a)} | a in m && SameBare(m1, m', a) ensures SameBare(m, m', a) {
      assert SameBare(m, m1, a);
    }
  }

  /** The blocks in hand are exactly those from `cur` up to `e`. */
  ghost predicate InHand(h: Heap, cur: Addr, e: Addr) {
    && cur in h.st && cur < e && (e == h.fence || (e in h.st && e < h.fence))
    && forall c {:trigger h.st[c]} :: c in h.st ==> (h.st[c] == Held <==> cur <= c < e)
  }

  ghost predicate ReleaseReady(h: Heap, cur: Addr, e: Addr, m': Cells) {
    HeapInv(h) && InHand(h, cur, e) && ReleaseHeaders(h.m, cur, e, m')
  }

  ghost function Released(h: Heap, cur: Addr, m': Cells): Heap {
    h.(m := m', st := map c | c in h.st && (h.st[c] != Held || c == cur) :: if c == cur then InMapped else h.st[c])
  }

  lemma ReleaseBlock(h: Heap, cur: Addr, e: Addr, m': Cells, c: Addr)
    requires ReleaseReady(h, cur, e, m') && c in h.st && h.st[c] != Held && c != e
    ensures BlockOk(Released(h, cur, m'), c)
  {
    var h' := Released(h, cur, m');
    assert BlockOk(h, cur) && BlockOk(h, c);
    assert Apart(h, cur, c) && Apart(h, c, cur);
    assert SameBare(h.m, m', c);
    if c != h.start && !h.m[c].header.leftAllocated {
      var l := LeftOf(h, c);
      assert BlockOk(h, l);
      assert Apart(h, cur, l) && Apart(h, l, cur);
      if e in h.st { assert Apart(h, e, l) && Apart(h, l, e); }
      assert h.st[l] != Held;
      assert SameBare(h.m, m', c - HEADER_SIZE);
      if l != e { assert SameBare(h.m, m', l); }
    }
    LeftSame(h, h', c);
  }

  lemma ReleaseEnds(h: Heap, cur: Addr, e: Addr, m': Cells)
    requires ReleaseReady(h, cur, e, m')
    ensures BlockOk(Released(h, cur, m'), cur)
    ensures e in h.st ==> BlockOk(Released(h, cur, m'), e)
  {
    assert BlockOk(h, cur);
    if e in h.st {
      assert BlockOk(h, e);
      assert Apart(h, cur, e);
    }
  }

  /** Turning the blocks in hand into one free block keeps the layout. */
  lemma Release(h: Heap, cur: Addr, e: Addr, m': Cells)
    requires ReleaseReady(h, cur, e, m')
    ensures HeapInv(Released(h, cur, m'))
  {
    var h' := Released(h, cur, m');
    assert BlockOk(h, cur);
    assert e in h.st ==> BlockOk(h, e);
    assert SameBare(h.m, m', h.dummy);
    assert h.start == cur || h.st[h.start] != Held by { assert BlockOk(h, h.start); }
    if h.fence != e { assert SameBare(h.m, m', h.fence); }
    forall c {:trigger BlockOk(h', c)} | c in h'.st ensures BlockOk(h', c) {
      if c != cur && c != e { ReleaseBlock(h, cur, e, m', c); } else { ReleaseEnds(h, cur, e, m'); }
    }
    forall c, d {:trigger Apart(h', c, d)} | c in h'.st && d in h'.st ensures Apart(h', c, d) {
      assert Apart(h, c, d) && BlockOk(h, c) && BlockOk(h, d);
      if c != cur && c != e { assert SameBare(h.m, m', c); }
    }
  }

  // ---------------------------------------------------------------- what clients see

  /** The byte ranges [lo, hi) and [lo', hi') have a byte in common. */
  predicate Overlap(lo: int, hi: int, lo': int, hi': int) {
    lo < hi' && lo' < hi
  }

  /** No field of the cell at `x` that has a byte in the payload of the block [b, e) changed. A cell holds a
      header of 16 bytes and three links of 8. */
  ghost predicate CellKept(m: Cells, m': Cells, b: Addr, e: Addr, x: Addr) {
    && x in m && x in m'
    && (Overlap(x, x + 16, b + HEADER_SIZE, e) ==> m'[x].header == m[x].header)
    && (Overlap(x + 16, x + 24, b + HEADER_SIZE, e) ==> m'[x].parent == m[x].parent)
    && (Overlap(x + 24, x + 32, b + HEADER_SIZE, e) ==> m'[x].left == m[x].left)
    && (Overlap(x + 32, x + 40, b + HEADER_SIZE, e) ==> m'[x].right == m[x].right)
  }

  /** The block [b, e) kept its size, and nothing changed in any byte of its payload. */
  ghost predicate Kept(m: Cells, m': Cells, b: Addr, e: Addr) {
    && Key(m', b) == Key(m, b)
    && forall x {:trigger CellKept(m, m', b, e, x)} :: x in m ==> CellKept(m, m', b, e, x)
  }

  /** The outstanding blocks of `h` have in `m'` the sizes and payloads they have in `h`. */
  ghost predicate ClientsKept(h: Heap, m': Cells) {
    forall b {:trigger Kept(h.m, m', b, Next(h, b))} :: b in h.st && h.st[b].Out? ==> Kept(h.m, m', b, Next(h, b))
  }

  lemma KeptRefl(m: Cells, b: Addr, e: Addr)
    ensures Kept(m, m, b, e)
  {
    forall x {:trigger CellKept(m, m, b, e, x)} | x in m ensures CellKept(m, m, b, e, x) {
    }
  }

  lemma KeptTrans(m: Cells, m': Cells, m'': Cells, b: Addr, e: Addr)
    requires Kept(m, m', b, e) && Kept(m', m'', b, e)
    ensures Kept(m, m'', b, e)
  {
    forall x {:trigger CellKept(m, m'', b, e, x)} | x in m ensures CellKept(m, m'', b, e, x) {
      assert CellKept(m, m', b, e, x) && CellKept(m', m'', b, e, x);
    }
  }
}
