/** What the layout invariant means: the blocks tile the heap, clients never share bytes, the tags are
    sound, and the cells the allocator relies on share no byte with each other or with a client. */
module HeapMeaning {
  import opened Cells
  import opened Common
  import opened HeapLayout

  /** Between two operations no block is in hand. */
  ghost predicate Quiet(h: Heap) {
    HeapInv(h) && forall b {:trigger h.st[b]} :: b in h.st ==> h.st[b] != Held
  }

  // ---------------------------------------------------------------- tiling

  /** The blocks reached from `b` by stepping to the right neighbour until the fence. */
  ghost function Walk(h: Heap, b: Addr): seq<Addr>
    decreases h.fence - b
  {
    if b >= h.fence then [] else [b] + Walk(h, Next(h, b))
  }

  ghost function Bytes(h: Heap, s: seq<Addr>): nat {
    if s == [] then 0 else Size(h, s[0]) + HEADER_SIZE + Bytes(h, s[1..])
  }

  lemma {:induction false} WalkTiles(h: Heap, b: Addr)
    requires HeapInv(h) && (b in h.st || b == h.fence)
    ensures forall c :: c in Walk(h, b) <==> c in h.st && b <= c
    ensures Bytes(h, Walk(h, b)) == h.fence - b
    decreases h.fence - b
  {
    if b in h.st {
      assert BlockOk(h, b);
      var n := Next(h, b);
      WalkTiles(h, n);
      assert Walk(h, b)[1..] == Walk(h, n);
      forall c ensures c in Walk(h, b) <==> c in h.st && b <= c {
        if c in h.st { assert Apart(h, b, c); }
      }
    } else {
      forall c | c in h.st ensures c < h.fence {
        assert BlockOk(h, c);
      }
    }
  }

  /** The blocks reached from the heap start are all the blocks, each once and in address order, and
      together they fill the heap exactly. */
  lemma Tiling(h: Heap)
    requires HeapInv(h)
    ensures forall c :: c in Walk(h, h.start) <==> c in h.st
    ensures forall i, j {:trigger Walk(h, h.start)[i], Walk(h, h.start)[j]} ::
              0 <= i < j < |Walk(h, h.start)| ==> Walk(h, h.start)[i] < Walk(h, h.start)[j]
    ensures Bytes(h, Walk(h, h.start)) == h.fence - h.start
  {
    WalkTiles(h, h.start);
    WalkAscends(h, h.start);
    forall c | c in h.st ensures h.start <= c {
      assert BlockOk(h, c);
    }
  }

  lemma {:induction false} WalkAscends(h: Heap, b: Addr)
    ensures forall i {:trigger Walk(h, b)[i]} :: 0 <= i < |Walk(h, b)| ==> b <= Walk(h, b)[i]
    ensures forall i, j {:trigger Walk(h, b)[i], Walk(h, b)[j]} :: 0 <= i < j < |Walk(h, b)| ==>
              Walk(h, b)[i] < Walk(h, b)[j]
    decreases h.fence - b
  {
    if b < h.fence {
      WalkAscends(h, Next(h, b));
    }
  }

  // ---------------------------------------------------------------- clients

  /** The payload of one outstanding block has room for what its client asked for, lies in the heap, is
      aligned to 16, and shares no byte with the payload or the header of another block. */
  lemma PayloadsDisjoint(h: Heap, b: Addr, c: Addr)
    requires HeapInv(h) && b in h.st && c in h.st && b != c && h.st[b].Out?
    ensures h.st[b].req <= Size(h, b) && h.start < b + HEADER_SIZE && Next(h, b) <= h.fence
    ensures (b + HEADER_SIZE) % 16 == 0
    ensures !Overlap(b + HEADER_SIZE, Next(h, b), c, Next(h, c))
  {
    assert BlockOk(h, b) && BlockOk(h, c);
    assert Apart(h, b, c) && Apart(h, c, b);
  }

  /** At most one block is without physical pages, and it is the last one. */
  lemma UnmappedIsLast(h: Heap, b: Addr)
    requires HeapInv(h) && b in h.st && (h.st[b] == InUnmapped || h.st[b] == Leaked)
    ensures Next(h, b) == h.fence
    ensures forall c {:trigger h.st[c]} :: c in h.st && c != b ==> c < b && h.st[c] != InUnmapped && h.st[c] != Leaked
  {
    assert BlockOk(h, b);
    forall c {:trigger h.st[c]} | c in h.st && c != b ensures c < b && h.st[c] != InUnmapped && h.st[c] != Leaked {
      assert BlockOk(h, c) && Apart(h, b, c) && Apart(h, c, b);
    }
  }

  /** A clear left-allocated bit means that the left neighbour is in the mapped tree and that the footer
      before the block gives its address; a tag that is not allocated but mapped belongs to a block of the
      mapped tree. */
  lemma TagsSound(h: Heap, b: Addr)
    requires Quiet(h) && b in h.st
    ensures b in h.m
    ensures b != h.start && !h.m[b].header.leftAllocated ==>
              && b - HEADER_SIZE in h.m && LeftOf(h, b) in h.st && h.st[LeftOf(h, b)] == InMapped
              && Next(h, LeftOf(h, b)) == b && forall c :: c in h.st && c < b ==> c <= LeftOf(h, b)
    ensures var r := Next(h, b);
            r in h.m && (!h.m[r].header.isAllocated && h.m[r].header.mapped ==> r in h.st && h.st[r] == InMapped)
  {
    assert BlockOk(h, b);
    var r := Next(h, b);
    assert r in h.st ==> BlockOk(h, r);
    if b != h.start && !h.m[b].header.leftAllocated {
      forall c | c in h.st && c < b ensures c <= LeftOf(h, b) {
        assert BlockOk(h, LeftOf(h, b)) && Apart(h, LeftOf(h, b), c) && BlockOk(h, c);
      }
    }
  }

  // ---------------------------------------------------------------- typed cells

  /** The parts of memory the allocator relies on: the tag of a block that is in no tree, a block that is
      a tree node, the footer of a block of the mapped tree or in hand, the tag at the fence, and the nodes beyond
      it, which are the dummy root and the two sentinels. */
  datatype Role = Tag(b: Addr) | TreeNode(b: Addr) | Footer(b: Addr) | FenceTag | Beyond(b: Addr)

  ghost predicate HasRole(h: Heap, ends: set<Addr>, r: Role) {
    match r
    case Tag(b) => b in h.st && h.st[b] != InMapped && h.st[b] != InUnmapped
    case TreeNode(b) => b in h.st && (h.st[b] == InMapped || h.st[b] == InUnmapped)
    case Footer(b) => b in h.st && Free(h.st[b])
    case FenceTag => true
    case Beyond(b) => b in ends
  }

  function RoleAt(h: Heap, r: Role): Addr {
    match r
    case Footer(b) => b + Size(h, b)
    case FenceTag => h.fence
    case _ => r.b
  }

  function RoleSize(r: Role): nat {
    if r.TreeNode? || r.Beyond? then NODE_SIZE else HEADER_SIZE
  }

  ghost predicate EndsApart(h: Heap, ends: set<Addr>) {
    && h.dummy in ends && (forall x {:trigger x in ends} :: x in ends ==> h.fence + HEADER_SIZE <= x)
    && forall x, y {:trigger x in ends, y in ends} :: x in ends && y in ends && x < y ==> x + NODE_SIZE <= y
  }

  /** Two different roles never share a byte. */
  lemma RolesApart(h: Heap, ends: set<Addr>, r: Role, q: Role)
    requires HeapInv(h) && EndsApart(h, ends) && HasRole(h, ends, r) && HasRole(h, ends, q) && r != q
    ensures !Overlap(RoleAt(h, r), RoleAt(h, r) + RoleSize(r), RoleAt(h, q), RoleAt(h, q) + RoleSize(q))
  {
    if !r.FenceTag? && !r.Beyond? { assert BlockOk(h, r.b); }
    if !q.FenceTag? && !q.Beyond? { assert BlockOk(h, q.b); }
    if !r.FenceTag? && !q.FenceTag? && !r.Beyond? && !q.Beyond? {
      assert Apart(h, r.b, q.b) && Apart(h, q.b, r.b);
    }
  }

  /** No role shares a byte with the payload of an outstanding block. */
  lemma RoleAway(h: Heap, ends: set<Addr>, r: Role, b: Addr)
    requires HeapInv(h) && EndsApart(h, ends) && HasRole(h, ends, r) && b in h.st && h.st[b].Out?
    ensures !Overlap(RoleAt(h, r), RoleAt(h, r) + RoleSize(r), b + HEADER_SIZE, Next(h, b))
  {
    assert BlockOk(h, b);
    if !r.FenceTag? && !r.Beyond? {
      assert BlockOk(h, r.b);
      assert Apart(h, r.b, b) && Apart(h, b, r.b);
    }
  }

  /** The memory still says the same in the role `r`. */
  ghost predicate SameRole(h: Heap, m': Cells, r: Role) {
    var x := RoleAt(h, r);
    x in h.m && x in m' && (if RoleSize(r) == NODE_SIZE then m'[x] == h.m[x] else m'[x].header == h.m[x].header)
  }

  ghost predicate SameRoles(h: Heap, ends: set<Addr>, m': Cells) {
    && m'.Keys == h.m.Keys
    && forall r {:trigger SameRole(h, m', r)} :: HasRole(h, ends, r) ==> SameRole(h, m', r)
  }

  lemma SameTag(h: Heap, ends: set<Addr>, m': Cells, b: Addr)
    requires HeapInv(h) && SameRoles(h, ends, m') && b in h.st
    ensures b in h.m && b in m' && m'[b].header == h.m[b].header
  {
    assert BlockOk(h, b);
    if h.st[b] == InMapped || h.st[b] == InUnmapped {
      assert SameRole(h, m', TreeNode(b));
    } else {
      assert SameRole(h, m', Tag(b));
    }
  }

  /** The layout rests on the roles alone, also with blocks in hand: every other part of memory may change
      at will. */
  lemma LayoutRestsOnRoles(h: Heap, ends: set<Addr>, m': Cells)
    requires HeapInv(h) && EndsApart(h, ends) && SameRoles(h, ends, m')
    ensures HeapInv(h.(m := m'))
  {
    var h' := h.(m := m');
    assert SameRole(h, m', FenceTag) && SameRole(h, m', Beyond(h.dummy));
    forall b {:trigger BlockOk(h', b)} | b in h'.st ensures BlockOk(h', b) {
      assert BlockOk(h, b);
      SameTag(h, ends, m', b);
      if b != h.start && !h.m[b].header.leftAllocated {
        var l := LeftOf(h, b);
        SameTag(h, ends, m', l);
        assert SameRole(h, m', Footer(l));
      }
      LeftSame(h, h', b);
    }
    forall b, c {:trigger Apart(h', b, c)} | b in h'.st && c in h'.st ensures Apart(h', b, c) {
      SameTag(h, ends, m', b);
      assert Apart(h, b, c);
    }
  }

  // ---------------------------------------------------------------- client writes

  /** A write to the bytes [lo, hi) turned the cell at `x` into `n'`: only fields with a byte there changed.
      A cell holds a header of 16 bytes and three links of 8. */
  predicate CellWrite(x: Addr, n: Node, n': Node, lo: Addr, hi: Addr) {
    && (n'.header == n.header || Overlap(x, x + 16, lo, hi))
    && (n'.parent == n.parent || Overlap(x + 16, x + 24, lo, hi))
    && (n'.left == n.left || Overlap(x + 24, x + 32, lo, hi))
    && (n'.right == n.right || Overlap(x + 32, x + 40, lo, hi))
  }

  ghost predicate WriteWithin(m: Cells, m': Cells, lo: Addr, hi: Addr) {
    && m'.Keys == m.Keys
    && forall x {:trigger m'[x]} :: x in m ==> CellWrite(x, m[x], m'[x], lo, hi)
  }

  /** A write that misses a role leaves it its meaning. */
  lemma RoleMissed(h: Heap, ends: set<Addr>, r: Role, m': Cells, lo: Addr, hi: Addr)
    requires HeapInv(h) && HasRole(h, ends, r) && (forall x :: x in ends ==> x in h.m) && WriteWithin(h.m, m', lo, hi)
    requires !Overlap(RoleAt(h, r), RoleAt(h, r) + RoleSize(r), lo, hi)
    ensures SameRole(h, m', r)
  {
    if !r.FenceTag? && !r.Beyond? { assert BlockOk(h, r.b); }
    assert RoleAt(h, r) in h.m;
  }

  /** Whatever a client writes in its payload, every role keeps its meaning. */
  lemma ClientWriteKeepsRoles(h: Heap, ends: set<Addr>, b: Addr, m': Cells)
    requires HeapInv(h) && EndsApart(h, ends) && b in h.st && h.st[b].Out?
    requires forall x :: x in ends ==> x in h.m
    requires WriteWithin(h.m, m', b + HEADER_SIZE, Next(h, b))
    ensures SameRoles(h, ends, m')
  {
    forall r {:trigger SameRole(h, m', r)} | HasRole(h, ends, r) ensures SameRole(h, m', r) {
      RoleAway(h, ends, r, b);
      RoleMissed(h, ends, r, m', b + HEADER_SIZE, Next(h, b));
    }
  }

  // ---------------------------------------------------------------- free memory

  /** No role shares a byte with the inside of a block that is not outstanding: what is between its node and
      its footer. */
  lemma RoleOutside(h: Heap, ends: set<Addr>, r: Role, b: Addr)
    requires HeapInv(h) && EndsApart(h, ends) && HasRole(h, ends, r) && b in h.st && !h.st[b].Out?
    ensures !Overlap(RoleAt(h, r), RoleAt(h, r) + RoleSize(r), b + NODE_SIZE, Next(h, b) - HEADER_SIZE)
  {
    assert BlockOk(h, b);
    if !r.FenceTag? && !r.Beyond? {
      assert BlockOk(h, r.b);
      assert Apart(h, r.b, b) && Apart(h, b, r.b);
    }
  }

  /** Whatever happens to the inside of free memory, every role keeps its meaning. */
  lemma FreeMemoryKeepsRoles(h: Heap, ends: set<Addr>, b: Addr, m': Cells)
    requires HeapInv(h) && EndsApart(h, ends) && b in h.st && !h.st[b].Out?
    requires forall x :: x in ends ==> x in h.m
    requires WriteWithin(h.m, m', b + NODE_SIZE, Next(h, b) - HEADER_SIZE)
    ensures SameRoles(h, ends, m')
  {
    forall r {:trigger SameRole(h, m', r)} | HasRole(h, ends, r) ensures SameRole(h, m', r) {
      RoleOutside(h, ends, r, b);
      RoleMissed(h, ends, r, m', b + NODE_SIZE, Next(h, b) - HEADER_SIZE);
    }
  }
}
