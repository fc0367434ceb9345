/** The link structure of a red-black tree with parent pointers and a shared sentinel.

    A tree is described by its in-order sequence of addresses `s` and, for every node, the interval
    of `s` that its subtree spans. All conditions are then local to one node and its neighbours. */
module RbShape {
  import opened Cells
  import opened Common

  /** The subtree of a node spans s[lo..hi] and the node itself is s[pos]. */
  datatype Span = Span(lo: nat, pos: nat, hi: nat)

  datatype View = View(m: Cells, nil: Addr, root: Addr, s: seq<Addr>, iv: map<Addr, Span>)

  /** `c` is the subtree spanning s[lo..hi] hanging below `p`; the sentinel when that is empty. */
  ghost predicate ChildOk(t: View, c: Addr, p: Addr, lo: nat, hi: nat) {
    if lo == hi then c == t.nil
    else c in t.iv && c in t.m && t.iv[c].lo == lo && t.iv[c].hi == hi && t.m[c].parent == p
  }

  ghost predicate UpOk(t: View, a: Addr)
    requires a in t.m
  {
    var p := t.m[a].parent;
    if p == t.nil then a == t.root
    else p in t.iv && p in t.m && (t.m[p].left == a || t.m[p].right == a)
  }

  ghost predicate NodeOk(t: View, a: Addr) {
    && a in t.iv && a in t.m
    && t.iv[a].lo <= t.iv[a].pos < t.iv[a].hi <= |t.s|
    && t.s[t.iv[a].pos] == a
    && ChildOk(t, t.m[a].left, a, t.iv[a].lo, t.iv[a].pos)
    && ChildOk(t, t.m[a].right, a, t.iv[a].pos + 1, t.iv[a].hi)
    && UpOk(t, a)
  }

  /** The links of `t.m` form a tree whose in-order sequence is `t.s`. */
  ghost predicate Shape(t: View) {
    && t.nil in t.m && t.nil !in t.iv
    && (forall i {:trigger t.s[i]} :: 0 <= i < |t.s| ==> t.s[i] in t.iv && t.iv[t.s[i]].pos == i)
    && (forall a {:trigger NodeOk(t, a)} :: a in t.iv ==> NodeOk(t, a))
    && ChildOk(t, t.root, t.nil, 0, |t.s|)
  }

  // ---------------------------------------------------------------- rotations

  /** The cells after rotating left around `x`, whose right child moves up. */
  function RotLeftCells(m: Cells, nil: Addr, x: Addr): (r: Cells)
    requires x in m && m[x].right in m
    ensures r.Keys == m.Keys
  {
    var y := m[x].right;
    var b := m[y].left;
    var p := m[x].parent;
    map a | a in m ::
      Node(m[a].header,
           if a == x then y else if a == y then p else if a == b && b != nil then x else m[a].parent,
           if a == y then x else if a == p && p != nil && m[a].left == x then y else m[a].left,
           if a == x then b else if a == p && p != nil && m[a].left != x then y else m[a].right)
  }

  function RotLeft(t: View, x: Addr): View
    requires x in t.iv && x in t.m && t.m[x].right in t.iv && t.m[x].right in t.m
  {
    var y := t.m[x].right;
    View(RotLeftCells(t.m, t.nil, x), t.nil, if t.m[x].parent == t.nil then y else t.root, t.s,
         t.iv[y := Span(t.iv[x].lo, t.iv[y].pos, t.iv[x].hi)]
             [x := Span(t.iv[x].lo, t.iv[x].pos, t.iv[y].pos)])
  }

  /** The cells a left rotation touches exist and are distinct. */
  ghost predicate RotLeftSafe(m: Cells, nil: Addr, x: Addr) {
    && nil in m && x in m && x != nil && m[x].right in m && m[x].right != nil && m[x].parent in m
    && var y := m[x].right; var b := m[y].left; var p := m[x].parent;
    && b in m && x != y && b != x && b != y && p != x && p != y && (b == nil || b != p)
  }

  lemma RotLeftDistinct(t: View, x: Addr)
    requires Shape(t) && x in t.iv && NodeOk(t, x) && t.m[x].right != t.nil
    ensures RotLeftSafe(t.m, t.nil, x)
    ensures var y := t.m[x].right; var b := t.m[y].left; var p := t.m[x].parent;
            && NodeOk(t, y) && y != x && t.iv[y].lo == t.iv[x].pos + 1 && t.iv[y].hi == t.iv[x].hi
            && (b != t.nil ==> NodeOk(t, b) && b != x && b != y && b != p)
            && (p != t.nil ==> NodeOk(t, p) && p != x && p != y && (t.m[p].left != x ==> t.m[p].right == x))
  {
    var y := t.m[x].right;
    var b := t.m[y].left;
    var p := t.m[x].parent;
    assert NodeOk(t, y);
    if b != t.nil { assert NodeOk(t, b); }
    if p != t.nil { assert NodeOk(t, p); }
  }

  lemma RotLeftNode(t: View, x: Addr, a: Addr)
    requires Shape(t) && x in t.iv && NodeOk(t, x) && t.m[x].right != t.nil
    requires a in t.iv && NodeOk(t, a)
    ensures NodeOk(RotLeft(t, x), a)
  {
    RotLeftDistinct(t, x);
    var t' := RotLeft(t, x);
    var y := t.m[x].right;
    var b := t.m[y].left;
    var p := t.m[x].parent;
    if a == x {
    } else if a == y {
    } else if a == p {
    } else if a == b {
    } else {
    }
  }

  /** A left rotation keeps the tree a tree with the same in-order sequence. */
  lemma RotLeftShape(t: View, x: Addr)
    requires Shape(t) && x in t.iv && NodeOk(t, x) && t.m[x].right != t.nil
    ensures Shape(RotLeft(t, x)) && RotLeft(t, x).s == t.s
  {
    var t' := RotLeft(t, x);
    forall a {:trigger NodeOk(t', a)} | a in t'.iv ensures NodeOk(t', a) {
      assert NodeOk(t, a);
      RotLeftNode(t, x, a);
    }
    RotLeftDistinct(t, x);
  }

  /** The cells after rotating right around `x`, whose left child moves up. */
  function RotRightCells(m: Cells, nil: Addr, x: Addr): (r: Cells)
    requires x in m && m[x].left in m
    ensures r.Keys == m.Keys
  {
    var y := m[x].left;
    var b := m[y].right;
    var p := m[x].parent;
    map a | a in m ::
      Node(m[a].header,
           if a == x then y else if a == y then p else if a == b && b != nil then x else m[a].parent,
           if a == x then b else if a == p && p != nil && m[a].right != x then y else m[a].left,
           if a == y then x else if a == p && p != nil && m[a].right == x then y else m[a].right)
  }

  function RotRight(t: View, x: Addr): View
    requires x in t.iv && x in t.m && t.m[x].left in t.iv && t.m[x].left in t.m
  {
    var y := t.m[x].left;
    View(RotRightCells(t.m, t.nil, x), t.nil, if t.m[x].parent == t.nil then y else t.root, t.s,
         t.iv[y := Span(t.iv[x].lo, t.iv[y].pos, t.iv[x].hi)]
             [x := Span(t.iv[y].pos + 1, t.iv[x].pos, t.iv[x].hi)])
  }

  /** The cells a right rotation touches exist and are distinct. */
  ghost predicate RotRightSafe(m: Cells, nil: Addr, x: Addr) {
    && nil in m && x in m && x != nil && m[x].left in m && m[x].left != nil && m[x].parent in m
    && var y := m[x].left; var b := m[y].right; var p := m[x].parent;
    && b in m && x != y && b != x && b != y && p != x && p != y && (b == nil || b != p)
  }

  lemma RotRightDistinct(t: View, x: Addr)
    requires Shape(t) && x in t.iv && NodeOk(t, x) && t.m[x].left != t.nil
    ensures RotRightSafe(t.m, t.nil, x)
    ensures var y := t.m[x].left; var b := t.m[y].right; var p := t.m[x].parent;
            && NodeOk(t, y) && y != x && t.iv[y].lo == t.iv[x].lo && t.iv[y].hi == t.iv[x].pos
            && (b != t.nil ==> NodeOk(t, b) && b != x && b != y && b != p)
            && (p != t.nil ==> NodeOk(t, p) && p != x && p != y && (t.m[p].right != x ==> t.m[p].left == x))
  {
    var y := t.m[x].left;
    var b := t.m[y].right;
    var p := t.m[x].parent;
    assert NodeOk(t, y);
    if b != t.nil { assert NodeOk(t, b); }
    if p != t.nil { assert NodeOk(t, p); }
  }

  lemma RotRightNode(t: View, x: Addr, a: Addr)
    requires Shape(t) && x in t.iv && NodeOk(t, x) && t.m[x].left != t.nil
    requires a in t.iv && NodeOk(t, a)
    ensures NodeOk(RotRight(t, x), a)
  {
    RotRightDistinct(t, x);
    var t' := RotRight(t, x);
    var y := t.m[x].left;
    var b := t.m[y].right;
    var p := t.m[x].parent;
    if a == x {
    } else if a == y {
    } else if a == p {
    } else if a == b {
    } else {
    }
  }

  /** A right rotation keeps the tree a tree with the same in-order sequence. */
  lemma RotRightShape(t: View, x: Addr)
    requires Shape(t) && x in t.iv && NodeOk(t, x) && t.m[x].left != t.nil
    ensures Shape(RotRight(t, x)) && RotRight(t, x).s == t.s
  {
    var t' := RotRight(t, x);
    forall a {:trigger NodeOk(t', a)} | a in t'.iv ensures NodeOk(t', a) {
      assert NodeOk(t, a);
      RotRightNode(t, x, a);
    }
    RotRightDistinct(t, x);
  }


  // ---------------------------------------------------------------- removing a node

  function RemoveAt(s: seq<Addr>, k: nat): (r: seq<Addr>)
    requires k < |s|
    ensures |r| == |s| - 1
    ensures forall i {:trigger r[i]} :: 0 <= i < |r| ==> r[i] == if i < k then s[i] else s[i + 1]
  {
    s[..k] + s[k + 1..]
  }

  /** What becomes of a span when position `k`, which is not its own, leaves the sequence. */
  function Shrunk(v: Span, k: nat): Span {
    Span(if v.lo > k then v.lo - 1 else v.lo,
         if v.pos > k then v.pos - 1 else v.pos,
         if v.hi > k then v.hi - 1 else v.hi)
  }

  function OnlyChild(t: View, d: Addr): Addr
    requires d in t.m
  {
    if t.m[d].left == t.nil then t.m[d].right else t.m[d].left
  }

  /** Puts the only child of `d`, possibly the sentinel, in the place of `d`. The parent link of the
      sentinel is written like that of any other child. */
  function Splice(t: View, d: Addr): View
    requires d in t.iv && d in t.m && t.iv[d].pos < |t.s|
  {
    var x := OnlyChild(t, d);
    var p := t.m[d].parent;
    View(map a | a in t.m ::
           Node(t.m[a].header,
                if a == x then p else t.m[a].parent,
                if a == p && p != t.nil && t.m[a].left == d then x else t.m[a].left,
                if a == p && p != t.nil && t.m[a].left != d then x else t.m[a].right),
         t.nil,
         if p == t.nil then x else t.root,
         RemoveAt(t.s, t.iv[d].pos),
         map a | a in t.iv && a != d :: Shrunk(t.iv[a], t.iv[d].pos))
  }

  /** The cells that splicing out `d` touches are nodes of the tree, and distinct. */
  ghost predicate SpliceCells(t: View, d: Addr) {
    && t.nil in t.m && t.nil !in t.iv && NodeOk(t, d) && (t.m[d].left == t.nil || t.m[d].right == t.nil)
    && var x := OnlyChild(t, d); var p := t.m[d].parent;
    && (x != t.nil ==> NodeOk(t, x) && x != d && x != p)
    && (p != t.nil ==> NodeOk(t, p) && p != d && (t.m[p].left != d ==> t.m[p].right == d))
  }

  lemma SpliceParent(t: View, d: Addr)
    requires SpliceCells(t, d) && t.m[d].parent != t.nil
    ensures NodeOk(Splice(t, d), t.m[d].parent)
  {
    var p := t.m[d].parent;
    if t.m[p].left == d {
    } else {
    }
  }

  /** A child other than `d` and the child of `d` stays in its place; its span shrinks around `d`. */
  lemma SpliceChild(t: View, d: Addr, c: Addr, q: Addr, lo: nat, hi: nat)
    requires SpliceCells(t, d) && lo <= hi && q != d && c != d && ChildOk(t, c, q, lo, hi)
    requires (c != t.nil ==> NodeOk(t, c))
    ensures ChildOk(Splice(t, d), c, q,
                    if lo > t.iv[d].pos then lo - 1 else lo, if hi > t.iv[d].pos then hi - 1 else hi)
  {
  }

  lemma SpliceUp(t: View, d: Addr, a: Addr)
    requires SpliceCells(t, d) && a != d && NodeOk(t, a)
    ensures a in Splice(t, d).m && UpOk(Splice(t, d), a)
  {
    if a == OnlyChild(t, d) {
    } else {
    }
  }

  lemma SpliceNode(t: View, d: Addr, a: Addr)
    requires SpliceCells(t, d) && a != d && a != t.m[d].parent && NodeOk(t, a)
    requires t.m[a].left != t.nil ==> NodeOk(t, t.m[a].left)
    requires t.m[a].right != t.nil ==> NodeOk(t, t.m[a].right)
    ensures NodeOk(Splice(t, d), a)
  {
    var t' := Splice(t, d);
    SpliceUp(t, d, a);
    SpliceChild(t, d, t.m[a].left, a, t.iv[a].lo, t.iv[a].pos);
    SpliceChild(t, d, t.m[a].right, a, t.iv[a].pos + 1, t.iv[a].hi);
    assert t'.m[a].left == t.m[a].left && t'.m[a].right == t.m[a].right;
    assert t'.iv[a] == Shrunk(t.iv[a], t.iv[d].pos);
  }

  /** Splicing out a node with at most one child removes exactly that node from the in-order sequence. */
  lemma SpliceShape(t: View, d: Addr)
    requires Shape(t) && d in t.iv && NodeOk(t, d) && (t.m[d].left == t.nil || t.m[d].right == t.nil)
    ensures Shape(Splice(t, d))
  {
    var t' := Splice(t, d);
    var x := OnlyChild(t, d);
    var p := t.m[d].parent;
    if x != t.nil { assert NodeOk(t, x); }
    if p != t.nil { assert NodeOk(t, p); }
    assert SpliceCells(t, d);
    forall a {:trigger NodeOk(t', a)} | a in t'.iv ensures NodeOk(t', a) {
      assert NodeOk(t, a);
      if a == t.m[d].parent {
        SpliceParent(t, d);
      } else {
        if t.m[a].left != t.nil { assert NodeOk(t, t.m[a].left); }
        if t.m[a].right != t.nil { assert NodeOk(t, t.m[a].right); }
        SpliceNode(t, d, a);
      }
    }
  }

  /** Puts `y`, which is in no tree, in the place of `z`: same links, same colour. */
  function Rename(t: View, z: Addr, y: Addr): View
    requires z in t.iv && z in t.m && t.iv[z].pos < |t.s| && y in t.m
  {
    var n := t.m[z];
    View(map a | a in t.m ::
           if a == y then Node(t.m[y].header.(color := n.header.color), n.parent, n.left, n.right)
           else Node(t.m[a].header,
                     if a == n.left || a == n.right then y else t.m[a].parent,
                     if a == n.parent && a != t.nil && t.m[a].left == z then y else t.m[a].left,
                     if a == n.parent && a != t.nil && t.m[a].left != z then y else t.m[a].right),
         t.nil,
         if n.parent == t.nil then y else t.root,
         t.s[t.iv[z].pos := y],
         map a | a in t.iv.Keys + {y} && a != z :: if a == y then t.iv[z] else t.iv[a])
  }

  lemma RenameCells(t: View, z: Addr, y: Addr)
    requires Shape(t) && z in t.iv && NodeOk(t, z) && y in t.m && y !in t.iv && y != t.nil
    ensures var l := t.m[z].left; var r := t.m[z].right; var p := t.m[z].parent;
            && (l != t.nil ==> NodeOk(t, l) && l != z && l != p && l != r)
            && (r != t.nil ==> NodeOk(t, r) && r != z && r != p)
            && (p != t.nil ==> NodeOk(t, p) && p != z && (t.m[p].left != z ==> t.m[p].right == z))
  {
    var l := t.m[z].left;
    var r := t.m[z].right;
    var p := t.m[z].parent;
    if l != t.nil { assert NodeOk(t, l); }
    if r != t.nil { assert NodeOk(t, r); }
    if p != t.nil { assert NodeOk(t, p); }
  }

  lemma RenameNode(t: View, z: Addr, y: Addr, a: Addr)
    requires Shape(t) && z in t.iv && NodeOk(t, z) && y in t.m && y !in t.iv && y != t.nil
    requires a in t.iv && a != z && NodeOk(t, a)
    ensures NodeOk(Rename(t, z, y), a)
  {
    RenameCells(t, z, y);
  }

  lemma RenameShape(t: View, z: Addr, y: Addr)
    requires Shape(t) && z in t.iv && NodeOk(t, z) && y in t.m && y !in t.iv && y != t.nil
    ensures Shape(Rename(t, z, y))
  {
    var t' := Rename(t, z, y);
    RenameCells(t, z, y);
    forall a {:trigger NodeOk(t', a)} | a in t'.iv ensures NodeOk(t', a) {
      if a != y {
        assert NodeOk(t, a);
        RenameNode(t, z, y, a);
      }
    }
  }

  // ---------------------------------------------------------------- adding a leaf

  function InsertAt(s: seq<Addr>, k: nat, z: Addr): (r: seq<Addr>)
    requires k <= |s|
    ensures |r| == |s| + 1
    ensures forall i {:trigger r[i]} :: 0 <= i < |r| ==> r[i] == if i < k then s[i] else if i == k then z else s[i - 1]
  {
    s[..k] + [z] + s[k..]
  }

  /** What becomes of a span when a leaf is hung on the node at position `q`. */
  function Grown(v: Span, q: nat, left: bool): Span {
    Span(if v.lo > q then v.lo + 1 else v.lo,
         if v.pos > q || (v.pos == q && left) then v.pos + 1 else v.pos,
         if v.hi > q then v.hi + 1 else v.hi)
  }

  /** The cells after hanging the leaf `z` below `p`; no parent is written when `p` is the sentinel. */
  function AttachCells(m: Cells, nil: Addr, z: Addr, p: Addr, left: bool): Cells
    requires z in m
  {
    map a | a in m ::
      if a == z then Node(m[z].header.(color := Red), p, nil, nil)
      else if a == p && p != nil then
        Node(m[a].header, m[a].parent, if left then z else m[a].left, if left then m[a].right else z)
      else m[a]
  }

  /** Hangs the leaf `z` below `p`, or makes it the root when `p` is the sentinel. */
  function Attach(t: View, z: Addr, p: Addr, left: bool): View
    requires z in t.m && (p != t.nil ==> p in t.iv && p in t.m && t.iv[p].pos < |t.s|)
  {
    var k := if p == t.nil then 0 else if left then t.iv[p].pos else t.iv[p].pos + 1;
    View(AttachCells(t.m, t.nil, z, p, left), t.nil, if p == t.nil then z else t.root, InsertAt(t.s, k, z),
         map a | a in t.iv.Keys + {z} ::
           if a == z then Span(k, k, k + 1) else if p == t.nil then t.iv[a] else Grown(t.iv[a], t.iv[p].pos, left))
  }

  ghost predicate CanAttach(t: View, z: Addr, p: Addr, left: bool) {
    && Shape(t) && z in t.m && z !in t.iv && z != t.nil
    && if p == t.nil then |t.s| == 0
       else NodeOk(t, p) && (if left then t.m[p].left else t.m[p].right) == t.nil
  }

  lemma AttachNode(t: View, z: Addr, p: Addr, left: bool, a: Addr)
    requires CanAttach(t, z, p, left) && p != t.nil
    requires a in t.iv && NodeOk(t, a)
    ensures NodeOk(Attach(t, z, p, left), a)
  {
    var t' := Attach(t, z, p, left);
    if a == p {
    } else {
    }
  }

  lemma AttachShape(t: View, z: Addr, p: Addr, left: bool)
    requires CanAttach(t, z, p, left)
    ensures Shape(Attach(t, z, p, left))
  {
    var t' := Attach(t, z, p, left);
    forall a {:trigger NodeOk(t', a)} | a in t'.iv ensures NodeOk(t', a) {
      if a != z {
        assert NodeOk(t, a);
        AttachNode(t, z, p, left, a);
      }
    }
  }
}
