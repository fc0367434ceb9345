/** One step of each fix-up loop, on values: every case re-establishes the loop's invariant. */
module RbFix {
  import opened Cells
  import opened Common
  import opened RbShape
  import opened RbColor

  function Key(m: Cells, a: Addr): nat {
    if a in m then m[a].header.size else 0
  }

  ghost predicate Sorted(m: Cells, s: seq<Addr>) {
    forall i, j {:trigger s[i], s[j]} :: 0 <= i < j < |s| ==> Key(m, s[i]) <= Key(m, s[j])
  }

  ghost predicate CellFramed(m: Cells, m': Cells, ks: set<Addr>, a: Addr) {
    && a in m && a in m'
    && m'[a].header == m[a].header.(color := m'[a].header.color)
    && (a !in ks ==> m'[a] == m[a])
  }

  /** From `m` to `m'` only links and colours changed, and only in the cells `ks`. */
  ghost predicate Framed(m: Cells, m': Cells, ks: set<Addr>) {
    && m'.Keys == m.Keys
    && forall a {:trigger CellFramed(m, m', ks, a)} :: a in m ==> CellFramed(m, m', ks, a)
  }

  lemma FramedTrans(m: Cells, m': Cells, m'': Cells, ks: set<Addr>)
    requires Framed(m, m', ks) && Framed(m', m'', ks)
    ensures Framed(m, m'', ks)
  {
    forall a {:trigger CellFramed(m, m'', ks, a)} | a in m ensures CellFramed(m, m'', ks, a) {
      assert CellFramed(m, m', ks, a) && CellFramed(m', m'', ks, a);
    }
  }

  lemma FramedRefl(m: Cells, ks: set<Addr>)
    ensures Framed(m, m, ks)
  {
  }

  lemma FramedMore(m: Cells, m': Cells, ks: set<Addr>, ks': set<Addr>)
    requires Framed(m, m', ks) && ks <= ks'
    ensures Framed(m, m', ks')
  {
    forall a {:trigger CellFramed(m, m', ks', a)} | a in m ensures CellFramed(m, m', ks', a) {
      assert CellFramed(m, m', ks, a);
    }
  }

  lemma SortedFramed(m: Cells, m': Cells, ks: set<Addr>, s: seq<Addr>)
    requires Framed(m, m', ks) && Sorted(m, s)
    ensures Sorted(m', s)
  {
    forall i, j {:trigger s[i], s[j]} | 0 <= i < j < |s| ensures Key(m', s[i]) <= Key(m', s[j]) {
      var a, b := s[i], s[j];
      if a in m { assert CellFramed(m, m', ks, a); }
      if b in m { assert CellFramed(m, m', ks, b); }
    }
  }

  lemma FramedSetCol(m: Cells, a: Addr, c: Color, ks: set<Addr>)
    requires a in m && a in ks
    ensures Framed(m, SetCol(m, a, c), ks)
  {
  }

  lemma FramedRotLeft(t: View, x: Addr, ks: set<Addr>)
    requires Shape(t) && NodeOk(t, x) && t.m[x].right != t.nil && t.iv.Keys <= ks
    ensures Framed(t.m, RotLeftCells(t.m, t.nil, x), ks)
  {
    RotLeftDistinct(t, x);
  }

  lemma FramedRotRight(t: View, x: Addr, ks: set<Addr>)
    requires Shape(t) && NodeOk(t, x) && t.m[x].left != t.nil && t.iv.Keys <= ks
    ensures Framed(t.m, RotRightCells(t.m, t.nil, x), ks)
  {
    RotRightDistinct(t, x);
  }

  /** A red-black tree: no red-red edge, equal black heights, black root and sentinel. */
  ghost predicate Rb(t: View, bh: map<Addr, nat>) {
    && Shape(t) && Col(t.m, t.nil) == Black
    && t.root in t.m && Col(t.m, t.root) == Black
    && Balanced(t.m, t.nil, t.iv.Keys, bh, t.nil, Lft)
    && NoRedRed(t.m, t.iv.Keys, t.nil)
  }

  /** During an insertion: only the red node `x` may have a red parent, or be a red root. */
  ghost predicate InsInv(t: View, bh: map<Addr, nat>, x: Addr) {
    && Shape(t) && Col(t.m, t.nil) == Black
    && NodeOk(t, x) && Col(t.m, x) == Red
    && t.root in t.m && (Col(t.m, t.root) == Red ==> t.root == x)
    && Balanced(t.m, t.nil, t.iv.Keys, bh, t.nil, Lft)
    && NoRedRed(t.m, t.iv.Keys, x)
  }

  function Paint(t: View, a: Addr, c: Color): View
    requires a in t.m
  {
    t.(m := SetCol(t.m, a, c))
  }

  lemma PaintShape(t: View, a: Addr, c: Color)
    requires Shape(t) && a in t.m
    ensures Shape(Paint(t, a, c))
  {
    var t' := Paint(t, a, c);
    forall b {:trigger NodeOk(t', b)} | b in t'.iv ensures NodeOk(t', b) {
      assert NodeOk(t, b);
    }
  }

  lemma ShapeRotOk(t: View, x: Addr)
    requires Shape(t) && NodeOk(t, x)
    ensures t.m[x].right != t.nil ==> RotOk(t.m, t.nil, t.iv.Keys, x)
    ensures t.m[x].left != t.nil ==> RotOk(Flip(t.m), t.nil, t.iv.Keys, x)
  {
    ShapeLinks(t);
    FlipLinks(t.m, t.nil, t.iv.Keys);
    var ks, f := t.iv.Keys, Flip(t.m);
    if t.m[x].parent != t.nil {
      assert LinkOk(t.m, t.nil, ks, t.m[x].parent) && LinkOk(f, t.nil, ks, t.m[x].parent);
    }
    assert LinkOk(t.m, t.nil, ks, x) && LinkOk(f, t.nil, ks, x);
    if t.m[x].right != t.nil {
      RotLeftDistinct(t, x);
      var y := t.m[x].right;
      assert LinkOk(t.m, t.nil, ks, y);
      if t.m[y].left != t.nil { assert LinkOk(t.m, t.nil, ks, t.m[y].left); }
    }
    if t.m[x].left != t.nil {
      RotRightDistinct(t, x);
      var y := t.m[x].left;
      assert LinkOk(f, t.nil, ks, y);
      if t.m[y].right != t.nil { assert LinkOk(f, t.nil, ks, t.m[y].right); }
    }
  }

  /** The grandparent of a red child of a red parent is a black node. */
  lemma InsGrandparent(t: View, bh: map<Addr, nat>, x: Addr)
    requires InsInv(t, bh, x) && t.m[x].parent in t.m && Col(t.m, t.m[x].parent) == Red
    ensures var p := t.m[x].parent; p != t.nil && NodeOk(t, p) && p != x
    ensures var g := t.m[t.m[x].parent].parent; g != t.nil && NodeOk(t, g) && Col(t.m, g) == Black
    ensures var p := t.m[x].parent; var g := t.m[p].parent; t.m[g].left == p || t.m[g].right == p
    ensures var p := t.m[x].parent; var g := t.m[p].parent;
            t.m[g].left != t.m[g].right && t.m[g].left in t.m && t.m[g].right in t.m
    ensures var p := t.m[x].parent; t.iv[p].lo <= t.iv[x].lo && t.iv[x].hi <= t.iv[p].hi
    ensures var p := t.m[x].parent; var g := t.m[p].parent; t.iv[p].hi - t.iv[p].lo < t.iv[g].hi - t.iv[g].lo
  {
    var p := t.m[x].parent;
    assert NodeOk(t, p);
    assert RedOk(t.m, p);
    var g := t.m[p].parent;
    assert NodeOk(t, g);
  }

  /** Red parent and red uncle: both turn black and the violation moves up to the grandparent. */
  lemma InsPush(t: View, bh: map<Addr, nat>, x: Addr) returns (bh': map<Addr, nat>)
    requires InsInv(t, bh, x) && t.m[x].parent in t.m && Col(t.m, t.m[x].parent) == Red
    requires t.m[t.m[x].parent].parent in t.m
    requires var g := t.m[t.m[x].parent].parent;
             t.m[g].left in t.m && t.m[g].right in t.m && Col(t.m, t.m[g].left) == Red && Col(t.m, t.m[g].right) == Red
    ensures var g := t.m[t.m[x].parent].parent; InsInv(t.(m := PushUp(t.m, g)), bh', g)
  {
    InsGrandparent(t, bh, x);
    var g := t.m[t.m[x].parent].parent;
    var l, r := t.m[g].left, t.m[g].right;
    ShapeLinks(t);
    assert NodeOk(t, l) && NodeOk(t, r);
    assert LinkOk(t.m, t.nil, t.iv.Keys, g);
    PushUpBalanced(t.m, t.nil, t.iv.Keys, bh, g);
    PushUpNoRedRed(t.m, t.nil, t.iv.Keys, g, x);
    PaintShape(t, l, Black);
    PaintShape(Paint(t, l, Black), r, Black);
    PaintShape(Paint(Paint(t, l, Black), r, Black), g, Red);
    bh' := bh[l := bh[l] + 1][r := bh[r] + 1];
    assert NodeOk(t.(m := PushUp(t.m, g)), g);
  }

  lemma FramedPaintRotRight(t: View, a: Addr, c: Color, x: Addr, d: Color, ks: set<Addr>)
    requires Shape(t) && NodeOk(t, x) && a in t.iv && a in t.m && t.m[x].left != t.nil && t.iv.Keys <= ks
    ensures var t1 := Paint(Paint(t, a, c), x, d);
            Shape(t1) && NodeOk(t1, x) && RotRightSafe(t1.m, t.nil, x) && Framed(t.m, RotRightCells(t1.m, t.nil, x), ks)
  {
    var ta := Paint(t, a, c);
    var t1 := Paint(ta, x, d);
    PaintShape(t, a, c);
    PaintShape(ta, x, d);
    assert NodeOk(t1, x);
    RotRightDistinct(t1, x);
    FramedSetCol(t.m, a, c, ks);
    FramedSetCol(ta.m, x, d, ks);
    FramedTrans(t.m, ta.m, t1.m, ks);
    FramedRotRight(t1, x, ks);
    FramedTrans(t.m, t1.m, RotRightCells(t1.m, t.nil, x), ks);
  }

  lemma FramedPaintRotLeft(t: View, a: Addr, c: Color, x: Addr, d: Color, ks: set<Addr>)
    requires Shape(t) && NodeOk(t, x) && a in t.iv && a in t.m && t.m[x].right != t.nil && t.iv.Keys <= ks
    ensures var t1 := Paint(Paint(t, a, c), x, d);
            Shape(t1) && NodeOk(t1, x) && RotLeftSafe(t1.m, t.nil, x) && Framed(t.m, RotLeftCells(t1.m, t.nil, x), ks)
  {
    var ta := Paint(t, a, c);
    var t1 := Paint(ta, x, d);
    PaintShape(t, a, c);
    PaintShape(ta, x, d);
    assert NodeOk(t1, x);
    RotLeftDistinct(t1, x);
    FramedSetCol(t.m, a, c, ks);
    FramedSetCol(ta.m, x, d, ks);
    FramedTrans(t.m, ta.m, t1.m, ks);
    FramedRotLeft(t1, x, ks);
    FramedTrans(t.m, t1.m, RotLeftCells(t1.m, t.nil, x), ks);
  }

  /** `t'` is `t` after painting the right child of the black node `x` black, `x` red, and rotating left around `x`. */
  ghost predicate RotatedLeft(t: View, t': View, x: Addr) {
    && RotLeftSafe(t.m, t.nil, x)
    && t'.m == RotLeftCells(SetCol(SetCol(t.m, t.m[x].right, Black), x, Red), t.nil, x)
    && t'.nil == t.nil && t'.s == t.s && t'.iv.Keys == t.iv.Keys
    && t'.root == (if t.m[x].parent == t.nil then t.m[x].right else t.root)
    && Framed(t.m, t'.m, t.iv.Keys)
  }

  lemma SwapLeftShape(t: View, p: Addr) returns (t': View)
    requires Shape(t) && NodeOk(t, p) && t.m[p].right != t.nil && t.m[p].right in t.m
    requires Col(t.m, p) == Black && Col(t.m, t.m[p].right) == Red
    ensures RotatedLeft(t, t', p) && t'.m == SwapRot(t.m, t.nil, p) && t.m[p].right != p
    ensures Shape(t')
    ensures Links(t.m, t.nil, t.iv.Keys) && RotOk(t.m, t.nil, t.iv.Keys, p)
  {
    var w := t.m[p].right;
    RotLeftDistinct(t, p);
    FramedPaintRotLeft(t, w, Black, p, Red, t.iv.Keys);
    var t1 := Paint(Paint(t, w, Black), p, Red);
    RotLeftShape(t1, p);
    t' := RotLeft(t1, p);
    ShapeRotOk(t, p);
    ShapeLinks(t);
  }

  /** `t'` is `t` after painting the left child of the black node `x` black, `x` red, and rotating right around `x`. */
  ghost predicate RotatedRight(t: View, t': View, x: Addr) {
    && RotRightSafe(t.m, t.nil, x)
    && t'.m == RotRightCells(SetCol(SetCol(t.m, t.m[x].left, Black), x, Red), t.nil, x)
    && t'.nil == t.nil && t'.s == t.s && t'.iv.Keys == t.iv.Keys
    && t'.root == (if t.m[x].parent == t.nil then t.m[x].left else t.root)
    && Framed(t.m, t'.m, t.iv.Keys)
  }

  lemma SwapRightShape(t: View, p: Addr) returns (t': View)
    requires Shape(t) && NodeOk(t, p) && t.m[p].left != t.nil && t.m[p].left in t.m
    requires Col(t.m, p) == Black && Col(t.m, t.m[p].left) == Red
    ensures RotatedRight(t, t', p) && t'.m == SwapRotR(t.m, t.nil, p) && t.m[p].left != p
    ensures Shape(t')
    ensures Links(t.m, t.nil, t.iv.Keys) && RotOk(Flip(t.m), t.nil, t.iv.Keys, p)
  {
    var w := t.m[p].left;
    RotRightDistinct(t, p);
    FramedPaintRotRight(t, w, Black, p, Red, t.iv.Keys);
    var t1 := Paint(Paint(t, w, Black), p, Red);
    RotRightShape(t1, p);
    t' := RotRight(t1, p);
    ShapeRotOk(t, p);
    ShapeLinks(t);
  }

  /** The order in which parent and uncle are painted does not matter. */
  lemma PushUpEither(m: Cells, g: Addr, ks: set<Addr>)
    requires g in m && m[g].left in m && m[g].right in m && g in ks && m[g].left in ks && m[g].right in ks
    ensures PushUp(m, g) == SetCol(SetCol(SetCol(m, m[g].right, Black), m[g].left, Black), g, Red)
    ensures Framed(m, PushUp(m, g), ks)
  {
    FramedSetCol(m, m[g].left, Black, ks);
    FramedSetCol(SetCol(m, m[g].left, Black), m[g].right, Black, ks);
    FramedTrans(m, SetCol(m, m[g].left, Black), SetCol(SetCol(m, m[g].left, Black), m[g].right, Black), ks);
    FramedSetCol(SetCol(SetCol(m, m[g].left, Black), m[g].right, Black), g, Red, ks);
    FramedTrans(m, SetCol(SetCol(m, m[g].left, Black), m[g].right, Black), PushUp(m, g), ks);
  }

  lemma SetColSame(m: Cells, a: Addr)
    requires a in m
    ensures SetCol(m, a, Col(m, a)) == m
  {
  }

  /** Inner grandchild, left case: after the rotation the parent is the outer one. */
  lemma InsTurnLeft(t: View, bh: map<Addr, nat>, x: Addr)
    requires InsInv(t, bh, x) && t.m[x].parent in t.m && Col(t.m, t.m[x].parent) == Red
    requires t.m[t.m[x].parent].right == x
    ensures var p := t.m[x].parent; p in t.iv && x in t.iv && InsInv(RotLeft(t, p), bh, p)
  {
    InsGrandparent(t, bh, x);
    var p := t.m[x].parent;
    ShapeRotOk(t, p);
    ShapeLinks(t);
    RotLeftShape(t, p);
    SetColSame(t.m, p);
    SetColSame(t.m, x);
    SwapRotBalanced(t.m, t.nil, t.iv.Keys, bh, t.nil, Lft, p);
    RedRotNoRedRed(t.m, t.nil, t.iv.Keys, p);
    assert BalOk(t.m, t.nil, bh, t.nil, Lft, p);
    assert bh[p := bh[x]][x := bh[p]] == bh;
    assert RotLeft(t, p).iv.Keys == t.iv.Keys;
    assert NodeOk(RotLeft(t, p), p);
  }

  lemma InsTurnRight(t: View, bh: map<Addr, nat>, x: Addr)
    requires InsInv(t, bh, x) && t.m[x].parent in t.m && Col(t.m, t.m[x].parent) == Red
    requires t.m[t.m[x].parent].left == x
    ensures var p := t.m[x].parent; p in t.iv && x in t.iv && InsInv(RotRight(t, p), bh, p)
  {
    InsGrandparent(t, bh, x);
    var p := t.m[x].parent;
    ShapeRotOk(t, p);
    ShapeLinks(t);
    RotRightShape(t, p);
    SetColSame(t.m, p);
    SetColSame(t.m, x);
    SwapRotRBalanced(t.m, t.nil, t.iv.Keys, bh, t.nil, Lft, p);
    RedRotRNoRedRed(t.m, t.nil, t.iv.Keys, p);
    assert BalOk(t.m, t.nil, bh, t.nil, Lft, p);
    assert bh[p := bh[x]][x := bh[p]] == bh;
    assert RotRight(t, p).iv.Keys == t.iv.Keys;
    assert NodeOk(RotRight(t, p), p);
  }

  /** Outer grandchild, left case: the parent rises black above the grandparent, now red. */
  lemma InsLastRight(t: View, bh: map<Addr, nat>, x: Addr) returns (t': View, bh': map<Addr, nat>)
    requires InsInv(t, bh, x) && t.m[x].parent in t.m && Col(t.m, t.m[x].parent) == Red
    requires t.m[t.m[x].parent].left == x && t.m[t.m[x].parent].parent in t.m
    requires var p := t.m[x].parent; var g := t.m[p].parent;
             t.m[g].left == p && t.m[g].right in t.m && Col(t.m, t.m[g].right) == Black
    ensures InsInv(t', bh', x) && t'.m[x].parent in t'.m && Col(t'.m, t'.m[x].parent) == Black
    ensures RotatedRight(t, t', t.m[t.m[x].parent].parent)
  {
    InsGrandparent(t, bh, x);
    var p := t.m[x].parent;
    var g := t.m[p].parent;
    t' := SwapRightShape(t, g);
    SwapRotRBalanced(t.m, t.nil, t.iv.Keys, bh, t.nil, Lft, g);
    SwapRotRNoRedRed(t.m, t.nil, t.iv.Keys, x, g);
    bh' := bh[g := bh[p]][p := bh[g]];
    assert t'.m[x] == t.m[x];
    assert NodeOk(t', x);
  }

  lemma InsLastLeft(t: View, bh: map<Addr, nat>, x: Addr) returns (t': View, bh': map<Addr, nat>)
    requires InsInv(t, bh, x) && t.m[x].parent in t.m && Col(t.m, t.m[x].parent) == Red
    requires t.m[t.m[x].parent].right == x && t.m[t.m[x].parent].parent in t.m
    requires var p := t.m[x].parent; var g := t.m[p].parent;
             t.m[g].right == p && t.m[g].left in t.m && Col(t.m, t.m[g].left) == Black
    ensures InsInv(t', bh', x) && t'.m[x].parent in t'.m && Col(t'.m, t'.m[x].parent) == Black
    ensures RotatedLeft(t, t', t.m[t.m[x].parent].parent)
  {
    InsGrandparent(t, bh, x);
    var p := t.m[x].parent;
    var g := t.m[p].parent;
    t' := SwapLeftShape(t, g);
    SwapRotBalanced(t.m, t.nil, t.iv.Keys, bh, t.nil, Lft, g);
    SwapRotNoRedRed(t.m, t.nil, t.iv.Keys, x, g);
    bh' := bh[g := bh[p]][p := bh[g]];
    assert t'.m[x] == t.m[x];
    assert NodeOk(t', x);
  }

  /** With a black parent only the root may still be red; painting it black ends the insertion. */
  lemma InsDone(t: View, bh: map<Addr, nat>, x: Addr) returns (bh': map<Addr, nat>)
    requires InsInv(t, bh, x) && t.m[x].parent in t.m && Col(t.m, t.m[x].parent) == Black
    ensures Rb(Paint(t, t.root, Black), bh')
  {
    var r := t.root;
    assert NodeOk(t, r);
    ShapeLinks(t);
    PaintShape(t, r, Black);
    PaintBlackOk(t.m, t.nil, t.iv.Keys, bh, r, t.nil, Lft);
    bh' := bh[r := bh[r] + Weight(Black) - Weight(Col(t.m, r))];
    var m' := SetCol(t.m, r, Black);
    forall a {:trigger RedOk(m', a)} | a in t.iv.Keys && a != t.nil ensures RedOk(m', a) {
      assert NodeOk(t, a);
      if a != x { assert RedOk(t.m, a); }
    }
  }

  // ---------------------------------------------------------------- removal

  /** The parent of the slot that is one black short: that of `x`, or none when `x` is the root. */
  function ShortAt(t: View, x: Addr): Addr
    requires x in t.m
  {
    if x == t.root then t.nil else t.m[x].parent
  }

  ghost predicate AtSlot(t: View, x: Addr, ds: Side)
    requires x in t.m
  {
    var p := t.m[x].parent;
    p != t.nil && NodeOk(t, p) && x == if ds == Lft then t.m[p].left else t.m[p].right
  }

  /** During a removal: the subtree `x`, possibly the sentinel, is one black short of its sibling, and
      painting `x` black would leave no red-red edge. */
  ghost predicate RemInv(t: View, bh: map<Addr, nat>, x: Addr, ds: Side) {
    && Shape(t) && Col(t.m, t.nil) == Black
    && x in t.m && (x != t.nil ==> NodeOk(t, x))
    && (x != t.root ==> AtSlot(t, x, ds))
    && Balanced(t.m, t.nil, t.iv.Keys, bh, ShortAt(t, x), ds)
    && NoRedRed(SetCol(t.m, x, Black), t.iv.Keys, t.nil)
    && t.root in t.m && Col(SetCol(t.m, x, Black), t.root) == Black
  }

  function Width(t: View, x: Addr): nat {
    if x in t.iv && t.iv[x].lo <= t.iv[x].hi then t.iv[x].hi - t.iv[x].lo else 0
  }

  function Sibling(t: View, p: Addr, ds: Side): Addr
    requires p in t.m
  {
    if ds == Lft then t.m[p].right else t.m[p].left
  }

  /** A short black subtree has a real sibling, so comparing it with the left child tells its side
      even when it is the sentinel. */
  lemma RemSibling(t: View, bh: map<Addr, nat>, x: Addr, ds: Side)
    requires RemInv(t, bh, x, ds) && x != t.root && Col(t.m, x) == Black
    ensures var p := t.m[x].parent;
            && (t.m[p].left == x <==> ds == Lft)
            && NodeOk(t, Sibling(t, p, ds)) && t.m[Sibling(t, p, ds)].parent == p
            && Sibling(t, p, ds) != x && Sibling(t, p, ds) != p && Sibling(t, p, ds) != t.m[p].parent
            && p != t.m[p].parent && Width(t, x) < Width(t, p) <= |t.s|
    ensures var p := t.m[x].parent; var w := Sibling(t, p, ds); t.m[w].left in t.m && t.m[w].right in t.m
    ensures NoRedRed(t.m, t.iv.Keys, t.nil) && Col(t.m, t.root) == Black
    ensures Balanced(t.m, t.nil, t.iv.Keys, bh, t.m[x].parent, ds)
  {
    SetColSame(t.m, x);
    var p := t.m[x].parent;
    assert BalOk(t.m, t.nil, bh, p, ds, p);
    var w := Sibling(t, p, ds);
    assert w != t.nil;
    assert NodeOk(t, w);
  }

  /** The right child of a red node is black, and so is the left one. */
  lemma RedKids(t: View, w: Addr)
    requires Shape(t) && NodeOk(t, w) && Col(t.m, w) == Red && Col(t.m, t.nil) == Black
    requires NoRedRed(t.m, t.iv.Keys, t.nil)
    ensures t.m[w].left in t.m && Col(t.m, t.m[w].left) == Black
    ensures t.m[w].right in t.m && Col(t.m, t.m[w].right) == Black
    ensures t.m[w].parent in t.m && Col(t.m, t.m[w].parent) == Black
  {
    assert RedOk(t.m, w);
    if t.m[w].left != t.nil { assert RedOk(t.m, t.m[w].left); }
    if t.m[w].right != t.nil { assert RedOk(t.m, t.m[w].right); }
  }

  /** Reassembles the invariant when `x` is black. */
  lemma RemSame(t: View, bh: map<Addr, nat>, x: Addr, ds: Side, p: Addr)
    requires Shape(t) && Col(t.m, t.nil) == Black && x in t.m && Col(t.m, x) == Black
    requires p in t.iv && p in t.m && t.m[x].parent == p && x == (if ds == Lft then t.m[p].left else t.m[p].right)
    requires x == t.nil || x in t.iv
    requires Balanced(t.m, t.nil, t.iv.Keys, bh, p, ds) && NoRedRed(t.m, t.iv.Keys, t.nil)
    requires t.root in t.m && Col(t.m, t.root) == Black
    ensures RemInv(t, bh, x, ds) && x != t.root
  {
    SetColSame(t.m, x);
    assert NodeOk(t, p);
    if x != t.nil { assert NodeOk(t, x); }
  }

  /** What a recolouring and rotation leave in place around the left child `x` of `p`. */
  lemma PaintedRotLeft(m: Cells, nil: Addr, p: Addr, x: Addr)
    requires RotLeftSafe(m, nil, p) && m[p].left == x && x in m && x != p && x != m[p].right
    requires x == nil || (x != m[p].parent && x != m[m[p].right].left)
    ensures var w := m[p].right; var b := m[w].left;
            var m' := RotLeftCells(SetCol(SetCol(m, w, Black), p, Red), nil, p);
            && m'[x] == m[x] && m'[p].left == x && m'[p].right == b && m'[b].header == m[b].header
            && Col(m', p) == Red && Col(m', w) == Black
  {
  }

  /** Red sibling: after one rotation the short slot has a black sibling. */
  lemma RemRotateLeft(t: View, bh: map<Addr, nat>, x: Addr) returns (t': View, bh': map<Addr, nat>)
    requires RemInv(t, bh, x, Lft) && x != t.root && Col(t.m, x) == Black
    requires var w := t.m[t.m[x].parent].right; w in t.m && Col(t.m, w) == Red
    ensures RotatedLeft(t, t', t.m[x].parent) && RemInv(t', bh', x, Lft) && x != t'.root && t'.m[x] == t.m[x]
    ensures var p := t.m[x].parent; Col(t'.m, p) == Red && t'.m[p].right in t'.m && Col(t'.m, t'.m[p].right) == Black
  {
    RemSibling(t, bh, x, Lft);
    var p := t.m[x].parent;
    var w := t.m[p].right;
    RedKids(t, w);
    t' := SwapLeftShape(t, p);
    assert NoRedRed(t'.m, t.iv.Keys, t.nil) by { SwapRotNoRedRed(t.m, t.nil, t.iv.Keys, t.nil, p); }
    SwapRotBalanced(t.m, t.nil, t.iv.Keys, bh, p, Lft, p);
    bh' := bh[p := bh[w]][w := bh[p]];
    PaintedRotLeft(t.m, t.nil, p, x);
    RemSame(t', bh', x, Lft, p);
  }

  /** What a recolouring and rotation leave in place around the right child `x` of `p`. */
  lemma PaintedRotRight(m: Cells, nil: Addr, p: Addr, x: Addr)
    requires RotRightSafe(m, nil, p) && m[p].right == x && x in m && x != p && x != m[p].left
    requires x == nil || (x != m[p].parent && x != m[m[p].left].right)
    ensures var w := m[p].left; var b := m[w].right;
            var m' := RotRightCells(SetCol(SetCol(m, w, Black), p, Red), nil, p);
            && m'[x] == m[x] && m'[p].right == x && m'[p].left == b && m'[b].header == m[b].header
            && Col(m', p) == Red && Col(m', w) == Black
  {
  }

  lemma RemRotateRight(t: View, bh: map<Addr, nat>, x: Addr) returns (t': View, bh': map<Addr, nat>)
    requires RemInv(t, bh, x, Rgt) && x != t.root && Col(t.m, x) == Black
    requires var w := t.m[t.m[x].parent].left; w in t.m && Col(t.m, w) == Red
    ensures RotatedRight(t, t', t.m[x].parent) && RemInv(t', bh', x, Rgt) && x != t'.root && t'.m[x] == t.m[x]
    ensures var p := t.m[x].parent; Col(t'.m, p) == Red && t'.m[p].left in t'.m && Col(t'.m, t'.m[p].left) == Black
  {
    RemSibling(t, bh, x, Rgt);
    var p := t.m[x].parent;
    var w := t.m[p].left;
    RedKids(t, w);
    t' := SwapRightShape(t, p);
    assert NoRedRed(t'.m, t.iv.Keys, t.nil) by { SwapRotRNoRedRed(t.m, t.nil, t.iv.Keys, t.nil, p); }
    SwapRotRBalanced(t.m, t.nil, t.iv.Keys, bh, p, Rgt, p);
    bh' := bh[p := bh[w]][w := bh[p]];
    PaintedRotRight(t.m, t.nil, p, x);
    RemSame(t', bh', x, Rgt, p);
  }

  /** Black sibling with black children: it turns red and the shortage moves up to the parent. */
  lemma RemSink(t: View, bh: map<Addr, nat>, x: Addr, ds: Side) returns (bh': map<Addr, nat>, ds': Side)
    requires RemInv(t, bh, x, ds) && x != t.root && Col(t.m, x) == Black
    requires var w := Sibling(t, t.m[x].parent, ds);
             && w in t.m && Col(t.m, w) == Black && t.m[w].left in t.m && t.m[w].right in t.m
             && Col(t.m, t.m[w].left) == Black && Col(t.m, t.m[w].right) == Black
    ensures var p := t.m[x].parent; RemInv(Paint(t, Sibling(t, p, ds), Red), bh', p, ds')
  {
    RemSibling(t, bh, x, ds);
    var p := t.m[x].parent;
    var w := Sibling(t, p, ds);
    var t' := Paint(t, w, Red);
    PaintShape(t, w, Red);
    ShapeLinks(t);
    assert LinkOk(t.m, t.nil, t.iv.Keys, p) && LinkOk(t.m, t.nil, t.iv.Keys, w);
    SiblingRedBalanced(t.m, t.nil, t.iv.Keys, bh, p, ds, w);
    SiblingRedNoRedRed(t.m, t.nil, t.iv.Keys, p, ds, w);
    bh' := bh[w := bh[w] - 1][p := bh[p] - 1];
    ds' := SideOf(t.m, t.m[p].parent, p);
    assert NodeOk(t', p);
    if p != t.root { assert NodeOk(t', t.m[p].parent); }
  }

  /** Black sibling with a red inner child: that child becomes the sibling. */
  lemma RemTurnLeft(t: View, bh: map<Addr, nat>, x: Addr) returns (t': View, bh': map<Addr, nat>)
    requires RemInv(t, bh, x, Lft) && x != t.root && Col(t.m, x) == Black
    requires var w := t.m[t.m[x].parent].right;
             && w in t.m && Col(t.m, w) == Black && t.m[w].left in t.m && t.m[w].right in t.m
             && Col(t.m, t.m[w].left) == Red && Col(t.m, t.m[w].right) == Black
    ensures RotatedRight(t, t', t.m[t.m[x].parent].right) && RemInv(t', bh', x, Lft) && x != t'.root
    ensures t'.m[x] == t.m[x]
    ensures var p := t.m[x].parent; var w := t.m[p].right; var y := t.m[w].left;
            t'.m[p].right == y && Col(t'.m, y) == Black && t'.m[y].right == w && Col(t'.m, w) == Red
  {
    RemSibling(t, bh, x, Lft);
    var p := t.m[x].parent;
    var w := t.m[p].right;
    var y := t.m[w].left;
    RotRightDistinct(t, w);
    t' := SwapRightShape(t, w);
    SwapRotRBalanced(t.m, t.nil, t.iv.Keys, bh, p, Lft, w);
    SwapRotRNoRedRed(t.m, t.nil, t.iv.Keys, t.nil, w);
    bh' := bh[w := bh[y]][y := bh[w]];
    assert t'.m[x] == t.m[x] && t'.m[p].left == x;
    RemSame(t', bh', x, Lft, p);
  }

  lemma RemTurnRight(t: View, bh: map<Addr, nat>, x: Addr) returns (t': View, bh': map<Addr, nat>)
    requires RemInv(t, bh, x, Rgt) && x != t.root && Col(t.m, x) == Black
    requires var w := t.m[t.m[x].parent].left;
             && w in t.m && Col(t.m, w) == Black && t.m[w].left in t.m && t.m[w].right in t.m
             && Col(t.m, t.m[w].right) == Red && Col(t.m, t.m[w].left) == Black
    ensures RotatedLeft(t, t', t.m[t.m[x].parent].left) && RemInv(t', bh', x, Rgt) && x != t'.root && t'.m[x] == t.m[x]
    ensures var p := t.m[x].parent; var w := t.m[p].left; var y := t.m[w].right;
            t'.m[p].left == y && Col(t'.m, y) == Black && t'.m[y].left == w && Col(t'.m, w) == Red
  {
    RemSibling(t, bh, x, Rgt);
    var p := t.m[x].parent;
    var w := t.m[p].left;
    var y := t.m[w].right;
    RotLeftDistinct(t, w);
    t' := SwapLeftShape(t, w);
    SwapRotBalanced(t.m, t.nil, t.iv.Keys, bh, p, Rgt, w);
    SwapRotNoRedRed(t.m, t.nil, t.iv.Keys, t.nil, w);
    bh' := bh[w := bh[y]][y := bh[w]];
    assert t'.m[x] == t.m[x] && t'.m[p].right == x;
    RemSame(t', bh', x, Rgt, p);
  }

  /** A balanced tree with a black root satisfies the invariant at its root. */
  lemma RemAtRoot(t: View, bh: map<Addr, nat>)
    requires Rb(t, bh)
    ensures RemInv(t, bh, t.root, Lft)
  {
    SetColSame(t.m, t.root);
    if t.root != t.nil { assert NodeOk(t, t.root); }
  }

  lemma FramedPaint2(m: Cells, a: Addr, b: Addr, ks: set<Addr>)
    requires a in m && b in m && a in ks && b in ks
    ensures Framed(m, SetCol(SetCol(m, a, Black), b, Black), ks)
  {
  }

  /** `t'` is `t` after the recolourings and the rotation that end a removal at `x`. */
  ghost predicate LastRotatedLeft(t: View, t': View, x: Addr) {
    && RotLeftSafe(t.m, t.nil, x) && t.m[t.m[x].right].right in t.m
    && t'.m == LastRot(t.m, t.nil, x)
    && t'.nil == t.nil && t'.s == t.s && t'.iv.Keys == t.iv.Keys
    && t'.root == (if t.m[x].parent == t.nil then t.m[x].right else t.root)
    && Framed(t.m, t'.m, t.iv.Keys)
  }

  lemma LastLeftShape(t: View, p: Addr) returns (t': View)
    requires Shape(t) && NodeOk(t, p) && t.m[p].right != t.nil && t.m[p].right in t.m
    requires t.m[t.m[p].right].right != t.nil
    ensures LastRotatedLeft(t, t', p) && Shape(t')
  {
    var w := t.m[p].right;
    assert NodeOk(t, w);
    var z := t.m[w].right;
    var ta := Paint(t, w, Col(t.m, p));
    var tb := Paint(ta, p, Black);
    PaintShape(t, w, Col(t.m, p));
    assert NodeOk(ta, p);
    FramedSetCol(t.m, w, Col(t.m, p), t.iv.Keys);
    PaintShape(ta, p, Black);
    assert NodeOk(tb, p);
    PaintShape(tb, z, Black);
    var t1 := Paint(tb, z, Black);
    assert NodeOk(t1, p);
    FramedPaint2(ta.m, p, z, t.iv.Keys);
    FramedTrans(t.m, ta.m, t1.m, t.iv.Keys);
    FramedRotLeft(t1, p, t.iv.Keys);
    RotLeftDistinct(t, p);
    RotLeftShape(t1, p);
    t' := RotLeft(t1, p);
    FramedTrans(t.m, t1.m, t'.m, t.iv.Keys);
  }

  /** `t'` is `t` after the recolourings and the rotation that end a removal at `x`. */
  ghost predicate LastRotatedRight(t: View, t': View, x: Addr) {
    && RotRightSafe(t.m, t.nil, x) && t.m[t.m[x].left].left in t.m
    && t'.m == LastRotR(t.m, t.nil, x)
    && t'.nil == t.nil && t'.s == t.s && t'.iv.Keys == t.iv.Keys
    && t'.root == (if t.m[x].parent == t.nil then t.m[x].left else t.root)
    && Framed(t.m, t'.m, t.iv.Keys)
  }

  lemma LastRightShape(t: View, p: Addr) returns (t': View)
    requires Shape(t) && NodeOk(t, p) && t.m[p].left != t.nil && t.m[p].left in t.m && t.m[t.m[p].left].left != t.nil
    ensures LastRotatedRight(t, t', p) && Shape(t')
  {
    var w := t.m[p].left;
    assert NodeOk(t, w);
    var z := t.m[w].left;
    var ta := Paint(t, w, Col(t.m, p));
    var tb := Paint(ta, p, Black);
    PaintShape(t, w, Col(t.m, p));
    assert NodeOk(ta, p);
    FramedSetCol(t.m, w, Col(t.m, p), t.iv.Keys);
    PaintShape(ta, p, Black);
    assert NodeOk(tb, p);
    PaintShape(tb, z, Black);
    var t1 := Paint(tb, z, Black);
    assert NodeOk(t1, p);
    FramedPaint2(ta.m, p, z, t.iv.Keys);
    FramedTrans(t.m, ta.m, t1.m, t.iv.Keys);
    FramedRotRight(t1, p, t.iv.Keys);
    RotRightDistinct(t, p);
    RotRightShape(t1, p);
    t' := RotRight(t1, p);
    FramedTrans(t.m, t1.m, t'.m, t.iv.Keys);
  }

  lemma ShapeLastRotOk(t: View, bh: map<Addr, nat>, p: Addr)
    requires Shape(t) && NodeOk(t, p) && Balanced(t.m, t.nil, t.iv.Keys, bh, p, Lft)
    requires var w := t.m[p].right; w != t.nil && Col(t.m, w) == Black && t.m[w].right != t.nil && t.m[w].right in t.m
    requires Col(t.m, t.m[t.m[p].right].right) == Red
    ensures LastRotOk(t.m, t.nil, t.iv.Keys, bh, p)
  {
    var w := t.m[p].right;
    var z := t.m[w].right;
    assert NodeOk(t, w);
    assert NodeOk(t, z);
    if t.m[p].parent != t.nil { assert NodeOk(t, t.m[p].parent); }
    ShapeRotOk(t, p);
    ShapeLinks(t);
    assert BalOk(t.m, t.nil, bh, p, Lft, p) && BalOk(t.m, t.nil, bh, p, Lft, w) && BalOk(t.m, t.nil, bh, p, Lft, z);
    assert LinkOk(t.m, t.nil, t.iv.Keys, z);
  }

  lemma FlipLastRotOk(t: View, bh: map<Addr, nat>, p: Addr)
    requires Shape(t) && NodeOk(t, p) && Balanced(t.m, t.nil, t.iv.Keys, bh, p, Rgt)
    requires var w := t.m[p].left; w != t.nil && Col(t.m, w) == Black && t.m[w].left != t.nil && t.m[w].left in t.m
    requires Col(t.m, t.m[t.m[p].left].left) == Red
    ensures LastRotOk(Flip(t.m), t.nil, t.iv.Keys, bh, p)
  {
    var w := t.m[p].left;
    var z := t.m[w].left;
    assert NodeOk(t, w);
    assert NodeOk(t, z);
    if t.m[p].parent != t.nil { assert NodeOk(t, t.m[p].parent); }
    ShapeRotOk(t, p);
    ShapeLinks(t);
    var f := Flip(t.m);
    FlipLinks(t.m, t.nil, t.iv.Keys);
    FlipBalanced(t.m, t.nil, t.iv.Keys, bh, p, Rgt);
    assert BalOk(f, t.nil, bh, p, Lft, p) && BalOk(f, t.nil, bh, p, Lft, w) && BalOk(f, t.nil, bh, p, Lft, z);
    assert LinkOk(f, t.nil, t.iv.Keys, z);
  }

  lemma LastLeftRb(t: View, bh: map<Addr, nat>, p: Addr) returns (t': View, bh': map<Addr, nat>)
    requires Shape(t) && NodeOk(t, p) && Col(t.m, t.nil) == Black && t.root in t.m && Col(t.m, t.root) == Black
    requires Balanced(t.m, t.nil, t.iv.Keys, bh, p, Lft) && NoRedRed(t.m, t.iv.Keys, t.nil)
    requires var w := t.m[p].right; w != t.nil && w in t.m && Col(t.m, w) == Black && t.m[w].right in t.m
    requires Col(t.m, t.m[t.m[p].right].right) == Red
    ensures LastRotatedLeft(t, t', p) && Rb(t', bh')
  {
    ShapeLastRotOk(t, bh, p);
    ShapeLinks(t);
    LastRotBalanced(t.m, t.nil, t.iv.Keys, bh, p);
    LastRotNoRedRed(t.m, t.nil, t.iv.Keys, bh, p);
    bh' := LastRotBh(t.m, bh, p);
    t' := LastLeftShape(t, p);
    assert t.m[p].parent == t.nil ==> t.root == p && Col(t'.m, t'.root) == Col(t.m, p);
  }

  /** Black sibling with a red outer child: one last rotation and the tree is red-black again. */
  lemma RemLastLeft(t: View, bh: map<Addr, nat>, x: Addr) returns (t': View, bh': map<Addr, nat>)
    requires RemInv(t, bh, x, Lft) && x != t.root && Col(t.m, x) == Black
    requires var w := t.m[t.m[x].parent].right;
             w in t.m && Col(t.m, w) == Black && t.m[w].right in t.m && Col(t.m, t.m[w].right) == Red
    ensures LastRotatedLeft(t, t', t.m[x].parent) && Rb(t', bh')
  {
    RemSibling(t, bh, x, Lft);
    t', bh' := LastLeftRb(t, bh, t.m[x].parent);
  }

  lemma LastRightRb(t: View, bh: map<Addr, nat>, p: Addr) returns (t': View, bh': map<Addr, nat>)
    requires Shape(t) && NodeOk(t, p) && Col(t.m, t.nil) == Black && t.root in t.m && Col(t.m, t.root) == Black
    requires Balanced(t.m, t.nil, t.iv.Keys, bh, p, Rgt) && NoRedRed(t.m, t.iv.Keys, t.nil)
    requires var w := t.m[p].left; w != t.nil && w in t.m && Col(t.m, w) == Black && t.m[w].left in t.m
    requires Col(t.m, t.m[t.m[p].left].left) == Red
    ensures LastRotatedRight(t, t', p) && Rb(t', bh')
  {
    FlipLastRotOk(t, bh, p);
    ShapeLinks(t);
    LastRotROk(t.m, t.nil, t.iv.Keys, bh, p);
    bh' := LastRotBh(Flip(t.m), bh, p);
    t' := LastRightShape(t, p);
    assert t.m[p].parent == t.nil ==> t.root == p && Col(t'.m, t'.root) == Col(t.m, p);
  }

  lemma RemLastRight(t: View, bh: map<Addr, nat>, x: Addr) returns (t': View, bh': map<Addr, nat>)
    requires RemInv(t, bh, x, Rgt) && x != t.root && Col(t.m, x) == Black
    requires var w := t.m[t.m[x].parent].left;
             w in t.m && Col(t.m, w) == Black && t.m[w].left in t.m && Col(t.m, t.m[w].left) == Red
    ensures LastRotatedRight(t, t', t.m[x].parent) && Rb(t', bh')
  {
    RemSibling(t, bh, x, Rgt);
    t', bh' := LastRightRb(t, bh, t.m[x].parent);
  }

  /** A red or topmost short subtree is painted black, which ends the removal. */
  lemma RemDone(t: View, bh: map<Addr, nat>, x: Addr, ds: Side) returns (bh': map<Addr, nat>)
    requires RemInv(t, bh, x, ds) && (x == t.root || Col(t.m, x) == Red)
    ensures Rb(Paint(t, x, Black), bh')
  {
    PaintShape(t, x, Black);
    if x == t.nil {
      SetColSame(t.m, x);
      bh' := bh;
      if ds == Rgt { NoShortSide(t.m, t.nil, t.iv.Keys, bh); }
    } else {
      ShapeLinks(t);
      if x != t.root { assert NodeOk(t, t.m[x].parent); }
      PaintBlackOk(t.m, t.nil, t.iv.Keys, bh, x, ShortAt(t, x), ds);
      bh' := bh[x := bh[x] + Weight(Black) - Weight(Col(t.m, x))];
    }
  }

  // ---------------------------------------------------------------- whole operations

  /** All keys left of position `k` are at most `v`, all others are greater. */
  ghost predicate SplitsAt(m: Cells, s: seq<Addr>, k: nat, v: nat) {
    && k <= |s|
    && (forall i {:trigger s[i]} :: 0 <= i < k ==> Key(m, s[i]) <= v)
    && (forall i {:trigger s[i]} :: k <= i < |s| ==> v < Key(m, s[i]))
  }

  /** The loop invariant of the search for the place of a new leaf with key `v`: the subtree `c`, in the
      slot `left` of `p`, spans s[lo..hi], everything before is at most `v` and everything after is greater. */
  ghost predicate SearchInv(t: View, v: nat, c: Addr, p: Addr, left: bool, lo: nat, hi: nat) {
    && Shape(t) && Sorted(t.m, t.s) && lo <= hi <= |t.s| && ChildOk(t, c, p, lo, hi)
    && (if p == t.nil then lo == 0 && hi == |t.s|
        else NodeOk(t, p) && c == (if left then t.m[p].left else t.m[p].right)
             && (left <==> v < t.m[p].header.size)
             && (if left then t.iv[p].lo == lo && t.iv[p].pos == hi else t.iv[p].pos + 1 == lo && t.iv[p].hi == hi))
    && (forall i {:trigger t.s[i]} :: 0 <= i < lo ==> Key(t.m, t.s[i]) <= v)
    && (forall i {:trigger t.s[i]} :: hi <= i < |t.s| ==> v < Key(t.m, t.s[i]))
  }

  /** One step of the search: left below a greater key, right otherwise. */
  lemma SearchStep(t: View, v: nat, c: Addr, p: Addr, left: bool, lo: nat, hi: nat)
    requires SearchInv(t, v, c, p, left, lo, hi) && c != t.nil
    ensures NodeOk(t, c) && lo <= t.iv[c].pos < hi
    ensures if v < t.m[c].header.size then SearchInv(t, v, t.m[c].left, c, true, lo, t.iv[c].pos)
            else SearchInv(t, v, t.m[c].right, c, false, t.iv[c].pos + 1, hi)
  {
    assert NodeOk(t, c);
    var k := t.iv[c].pos;
    assert t.s[k] == c;
    if v < t.m[c].header.size {
      forall i {:trigger t.s[i]} | k <= i < |t.s| ensures v < Key(t.m, t.s[i]) {
        if i > k { assert Key(t.m, t.s[k]) <= Key(t.m, t.s[i]); }
      }
    } else {
      forall i {:trigger t.s[i]} | 0 <= i < k + 1 ensures Key(t.m, t.s[i]) <= v {
        if i < k { assert Key(t.m, t.s[i]) <= Key(t.m, t.s[k]); }
      }
    }
  }

  lemma AttachFramed(t: View, z: Addr, p: Addr, left: bool)
    requires CanAttach(t, z, p, left)
    ensures Framed(t.m, Attach(t, z, p, left).m, t.iv.Keys + {z})
  {
  }

  /** Hanging a red leaf where the search ended gives a tree in which only that leaf may need repair. */
  lemma AttachInsInv(t: View, bh: map<Addr, nat>, z: Addr, p: Addr, left: bool, k: nat)
    requires Rb(t, bh) && z in t.m && z !in t.iv && z != t.nil
    requires SearchInv(t, t.m[z].header.size, t.nil, p, left, k, k)
    ensures CanAttach(t, z, p, left)
    ensures var t' := Attach(t, z, p, left);
            InsInv(t', bh[z := 0], z) && t'.s == InsertAt(t.s, k, z) && t'.iv.Keys == t.iv.Keys + {z}
  {
    var t' := Attach(t, z, p, left);
    AttachShape(t, z, p, left);
    AttachBalanced(t, z, p, left, bh);
    AttachNoRedRed(t, z, p, left);
    assert NodeOk(t', z);
  }

  lemma InsertSorted(m: Cells, s: seq<Addr>, k: nat, z: Addr)
    requires Sorted(m, s) && z in m && SplitsAt(m, s, k, m[z].header.size)
    ensures Sorted(m, InsertAt(s, k, z))
  {
    var r := InsertAt(s, k, z);
    forall i, j {:trigger r[i], r[j]} | 0 <= i < j < |r|
      ensures Key(m, r[i]) <= Key(m, r[j])
    {
      var a := if i < k then s[i] else if i == k then z else s[i - 1];
      var b := if j < k then s[j] else if j == k then z else s[j - 1];
      assert r[i] == a && r[j] == b;
    }
  }

  lemma InsertedSorted(t: View, m': Cells, z: Addr, p: Addr, left: bool, k: nat, ks: set<Addr>)
    requires z in t.m && SearchInv(t, t.m[z].header.size, t.nil, p, left, k, k) && Framed(t.m, m', ks)
    ensures SplitsAt(t.m, t.s, k, t.m[z].header.size) && Sorted(m', InsertAt(t.s, k, z))
  {
    InsertSorted(t.m, t.s, k, z);
    SortedFramed(t.m, m', ks, InsertAt(t.s, k, z));
  }

  lemma SpliceReady(t: View, bh: map<Addr, nat>, d: Addr)
    requires Rb(t, bh) && NodeOk(t, d) && (t.m[d].left == t.nil || t.m[d].right == t.nil)
    ensures OnlyChild(t, d) in t.m && SpliceCells(t, d) && Shape(Splice(t, d))
    ensures OnlyChild(t, d) != t.nil ==> NodeOk(Splice(t, d), OnlyChild(t, d))
    ensures t.m[d].parent != t.nil ==> AtSlot(Splice(t, d), OnlyChild(t, d), SideOf(t.m, t.m[d].parent, d))
  {
    var t', x, p := Splice(t, d), OnlyChild(t, d), t.m[d].parent;
    if x != t.nil { assert NodeOk(t, x); }
    if p != t.nil { assert NodeOk(t, p); }
    assert SpliceCells(t, d);
    SpliceShape(t, d);
    if x != t.nil { assert NodeOk(t', x); }
    if p != t.nil { assert NodeOk(t', p); }
  }

  /** Splicing a red node out of a red-black tree leaves a red-black tree. */
  lemma SpliceRed(t: View, bh: map<Addr, nat>, d: Addr)
    requires Rb(t, bh) && NodeOk(t, d) && (t.m[d].left == t.nil || t.m[d].right == t.nil) && Col(t.m, d) == Red
    ensures Rb(Splice(t, d), bh)
  {
    var t', p := Splice(t, d), t.m[d].parent;
    SpliceReady(t, bh, d);
    SpliceBalanced(t, d, bh);
    SpliceNoRedRed(t, d);
    assert RedOk(t.m, d);
    if SideOf(t.m, p, d) == Rgt { NoShortSide(t'.m, t.nil, t'.iv.Keys, bh); }
  }

  /** Splicing a black node out leaves its slot one black short. */
  lemma SpliceBlack(t: View, bh: map<Addr, nat>, d: Addr)
    requires Rb(t, bh) && NodeOk(t, d) && (t.m[d].left == t.nil || t.m[d].right == t.nil) && Col(t.m, d) == Black
    ensures OnlyChild(t, d) in t.m && RemInv(Splice(t, d), bh, OnlyChild(t, d), SideOf(t.m, t.m[d].parent, d))
  {
    SpliceReady(t, bh, d);
    var t', x, p := Splice(t, d), OnlyChild(t, d), t.m[d].parent;
    if p == t.nil {
      assert t'.root == x;
    } else {
      assert t'.root == t.root && t.root != d && t.root != t.nil;
      assert t'.m[t.root].header == t.m[t.root].header;
    }
    assert ShortAt(t', x) == p;
    assert Balanced(t'.m, t.nil, t'.iv.Keys, bh, p, SideOf(t.m, p, d)) by { SpliceBalanced(t, d, bh); }
    assert NoRedRed(SetCol(t'.m, x, Black), t'.iv.Keys, t.nil) by { SpliceNoRedRed(t, d); }
  }

  /** `y` is the in-order successor of `z`, at the left end of its right subtree. */
  ghost predicate Successor(t: View, z: Addr, y: Addr) {
    && NodeOk(t, z) && NodeOk(t, y) && t.m[z].left != t.nil && t.m[z].right != t.nil
    && t.m[y].left == t.nil && t.iv[y].pos == t.iv[z].pos + 1 && t.m[y].parent != t.nil
  }

  /** The leftmost node of the right subtree is the successor. */
  lemma SuccessorOk(t: View, z: Addr, y: Addr)
    requires Shape(t) && NodeOk(t, z) && NodeOk(t, y) && t.m[z].left != t.nil && t.m[z].right != t.nil
    requires t.m[y].left == t.nil && t.iv[y].pos == t.iv[y].lo == t.iv[z].pos + 1
    ensures Successor(t, z, y)
  {
  }

  lemma SuccessorSeq(t: View, z: Addr, y: Addr)
    requires Shape(t) && Successor(t, z, y)
    ensures var t1 := Splice(t, y); z in t1.iv && t1.iv[z].pos == t.iv[z].pos
    ensures RemoveAt(t.s, t.iv[y].pos)[t.iv[z].pos := y] == RemoveAt(t.s, t.iv[z].pos)
  {
    assert t.s[t.iv[y].pos] == y;
  }

  lemma PaintRename(t: View, z: Addr, y: Addr, x: Addr, c: Color)
    requires z in t.iv && z in t.m && t.iv[z].pos < |t.s| && y in t.m && x in t.m && x != y && x != z
    ensures Rename(Paint(t, x, c), z, y) == Paint(Rename(t, z, y), x, c)
  {
    assert Rename(Paint(t, x, c), z, y).m == Paint(Rename(t, z, y), x, c).m;
  }

  /** Putting `y` in the place of `z` keeps a red-black tree one, and moves a shortage below `z` to `y`. */
  lemma RenameRb(t: View, bh: map<Addr, nat>, z: Addr, y: Addr)
    requires Rb(t, bh) && NodeOk(t, z) && y in t.m && y !in t.iv && y != t.nil
    ensures z in bh && Rb(Rename(t, z, y), bh[y := bh[z]])
  {
    RenameShape(t, z, y);
    RenameBalanced(t, z, y, bh, t.nil, Lft);
    RenameNoRedRed(t, z, y);
    RenameCells(t, z, y);
  }

  /** Where the short subtree hangs after `y` took the place of `z`. The parent link of the sentinel
      follows only when the sentinel is the right child of `z`. */
  lemma RenameSlot(t: View, z: Addr, y: Addr, x: Addr, ds: Side)
    requires Shape(t) && NodeOk(t, z) && y in t.m && y !in t.iv && y != t.nil && x in t.m && AtSlot(t, x, ds)
    requires x != z && (x == t.nil || x in t.iv)
    requires x == t.nil ==> t.m[z].left != t.nil && (t.m[z].right == t.nil <==> t.m[x].parent == z)
    ensures AtSlot(Rename(t, z, y), x, ds)
    ensures Rename(t, z, y).m[x].parent == if t.m[x].parent == z then y else t.m[x].parent
    ensures x != t.nil ==> NodeOk(Rename(t, z, y), x)
  {
    var t', p := Rename(t, z, y), t.m[x].parent;
    RenameShape(t, z, y);
    if x != t.nil { assert NodeOk(t, x) && NodeOk(t', x); }
    var p' := if p == z then y else p;
    assert NodeOk(t', p');
    assert t'.m[x].parent == p';
  }

  lemma RenameRemInv(t: View, bh: map<Addr, nat>, z: Addr, y: Addr, x: Addr, ds: Side)
    requires RemInv(t, bh, x, ds) && NodeOk(t, z) && y in t.m && y !in t.iv && y != t.nil && x != z && x != t.root
    requires x == t.nil ==> t.m[z].left != t.nil && (t.m[z].right == t.nil <==> t.m[x].parent == z)
    ensures z in bh && RemInv(Rename(t, z, y), bh[y := bh[z]], x, ds)
  {
    var p := t.m[x].parent;
    RenameShape(t, z, y);
    RenameBalanced(t, z, y, bh, p, ds);
    RenameSlot(t, z, y, x, ds);
    PaintShape(t, x, Black);
    assert NodeOk(Paint(t, x, Black), z);
    RenameNoRedRed(Paint(t, x, Black), z, y);
    PaintRename(t, z, y, x, Black);
  }

  /** The cells after `y`, the leftmost node right of `z`, was taken from its place and put in that of
      `z`. The cell of `z` itself keeps its stale links. */
  function MoveUp(m: Cells, nil: Addr, z: Addr, y: Addr): Cells
    requires z in m && y in m
  {
    var p, q, x := m[z].parent, m[y].parent, m[y].right;
    map a | a in m ::
      if a == y then Node(m[y].header.(color := m[z].header.color), p, m[z].left, if q == z then x else m[z].right)
      else if a == z then m[z]
      else Node(m[a].header,
                if a == x then (if q == z then y else q)
                else if a == m[z].left || (a == m[z].right && q != z) then y else m[a].parent,
                if a == q then x else if a == p && p != nil && m[a].left == z then y else m[a].left,
                if a == p && p != nil && m[a].left != z then y else m[a].right)
  }

  ghost predicate MoveUpSafe(m: Cells, nil: Addr, z: Addr, y: Addr) {
    && z in m && y in m && nil in m && z != nil && y != nil && z != y
    && m[z].left in m && m[z].right in m && m[z].parent in m && m[y].parent in m && m[y].right in m
    && var p, q, x, l, r := m[z].parent, m[y].parent, m[y].right, m[z].left, m[z].right;
    && l != nil && r != nil && q != nil && l != r && l != z && r != z && l != y && p != z && p != y && q != y && x != y
    && x != z
    && x != l && (x != nil ==> x != p && x != q && x != r) && p != l && p != r && q != l
    && (q == z <==> r == y) && (q != z ==> m[q].left == y && q != p)
  }

  lemma SuccessorSafe(t: View, z: Addr, y: Addr)
    requires Shape(t) && Successor(t, z, y)
    ensures MoveUpSafe(t.m, t.nil, z, y)
  {
    var p, q, x, l, r := t.m[z].parent, t.m[y].parent, t.m[y].right, t.m[z].left, t.m[z].right;
    assert NodeOk(t, q) && NodeOk(t, l) && NodeOk(t, r);
    if p != t.nil { assert NodeOk(t, p); }
    if x != t.nil { assert NodeOk(t, x); }
    assert t.s[t.iv[y].pos] == y && t.s[t.iv[z].pos] == z;
  }

  /** Apart from the stale cell of `z`, moving `y` up is splicing it out and putting it in the place of `z`. */
  lemma MoveUpIsSpliceRename(t: View, z: Addr, y: Addr, a: Addr)
    requires Shape(t) && Successor(t, z, y) && a in t.m && a != z
    ensures var t1 := Splice(t, y);
            z in t1.iv && t1.iv[z].pos < |t1.s| && MoveUp(t.m, t.nil, z, y)[a] == Rename(t1, z, y).m[a]
  {
    SuccessorSafe(t, z, y);
    SuccessorSeq(t, z, y);
    var t1 := Splice(t, y);
    assert t1.m[z].left == t.m[z].left && t1.m[z].parent == t.m[z].parent && t1.m[z].header == t.m[z].header;
    assert t1.m[z].right == if t.m[y].parent == z then t.m[y].right else t.m[z].right;
  }

  /** A cell outside the tree may hold anything. */
  lemma AwayShape(t: View, z: Addr, n: Node)
    requires Shape(t) && z !in t.iv && z != t.nil && z in t.m
    ensures Shape(t.(m := t.m[z := n]))
  {
    var t' := t.(m := t.m[z := n]);
    forall a {:trigger NodeOk(t', a)} | a in t'.iv ensures NodeOk(t', a) {
      assert NodeOk(t, a);
    }
  }

  lemma AwayBalanced(m: Cells, nil: Addr, ks: set<Addr>, bh: map<Addr, nat>, dp: Addr, ds: Side, z: Addr, n: Node)
    requires Balanced(m, nil, ks, bh, dp, ds) && z !in ks
    ensures Balanced(m[z := n], nil, ks, bh, dp, ds)
  {
    var m' := m[z := n];
    forall a {:trigger BalOk(m', nil, bh, dp, ds, a)} | a in ks ensures BalOk(m', nil, bh, dp, ds, a) {
      assert BalOk(m, nil, bh, dp, ds, a);
    }
  }

  lemma AwayNoRedRed(t: View, m: Cells, z: Addr, n: Node)
    requires Shape(t) && NoRedRed(m, t.iv.Keys, t.nil) && z !in t.iv && z != t.nil
    requires forall a {:trigger m[a]} :: a in m ==> a in t.m && m[a].parent == t.m[a].parent
    ensures NoRedRed(m[z := n], t.iv.Keys, t.nil)
  {
    var m' := m[z := n];
    forall a {:trigger RedOk(m', a)} | a in t.iv.Keys && a != t.nil ensures RedOk(m', a) {
      assert RedOk(m, a);
      assert NodeOk(t, a);
    }
  }

  lemma AwayRb(t: View, bh: map<Addr, nat>, z: Addr, n: Node)
    requires Rb(t, bh) && z !in t.iv && z != t.nil && z in t.m
    ensures Rb(t.(m := t.m[z := n]), bh)
  {
    AwayShape(t, z, n);
    AwayBalanced(t.m, t.nil, t.iv.Keys, bh, t.nil, Lft, z, n);
    AwayNoRedRed(t, t.m, z, n);
    if t.root != t.nil { assert NodeOk(t, t.root); }
  }

  lemma AwayRemInv(t: View, bh: map<Addr, nat>, x: Addr, ds: Side, z: Addr, n: Node)
    requires RemInv(t, bh, x, ds) && z !in t.iv && z != t.nil && z in t.m
    ensures RemInv(t.(m := t.m[z := n]), bh, x, ds)
  {
    var t' := t.(m := t.m[z := n]);
    AwayShape(t, z, n);
    AwayBalanced(t.m, t.nil, t.iv.Keys, bh, ShortAt(t, x), ds, z, n);
    AwayNoRedRed(t, SetCol(t.m, x, Black), z, n);
    assert SetCol(t'.m, x, Black) == SetCol(t.m, x, Black)[z := n];
    if x != t.nil { assert NodeOk(t', x); }
    if x != t.root { assert NodeOk(t', t.m[x].parent); }
    if t.root != t.nil { assert NodeOk(t, t.root); }
  }

  /** `t'` is `t` without the node `z`, written in the cells `m'`. */
  ghost predicate Without(t: View, t': View, z: Addr, m': Cells) {
    && z in t.iv && t.iv[z].pos < |t.s|
    && t'.m == m' && t'.nil == t.nil && t'.s == RemoveAt(t.s, t.iv[z].pos) && t'.iv.Keys == t.iv.Keys - {z}
  }

  lemma MoveUpView(t: View, z: Addr, y: Addr)
    requires Shape(t) && Successor(t, z, y)
    ensures var t1 := Splice(t, y);
            && z in t1.iv && z in t1.m && t1.iv[z].pos < |t1.s|
            && Rename(t1, z, y).m[z := t.m[z]] == MoveUp(t.m, t.nil, z, y)
  {
    SuccessorSeq(t, z, y);
    var m1, m2 := Rename(Splice(t, y), z, y).m[z := t.m[z]], MoveUp(t.m, t.nil, z, y);
    forall a | a in t.m ensures m1[a] == m2[a] {
      if a != z { MoveUpIsSpliceRename(t, z, y, a); }
    }
  }

  lemma InnerView(t: View, z: Addr, y: Addr) returns (t1: View, t2: View, t': View)
    requires Shape(t) && Successor(t, z, y)
    ensures t1 == Splice(t, y) && z in t1.iv && z in t1.m && t1.iv[z].pos < |t1.s| && t2 == Rename(t1, z, y)
    ensures t' == t2.(m := t2.m[z := t.m[z]]) && Without(t, t', z, MoveUp(t.m, t.nil, z, y))
    ensures t'.root == if t.m[z].parent == t.nil then y else t.root
  {
    MoveUpView(t, z, y);
    SuccessorSeq(t, z, y);
    t1 := Splice(t, y);
    t2 := Rename(t1, z, y);
    t' := t2.(m := t2.m[z := t.m[z]]);
    assert t1.m[z].parent == t.m[z].parent by { SuccessorSafe(t, z, y); }
  }

  /** Removing a node with two children, whose successor is red: nothing to repair. */
  lemma RemoveInnerRed(t: View, bh: map<Addr, nat>, z: Addr, y: Addr) returns (t': View, bh': map<Addr, nat>)
    requires Rb(t, bh) && Successor(t, z, y) && Col(t.m, y) == Red
    ensures Rb(t', bh') && Without(t, t', z, MoveUp(t.m, t.nil, z, y))
    ensures t'.root == if t.m[z].parent == t.nil then y else t.root
  {
    var t1, t2;
    t1, t2, t' := InnerView(t, z, y);
    SpliceRed(t, bh, y);
    assert NodeOk(t1, z);
    RenameRb(t1, bh, z, y);
    bh' := bh[y := bh[z]];
    AwayRb(t2, bh', z, t.m[z]);
  }

  /** Removing a node with two children, whose successor is black: the old place of the successor is short. */
  lemma RemoveInnerBlack(t: View, bh: map<Addr, nat>, z: Addr, y: Addr)
    returns (t': View, bh': map<Addr, nat>, ds: Side)
    requires Rb(t, bh) && Successor(t, z, y) && Col(t.m, y) == Black
    ensures RemInv(t', bh', t.m[y].right, ds) && Without(t, t', z, MoveUp(t.m, t.nil, z, y))
    ensures t'.root == if t.m[z].parent == t.nil then y else t.root
  {
    var t1, t2;
    t1, t2, t' := InnerView(t, z, y);
    SuccessorSafe(t, z, y);
    SpliceBlack(t, bh, y);
    ds := SideOf(t.m, t.m[y].parent, y);
    assert NodeOk(t1, z);
    RenameRemInv(t1, bh, z, y, t.m[y].right, ds);
    bh' := bh[y := bh[z]];
    AwayRemInv(t2, bh', t.m[y].right, ds, z, t.m[z]);
  }

  lemma FramedMoveUp(t: View, z: Addr, y: Addr)
    requires Shape(t) && Successor(t, z, y)
    ensures Framed(t.m, MoveUp(t.m, t.nil, z, y), t.iv.Keys + {t.nil})
  {
    SuccessorSafe(t, z, y);
    assert NodeOk(t, z) && NodeOk(t, y) && NodeOk(t, t.m[y].parent);
  }

  lemma RemoveSorted(m: Cells, s: seq<Addr>, k: nat)
    requires Sorted(m, s) && k < |s|
    ensures Sorted(m, RemoveAt(s, k))
  {
    var r := RemoveAt(s, k);
    forall i, j {:trigger r[i], r[j]} | 0 <= i < j < |r|
      ensures Key(m, r[i]) <= Key(m, r[j])
    {
      var a := if i < k then s[i] else s[i + 1];
      var b := if j < k then s[j] else s[j + 1];
      assert r[i] == a && r[j] == b;
    }
  }

  lemma RemovedSorted(m: Cells, m': Cells, s: seq<Addr>, k: nat, ks: set<Addr>)
    requires Sorted(m, s) && k < |s| && Framed(m, m', ks)
    ensures Sorted(m', RemoveAt(s, k))
  {
    RemoveSorted(m, s, k);
    SortedFramed(m, m', ks, RemoveAt(s, k));
  }

  lemma WidthBound(t: View, x: Addr)
    requires Shape(t)
    ensures Width(t, x) <= |t.s|
  {
    if x in t.iv { assert NodeOk(t, x); }
  }

  lemma FramedPaintBlack(t: View, x: Addr)
    requires x in t.m && (x in t.iv || Col(t.m, x) == Black)
    ensures Framed(t.m, SetCol(t.m, x, Black), t.iv.Keys)
  {
  }

  /** The cells after `v` was put in the slot of `u`. */
  function SwapCells(m: Cells, nil: Addr, u: Addr, v: Addr): Cells
    requires u in m && v in m && m[u].parent in m
  {
    var p := m[u].parent;
    var m1 := if p == nil then m else m[p := if m[p].left == u then m[p].(left := v) else m[p].(right := v)];
    m1[v := m1[v].(parent := p)]
  }

  lemma FramedSwap(t: View, d: Addr)
    requires Shape(t) && NodeOk(t, d)
    ensures t.m[d].parent in t.m && OnlyChild(t, d) in t.m
    ensures Framed(t.m, SwapCells(t.m, t.nil, d, OnlyChild(t, d)), t.iv.Keys + {t.nil})
  {
    if OnlyChild(t, d) != t.nil { assert NodeOk(t, OnlyChild(t, d)); }
  }

  /** Removing a node without two children. */
  lemma RemoveOuter(t: View, bh: map<Addr, nat>, d: Addr) returns (t': View, ds: Side)
    requires Rb(t, bh) && NodeOk(t, d) && (t.m[d].left == t.nil || t.m[d].right == t.nil)
    ensures OnlyChild(t, d) in t.m && t.m[d].parent in t.m && t.m[d].parent != d
    ensures Col(t.m, d) == Black ==> RemInv(t', bh, OnlyChild(t, d), ds)
    ensures Col(t.m, d) == Red ==> Rb(t', bh)
    ensures Without(t, t', d, SwapCells(t.m, t.nil, d, OnlyChild(t, d)))
    ensures t'.root == if t.m[d].parent == t.nil then OnlyChild(t, d) else t.root
  {
    ds := SideOf(t.m, t.m[d].parent, d);
    t' := Splice(t, d);
    if Col(t.m, d) == Black { SpliceBlack(t, bh, d); } else { SpliceRed(t, bh, d); }
    SpliceReady(t, bh, d);
    SwapIsSplice(t, d);
  }

  lemma SwapIsSplice(t: View, d: Addr)
    requires SpliceCells(t, d)
    ensures t.m[d].parent in t.m && OnlyChild(t, d) in t.m && t.m[d].parent != d
    ensures SwapCells(t.m, t.nil, d, OnlyChild(t, d)) == Splice(t, d).m
  {
  }

  /** The cells after `y` took over the parent, the left child and the colour of `z`. */
  function TakePlace(m: Cells, nil: Addr, z: Addr, y: Addr): Cells
    requires z in m && y in m
  {
    var p := m[z].parent;
    map a | a in m ::
      if a == y then Node(m[y].header.(color := m[z].header.color), p, m[z].left, m[y].right)
      else Node(m[a].header,
                if a == m[z].left then y else m[a].parent,
                if a == p && p != nil && m[a].left == z then y else m[a].left,
                if a == p && p != nil && m[a].left != z then y else m[a].right)
  }

  ghost predicate TakePlaceSafe(m: Cells, nil: Addr, z: Addr, y: Addr) {
    && z in m && y in m && nil in m && z != nil && y != nil && z != y
    && m[z].left in m && m[z].parent in m && m[z].left != y && m[z].left != z && m[z].left != m[z].parent
    && m[z].parent != z && m[z].parent != y && m[z].left != nil
  }

  /** `y` is the right child of `z`: only its own child needs a new parent first. */
  lemma MoveUpNear(m: Cells, nil: Addr, z: Addr, y: Addr)
    requires MoveUpSafe(m, nil, z, y) && m[z].right == y
    ensures var m1 := m[m[y].right := m[m[y].right].(parent := y)];
            TakePlaceSafe(m1, nil, z, y) && TakePlace(m1, nil, z, y) == MoveUp(m, nil, z, y)
  {
  }

  /** `y` is further down: its child takes its place and it takes over the right child of `z` first. */
  lemma MoveUpFar(m: Cells, nil: Addr, z: Addr, y: Addr, m1: Cells)
    requires MoveUpSafe(m, nil, z, y) && m[z].right != y && m1.Keys == m.Keys
    requires var q, x, r := m[y].parent, m[y].right, m[z].right;
             forall a {:trigger m1[a]} :: a in m ==>
               m1[a] == Node(m[a].header, if a == x then q else if a == r then y else m[a].parent,
                             if a == q then x else m[a].left, if a == y then r else m[a].right)
    ensures TakePlaceSafe(m1, nil, z, y) && TakePlace(m1, nil, z, y) == MoveUp(m, nil, z, y)
  {
  }

  // ---------------------------------------------------------------- trees and foreign writes

  ghost predicate SameNode(m: Cells, m': Cells, a: Addr) {
    && a in m && a in m'
    && m'[a].parent == m[a].parent && m'[a].left == m[a].left && m'[a].right == m[a].right
    && m'[a].header.color == m[a].header.color
  }

  /** The cells of a tree and its sentinel keep their links and colours. */
  ghost predicate TreeAgrees(t: View, m': Cells) {
    forall a {:trigger SameNode(t.m, m', a)} :: a in t.iv || a == t.nil ==> SameNode(t.m, m', a)
  }

  ghost predicate KeysAgree(t: View, m': Cells) {
    forall a {:trigger Key(m', a)} :: a in t.iv ==> Key(m', a) == Key(t.m, a)
  }

  lemma AgreeShape(t: View, m': Cells)
    requires Shape(t) && TreeAgrees(t, m')
    ensures Shape(t.(m := m'))
  {
    var t' := t.(m := m');
    assert SameNode(t.m, m', t.nil);
    forall a {:trigger NodeOk(t', a)} | a in t'.iv ensures NodeOk(t', a) {
      assert NodeOk(t, a);
      assert SameNode(t.m, m', a);
      assert SameNode(t.m, m', t.m[a].parent);
      assert SameNode(t.m, m', t.m[a].left);
      assert SameNode(t.m, m', t.m[a].right);
    }
    assert SameNode(t.m, m', t.root);
  }

  lemma AgreeRb(t: View, bh: map<Addr, nat>, m': Cells)
    requires Rb(t, bh) && TreeAgrees(t, m')
    ensures Rb(t.(m := m'), bh)
  {
    AgreeShape(t, m');
    assert SameNode(t.m, m', t.nil) && SameNode(t.m, m', t.root);
    forall a {:trigger BalOk(m', t.nil, bh, t.nil, Lft, a)} | a in t.iv.Keys
      ensures BalOk(m', t.nil, bh, t.nil, Lft, a)
    {
      assert BalOk(t.m, t.nil, bh, t.nil, Lft, a);
      assert SameNode(t.m, m', a);
    }
    forall a {:trigger RedOk(m', a)} | a in t.iv.Keys && a != t.nil ensures RedOk(m', a) {
      assert RedOk(t.m, a) && NodeOk(t, a);
      assert SameNode(t.m, m', a) && SameNode(t.m, m', t.m[a].parent);
    }
  }

  /** A tree does not notice writes that leave its own links, colours and keys alone. */
  lemma AgreeValid(t: View, bh: map<Addr, nat>, m': Cells)
    requires Rb(t, bh) && Sorted(t.m, t.s) && TreeAgrees(t, m') && KeysAgree(t, m')
    ensures Rb(t.(m := m'), bh) && Sorted(m', t.s)
  {
    AgreeRb(t, bh, m');
    forall i, j {:trigger t.s[i], t.s[j]} | 0 <= i < j < |t.s| ensures Key(m', t.s[i]) <= Key(m', t.s[j]) {
      var a, b := t.s[i], t.s[j];
    }
  }

  lemma FramedAgrees(t: View, m': Cells, ks: set<Addr>)
    requires Shape(t) && Framed(t.m, m', ks) && t.nil !in ks
    requires forall a {:trigger a in t.iv, a in ks} :: a in t.iv ==> a !in ks
    ensures TreeAgrees(t, m') && KeysAgree(t, m')
  {
    forall a {:trigger Key(m', a)} | a in t.iv ensures Key(m', a) == Key(t.m, a) {
      assert NodeOk(t, a);
      assert CellFramed(t.m, m', ks, a);
    }
    forall a {:trigger SameNode(t.m, m', a)} | a in t.iv || a == t.nil ensures SameNode(t.m, m', a) {
      if a in t.iv { assert NodeOk(t, a); }
      assert CellFramed(t.m, m', ks, a);
    }
  }
}
