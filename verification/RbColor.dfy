/** Colours and black heights: what the recolourings and rotations of the two fix-up loops keep.

    Black heights are a ghost map `bh`. While a removal is being repaired, one child slot (the left or
    right slot of `dp`) is one black short; `dp == nil` means that no slot is. Likewise at most one node
    may be a red child of a red parent; naming the sentinel as that node means that none is. */
module RbColor {
  import opened Cells
  import opened Common
  import opened RbShape

  // ---------------------------------------------------------------- predicates

  ghost predicate LinkOk(m: Cells, nil: Addr, ks: set<Addr>, a: Addr) {
    && a in ks && a in m
    && (m[a].left != nil ==> m[a].left in ks && m[a].left in m && m[m[a].left].parent == a)
    && (m[a].right != nil ==> m[a].right in ks && m[a].right in m && m[m[a].right].parent == a)
    && (m[a].left == m[a].right ==> m[a].left == nil)
    && (m[a].parent != nil ==>
          m[a].parent in ks && m[a].parent in m && (m[m[a].parent].left == a || m[m[a].parent].right == a))
  }

  ghost predicate Links(m: Cells, nil: Addr, ks: set<Addr>) {
    && nil in m && nil !in ks
    && forall a {:trigger LinkOk(m, nil, ks, a)} :: a in ks ==> LinkOk(m, nil, ks, a)
  }

  function Col(m: Cells, a: Addr): Color
    requires a in m
  {
    m[a].header.color
  }

  function SetCol(m: Cells, a: Addr, c: Color): Cells
    requires a in m
  {
    m[a := WithColor(m[a], c)]
  }

  datatype Side = Lft | Rgt

  function Other(d: Side): Side {
    if d == Lft then Rgt else Lft
  }

  /** The slot of `p` that holds `c`. */
  function SideOf(m: Cells, p: Addr, c: Addr): Side {
    if p in m && m[p].left == c then Lft else Rgt
  }

  function Weight(c: Color): nat {
    if c == Black then 1 else 0
  }

  /** The black height of the subtree `c`; zero for the sentinel. */
  function Bh(bh: map<Addr, nat>, nil: Addr, c: Addr): nat {
    if c != nil && c in bh then bh[c] else 0
  }

  ghost predicate BalOk(m: Cells, nil: Addr, bh: map<Addr, nat>, dp: Addr, ds: Side, a: Addr) {
    && a in m && a in bh
    && var l := Bh(bh, nil, m[a].left) + if a == dp && ds == Lft then 1 else 0;
    && var r := Bh(bh, nil, m[a].right) + if a == dp && ds == Rgt then 1 else 0;
    && l == r
    && bh[a] == l + Weight(m[a].header.color)
  }

  ghost predicate Balanced(m: Cells, nil: Addr, ks: set<Addr>, bh: map<Addr, nat>, dp: Addr, ds: Side) {
    forall a {:trigger BalOk(m, nil, bh, dp, ds, a)} :: a in ks ==> BalOk(m, nil, bh, dp, ds, a)
  }

  ghost predicate RedOk(m: Cells, a: Addr) {
    && a in m && m[a].parent in m
    && (m[a].header.color == Red ==> m[m[a].parent].header.color == Black)
  }

  ghost predicate NoRedRed(m: Cells, ks: set<Addr>, x: Addr) {
    forall a {:trigger RedOk(m, a)} :: a in ks && a != x ==> RedOk(m, a)
  }

  /** The cells around a left rotation of `x` are distinct. */
  ghost predicate RotOk(m: Cells, nil: Addr, ks: set<Addr>, x: Addr) {
    && LinkOk(m, nil, ks, x) && m[x].right != nil && LinkOk(m, nil, ks, m[x].right)
    && var y := m[x].right; var b := m[y].left; var p := m[x].parent;
    && x != y && b != x && b != y && p != x && p != y
    && (b != nil ==> b != p && LinkOk(m, nil, ks, b))
    && (p != nil ==> LinkOk(m, nil, ks, p))
  }

  // ---------------------------------------------------------------- rotation with exchanged colours

  /** Exchanges the colours of `x` and its right child, then rotates left around `x`. */
  function SwapRot(m: Cells, nil: Addr, x: Addr): Cells
    requires x in m && m[x].right in m && x != m[x].right
  {
    RotLeftCells(SetCol(SetCol(m, m[x].right, Col(m, x)), x, Col(m, m[x].right)), nil, x)
  }

  lemma SwapRotBalTop(m: Cells, nil: Addr, ks: set<Addr>, bh: map<Addr, nat>, dp: Addr, ds: Side, x: Addr, a: Addr)
    requires RotOk(m, nil, ks, x) && nil !in ks && (a == x || a == m[x].right)
    requires Col(m, m[x].right) == Red && dp != m[x].right && (dp == x ==> ds == Lft)
    requires BalOk(m, nil, bh, dp, ds, x) && BalOk(m, nil, bh, dp, ds, m[x].right)
    ensures BalOk(SwapRot(m, nil, x), nil, bh[x := bh[m[x].right]][m[x].right := bh[x]], dp, ds, a)
  {
    var y := m[x].right;
    var m', bh' := SwapRot(m, nil, x), bh[x := bh[y]][y := bh[x]];
    if a == x {
      assert m'[x].left == m[x].left && m'[x].right == m[y].left && m'[x].header.color == Red;
    } else {
      assert m'[y].left == x && m'[y].right == m[y].right && m'[y].header.color == Col(m, x);
    }
  }

  lemma SwapRotBalOk(m: Cells, nil: Addr, ks: set<Addr>, bh: map<Addr, nat>, dp: Addr, ds: Side, x: Addr, a: Addr)
    requires RotOk(m, nil, ks, x) && LinkOk(m, nil, ks, a) && nil !in ks
    requires Col(m, m[x].right) == Red && dp != m[x].right && (dp == x ==> ds == Lft)
    requires BalOk(m, nil, bh, dp, ds, x) && BalOk(m, nil, bh, dp, ds, m[x].right) && BalOk(m, nil, bh, dp, ds, a)
    ensures BalOk(SwapRot(m, nil, x), nil, bh[x := bh[m[x].right]][m[x].right := bh[x]], dp, ds, a)
  {
    var y := m[x].right;
    if a == x || a == y {
      SwapRotBalTop(m, nil, ks, bh, dp, ds, x, a);
    } else {
      var m', bh' := SwapRot(m, nil, x), bh[x := bh[y]][y := bh[x]];
      assert m'[a].header == m[a].header;
      assert Bh(bh', nil, m'[a].left) == Bh(bh, nil, m[a].left);
      assert Bh(bh', nil, m'[a].right) == Bh(bh, nil, m[a].right);
    }
  }

  /** Rotating a red child up, with colours exchanged, keeps all black heights and the missing black. */
  lemma SwapRotBalanced(m: Cells, nil: Addr, ks: set<Addr>, bh: map<Addr, nat>, dp: Addr, ds: Side, x: Addr)
    requires Links(m, nil, ks) && RotOk(m, nil, ks, x)
    requires Col(m, m[x].right) == Red && dp != m[x].right && (dp == x ==> ds == Lft)
    requires Balanced(m, nil, ks, bh, dp, ds)
    ensures x in bh && m[x].right in bh
    ensures Balanced(SwapRot(m, nil, x), nil, ks, bh[x := bh[m[x].right]][m[x].right := bh[x]], dp, ds)
  {
    var y := m[x].right;
    assert BalOk(m, nil, bh, dp, ds, x);
    assert BalOk(m, nil, bh, dp, ds, y);
    var m', bh' := SwapRot(m, nil, x), bh[x := bh[y]][y := bh[x]];
    forall a {:trigger BalOk(m', nil, bh', dp, ds, a)} | a in ks ensures BalOk(m', nil, bh', dp, ds, a) {
      assert BalOk(m, nil, bh, dp, ds, a);
      assert LinkOk(m, nil, ks, a);
      SwapRotBalOk(m, nil, ks, bh, dp, ds, x, a);
    }
  }

  /** Rotating a red child above its black parent, whose other child is black, creates no red-red edge. */
  lemma SwapRotNoRedRed(m: Cells, nil: Addr, ks: set<Addr>, e: Addr, x: Addr)
    requires Links(m, nil, ks) && RotOk(m, nil, ks, x) && Col(m, nil) == Black
    requires Col(m, x) == Black && Col(m, m[x].right) == Red && m[x].left in m && Col(m, m[x].left) == Black
    requires m[m[x].right].left == nil || m[m[x].right].left != e
    requires NoRedRed(m, ks, e)
    ensures NoRedRed(SwapRot(m, nil, x), ks, e)
  {
    var y := m[x].right;
    var m' := SwapRot(m, nil, x);
    assert LinkOk(m, nil, ks, y);
    if m[y].left != nil { assert RedOk(m, m[y].left); }
    forall a {:trigger RedOk(m', a)} | a in ks && a != e ensures RedOk(m', a) {
      assert RedOk(m, a);
      assert LinkOk(m, nil, ks, a);
    }
  }

  /** Rotating a red node above its red parent moves the red-red edge to the node that went down. */
  lemma RedRotNoRedRed(m: Cells, nil: Addr, ks: set<Addr>, x: Addr)
    requires Links(m, nil, ks) && RotOk(m, nil, ks, x) && Col(m, nil) == Black
    requires Col(m, x) == Red && Col(m, m[x].right) == Red
    requires NoRedRed(m, ks, m[x].right)
    ensures NoRedRed(RotLeftCells(m, nil, x), ks, x)
  {
    var y := m[x].right;
    var m' := RotLeftCells(m, nil, x);
    assert LinkOk(m, nil, ks, y);
    assert RedOk(m, x);
    if m[y].left != nil { assert RedOk(m, m[y].left); }
    forall a {:trigger RedOk(m', a)} | a in ks && a != x ensures RedOk(m', a) {
      if a != y { assert RedOk(m, a); }
      assert LinkOk(m, nil, ks, a);
    }
  }

  // ---------------------------------------------------------------- the last rotation of a removal

  /** The sibling `y` of the short slot takes the colour of `x`; `x` and the outer child of `y` turn black. */
  function LastRot(m: Cells, nil: Addr, x: Addr): Cells
    requires x in m && m[x].right in m && m[m[x].right].right in m
  {
    var y := m[x].right;
    RotLeftCells(SetCol(SetCol(SetCol(m, y, Col(m, x)), x, Black), m[y].right, Black), nil, x)
  }

  function LastRotBh(m: Cells, bh: map<Addr, nat>, x: Addr): map<Addr, nat>
    requires x in m && m[x].right in m && x in bh && m[x].right in bh && m[m[x].right].right in bh
  {
    var y := m[x].right;
    bh[y := bh[x]][x := bh[y]][m[y].right := bh[y]]
  }

  ghost predicate LastRotOk(m: Cells, nil: Addr, ks: set<Addr>, bh: map<Addr, nat>, x: Addr) {
    && RotOk(m, nil, ks, x) && nil !in ks
    && var y := m[x].right; var z := m[y].right;
    && z != nil && LinkOk(m, nil, ks, z) && z != x && z != m[x].parent
    && Col(m, y) == Black && Col(m, z) == Red
    && BalOk(m, nil, bh, x, Lft, x) && BalOk(m, nil, bh, x, Lft, y) && BalOk(m, nil, bh, x, Lft, z)
  }

  lemma LastRotBalTop(m: Cells, nil: Addr, ks: set<Addr>, bh: map<Addr, nat>, x: Addr, a: Addr)
    requires LastRotOk(m, nil, ks, bh, x) && (a == x || a == m[x].right || a == m[m[x].right].right)
    ensures BalOk(LastRot(m, nil, x), nil, LastRotBh(m, bh, x), nil, Lft, a)
  {
    var y := m[x].right;
    var z := m[y].right;
    var m', bh' := LastRot(m, nil, x), LastRotBh(m, bh, x);
    if a == x {
      assert m'[x].left == m[x].left && m'[x].right == m[y].left && m'[x].header.color == Black;
    } else if a == y {
      assert m'[y].left == x && m'[y].right == z && m'[y].header.color == Col(m, x);
    } else {
      assert m'[z].left == m[z].left && m'[z].right == m[z].right && m'[z].header.color == Black;
    }
  }

  lemma LastRotBalOk(m: Cells, nil: Addr, ks: set<Addr>, bh: map<Addr, nat>, x: Addr, a: Addr)
    requires LastRotOk(m, nil, ks, bh, x) && LinkOk(m, nil, ks, a) && BalOk(m, nil, bh, x, Lft, a)
    ensures BalOk(LastRot(m, nil, x), nil, LastRotBh(m, bh, x), nil, Lft, a)
  {
    var y := m[x].right;
    var z := m[y].right;
    if a == x || a == y || a == z {
      LastRotBalTop(m, nil, ks, bh, x, a);
    } else {
      var m', bh' := LastRot(m, nil, x), LastRotBh(m, bh, x);
      assert m'[a].header == m[a].header;
      assert m'[a].left == if a == m[x].parent && m[a].left == x then y else m[a].left;
      assert Bh(bh', nil, m'[a].left) == Bh(bh, nil, m[a].left);
      assert m'[a].right == if a == m[x].parent && m[a].left != x then y else m[a].right;
      assert Bh(bh', nil, m'[a].right) == Bh(bh, nil, m[a].right);
    }
  }

  /** When the outer child of a black sibling is red, one rotation restores every black height. */
  lemma LastRotBalanced(m: Cells, nil: Addr, ks: set<Addr>, bh: map<Addr, nat>, x: Addr)
    requires Links(m, nil, ks) && LastRotOk(m, nil, ks, bh, x) && Balanced(m, nil, ks, bh, x, Lft)
    ensures Balanced(LastRot(m, nil, x), nil, ks, LastRotBh(m, bh, x), nil, Lft)
  {
    var m', bh' := LastRot(m, nil, x), LastRotBh(m, bh, x);
    forall a {:trigger BalOk(m', nil, bh', nil, Lft, a)} | a in ks ensures BalOk(m', nil, bh', nil, Lft, a) {
      assert BalOk(m, nil, bh, x, Lft, a);
      assert LinkOk(m, nil, ks, a);
      LastRotBalOk(m, nil, ks, bh, x, a);
    }
  }

  lemma LastRotNoRedRed(m: Cells, nil: Addr, ks: set<Addr>, bh: map<Addr, nat>, x: Addr)
    requires Links(m, nil, ks) && LastRotOk(m, nil, ks, bh, x) && Col(m, nil) == Black
    requires NoRedRed(m, ks, nil)
    ensures NoRedRed(LastRot(m, nil, x), ks, nil)
  {
    var y := m[x].right;
    var m' := LastRot(m, nil, x);
    assert RedOk(m, x);
    forall a {:trigger RedOk(m', a)} | a in ks && a != nil ensures RedOk(m', a) {
      assert RedOk(m, a);
      assert LinkOk(m, nil, ks, a);
    }
  }

  // ---------------------------------------------------------------- recolourings

  /** Insertion: red parent and uncle turn black, the grandparent `g` turns red. */
  function PushUp(m: Cells, g: Addr): Cells
    requires g in m && m[g].left in m && m[g].right in m
  {
    SetCol(SetCol(SetCol(m, m[g].left, Black), m[g].right, Black), g, Red)
  }

  ghost predicate PushUpReady(m: Cells, nil: Addr, ks: set<Addr>, g: Addr) {
    && Links(m, nil, ks) && LinkOk(m, nil, ks, g) && m[g].left != nil && m[g].right != nil
    && m[g].left != g && m[g].right != g && m[g].parent != m[g].left && m[g].parent != m[g].right
    && Col(m, m[g].left) == Red && Col(m, m[g].right) == Red && Col(m, g) == Black && Col(m, nil) == Black
  }

  lemma PushUpBalanced(m: Cells, nil: Addr, ks: set<Addr>, bh: map<Addr, nat>, g: Addr)
    requires PushUpReady(m, nil, ks, g) && Balanced(m, nil, ks, bh, nil, Lft)
    ensures m[g].left in bh && m[g].right in bh
    ensures Balanced(PushUp(m, g), nil, ks,
                     bh[m[g].left := bh[m[g].left] + 1][m[g].right := bh[m[g].right] + 1], nil, Lft)
  {
    var l, r := m[g].left, m[g].right;
    assert BalOk(m, nil, bh, nil, Lft, l) && BalOk(m, nil, bh, nil, Lft, r) && BalOk(m, nil, bh, nil, Lft, g);
    var m', bh' := PushUp(m, g), bh[l := bh[l] + 1][r := bh[r] + 1];
    forall a {:trigger BalOk(m', nil, bh', nil, Lft, a)} | a in ks ensures BalOk(m', nil, bh', nil, Lft, a) {
      assert BalOk(m, nil, bh, nil, Lft, a);
      assert LinkOk(m, nil, ks, a);
    }
  }

  lemma PushUpNoRedRed(m: Cells, nil: Addr, ks: set<Addr>, g: Addr, x: Addr)
    requires PushUpReady(m, nil, ks, g) && NoRedRed(m, ks, x)
    requires x in ks && x in m && (m[x].parent == m[g].left || m[x].parent == m[g].right)
    ensures NoRedRed(PushUp(m, g), ks, g)
  {
    var m' := PushUp(m, g);
    forall a {:trigger RedOk(m', a)} | a in ks && a != g ensures RedOk(m', a) {
      assert LinkOk(m, nil, ks, a);
      if a != x { assert RedOk(m, a); }
    }
  }

  /** Removal: the sibling `y` of the short slot of `p` is black with black children. */
  ghost predicate SiblingReady(m: Cells, nil: Addr, ks: set<Addr>, p: Addr, ds: Side, y: Addr) {
    && Links(m, nil, ks) && LinkOk(m, nil, ks, p) && m[p].parent != p && Col(m, nil) == Black
    && y == (if ds == Lft then m[p].right else m[p].left) && y != nil && y != p && LinkOk(m, nil, ks, y)
    && m[y].left in m && m[y].right in m && Col(m, m[y].left) == Black && Col(m, m[y].right) == Black
    && Col(m, y) == Black
  }

  lemma SiblingRedBalOk(m: Cells, nil: Addr, ks: set<Addr>, bh: map<Addr, nat>, p: Addr, ds: Side, y: Addr, a: Addr)
    requires SiblingReady(m, nil, ks, p, ds, y) && LinkOk(m, nil, ks, a)
    requires BalOk(m, nil, bh, p, ds, p) && BalOk(m, nil, bh, p, ds, y) && BalOk(m, nil, bh, p, ds, a)
    ensures bh[p] > 0 && bh[y] > 0
    ensures var q := m[p].parent;
            BalOk(SetCol(m, y, Red), nil, bh[y := bh[y] - 1][p := bh[p] - 1], q, SideOf(m, q, p), a)
  {
    var bh', q := bh[y := bh[y] - 1][p := bh[p] - 1], m[p].parent;
    if a == p {
      var x := if ds == Lft then m[p].left else m[p].right;
      assert Bh(bh', nil, x) == Bh(bh, nil, x) && Bh(bh', nil, y) == Bh(bh, nil, y) - 1;
    } else if a == y {
    } else {
      assert Bh(bh', nil, m[a].left) == Bh(bh, nil, m[a].left) - if m[a].left == p then 1 else 0;
      assert Bh(bh', nil, m[a].right) == Bh(bh, nil, m[a].right) - if m[a].right == p then 1 else 0;
      assert SideOf(m, q, p) == Lft <==> m[q].left == p;
    }
  }

  /** Turning the sibling red makes the whole subtree of `p` one black short. */
  lemma SiblingRedBalanced(m: Cells, nil: Addr, ks: set<Addr>, bh: map<Addr, nat>, p: Addr, ds: Side, y: Addr)
    requires SiblingReady(m, nil, ks, p, ds, y) && Balanced(m, nil, ks, bh, p, ds)
    ensures p in bh && y in bh && bh[p] > 0 && bh[y] > 0
    ensures var q := m[p].parent;
            Balanced(SetCol(m, y, Red), nil, ks, bh[y := bh[y] - 1][p := bh[p] - 1], q, SideOf(m, q, p))
  {
    var q := m[p].parent;
    assert BalOk(m, nil, bh, p, ds, p) && BalOk(m, nil, bh, p, ds, y);
    SiblingRedBalOk(m, nil, ks, bh, p, ds, y, p);
    var m', bh', ds' := SetCol(m, y, Red), bh[y := bh[y] - 1][p := bh[p] - 1], SideOf(m, q, p);
    forall a {:trigger BalOk(m', nil, bh', q, ds', a)} | a in ks ensures BalOk(m', nil, bh', q, ds', a) {
      assert BalOk(m, nil, bh, p, ds, a);
      assert LinkOk(m, nil, ks, a);
      SiblingRedBalOk(m, nil, ks, bh, p, ds, y, a);
    }
  }

  lemma SiblingRedNoRedRed(m: Cells, nil: Addr, ks: set<Addr>, p: Addr, ds: Side, y: Addr)
    requires SiblingReady(m, nil, ks, p, ds, y) && NoRedRed(m, ks, nil)
    ensures NoRedRed(SetCol(SetCol(m, y, Red), p, Black), ks, nil)
  {
    var m' := SetCol(SetCol(m, y, Red), p, Black);
    forall a {:trigger RedOk(m', a)} | a in ks && a != nil ensures RedOk(m', a) {
      assert RedOk(m, a);
      assert LinkOk(m, nil, ks, a);
    }
  }

  /** Painting the top of a short slot black, or the root, ends a removal. */
  lemma PaintBlackOk(m: Cells, nil: Addr, ks: set<Addr>, bh: map<Addr, nat>, x: Addr, dp: Addr, ds: Side)
    requires Links(m, nil, ks) && Balanced(m, nil, ks, bh, dp, ds)
    requires x in ks && x in m && m[x].parent == dp && (dp != nil ==> Col(m, x) == Red && dp != x)
    requires dp != nil && dp in m ==> ds == SideOf(m, dp, x)
    ensures x in bh
    ensures Balanced(SetCol(m, x, Black), nil, ks, bh[x := bh[x] + Weight(Black) - Weight(Col(m, x))], nil, Lft)
  {
    assert BalOk(m, nil, bh, dp, ds, x);
    assert LinkOk(m, nil, ks, x);
    var m', bh' := SetCol(m, x, Black), bh[x := bh[x] + Weight(Black) - Weight(Col(m, x))];
    forall a {:trigger BalOk(m', nil, bh', nil, Lft, a)} | a in ks ensures BalOk(m', nil, bh', nil, Lft, a) {
      assert BalOk(m, nil, bh, dp, ds, a);
      assert LinkOk(m, nil, ks, a);
    }
  }

  // ---------------------------------------------------------------- adding and removing nodes

  lemma ShapeLinks(t: View)
    requires Shape(t)
    ensures Links(t.m, t.nil, t.iv.Keys)
  {
    forall a {:trigger LinkOk(t.m, t.nil, t.iv.Keys, a)} | a in t.iv.Keys ensures LinkOk(t.m, t.nil, t.iv.Keys, a) {
      assert NodeOk(t, a);
    }
  }

  /** A red leaf changes no black height. */
  lemma AttachBalanced(t: View, z: Addr, p: Addr, left: bool, bh: map<Addr, nat>)
    requires CanAttach(t, z, p, left) && Balanced(t.m, t.nil, t.iv.Keys, bh, t.nil, Lft)
    ensures var t' := Attach(t, z, p, left); Balanced(t'.m, t.nil, t'.iv.Keys, bh[z := 0], t.nil, Lft)
  {
    var t', bh' := Attach(t, z, p, left), bh[z := 0];
    forall a {:trigger BalOk(t'.m, t.nil, bh', t.nil, Lft, a)} | a in t'.iv.Keys
      ensures BalOk(t'.m, t.nil, bh', t.nil, Lft, a)
    {
      if a != z {
        assert BalOk(t.m, t.nil, bh, t.nil, Lft, a);
        assert NodeOk(t, a);
      }
    }
  }

  lemma AttachNoRedRed(t: View, z: Addr, p: Addr, left: bool)
    requires CanAttach(t, z, p, left) && NoRedRed(t.m, t.iv.Keys, t.nil)
    ensures var t' := Attach(t, z, p, left); NoRedRed(t'.m, t'.iv.Keys, z)
  {
    var t' := Attach(t, z, p, left);
    forall a {:trigger RedOk(t'.m, a)} | a in t'.iv.Keys && a != z ensures RedOk(t'.m, a) {
      assert RedOk(t.m, a);
      assert NodeOk(t, a);
    }
  }

  /** Splicing out a black node leaves its slot one black short; a red one leaves nothing to repair. */
  lemma SpliceBalanced(t: View, d: Addr, bh: map<Addr, nat>)
    requires Shape(t) && SpliceCells(t, d) && Balanced(t.m, t.nil, t.iv.Keys, bh, t.nil, Lft)
    ensures var t' := Splice(t, d); var p := t.m[d].parent;
            Balanced(t'.m, t.nil, t'.iv.Keys, bh,
                     if Col(t.m, d) == Black then p else t.nil, SideOf(t.m, p, d))
  {
    var t', p := Splice(t, d), t.m[d].parent;
    var dp, ds := if Col(t.m, d) == Black then p else t.nil, SideOf(t.m, p, d);
    assert BalOk(t.m, t.nil, bh, t.nil, Lft, d);
    forall a {:trigger BalOk(t'.m, t.nil, bh, dp, ds, a)} | a in t'.iv.Keys ensures BalOk(t'.m, t.nil, bh, dp, ds, a) {
      assert BalOk(t.m, t.nil, bh, t.nil, Lft, a);
      assert NodeOk(t, a);
    }
  }

  /** Once the node that moved up is painted black there is no red-red edge; if the node removed was
      red there is none anyway. */
  lemma SpliceNoRedRed(t: View, d: Addr)
    requires Shape(t) && SpliceCells(t, d) && NoRedRed(t.m, t.iv.Keys, t.nil) && Col(t.m, t.nil) == Black
    ensures var t' := Splice(t, d); var x := OnlyChild(t, d);
            && NoRedRed(SetCol(t'.m, x, Black), t'.iv.Keys, t.nil)
            && (Col(t.m, d) == Red ==> NoRedRed(t'.m, t'.iv.Keys, t.nil))
  {
    var t', x := Splice(t, d), OnlyChild(t, d);
    var m' := SetCol(t'.m, x, Black);
    assert RedOk(t.m, d);
    if x != t.nil { assert RedOk(t.m, x); }
    forall a {:trigger RedOk(m', a)} | a in t'.iv.Keys && a != t.nil ensures RedOk(m', a) {
      assert RedOk(t.m, a);
      assert NodeOk(t, a);
    }
    if Col(t.m, d) == Red {
      forall a {:trigger RedOk(t'.m, a)} | a in t'.iv.Keys && a != t.nil ensures RedOk(t'.m, a) {
        assert RedOk(t.m, a);
        assert NodeOk(t, a);
      }
    }
  }

  lemma RenameBalOk(t: View, z: Addr, y: Addr, bh: map<Addr, nat>, dp: Addr, ds: Side, a: Addr)
    requires NodeOk(t, z) && y in t.m && y !in t.iv && y != t.nil && t.nil !in t.iv && dp != y
    requires BalOk(t.m, t.nil, bh, dp, ds, z) && BalOk(t.m, t.nil, bh, dp, ds, a)
    requires NodeOk(t, a)
    ensures BalOk(Rename(t, z, y).m, t.nil, bh[y := bh[z]], if dp == z then y else dp, ds, if a == z then y else a)
  {
    var bh', m' := bh[y := bh[z]], Rename(t, z, y).m;
    if a == z {
      assert Bh(bh', t.nil, m'[y].left) == Bh(bh, t.nil, t.m[z].left);
      assert Bh(bh', t.nil, m'[y].right) == Bh(bh, t.nil, t.m[z].right);
    } else {
      assert m'[a].header == t.m[a].header;
      assert Bh(bh', t.nil, m'[a].left) == Bh(bh, t.nil, t.m[a].left);
      assert Bh(bh', t.nil, m'[a].right) == Bh(bh, t.nil, t.m[a].right);
    }
  }

  /** A node put in the place of another, with its colour, has its black height. */
  lemma RenameBalanced(t: View, z: Addr, y: Addr, bh: map<Addr, nat>, dp: Addr, ds: Side)
    requires Shape(t) && z in t.iv && NodeOk(t, z) && y in t.m && y !in t.iv && y != t.nil
    requires Balanced(t.m, t.nil, t.iv.Keys, bh, dp, ds) && dp != y
    ensures z in bh
    ensures var t' := Rename(t, z, y);
            Balanced(t'.m, t.nil, t'.iv.Keys, bh[y := bh[z]], if dp == z then y else dp, ds)
  {
    var t' := Rename(t, z, y);
    assert BalOk(t.m, t.nil, bh, dp, ds, z);
    var bh', dp' := bh[y := bh[z]], if dp == z then y else dp;
    forall a {:trigger BalOk(t'.m, t.nil, bh', dp', ds, a)} | a in t'.iv.Keys
      ensures BalOk(t'.m, t.nil, bh', dp', ds, a)
    {
      var a0 := if a == y then z else a;
      assert BalOk(t.m, t.nil, bh, dp, ds, a0);
      assert NodeOk(t, a0);
      RenameBalOk(t, z, y, bh, dp, ds, a0);
    }
  }

  lemma RenameNoRedRed(t: View, z: Addr, y: Addr)
    requires Shape(t) && z in t.iv && NodeOk(t, z) && y in t.m && y !in t.iv && y != t.nil
    requires NoRedRed(t.m, t.iv.Keys, t.nil) && Col(t.m, t.nil) == Black
    ensures var t' := Rename(t, z, y); NoRedRed(t'.m, t'.iv.Keys, t.nil)
  {
    var t' := Rename(t, z, y);
    RenameCells(t, z, y);
    assert RedOk(t.m, z);
    forall a {:trigger RedOk(t'.m, a)} | a in t'.iv.Keys && a != t.nil ensures RedOk(t'.m, a) {
      if a != y {
        assert RedOk(t.m, a);
        assert NodeOk(t, a);
      }
    }
  }

  // ---------------------------------------------------------------- left and right exchanged

  function Flip(m: Cells): (r: Cells)
    ensures r.Keys == m.Keys
  {
    map a | a in m :: Node(m[a].header, m[a].parent, m[a].right, m[a].left)
  }

  lemma FlipSetCol(m: Cells, a: Addr, c: Color)
    requires a in m
    ensures Flip(SetCol(m, a, c)) == SetCol(Flip(m), a, c)
  {
  }

  lemma FlipRot(m: Cells, nil: Addr, x: Addr)
    requires x in m && m[x].left in m
    ensures RotRightCells(m, nil, x) == Flip(RotLeftCells(Flip(m), nil, x))
  {
  }

  lemma FlipLinks(m: Cells, nil: Addr, ks: set<Addr>)
    requires Links(m, nil, ks)
    ensures Links(Flip(m), nil, ks)
  {
    var m' := Flip(m);
    forall a {:trigger LinkOk(m', nil, ks, a)} | a in ks ensures LinkOk(m', nil, ks, a) {
      assert LinkOk(m, nil, ks, a);
    }
  }

  lemma FlipBalanced(m: Cells, nil: Addr, ks: set<Addr>, bh: map<Addr, nat>, dp: Addr, ds: Side)
    requires Balanced(m, nil, ks, bh, dp, ds)
    ensures Balanced(Flip(m), nil, ks, bh, dp, Other(ds))
  {
    var m' := Flip(m);
    forall a {:trigger BalOk(m', nil, bh, dp, Other(ds), a)} | a in ks ensures BalOk(m', nil, bh, dp, Other(ds), a) {
      assert BalOk(m, nil, bh, dp, ds, a);
    }
  }

  lemma FlipNoRedRed(m: Cells, ks: set<Addr>, x: Addr)
    requires NoRedRed(m, ks, x)
    ensures NoRedRed(Flip(m), ks, x)
  {
    var m' := Flip(m);
    forall a {:trigger RedOk(m', a)} | a in ks && a != x ensures RedOk(m', a) {
      assert RedOk(m, a);
    }
  }

  /** Exchanges the colours of `x` and its left child, then rotates right around `x`. */
  function SwapRotR(m: Cells, nil: Addr, x: Addr): Cells
    requires x in m && m[x].left in m && x != m[x].left
  {
    RotRightCells(SetCol(SetCol(m, m[x].left, Col(m, x)), x, Col(m, m[x].left)), nil, x)
  }

  lemma FlipSwapRot(m: Cells, nil: Addr, x: Addr)
    requires x in m && m[x].left in m && x != m[x].left
    ensures SwapRotR(m, nil, x) == Flip(SwapRot(Flip(m), nil, x))
  {
    var y := m[x].left;
    FlipSetCol(m, y, Col(m, x));
    FlipSetCol(SetCol(m, y, Col(m, x)), x, Col(m, y));
    FlipRot(SetCol(SetCol(m, y, Col(m, x)), x, Col(m, y)), nil, x);
  }

  lemma SwapRotRBalanced(m: Cells, nil: Addr, ks: set<Addr>, bh: map<Addr, nat>, dp: Addr, ds: Side, x: Addr)
    requires Links(m, nil, ks) && x in m && m[x].left in m && RotOk(Flip(m), nil, ks, x)
    requires Col(m, m[x].left) == Red && dp != m[x].left && (dp == x ==> ds == Rgt)
    requires Balanced(m, nil, ks, bh, dp, ds)
    ensures x in bh && m[x].left in bh
    ensures Balanced(SwapRotR(m, nil, x), nil, ks, bh[x := bh[m[x].left]][m[x].left := bh[x]], dp, ds)
  {
    FlipLinks(m, nil, ks);
    FlipBalanced(m, nil, ks, bh, dp, ds);
    SwapRotBalanced(Flip(m), nil, ks, bh, dp, Other(ds), x);
    FlipSwapRot(m, nil, x);
    FlipBalanced(SwapRot(Flip(m), nil, x), nil, ks, bh[x := bh[m[x].left]][m[x].left := bh[x]], dp, Other(ds));
  }

  lemma SwapRotRNoRedRed(m: Cells, nil: Addr, ks: set<Addr>, e: Addr, x: Addr)
    requires Links(m, nil, ks) && x in m && m[x].left in m && RotOk(Flip(m), nil, ks, x) && Col(m, nil) == Black
    requires Col(m, x) == Black && Col(m, m[x].left) == Red && m[x].right in m && Col(m, m[x].right) == Black
    requires m[m[x].left].right == nil || m[m[x].left].right != e
    requires NoRedRed(m, ks, e)
    ensures NoRedRed(SwapRotR(m, nil, x), ks, e)
  {
    FlipLinks(m, nil, ks);
    FlipNoRedRed(m, ks, e);
    SwapRotNoRedRed(Flip(m), nil, ks, e, x);
    FlipSwapRot(m, nil, x);
    FlipNoRedRed(SwapRot(Flip(m), nil, x), ks, e);
  }

  lemma RedRotRNoRedRed(m: Cells, nil: Addr, ks: set<Addr>, x: Addr)
    requires Links(m, nil, ks) && x in m && m[x].left in m && RotOk(Flip(m), nil, ks, x) && Col(m, nil) == Black
    requires Col(m, x) == Red && Col(m, m[x].left) == Red
    requires NoRedRed(m, ks, m[x].left)
    ensures NoRedRed(RotRightCells(m, nil, x), ks, x)
  {
    FlipLinks(m, nil, ks);
    FlipNoRedRed(m, ks, m[x].left);
    RedRotNoRedRed(Flip(m), nil, ks, x);
    FlipRot(m, nil, x);
    FlipNoRedRed(RotLeftCells(Flip(m), nil, x), ks, x);
  }

  function LastRotR(m: Cells, nil: Addr, x: Addr): Cells
    requires x in m && m[x].left in m && m[m[x].left].left in m
  {
    var y := m[x].left;
    RotRightCells(SetCol(SetCol(SetCol(m, y, Col(m, x)), x, Black), m[y].left, Black), nil, x)
  }

  lemma FlipLastRot(m: Cells, nil: Addr, x: Addr)
    requires x in m && m[x].left in m && m[m[x].left].left in m
    ensures LastRotR(m, nil, x) == Flip(LastRot(Flip(m), nil, x))
  {
    var y := m[x].left;
    var m1 := SetCol(m, y, Col(m, x));
    var m2 := SetCol(m1, x, Black);
    FlipSetCol(m, y, Col(m, x));
    FlipSetCol(m1, x, Black);
    FlipSetCol(m2, m[y].left, Black);
    FlipRot(SetCol(m2, m[y].left, Black), nil, x);
  }

  lemma LastRotROk(m: Cells, nil: Addr, ks: set<Addr>, bh: map<Addr, nat>, x: Addr)
    requires Links(m, nil, ks) && LastRotOk(Flip(m), nil, ks, bh, x)
    requires Balanced(m, nil, ks, bh, x, Rgt) && NoRedRed(m, ks, nil) && Col(m, nil) == Black
    ensures Balanced(LastRotR(m, nil, x), nil, ks, LastRotBh(Flip(m), bh, x), nil, Lft)
    ensures NoRedRed(LastRotR(m, nil, x), ks, nil)
  {
    FlipLinks(m, nil, ks);
    FlipBalanced(m, nil, ks, bh, x, Rgt);
    FlipNoRedRed(m, ks, nil);
    LastRotBalanced(Flip(m), nil, ks, bh, x);
    LastRotNoRedRed(Flip(m), nil, ks, bh, x);
    FlipLastRot(m, nil, x);
    FlipBalanced(LastRot(Flip(m), nil, x), nil, ks, LastRotBh(Flip(m), bh, x), nil, Lft);
    FlipNoRedRed(LastRot(Flip(m), nil, x), ks, nil);
    NoShortSide(LastRotR(m, nil, x), nil, ks, LastRotBh(Flip(m), bh, x));
  }

  /** When no slot is short the side does not matter. */
  lemma NoShortSide(m: Cells, nil: Addr, ks: set<Addr>, bh: map<Addr, nat>)
    requires nil !in ks && Balanced(m, nil, ks, bh, nil, Rgt)
    ensures Balanced(m, nil, ks, bh, nil, Lft)
  {
    forall a {:trigger BalOk(m, nil, bh, nil, Lft, a)} | a in ks ensures BalOk(m, nil, bh, nil, Lft, a) {
      assert BalOk(m, nil, bh, nil, Rgt, a);
    }
  }
}
