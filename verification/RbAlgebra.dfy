/** The textbook reading of a red-black tree: the algebraic tree found by following the links from the
    root, its in-order sequence, its colours and its height. */
module RbAlgebra {
  import opened Arith
  import opened Cells
  import opened Common
  import opened RbShape
  import opened RbColor
  import opened RbFix

  datatype Tree = Leaf | Branch(left: Tree, node: Addr, right: Tree)

  function InOrder(t: Tree): seq<Addr> {
    match t
    case Leaf => []
    case Branch(l, a, r) => InOrder(l) + [a] + InOrder(r)
  }

  function Height(t: Tree): nat {
    match t
    case Leaf => 0
    case Branch(l, _, r) => 1 + if Height(l) < Height(r) then Height(r) else Height(l)
  }

  predicate TopRed(t: Tree, m: Cells) {
    t.Branch? && t.node in m && m[t.node].header.color == Red
  }

  /** No red node has a red child. */
  predicate NoRedPair(t: Tree, m: Cells) {
    match t
    case Leaf => true
    case Branch(l, _, r) =>
      NoRedPair(l, m) && NoRedPair(r, m) && (TopRed(t, m) ==> !TopRed(l, m) && !TopRed(r, m))
  }

  /** Every path from the top to a leaf passes exactly `k` black nodes. */
  predicate Uniform(t: Tree, m: Cells, k: int) {
    match t
    case Leaf => k == 0
    case Branch(l, _, r) =>
      var rest := if TopRed(t, m) then k else k - 1;
      Uniform(l, m, rest) && Uniform(r, m, rest)
  }

  /** Every key below and left of a node is at most its key, every key below and right at least. */
  predicate Ordered(t: Tree, m: Cells) {
    match t
    case Leaf => true
    case Branch(l, a, r) =>
      && Ordered(l, m) && Ordered(r, m)
      && (forall b :: b in InOrder(l) ==> Key(m, b) <= Key(m, a))
      && (forall b :: b in InOrder(r) ==> Key(m, a) <= Key(m, b))
  }

  // ---------------------------------------------------------------- from the links to the tree

  /** The tree reached from `c`, which spans s[lo..hi]. */
  ghost function TreeAt(t: View, c: Addr, p: Addr, lo: nat, hi: nat): Tree
    requires Shape(t) && lo <= hi <= |t.s| && ChildOk(t, c, p, lo, hi)
    decreases hi - lo
  {
    if c == t.nil then Leaf
    else
      assert NodeOk(t, c);
      Branch(TreeAt(t, t.m[c].left, c, lo, t.iv[c].pos), c, TreeAt(t, t.m[c].right, c, t.iv[c].pos + 1, hi))
  }

  ghost function TreeOf(t: View): Tree
    requires Shape(t)
  {
    TreeAt(t, t.root, t.nil, 0, |t.s|)
  }

  lemma {:induction false} TreeAtInOrder(t: View, c: Addr, p: Addr, lo: nat, hi: nat)
    requires Shape(t) && lo <= hi <= |t.s| && ChildOk(t, c, p, lo, hi)
    ensures InOrder(TreeAt(t, c, p, lo, hi)) == t.s[lo..hi]
    decreases hi - lo
  {
    if c != t.nil {
      assert NodeOk(t, c);
      var k := t.iv[c].pos;
      TreeAtInOrder(t, t.m[c].left, c, lo, k);
      TreeAtInOrder(t, t.m[c].right, c, k + 1, hi);
      assert t.s[lo..hi] == t.s[lo..k] + [t.s[k]] + t.s[k + 1..hi];
    }
  }

  lemma {:induction false} TreeAtColors(t: View, bh: map<Addr, nat>, c: Addr, p: Addr, lo: nat, hi: nat)
    requires Rb(t, bh) && lo <= hi <= |t.s| && ChildOk(t, c, p, lo, hi)
    ensures var tree := TreeAt(t, c, p, lo, hi);
            && NoRedPair(tree, t.m) && Uniform(tree, t.m, Bh(bh, t.nil, c))
            && (TopRed(tree, t.m) <==> c != t.nil && Col(t.m, c) == Red)
    decreases hi - lo
  {
    if c != t.nil {
      assert NodeOk(t, c);
      var k := t.iv[c].pos;
      var l, r := t.m[c].left, t.m[c].right;
      TreeAtColors(t, bh, l, c, lo, k);
      TreeAtColors(t, bh, r, c, k + 1, hi);
      assert BalOk(t.m, t.nil, bh, t.nil, Lft, c);
      if l != t.nil { assert RedOk(t.m, l); }
      if r != t.nil { assert RedOk(t.m, r); }
    }
  }

  lemma SortedAround(m: Cells, s: seq<Addr>, lo: nat, k: nat, hi: nat)
    requires Sorted(m, s) && lo <= k < hi <= |s|
    ensures forall b :: b in s[lo..k] ==> Key(m, b) <= Key(m, s[k])
    ensures forall b :: b in s[k + 1..hi] ==> Key(m, s[k]) <= Key(m, b)
  {
    forall b | b in s[lo..k] ensures Key(m, b) <= Key(m, s[k]) {
      var i :| lo <= i < k && s[i] == b;
    }
    forall b | b in s[k + 1..hi] ensures Key(m, s[k]) <= Key(m, b) {
      var i :| k + 1 <= i < hi && s[i] == b;
    }
  }

  lemma {:induction false} TreeAtOrdered(t: View, c: Addr, p: Addr, lo: nat, hi: nat)
    requires Shape(t) && Sorted(t.m, t.s) && lo <= hi <= |t.s| && ChildOk(t, c, p, lo, hi)
    ensures Ordered(TreeAt(t, c, p, lo, hi), t.m)
    decreases hi - lo
  {
    if c != t.nil {
      assert NodeOk(t, c);
      var k := t.iv[c].pos;
      TreeAtOrdered(t, t.m[c].left, c, lo, k);
      TreeAtOrdered(t, t.m[c].right, c, k + 1, hi);
      TreeAtInOrder(t, t.m[c].left, c, lo, k);
      TreeAtInOrder(t, t.m[c].right, c, k + 1, hi);
      SortedAround(t.m, t.s, lo, k, hi);
    }
  }

  /** The links of a valid tree spell out a textbook red-black search tree with exactly its nodes. */
  lemma RbIsTextbook(t: View, bh: map<Addr, nat>)
    requires Rb(t, bh) && Sorted(t.m, t.s)
    ensures var tree := TreeOf(t);
            && InOrder(tree) == t.s
            && Ordered(tree, t.m)
            && NoRedPair(tree, t.m) && !TopRed(tree, t.m)
            && Uniform(tree, t.m, Bh(bh, t.nil, t.root))
  {
    TreeAtInOrder(t, t.root, t.nil, 0, |t.s|);
    TreeAtOrdered(t, t.root, t.nil, 0, |t.s|);
    TreeAtColors(t, bh, t.root, t.nil, 0, |t.s|);
  }

  // ---------------------------------------------------------------- height

  lemma {:induction false} UniformHeight(t: Tree, m: Cells, k: int)
    requires NoRedPair(t, m) && Uniform(t, m, k)
    ensures k >= 0 && Height(t) <= 2 * k + (if TopRed(t, m) then 1 else 0) && Pow2(k) <= |InOrder(t)| + 1
  {
    match t
    case Leaf =>
    case Branch(l, _, r) =>
      var rest := if TopRed(t, m) then k else k - 1;
      UniformHeight(l, m, rest);
      UniformHeight(r, m, rest);
  }

  lemma MulMonotone(a: nat, b: nat)
    requires a <= b
    ensures a * a <= b * b
  {
  }

  /** The height of a tree of n nodes is at most 2 * log2(n + 1). */
  lemma HeightBound(t: View, bh: map<Addr, nat>)
    requires Rb(t, bh) && Sorted(t.m, t.s)
    ensures Pow2(Height(TreeOf(t))) <= (|t.s| + 1) * (|t.s| + 1)
  {
    RbIsTextbook(t, bh);
    var tree, k := TreeOf(t), Bh(bh, t.nil, t.root);
    UniformHeight(tree, t.m, k);
    PowMonotone(Height(tree), k + k);
    PowSplit(k, k);
    MulMonotone(Pow2(k), |t.s| + 1);
  }

  // ---------------------------------------------------------------- walks

  /** Each node of the path is a child of the one before. */
  ghost predicate Descends(t: View, path: seq<Addr>) {
    && (forall i {:trigger path[i]} :: 0 <= i < |path| ==> path[i] in t.iv && path[i] in t.m)
    && forall i {:trigger path[i]} :: 0 < i < |path| ==>
         path[i] == t.m[path[i - 1]].left || path[i] == t.m[path[i - 1]].right
  }

  /** Where a search for `v` goes from `a`. */
  function NextOn(m: Cells, v: nat, a: Addr): Addr
    requires a in m
  {
    if v < m[a].header.size then m[a].left else m[a].right
  }

  /** The nodes a search for `v` passes, from the root on. */
  ghost predicate SearchPath(t: View, v: nat, path: seq<Addr>) {
    && (path != [] ==> path[0] == t.root)
    && (forall i {:trigger path[i]} :: 0 <= i < |path| ==> path[i] in t.iv && path[i] in t.m)
    && forall i {:trigger path[i]} :: 0 < i < |path| ==> path[i] == NextOn(t.m, v, path[i - 1])
  }

  /** The nodes from `a` on down along left links. */
  ghost predicate LeftPath(t: View, a: Addr, path: seq<Addr>) {
    && path != [] && path[0] == a
    && (forall i {:trigger path[i]} :: 0 <= i < |path| ==> path[i] in t.iv && path[i] in t.m)
    && forall i {:trigger path[i]} :: 0 < i < |path| ==> path[i] == t.m[path[i - 1]].left
  }

  /** A search path goes on with the node the search visits next. */
  ghost predicate ComesNext(t: View, v: nat, path: seq<Addr>, a: Addr) {
    if path == [] then a == t.root else path[|path| - 1] in t.m && a == NextOn(t.m, v, path[|path| - 1])
  }

  lemma ExtendPath(t: View, v: nat, path: seq<Addr>, a: Addr)
    requires SearchPath(t, v, path) && ComesNext(t, v, path, a) && a in t.iv && a in t.m
    ensures SearchPath(t, v, path + [a])
  {
  }

  /** The walk to the successor of a node with two children; no walk otherwise. */
  ghost predicate SuccessorPath(t: View, a: Addr, path: seq<Addr>) {
    a in t.m
    && if t.m[a].left == t.nil || t.m[a].right == t.nil then path == [] else LeftPath(t, t.m[a].right, path)
  }

  /** The subtree of a node. */
  ghost function Subtree(t: View, a: Addr): Tree
    requires Shape(t) && a in t.iv
  {
    assert NodeOk(t, a);
    TreeAt(t, a, t.m[a].parent, t.iv[a].lo, t.iv[a].hi)
  }

  lemma ChildLower(t: View, p: Addr, c: Addr)
    requires Shape(t) && p in t.iv && c in t.iv && NodeOk(t, p) && (c == t.m[p].left || c == t.m[p].right)
    ensures Height(Subtree(t, c)) < Height(Subtree(t, p))
    ensures t.iv[p].lo <= t.iv[c].lo && t.iv[c].hi <= t.iv[p].hi && t.iv[c].hi - t.iv[c].lo < t.iv[p].hi - t.iv[p].lo
  {
    assert NodeOk(t, c);
  }

  lemma {:induction false} DescentHeight(t: View, path: seq<Addr>)
    requires Shape(t) && Descends(t, path) && path != []
    ensures |path| <= Height(Subtree(t, path[0]))
  {
    assert NodeOk(t, path[0]);
    if |path| > 1 {
      var rest := path[1..];
      assert forall i {:trigger rest[i]} :: 0 <= i < |rest| ==> rest[i] == path[i + 1];
      DescentHeight(t, rest);
      assert path[1] in t.iv;
      ChildLower(t, path[0], path[1]);
    }
  }

  lemma {:induction false} SubtreeLower(t: View, a: Addr)
    requires Shape(t) && a in t.iv
    ensures Height(Subtree(t, a)) <= Height(TreeOf(t))
    decreases |t.s| - (t.iv[a].hi - t.iv[a].lo)
  {
    assert NodeOk(t, a);
    if a != t.root {
      var p := t.m[a].parent;
      assert NodeOk(t, p);
      ChildLower(t, p, a);
      SubtreeLower(t, p);
    }
  }

  /** No walk down a tree of n nodes is longer than 2 * log2(n + 1). */
  lemma WalkBound(t: View, bh: map<Addr, nat>, path: seq<Addr>)
    requires Rb(t, bh) && Sorted(t.m, t.s) && Descends(t, path)
    ensures Pow2(|path|) <= (|t.s| + 1) * (|t.s| + 1)
  {
    HeightBound(t, bh);
    if path == [] {
      MulMonotone(1, |t.s| + 1);
    } else {
      DescentHeight(t, path);
      SubtreeLower(t, path[0]);
      PowMonotone(|path|, Height(TreeOf(t)));
    }
  }

  // ---------------------------------------------------------------- best fit

  /** A node fits a request if its key is large enough. The all-ones key marks "nothing found yet" in
      the search, so a node with that key never fits. */
  predicate Fits(m: Cells, v: nat, a: Addr) {
    v <= Key(m, a) < U64_MAX
  }

  /** `a` is a node with the least key that is at least `v`. */
  ghost predicate IsBestFit(m: Cells, s: seq<Addr>, v: nat, a: Addr) {
    && a in s && Fits(m, v, a)
    && forall i {:trigger s[i]} :: 0 <= i < |s| && v <= Key(m, s[i]) ==> Key(m, a) <= Key(m, s[i])
  }

  ghost predicate NoFit(m: Cells, s: seq<Addr>, v: nat) {
    forall i {:trigger s[i]} :: 0 <= i < |s| ==> !Fits(m, v, s[i])
  }

  /** The loop invariant of the search: every key outside s[lo..hi] is too small or not better than the
      closest match so far. */
  ghost predicate FitInv(t: View, v: nat, w: Addr, p: Addr, lo: nat, hi: nat, closest: nat, candidate: Addr) {
    && Shape(t) && Sorted(t.m, t.s) && lo <= hi <= |t.s| && ChildOk(t, w, p, lo, hi)
    && closest <= U64_MAX
    && (closest == U64_MAX || (NodeOk(t, candidate) && Key(t.m, candidate) == closest && v <= closest))
    && forall i {:trigger t.s[i]} :: 0 <= i < lo || hi <= i < |t.s| ==>
         Key(t.m, t.s[i]) < v || closest <= Key(t.m, t.s[i])
  }

  lemma FitStep(t: View, v: nat, w: Addr, p: Addr, lo: nat, hi: nat, closest: nat, candidate: Addr)
    requires FitInv(t, v, w, p, lo, hi, closest, candidate) && w != t.nil
    ensures NodeOk(t, w) && lo <= t.iv[w].pos < hi
    ensures v < Key(t.m, w) && Key(t.m, w) < closest ==>
              FitInv(t, v, t.m[w].left, w, lo, t.iv[w].pos, Key(t.m, w), w)
    ensures v < Key(t.m, w) && Key(t.m, w) >= closest ==>
              FitInv(t, v, t.m[w].left, w, lo, t.iv[w].pos, closest, candidate)
    ensures v > Key(t.m, w) ==> FitInv(t, v, t.m[w].right, w, t.iv[w].pos + 1, hi, closest, candidate)
  {
    assert NodeOk(t, w);
    var k := t.iv[w].pos;
    assert t.s[k] == w;
    if v < Key(t.m, w) {
      var c := if Key(t.m, w) < closest then Key(t.m, w) else closest;
      forall i {:trigger t.s[i]} | 0 <= i < lo || k <= i < |t.s| ensures Key(t.m, t.s[i]) < v || c <= Key(t.m, t.s[i]) {
        if k < i { assert Key(t.m, t.s[k]) <= Key(t.m, t.s[i]); }
      }
    }
    if v > Key(t.m, w) {
      forall i {:trigger t.s[i]} | 0 <= i < k + 1 || hi <= i < |t.s|
        ensures Key(t.m, t.s[i]) < v || closest <= Key(t.m, t.s[i])
      {
        if i < k { assert Key(t.m, t.s[i]) <= Key(t.m, t.s[k]); }
      }
    }
  }

  lemma FitDone(t: View, v: nat, w: Addr, p: Addr, lo: nat, hi: nat, closest: nat, candidate: Addr)
    requires FitInv(t, v, w, p, lo, hi, closest, candidate) && (w == t.nil || closest == v)
    ensures closest == U64_MAX ==> NoFit(t.m, t.s, v)
    ensures closest != U64_MAX ==> IsBestFit(t.m, t.s, v, candidate)
  {
    if closest != U64_MAX { assert t.s[t.iv[candidate].pos] == candidate; }
  }
}
