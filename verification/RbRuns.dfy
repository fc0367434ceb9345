/** Trees built by any sequence of insertions, removals and best-fit searches. */
module RbRuns {
  import opened Arith
  import opened Cells
  import opened Common
  import opened RbShape
  import opened RbFix
  import opened RbAlgebra
  import opened Traces
  import T = RbTree

  datatype Op = Insert(node: Addr, size: nat) | Remove(node: Addr) | TakeBestFit(value: nat)

  /** A tree and its black heights. */
  datatype State = State(t: View, bh: map<Addr, nat>)

  // ---------------------------------------------------------------- what a run promises

  /** The nodes in the tree and their sizes, after one more operation. */
  function SizesStep(sizes: map<Addr, nat>, op: Op, r: Option<Addr>): map<Addr, nat> {
    match r
    case None => sizes
    case Some(a) => if op.Insert? then sizes[a := op.size] else sizes - {a}
  }

  function SizesAfter(rootAddr: Addr, ops: seq<Op>, results: seq<Option<Addr>>): map<Addr, nat>
    requires |results| == |ops|
  {
    HeldAfter(map[rootAddr := 0], SizesStep, ops, results, |ops|)
  }

  /** The nodes are those inserted and not removed, with the sizes they were inserted with. */
  ghost predicate Holds(sizes: map<Addr, nat>, t: View) {
    && t.iv.Keys == sizes.Keys && |t.s| == |sizes|
    && forall a {:trigger Key(t.m, a)} :: a in sizes ==> Key(t.m, a) == sizes[a]
  }

  /** No walk down the tree is longer than 2 * log2(n + 1). */
  ghost predicate ShortWalks(t: View) {
    forall path {:trigger Descends(t, path)} :: Descends(t, path) ==> Pow2(|path|) <= (|t.s| + 1) * (|t.s| + 1)
  }

  /** A balanced tree, sorted by size, of exactly the nodes that are held. */
  ghost predicate TreeSound(sizes: map<Addr, nat>, s: State) {
    Rb(s.t, s.bh) && Sorted(s.t.m, s.t.s) && Holds(sizes, s.t) && ShortWalks(s.t)
  }

  ghost predicate Inserted(t: View, node: Addr, size: nat, t': View) {
    exists k: nat :: SplitsAt(t.m, t.s, k, size) && t'.s == InsertAt(t.s, k, node)
  }

  ghost predicate Removed(t: View, node: Addr, t': View) {
    node in t.iv && t.iv[node].pos < |t.s| && t'.s == RemoveAt(t.s, t.iv[node].pos)
  }

  /** What one operation does to the order of the nodes, and its answer: the node that went in or out. */
  ghost predicate StepRel(sizes: map<Addr, nat>, s: State, op: Op, r: Option<Addr>, s': State) {
    var t, t' := s.t, s'.t;
    && t'.m.Keys == t.m.Keys && t'.nil == t.nil
    && match op
       case Insert(node, size) =>
         if node in t.m && node !in sizes && node != t.nil then r == Some(node) && Inserted(t, node, size, t')
         else r == None && s' == s
       case Remove(node) =>
         if node in sizes then r == Some(node) && Removed(t, node, t') else r == None && s' == s
       case TakeBestFit(value) =>
         match r
         case Some(a) => IsBestFit(t.m, t.s, value, a) && Removed(t, a, t')
         case None => NoFit(t.m, t.s, value) && s' == s
  }

  // ---------------------------------------------------------------- steps

  lemma SizeAgrees(t: View, a: Addr, hd: Header)
    requires Shape(t) && a in t.m && a !in t.iv && a != t.nil
    ensures TreeAgrees(t, t.m[a := t.m[a].(header := hd)]) && KeysAgree(t, t.m[a := t.m[a].(header := hd)])
  {
    var m' := t.m[a := t.m[a].(header := hd)];
    forall b {:trigger SameNode(t.m, m', b)} | b in t.iv || b == t.nil ensures SameNode(t.m, m', b) {
      if b in t.iv { assert NodeOk(t, b); }
    }
  }

  lemma AgreeSplits(t: View, m': Cells, k: nat, v: nat)
    requires Shape(t) && KeysAgree(t, m') && SplitsAt(m', t.s, k, v)
    ensures SplitsAt(t.m, t.s, k, v)
  {
    forall i {:trigger t.s[i]} | 0 <= i < |t.s| ensures Key(m', t.s[i]) == Key(t.m, t.s[i]) {
      assert t.s[i] in t.iv;
    }
  }

  lemma FramedKey(m: Cells, m': Cells, ks: set<Addr>, a: Addr)
    requires Framed(m, m', ks) && a in m
    ensures Key(m', a) == Key(m, a)
  {
    assert CellFramed(m, m', ks, a);
  }

  /** Gives a node that is in no tree a size and inserts it. */
  method InsertWithSize(tree: T.RbTree, node: Addr, size: nat)
    requires tree.Valid() && node in tree.mem.cells && node !in tree.iv && node != tree.nil
    modifies tree, tree.mem
    ensures tree.Valid() && tree.iv.Keys == old(tree.iv.Keys) + {node}
    ensures tree.mem.cells.Keys == old(tree.mem.cells.Keys)
    ensures Key(tree.mem.cells, node) == size && |tree.s| == |old(tree.s)| + 1
    ensures forall a {:trigger Key(tree.mem.cells, a)} :: a in old(tree.iv) ==>
              Key(tree.mem.cells, a) == Key(old(tree.mem.cells), a)
    ensures Inserted(old(tree.Snapshot()), node, size, tree.Snapshot())
  {
    ghost var t, hd := tree.Snapshot(), tree.mem.cells[node].header.(size := size);
    SizeAgrees(t, node, hd);
    AgreeValid(t, tree.bh, t.m[node := t.m[node].(header := hd)]);
    tree.mem.SetHeader(node, tree.mem.cells[node].header.(size := size));
    ghost var m := tree.mem.cells;
    ghost var k, path := tree.InsertNode(node);
    AgreeSplits(t, m, k, size);
    FramedKey(m, tree.mem.cells, tree.iv.Keys, node);
    forall a {:trigger Key(tree.mem.cells, a)} | a in t.iv ensures Key(tree.mem.cells, a) == Key(t.m, a) {
      assert NodeOk(t, a);
      FramedKey(m, tree.mem.cells, tree.iv.Keys, a);
    }
  }

  lemma RemovedHolds(sizes: map<Addr, nat>, t: View, a: Addr, t': View, ks: set<Addr>)
    requires Shape(t) && Holds(sizes, t) && Removed(t, a, t')
    requires t'.iv.Keys == t.iv.Keys - {a} && Framed(t.m, t'.m, ks)
    ensures Holds(sizes - {a}, t')
  {
    assert sizes.Keys == (sizes - {a}).Keys + {a};
    assert |sizes.Keys| == |(sizes - {a}).Keys| + 1;
    forall b {:trigger Key(t'.m, b)} | b in sizes - {a} ensures Key(t'.m, b) == sizes[b] {
      assert NodeOk(t, b);
      FramedKey(t.m, t'.m, ks, b);
    }
  }

  lemma SoundTree(sizes: map<Addr, nat>, s: State)
    requires Rb(s.t, s.bh) && Sorted(s.t.m, s.t.s) && Holds(sizes, s.t)
    ensures TreeSound(sizes, s)
  {
    forall path {:trigger Descends(s.t, path)} | Descends(s.t, path)
      ensures Pow2(|path|) <= (|s.t.s| + 1) * (|s.t.s| + 1)
    {
      WalkBound(s.t, s.bh, path);
    }
  }

  method StepInsert(tree: T.RbTree, node: Addr, size: nat, sizes: map<Addr, nat>) returns (r: Option<Addr>)
    requires tree.Valid() && Holds(sizes, tree.Snapshot())
    modifies tree, tree.mem
    ensures tree.Valid() && Holds(SizesStep(sizes, Insert(node, size), r), tree.Snapshot())
    ensures StepRel(sizes, old(State(tree.Snapshot(), tree.bh)), Insert(node, size), r, State(tree.Snapshot(), tree.bh))
  {
    r := None;
    if node in tree.mem.cells && node !in sizes && node != tree.nil {
      InsertWithSize(tree, node, size);
      r := Some(node);
      assert sizes[node := size].Keys == sizes.Keys + {node};
      assert |sizes[node := size].Keys| == |sizes.Keys| + 1;
    }
  }

  method StepRemove(tree: T.RbTree, node: Addr, sizes: map<Addr, nat>) returns (r: Option<Addr>)
    requires tree.Valid() && Holds(sizes, tree.Snapshot())
    modifies tree, tree.mem
    ensures tree.Valid() && Holds(SizesStep(sizes, Remove(node), r), tree.Snapshot())
    ensures StepRel(sizes, old(State(tree.Snapshot(), tree.bh)), Remove(node), r, State(tree.Snapshot(), tree.bh))
  {
    r := None;
    if node in sizes {
      ghost var t := tree.Snapshot();
      var removed;
      ghost var path;
      removed, path := tree.RemoveNode(node);
      r := Some(removed);
      RemovedHolds(sizes, t, node, tree.Snapshot(), t.iv.Keys + {t.nil});
    }
  }

  method StepTake(tree: T.RbTree, value: nat, ghost sizes: map<Addr, nat>) returns (r: Option<Addr>)
    requires tree.Valid() && Holds(sizes, tree.Snapshot()) && value <= U64_MAX
    modifies tree, tree.mem
    ensures tree.Valid() && Holds(SizesStep(sizes, TakeBestFit(value), r), tree.Snapshot())
    ensures StepRel(sizes, old(State(tree.Snapshot(), tree.bh)), TakeBestFit(value), r, State(tree.Snapshot(), tree.bh))
  {
    ghost var t := tree.Snapshot();
    r := tree.FindBestNodeFit(value);
    if r.Some? { RemovedHolds(sizes, t, r.value, tree.Snapshot(), t.iv.Keys + {t.nil}); }
  }

  method Step(tree: T.RbTree, op: Op, sizes: map<Addr, nat>) returns (r: Option<Addr>)
    requires tree.Valid() && Holds(sizes, tree.Snapshot()) && (op.TakeBestFit? ==> op.value <= U64_MAX)
    modifies tree, tree.mem
    ensures tree.Valid() && Holds(SizesStep(sizes, op, r), tree.Snapshot())
    ensures StepRel(sizes, old(State(tree.Snapshot(), tree.bh)), op, r, State(tree.Snapshot(), tree.bh))
  {
    match op
    case Insert(node, size) => r := StepInsert(tree, node, size, sizes);
    case Remove(node) => r := StepRemove(tree, node, sizes);
    case TakeBestFit(value) => r := StepTake(tree, value, sizes);
  }

  // ---------------------------------------------------------------- runs

  /** Any run on a fresh tree: every operation does what it promises, every tree on the way is balanced and
      sorted, and at the end it holds, and counts, exactly the nodes inserted and not removed. */
  method Run(mem: Memory, rootAddr: Addr, nilAddr: Addr, ops: seq<Op>)
    returns (tree: T.RbTree, sizes: map<Addr, nat>, results: seq<Option<Addr>>, ghost trace: seq<State>)
    requires rootAddr in mem.cells && nilAddr in mem.cells && rootAddr != nilAddr
    requires forall i {:trigger ops[i]} :: 0 <= i < |ops| && ops[i].TakeBestFit? ==> ops[i].value <= U64_MAX
    modifies mem
    ensures |results| == |ops| && sizes == SizesAfter(rootAddr, ops, results)
    ensures IsRun(map[rootAddr := 0], SizesStep, TreeSound, StepRel, ops, results, trace)
    ensures trace[0].t.s == [rootAddr] && trace[0].t.nil == nilAddr && trace[0].t.m.Keys == old(mem.cells.Keys)
    ensures tree.mem == mem && trace[|ops|] == State(tree.Snapshot(), tree.bh)
    ensures tree.Valid() && tree.iv.Keys == sizes.Keys && tree.count == |sizes|
  {
    tree := new T.RbTree(mem, rootAddr, nilAddr);
    ghost var start := State(tree.Snapshot(), tree.bh);
    sizes, results, trace := map[rootAddr := 0], [], [start];
    assert sizes.Keys == {rootAddr};
    SoundTree(sizes, start);
    StartRun(map[rootAddr := 0], SizesStep, TreeSound, StepRel, ops, start);
    for i := 0 to |ops|
      invariant fresh(tree) && tree.mem == mem && tree.Valid() && Holds(sizes, tree.Snapshot()) && |results| == i
      invariant Recorded(map[rootAddr := 0], SizesStep, TreeSound, StepRel, ops, results, trace, start, sizes,
                         State(tree.Snapshot(), tree.bh))
    {
      ghost var s := State(tree.Snapshot(), tree.bh);
      var r := Step(tree, ops[i], sizes);
      ghost var s' := State(tree.Snapshot(), tree.bh);
      SoundTree(SizesStep(sizes, ops[i], r), s');
      Record(map[rootAddr := 0], SizesStep, TreeSound, StepRel, ops, results, trace, start, sizes, s, r, s');
      sizes, results, trace := SizesStep(sizes, ops[i], r), results + [r], trace + [s'];
    }
  }
}
