/** When the bridges of a machine form a forest, said without ranks: no way down bridges leads back to its
    start, and no bus is behind two bridges. */
module PciForest {
  import opened Common
  import opened PciSpec

  /** A bridge on bus `b` leads to bus `c`. */
  ghost predicate Leads(cfg: Config, b: Byte, c: Byte) {
    exists l {:trigger BridgeAt(cfg, l)} :: BridgeAt(cfg, l) && l.bus == b && cfg(l).secondaryBus == c
  }

  ghost predicate StepOk(cfg: Config, p: seq<Byte>, i: nat)
    requires i + 1 < |p|
  {
    Leads(cfg, p[i], p[i + 1])
  }

  /** A way down bridges, from bus to bus. */
  ghost predicate Way(cfg: Config, p: seq<Byte>) {
    p != [] && forall i: nat {:trigger StepOk(cfg, p, i)} :: i + 1 < |p| ==> StepOk(cfg, p, i)
  }

  ghost predicate NoCycle(cfg: Config) {
    forall p {:trigger Way(cfg, p)} :: Way(cfg, p) && |p| > 1 ==> p[0] != p[|p| - 1]
  }

  ghost predicate OneBridgeEach(cfg: Config) {
    forall l, k {:trigger BridgeAt(cfg, l), BridgeAt(cfg, k)} ::
      BridgeAt(cfg, l) && BridgeAt(cfg, k) && cfg(l).secondaryBus == cfg(k).secondaryBus ==> l == k
  }

  // ---------------------------------------------------------------- ranks forbid cycles

  lemma {:induction false} RankSinks(cfg: Config, t: Topology, p: seq<Byte>, i: nat)
    requires Acyclic(cfg, t) && Way(cfg, p) && i < |p|
    ensures t.rank(p[i]) + i <= t.rank(p[0])
  {
    if i > 0 {
      RankSinks(cfg, t, p, i - 1);
      assert StepOk(cfg, p, i - 1);
      var l :| BridgeAt(cfg, l) && l.bus == p[i - 1] && cfg(l).secondaryBus == p[i];
      assert RankOk(cfg, t, l);
    }
  }

  lemma AcyclicNoCycle(cfg: Config, t: Topology)
    requires Acyclic(cfg, t)
    ensures NoCycle(cfg)
  {
    forall p {:trigger Way(cfg, p)} | Way(cfg, p) && |p| > 1 ensures p[0] != p[|p| - 1] {
      RankSinks(cfg, t, p, |p| - 1);
    }
  }

  // ---------------------------------------------------------------- ways without cycles are short

  lemma PartOfWay(cfg: Config, p: seq<Byte>, i: nat, j: nat)
    requires Way(cfg, p) && i < j <= |p|
    ensures Way(cfg, p[i..j])
  {
    var q := p[i..j];
    forall k: nat {:trigger StepOk(cfg, q, k)} | k + 1 < |q| ensures StepOk(cfg, q, k) {
      assert StepOk(cfg, p, i + k);
    }
  }

  lemma WayDistinct(cfg: Config, p: seq<Byte>, i: nat, j: nat)
    requires NoCycle(cfg) && Way(cfg, p) && i < j < |p|
    ensures p[i] != p[j]
  {
    PartOfWay(cfg, p, i, j + 1);
    var q := p[i..j + 1];
    assert q[0] == p[i] && q[|q| - 1] == p[j];
  }

  ghost function Range(n: nat): (r: set<int>)
    ensures forall x {:trigger x in r} :: x in r <==> 0 <= x < n
  {
    if n == 0 then {} else Range(n - 1) + {n - 1}
  }

  lemma {:induction false} RangeSize(n: nat)
    ensures |Range(n)| == n
  {
    if n > 0 { RangeSize(n - 1); }
  }

  ghost function Elements(p: seq<int>): set<int> {
    set i: int | 0 <= i < |p| :: p[i]
  }

  lemma {:induction false} ElementsSize(p: seq<int>)
    requires forall i, j {:trigger p[i], p[j]} :: 0 <= i < j < |p| ==> p[i] != p[j]
    ensures |Elements(p)| == |p|
  {
    if p != [] {
      var q, x := p[..|p| - 1], p[|p| - 1];
      ElementsSize(q);
      assert Elements(p) == Elements(q) + {x};
      assert x !in Elements(q);
    }
  }

  lemma SubsetSize(a: set<int>, b: set<int>)
    requires a <= b
    ensures |a| <= |b|
  {
    assert b == a + (b - a);
  }

  /** A way that never comes back visits each of the 256 buses at most once. */
  lemma WayShort(cfg: Config, p: seq<Byte>)
    requires NoCycle(cfg) && Way(cfg, p)
    ensures |p| <= BUSES
  {
    forall i, j {:trigger p[i], p[j]} | 0 <= i < j < |p| ensures p[i] != p[j] {
      WayDistinct(cfg, p, i, j);
    }
    ElementsSize(p);
    RangeSize(BUSES);
    SubsetSize(Elements(p), Range(BUSES));
  }

  // ---------------------------------------------------------------- no cycles give ranks

  /** A way of `n` bridges goes down from bus `b`. */
  ghost predicate GoesDown(cfg: Config, b: Byte, n: nat) {
    exists p {:trigger Way(cfg, p)} :: Way(cfg, p) && p[0] == b && |p| == n + 1
  }

  /** The length of the longest way down from `b` of at most `n` bridges. */
  ghost function Longest(cfg: Config, b: Byte, n: nat): (r: nat)
    ensures r <= n
  {
    if n == 0 || GoesDown(cfg, b, n) then n else Longest(cfg, b, n - 1)
  }

  lemma StayingHere(cfg: Config, b: Byte)
    ensures GoesDown(cfg, b, 0)
  {
    assert Way(cfg, [b]);
  }

  lemma {:induction false} LongestIs(cfg: Config, b: Byte, n: nat)
    ensures GoesDown(cfg, b, Longest(cfg, b, n))
    ensures forall k: nat {:trigger GoesDown(cfg, b, k)} :: k <= n && GoesDown(cfg, b, k) ==> k <= Longest(cfg, b, n)
  {
    StayingHere(cfg, b);
    if n > 0 { LongestIs(cfg, b, n - 1); }
  }

  lemma OneLonger(cfg: Config, b: Byte, c: Byte, n: nat)
    requires Leads(cfg, b, c) && GoesDown(cfg, c, n)
    ensures GoesDown(cfg, b, n + 1)
  {
    var q :| Way(cfg, q) && q[0] == c && |q| == n + 1;
    var p := [b] + q;
    forall i: nat {:trigger StepOk(cfg, p, i)} | i + 1 < |p| ensures StepOk(cfg, p, i) {
      if i > 0 { assert StepOk(cfg, q, i - 1); }
    }
    assert Way(cfg, p);
  }

  const LAST_BUS: nat := 255

  lemma RankOfWays(cfg: Config, l: Loc)
    requires NoCycle(cfg) && BridgeAt(cfg, l)
    ensures Longest(cfg, cfg(l).secondaryBus, LAST_BUS) < Longest(cfg, l.bus, LAST_BUS)
  {
    var b, c := l.bus, cfg(l).secondaryBus;
    var n := Longest(cfg, c, LAST_BUS);
    LongestIs(cfg, b, LAST_BUS);
    LongestIs(cfg, c, LAST_BUS);
    assert Leads(cfg, b, c);
    OneLonger(cfg, b, c, n);
    var p :| Way(cfg, p) && p[0] == b && |p| == n + 2;
    WayShort(cfg, p);
  }

  ghost predicate Behind(cfg: Config, b: Byte) {
    exists l {:trigger BridgeAt(cfg, l)} :: BridgeAt(cfg, l) && cfg(l).secondaryBus == b
  }

  ghost function BridgeAbove(cfg: Config, b: Byte): (l: Loc)
    requires Behind(cfg, b)
    ensures BridgeAt(cfg, l) && cfg(l).secondaryBus == b
  {
    var l :| BridgeAt(cfg, l) && cfg(l).secondaryBus == b;
    l
  }

  /** The topology of a machine whose bridges form no cycle. */
  ghost function TopologyOf(cfg: Config): Topology {
    Topology((b: Byte) => Longest(cfg, b, LAST_BUS),
             map b: Byte | 0 <= b < 256 && Behind(cfg, b) :: BridgeAbove(cfg, b))
  }

  lemma NoCycleAcyclic(cfg: Config)
    requires NoCycle(cfg)
    ensures Acyclic(cfg, TopologyOf(cfg))
  {
    var t := TopologyOf(cfg);
    forall l {:trigger RankOk(cfg, t, l)} ensures RankOk(cfg, t, l) {
      if BridgeAt(cfg, l) { RankOfWays(cfg, l); }
    }
  }

  lemma NoCycleForest(cfg: Config)
    requires NoCycle(cfg) && OneBridgeEach(cfg)
    ensures Forest(cfg, TopologyOf(cfg))
  {
    var t := TopologyOf(cfg);
    NoCycleAcyclic(cfg);
    forall l {:trigger UpOk(cfg, t, l)} ensures UpOk(cfg, t, l) {
      if BridgeAt(cfg, l) { assert Behind(cfg, cfg(l).secondaryBus); }
    }
  }

  lemma ForestOneBridge(cfg: Config, t: Topology)
    requires Forest(cfg, t)
    ensures OneBridgeEach(cfg)
  {
    forall l, k {:trigger BridgeAt(cfg, l), BridgeAt(cfg, k)} |
      BridgeAt(cfg, l) && BridgeAt(cfg, k) && cfg(l).secondaryBus == cfg(k).secondaryBus
      ensures l == k
    {
      assert UpOk(cfg, t, l) && UpOk(cfg, t, k);
    }
  }

  /** A machine has ranks exactly when its bridges form no cycle. */
  lemma AcyclicExists(cfg: Config)
    ensures (exists t :: Acyclic(cfg, t)) <==> NoCycle(cfg)
  {
    if t :| Acyclic(cfg, t) { AcyclicNoCycle(cfg, t); }
    if NoCycle(cfg) { NoCycleAcyclic(cfg); }
  }

  /** It has a topology exactly when, besides, no bus is behind two of them. */
  lemma ForestExists(cfg: Config)
    ensures (exists t :: Forest(cfg, t)) <==> NoCycle(cfg) && OneBridgeEach(cfg)
  {
    if t :| Forest(cfg, t) {
      AcyclicNoCycle(cfg, t);
      ForestOneBridge(cfg, t);
    }
    if NoCycle(cfg) && OneBridgeEach(cfg) { NoCycleForest(cfg); }
  }
}
