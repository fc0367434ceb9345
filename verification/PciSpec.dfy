/** PCI functions in an immutable configuration space, and the two ways to list them. */
module PciSpec {
  import opened Common

  datatype Loc = Loc(bus: Byte, dev: nat, fun: nat)

  /** The header fields that matter to enumeration (section 6.2.1 of the PCI Local Bus Specification 3.0). */
  datatype Header = Header(vendorId: nat, headerType: Byte, classCode: Byte, subclass: Byte, secondaryBus: Byte)

  type Config = Loc -> Header

  predicate Present(h: Header) {
    h.vendorId != 0xFFFF
  }

  const HOST: Loc := Loc(0, 0, 0)

  predicate Multifunction(h: Header) {
    h.headerType >= 0x80
  }

  /** A PCI to PCI bridge. */
  predicate IsBridge(h: Header) {
    h.classCode == 0x6 && h.subclass == 0x4 && h.headerType % 0x80 == 1
  }

  /** A function that can be found: it is present, and not hidden behind a missing or single first function. */
  predicate Visible(cfg: Config, l: Loc) {
    && l.dev < 32 && l.fun < 8 && Present(cfg(l))
    && (l.fun == 0 || (Present(cfg(Loc(l.bus, l.dev, 0))) && Multifunction(cfg(Loc(l.bus, l.dev, 0)))))
  }

  // ---------------------------------------------------------------- brute force

  const FUNCTIONS: nat := 8
  const DEVICES: nat := 32
  const BUSES: nat := 256

  /** The present functions of a device below `n`, without the first. */
  function FunctionsTo(cfg: Config, bus: Byte, dev: nat, n: nat): seq<Loc> {
    if n <= 1 then []
    else FunctionsTo(cfg, bus, dev, n - 1) + if Present(cfg(Loc(bus, dev, n - 1))) then [Loc(bus, dev, n - 1)] else []
  }

  function DeviceList(cfg: Config, bus: Byte, dev: nat): seq<Loc> {
    var h := cfg(Loc(bus, dev, 0));
    if !Present(h) then []
    else [Loc(bus, dev, 0)] + if Multifunction(h) then FunctionsTo(cfg, bus, dev, FUNCTIONS) else []
  }

  /** The visible functions of the first `n` devices of a bus. */
  function DevicesTo(cfg: Config, bus: Byte, n: nat): seq<Loc> {
    if n == 0 then [] else DevicesTo(cfg, bus, n - 1) + DeviceList(cfg, bus, n - 1)
  }

  function BusList(cfg: Config, bus: Byte): seq<Loc> {
    DevicesTo(cfg, bus, DEVICES)
  }

  /** The visible functions of the first `n` buses. */
  function BusesTo(cfg: Config, n: nat): seq<Loc>
    requires n <= 256
  {
    if n == 0 then [] else BusesTo(cfg, n - 1) + BusList(cfg, n - 1)
  }

  function Indicator(b: bool): nat {
    if b then 1 else 0
  }

  /** How often `l` is listed. */
  function Times(s: seq<Loc>, l: Loc): nat {
    if s == [] then 0 else Indicator(s[0] == l) + Times(s[1..], l)
  }

  lemma {:induction false} TimesConcat(s: seq<Loc>, t: seq<Loc>, l: Loc)
    ensures Times(s + t, l) == Times(s, l) + Times(t, l)
  {
    if s == [] {
      assert s + t == t;
    } else {
      assert (s + t)[1..] == s[1..] + t;
      TimesConcat(s[1..], t, l);
    }
  }

  lemma {:induction false} TimesIsMultiset(s: seq<Loc>, l: Loc)
    ensures Times(s, l) == multiset(s)[l]
  {
    if s != [] {
      assert s == [s[0]] + s[1..];
      TimesIsMultiset(s[1..], l);
    }
  }

  lemma TimesOne(k: Loc, l: Loc)
    ensures Times([k], l) == Indicator(k == l)
  {
  }

  lemma {:induction false} FunctionsOnce(cfg: Config, bus: Byte, dev: nat, n: nat, l: Loc)
    ensures Times(FunctionsTo(cfg, bus, dev, n), l) ==
            Indicator(l.bus == bus && l.dev == dev && 1 <= l.fun < n && Present(cfg(l)))
  {
    if n > 1 {
      var k := Loc(bus, dev, n - 1);
      FunctionsOnce(cfg, bus, dev, n - 1, l);
      TimesConcat(FunctionsTo(cfg, bus, dev, n - 1), [k], l);
      TimesConcat(FunctionsTo(cfg, bus, dev, n - 1), [], l);
      TimesOne(k, l);
    }
  }

  lemma DeviceOnce(cfg: Config, bus: Byte, dev: nat, l: Loc)
    requires dev < 32
    ensures Times(DeviceList(cfg, bus, dev), l) == Indicator(l.bus == bus && l.dev == dev && Visible(cfg, l))
  {
    var first := Loc(bus, dev, 0);
    FunctionsOnce(cfg, bus, dev, FUNCTIONS, l);
    TimesConcat([first], FunctionsTo(cfg, bus, dev, FUNCTIONS), l);
    TimesConcat([first], [], l);
    TimesOne(first, l);
  }

  lemma {:induction false} DevicesOnce(cfg: Config, bus: Byte, n: nat, l: Loc)
    requires n <= 32
    ensures Times(DevicesTo(cfg, bus, n), l) == Indicator(l.bus == bus && l.dev < n && Visible(cfg, l))
  {
    if n > 0 {
      DevicesOnce(cfg, bus, n - 1, l);
      DeviceOnce(cfg, bus, n - 1, l);
      TimesConcat(DevicesTo(cfg, bus, n - 1), DeviceList(cfg, bus, n - 1), l);
    }
  }

  lemma BusOnce(cfg: Config, bus: Byte, l: Loc)
    ensures Times(BusList(cfg, bus), l) == Indicator(l.bus == bus && Visible(cfg, l))
  {
    DevicesOnce(cfg, bus, DEVICES, l);
  }

  /** Brute force lists exactly the visible functions, each once. */
  lemma {:induction false} BusesOnce(cfg: Config, n: nat, l: Loc)
    requires n <= 256
    ensures Times(BusesTo(cfg, n), l) == Indicator(l.bus < n && Visible(cfg, l))
  {
    if n > 0 {
      BusesOnce(cfg, n - 1, l);
      BusOnce(cfg, n - 1, l);
      TimesConcat(BusesTo(cfg, n - 1), BusList(cfg, n - 1), l);
    }
  }

  // ---------------------------------------------------------------- topology

  predicate BridgeAt(cfg: Config, l: Loc) {
    Visible(cfg, l) && IsBridge(cfg(l))
  }

  /** The bridges form a forest: `rank` sinks from each bus to the buses behind its bridges, and `up` gives
      for a bus behind a bridge that bridge, of which there is only one. */
  datatype Topology = Topology(rank: Byte -> nat, up: map<Byte, Loc>)

  ghost predicate RankOk(cfg: Config, t: Topology, l: Loc) {
    BridgeAt(cfg, l) ==> t.rank(cfg(l).secondaryBus) < t.rank(l.bus)
  }

  ghost predicate UpOk(cfg: Config, t: Topology, l: Loc) {
    BridgeAt(cfg, l) ==> cfg(l).secondaryBus in t.up && t.up[cfg(l).secondaryBus] == l
  }

  ghost predicate Acyclic(cfg: Config, t: Topology) {
    forall l {:trigger RankOk(cfg, t, l)} :: RankOk(cfg, t, l)
  }

  ghost predicate Forest(cfg: Config, t: Topology) {
    && Acyclic(cfg, t) && (forall b {:trigger t.rank(b)} :: t.rank(b) < 256)
    && (forall l {:trigger UpOk(cfg, t, l)} :: UpOk(cfg, t, l))
    && forall b {:trigger t.up[b]} :: b in t.up ==> BridgeAt(cfg, t.up[b]) && cfg(t.up[b]).secondaryBus == b
  }

  /** Climbing bridges from bus `c` leads to bus `b`. */
  ghost predicate Below(cfg: Config, t: Topology, b: Byte, c: Byte)
    requires Forest(cfg, t)
    decreases 256 - t.rank(c)
  {
    c == b || (c in t.up && (assert RankOk(cfg, t, t.up[c]); Below(cfg, t, b, t.up[c].bus)))
  }

  lemma {:induction false} BelowRank(cfg: Config, t: Topology, b: Byte, c: Byte)
    requires Forest(cfg, t) && Below(cfg, t, b, c)
    ensures t.rank(c) <= t.rank(b) && (t.rank(c) == t.rank(b) ==> b == c)
    decreases 256 - t.rank(c)
  {
    if c != b {
      assert RankOk(cfg, t, t.up[c]);
      BelowRank(cfg, t, b, t.up[c].bus);
    }
  }

  /** What is below a bus behind a bridge is below the bus of the bridge. */
  lemma {:induction false} BelowUp(cfg: Config, t: Topology, l: Loc, c: Byte)
    requires Forest(cfg, t) && BridgeAt(cfg, l) && Below(cfg, t, cfg(l).secondaryBus, c)
    ensures Below(cfg, t, l.bus, c)
    decreases 256 - t.rank(c)
  {
    assert UpOk(cfg, t, l);
    assert c in t.up ==> RankOk(cfg, t, t.up[c]);
    if c != cfg(l).secondaryBus { BelowUp(cfg, t, l, t.up[c].bus); }
  }

  /** The bridge on bus `b` that leads to a bus strictly below it. */
  ghost function BridgeTowards(cfg: Config, t: Topology, b: Byte, c: Byte): (l: Loc)
    requires Forest(cfg, t) && Below(cfg, t, b, c) && c != b
    ensures BridgeAt(cfg, l) && l.bus == b && Below(cfg, t, cfg(l).secondaryBus, c)
    decreases 256 - t.rank(c)
  {
    assert RankOk(cfg, t, t.up[c]);
    if t.up[c].bus == b then t.up[c] else BridgeTowards(cfg, t, b, t.up[c].bus)
  }

  /** There is only one. */
  lemma {:induction false} OneBridgeTowards(cfg: Config, t: Topology, l: Loc, k: Loc, c: Byte)
    requires Forest(cfg, t) && BridgeAt(cfg, l) && BridgeAt(cfg, k) && l.bus == k.bus
    requires Below(cfg, t, cfg(l).secondaryBus, c) && Below(cfg, t, cfg(k).secondaryBus, c)
    ensures l == k
    decreases 256 - t.rank(c)
  {
    var s, r := cfg(l).secondaryBus, cfg(k).secondaryBus;
    assert UpOk(cfg, t, l) && UpOk(cfg, t, k) && RankOk(cfg, t, l) && RankOk(cfg, t, k);
    if c == s {
      if c != r { BelowRank(cfg, t, r, l.bus); }
    } else if c == r {
      BelowRank(cfg, t, s, k.bus);
    } else {
      assert RankOk(cfg, t, t.up[c]);
      OneBridgeTowards(cfg, t, l, k, t.up[c].bus);
    }
  }

  // ---------------------------------------------------------------- traversal

  /** What the traversal lists for one function of bus `b`: first what is behind it, if it is a bridge. */
  ghost function Entry(cfg: Config, t: Topology, b: Byte, l: Loc): seq<Loc>
    requires Acyclic(cfg, t)
    decreases t.rank(b), 0, 0
  {
    (if l.bus == b && BridgeAt(cfg, l) then assert RankOk(cfg, t, l); Scan(cfg, t, cfg(l).secondaryBus) else []) + [l]
  }

  ghost function Entries(cfg: Config, t: Topology, b: Byte, s: seq<Loc>): seq<Loc>
    requires Acyclic(cfg, t)
    decreases t.rank(b), 1, |s|
  {
    if s == [] then [] else Entry(cfg, t, b, s[0]) + Entries(cfg, t, b, s[1..])
  }

  /** What the traversal lists for one bus. */
  ghost function Scan(cfg: Config, t: Topology, b: Byte): seq<Loc>
    requires Acyclic(cfg, t)
    decreases t.rank(b), 2, 0
  {
    Entries(cfg, t, b, DevicesTo(cfg, b, DEVICES))
  }

  lemma {:induction false} EntriesConcat(cfg: Config, t: Topology, b: Byte, s: seq<Loc>, u: seq<Loc>)
    requires Acyclic(cfg, t)
    ensures Entries(cfg, t, b, s + u) == Entries(cfg, t, b, s) + Entries(cfg, t, b, u)
    decreases |s|
  {
    if s == [] {
      assert s + u == u;
    } else {
      assert (s + u)[1..] == s[1..] + u;
      EntriesConcat(cfg, t, b, s[1..], u);
    }
  }

  lemma EntriesNext(cfg: Config, t: Topology, b: Byte, s: seq<Loc>, l: Loc)
    requires Acyclic(cfg, t)
    ensures Entries(cfg, t, b, s + [l]) == Entries(cfg, t, b, s) + Entry(cfg, t, b, l)
  {
    EntriesConcat(cfg, t, b, s, [l]);
    assert Entries(cfg, t, b, [l]) == Entry(cfg, t, b, l) + Entries(cfg, t, b, []);
  }

  lemma Regroup(a: seq<Loc>, b: seq<Loc>, c: seq<Loc>)
    ensures a + (b + c) == (a + b) + c
  {
  }

  lemma EntriesFunction(cfg: Config, t: Topology, b: Byte, dev: nat, n: nat, base: seq<Loc>)
    requires Acyclic(cfg, t) && n > 0
    ensures base + Entries(cfg, t, b, FunctionsTo(cfg, b, dev, n + 1)) ==
            (base + Entries(cfg, t, b, FunctionsTo(cfg, b, dev, n))) +
            if Present(cfg(Loc(b, dev, n))) then Entry(cfg, t, b, Loc(b, dev, n)) else []
  {
    var s, l := FunctionsTo(cfg, b, dev, n), Loc(b, dev, n);
    if Present(cfg(l)) {
      EntriesNext(cfg, t, b, s, l);
      Regroup(base, Entries(cfg, t, b, s), Entry(cfg, t, b, l));
    } else {
      assert s + [] == s;
    }
  }

  lemma EntriesDevice(cfg: Config, t: Topology, b: Byte, dev: nat, base: seq<Loc>)
    requires Acyclic(cfg, t) && Present(cfg(Loc(b, dev, 0)))
    ensures var first := base + Entry(cfg, t, b, Loc(b, dev, 0));
            base + Entries(cfg, t, b, DeviceList(cfg, b, dev)) ==
              if Multifunction(cfg(Loc(b, dev, 0))) then first + Entries(cfg, t, b, FunctionsTo(cfg, b, dev, FUNCTIONS))
              else first
  {
    var first, rest := Loc(b, dev, 0), FunctionsTo(cfg, b, dev, FUNCTIONS);
    assert ([first] + rest)[1..] == rest && ([first] + [])[1..] == [];
    Regroup(base, Entry(cfg, t, b, first), Entries(cfg, t, b, rest));
  }

  lemma EntriesBus(cfg: Config, t: Topology, b: Byte, n: nat, base: seq<Loc>)
    requires Acyclic(cfg, t)
    ensures base + Entries(cfg, t, b, DevicesTo(cfg, b, n + 1)) ==
            (base + Entries(cfg, t, b, DevicesTo(cfg, b, n))) + Entries(cfg, t, b, DeviceList(cfg, b, n))
  {
    EntriesConcat(cfg, t, b, DevicesTo(cfg, b, n), DeviceList(cfg, b, n));
    Regroup(base, Entries(cfg, t, b, DevicesTo(cfg, b, n)), Entries(cfg, t, b, DeviceList(cfg, b, n)));
  }

  ghost predicate OnBus(cfg: Config, b: Byte, l: Loc) {
    l.bus == b && Visible(cfg, l)
  }

  /** The function of bus `b` behind or at which `l` is found. */
  ghost function Toward(cfg: Config, t: Topology, b: Byte, l: Loc): Loc
    requires Forest(cfg, t) && Below(cfg, t, b, l.bus)
  {
    if l.bus == b then l else BridgeTowards(cfg, t, b, l.bus)
  }

  ghost predicate Found(cfg: Config, t: Topology, b: Byte, l: Loc)
    requires Forest(cfg, t)
  {
    Visible(cfg, l) && Below(cfg, t, b, l.bus)
  }

  lemma EntryTimes(cfg: Config, t: Topology, b: Byte, f: Loc, l: Loc)
    requires Forest(cfg, t) && OnBus(cfg, b, f)
    ensures Times(Entry(cfg, t, b, f), l) == Indicator(Found(cfg, t, b, l) && f == Toward(cfg, t, b, l))
    decreases t.rank(b), 0, 0
  {
    TimesOne(f, l);
    if BridgeAt(cfg, f) {
      var s := cfg(f).secondaryBus;
      assert RankOk(cfg, t, f);
      ScanTimes(cfg, t, s, l);
      TimesConcat(Scan(cfg, t, s), [f], l);
      if Below(cfg, t, s, l.bus) {
        BelowUp(cfg, t, f, l.bus);
        BelowRank(cfg, t, s, l.bus);
        OneBridgeTowards(cfg, t, f, BridgeTowards(cfg, t, b, l.bus), l.bus);
      }
    } else {
      TimesConcat([], [f], l);
    }
  }

  lemma {:induction false} EntriesTimes(cfg: Config, t: Topology, b: Byte, s: seq<Loc>, l: Loc)
    requires Forest(cfg, t) && forall i {:trigger s[i]} :: 0 <= i < |s| ==> OnBus(cfg, b, s[i])
    ensures Times(Entries(cfg, t, b, s), l) == if Found(cfg, t, b, l) then Times(s, Toward(cfg, t, b, l)) else 0
    decreases t.rank(b), 1, |s|
  {
    if s != [] {
      EntryTimes(cfg, t, b, s[0], l);
      EntriesTimes(cfg, t, b, s[1..], l);
      TimesConcat(Entry(cfg, t, b, s[0]), Entries(cfg, t, b, s[1..]), l);
    }
  }

  lemma {:induction false} TimesMember(s: seq<Loc>, i: nat)
    requires i < |s|
    ensures Times(s, s[i]) > 0
  {
    if i > 0 { TimesMember(s[1..], i - 1); }
  }

  /** The traversal of a bus lists exactly the visible functions at or below it, each once. */
  lemma ScanTimes(cfg: Config, t: Topology, b: Byte, l: Loc)
    requires Forest(cfg, t)
    ensures Times(Scan(cfg, t, b), l) == Indicator(Found(cfg, t, b, l))
    decreases t.rank(b), 2, 0
  {
    var s := DevicesTo(cfg, b, DEVICES);
    forall i {:trigger s[i]} | 0 <= i < |s| ensures OnBus(cfg, b, s[i]) {
      TimesMember(s, i);
      DevicesOnce(cfg, b, DEVICES, s[i]);
    }
    EntriesTimes(cfg, t, b, s, l);
    if Found(cfg, t, b, l) { DevicesOnce(cfg, b, DEVICES, Toward(cfg, t, b, l)); }
  }

  // ---------------------------------------------------------------- hosts

  /** The first function of the host from `fun` on that is missing. */
  function HostEnd(cfg: Config, fun: nat): (n: nat)
    requires fun <= 8
    ensures fun <= n <= 8
    ensures forall f {:trigger Loc(0, 0, f)} :: fun <= f < n ==> Present(cfg(Loc(0, 0, f)))
    ensures n < 8 ==> !Present(cfg(Loc(0, 0, n)))
    decreases 8 - fun
  {
    if fun == 8 || !Present(cfg(Loc(0, 0, fun))) then fun else HostEnd(cfg, fun + 1)
  }

  /** The scans of the buses from 1 up to `n`. */
  ghost function HostScans(cfg: Config, t: Topology, n: nat): seq<Loc>
    requires Acyclic(cfg, t) && n <= 256
  {
    if n <= 1 then [] else HostScans(cfg, t, n - 1) + Scan(cfg, t, n - 1)
  }

  /** A bus at which the traversal starts: bus 0 below a single host, else one bus for each further function
      of the host up to the first missing one. */
  ghost predicate IsRoot(cfg: Config, b: Byte) {
    if Multifunction(cfg(HOST)) then 1 <= b < HostEnd(cfg, 1) else b == 0
  }

  ghost function Traversal(cfg: Config, t: Topology): seq<Loc>
    requires Acyclic(cfg, t)
  {
    if Multifunction(cfg(HOST)) then HostScans(cfg, t, HostEnd(cfg, 1)) else Scan(cfg, t, 0)
  }

  /** How many of the buses from 1 up to `n` are at or above bus `c`. */
  ghost function RootsAbove(cfg: Config, t: Topology, n: nat, c: Byte): nat
    requires Forest(cfg, t) && n <= 256
  {
    if n <= 1 then 0 else RootsAbove(cfg, t, n - 1, c) + Indicator(Below(cfg, t, n - 1, c))
  }

  lemma {:induction false} HostScansTimes(cfg: Config, t: Topology, n: nat, l: Loc)
    requires Forest(cfg, t) && n <= 256
    ensures Times(HostScans(cfg, t, n), l) == if Visible(cfg, l) then RootsAbove(cfg, t, n, l.bus) else 0
  {
    if n > 1 {
      HostScansTimes(cfg, t, n - 1, l);
      ScanTimes(cfg, t, n - 1, l);
      TimesConcat(HostScans(cfg, t, n - 1), Scan(cfg, t, n - 1), l);
    }
  }

  /** None of the buses from 1 up to `n` is at or above bus `c`. */
  ghost predicate NoneAbove(cfg: Config, t: Topology, n: nat, c: Byte)
    requires Forest(cfg, t)
  {
    forall b: Byte {:trigger Below(cfg, t, b, c)} :: 1 <= b < n ==> !Below(cfg, t, b, c)
  }

  lemma {:induction false} NoRootAbove(cfg: Config, t: Topology, n: nat, c: Byte)
    requires Forest(cfg, t) && n <= 256
    ensures RootsAbove(cfg, t, n, c) == 0 <==> NoneAbove(cfg, t, n, c)
  {
    if n > 1 {
      var last: Byte := n - 1;
      NoRootAbove(cfg, t, last, c);
      assert RootsAbove(cfg, t, n, c) == RootsAbove(cfg, t, last, c) + Indicator(Below(cfg, t, last, c));
      assert NoneAbove(cfg, t, n, c) <==> NoneAbove(cfg, t, last, c) && !Below(cfg, t, last, c);
    }
  }

  /** `b` is the only one of the buses from 1 up to `n` at or above bus `c`. */
  ghost predicate OnlyAbove(cfg: Config, t: Topology, n: nat, c: Byte, b: Byte)
    requires Forest(cfg, t)
  {
    && 1 <= b < n && Below(cfg, t, b, c)
    && forall d: Byte {:trigger Below(cfg, t, d, c)} :: 1 <= d < n && Below(cfg, t, d, c) ==> d == b
  }

  lemma {:induction false} OneRootAbove(cfg: Config, t: Topology, n: nat, c: Byte)
    requires Forest(cfg, t) && n <= 256
    ensures RootsAbove(cfg, t, n, c) == 1 <==>
            exists b {:trigger OnlyAbove(cfg, t, n, c, b)} :: OnlyAbove(cfg, t, n, c, b)
  {
    if n > 1 {
      var last: Byte := n - 1;
      OneRootAbove(cfg, t, last, c);
      NoRootAbove(cfg, t, last, c);
      assert RootsAbove(cfg, t, n, c) == RootsAbove(cfg, t, last, c) + Indicator(Below(cfg, t, last, c));
      if Below(cfg, t, last, c) {
        assert NoneAbove(cfg, t, last, c) ==> OnlyAbove(cfg, t, n, c, last);
        assert forall b {:trigger OnlyAbove(cfg, t, n, c, b)} ::
            OnlyAbove(cfg, t, n, c, b) ==> NoneAbove(cfg, t, last, c);
      } else {
        assert forall b {:trigger OnlyAbove(cfg, t, n, c, b)} {:trigger OnlyAbove(cfg, t, last, c, b)} ::
            OnlyAbove(cfg, t, n, c, b) <==> OnlyAbove(cfg, t, last, c, b);
      }
    }
  }

  /** `b` is the only bus at or above `c` at which the traversal starts. */
  ghost predicate OnlyRoot(cfg: Config, t: Topology, c: Byte, b: Byte)
    requires Forest(cfg, t)
  {
    && IsRoot(cfg, b) && Below(cfg, t, b, c)
    && forall d: Byte {:trigger Below(cfg, t, d, c)} :: IsRoot(cfg, d) && Below(cfg, t, d, c) ==> d == b
  }

  ghost predicate OneRoot(cfg: Config, t: Topology, c: Byte)
    requires Forest(cfg, t)
  {
    exists b {:trigger OnlyRoot(cfg, t, c, b)} :: OnlyRoot(cfg, t, c, b)
  }

  /** Every bus with a visible function is below exactly one bus at which the traversal starts. */
  ghost predicate Covered(cfg: Config, t: Topology)
    requires Forest(cfg, t)
  {
    forall l {:trigger Visible(cfg, l)} :: Visible(cfg, l) ==> OneRoot(cfg, t, l.bus)
  }

  /** The traversal lists a visible function once iff exactly one of its starting points is above it. */
  lemma TraversalTimes(cfg: Config, t: Topology, l: Loc)
    requires Forest(cfg, t)
    ensures Visible(cfg, l) ==> (Times(Traversal(cfg, t), l) == 1 <==> OneRoot(cfg, t, l.bus))
    ensures !Visible(cfg, l) ==> Times(Traversal(cfg, t), l) == 0
  {
    if Multifunction(cfg(HOST)) {
      var n := HostEnd(cfg, 1);
      HostScansTimes(cfg, t, n, l);
      OneRootAbove(cfg, t, n, l.bus);
      assert forall b {:trigger OnlyRoot(cfg, t, l.bus, b)} {:trigger OnlyAbove(cfg, t, n, l.bus, b)} ::
          OnlyRoot(cfg, t, l.bus, b) <==> OnlyAbove(cfg, t, n, l.bus, b);
    } else {
      ScanTimes(cfg, t, 0, l);
      assert Below(cfg, t, 0, l.bus) <==> OnlyRoot(cfg, t, l.bus, 0);
    }
  }

  ghost predicate SameTimes(s: seq<Loc>, u: seq<Loc>) {
    forall l {:trigger Times(s, l)} :: Times(s, l) == Times(u, l)
  }

  lemma SameMultiset(s: seq<Loc>, u: seq<Loc>)
    ensures multiset(s) == multiset(u) <==> SameTimes(s, u)
  {
    if multiset(s) == multiset(u) {
      forall l {:trigger Times(s, l)} ensures Times(s, l) == Times(u, l) {
        TimesIsMultiset(s, l);
        TimesIsMultiset(u, l);
      }
    }
    if SameTimes(s, u) {
      forall l ensures multiset(s)[l] == multiset(u)[l] {
        TimesIsMultiset(s, l);
        TimesIsMultiset(u, l);
      }
      assert multiset(s) == multiset(u);
    }
  }

  lemma CoveredIfSame(cfg: Config, t: Topology, l: Loc)
    requires Forest(cfg, t) && Visible(cfg, l) && SameTimes(Traversal(cfg, t), BusesTo(cfg, BUSES))
    ensures OneRoot(cfg, t, l.bus)
  {
    assert Times(Traversal(cfg, t), l) == Times(BusesTo(cfg, BUSES), l);
    BusesOnce(cfg, BUSES, l);
    TraversalTimes(cfg, t, l);
  }

  lemma SameIfCovered(cfg: Config, t: Topology, l: Loc)
    requires Forest(cfg, t) && Covered(cfg, t)
    ensures Times(Traversal(cfg, t), l) == Times(BusesTo(cfg, BUSES), l)
  {
    BusesOnce(cfg, BUSES, l);
    TraversalTimes(cfg, t, l);
  }

  /** The traversal lists what brute force lists, in another order, exactly if every bus with a visible
      function is below exactly one of its starting points. */
  lemma TraversalComplete(cfg: Config, t: Topology)
    requires Forest(cfg, t)
    ensures multiset(Traversal(cfg, t)) == multiset(BusesTo(cfg, BUSES)) <==> Covered(cfg, t)
  {
    var s, u := Traversal(cfg, t), BusesTo(cfg, BUSES);
    SameMultiset(s, u);
    if SameTimes(s, u) {
      forall l {:trigger Visible(cfg, l)} | Visible(cfg, l) ensures OneRoot(cfg, t, l.bus) {
        CoveredIfSame(cfg, t, l);
      }
    }
    if Covered(cfg, t) {
      forall l {:trigger Times(s, l)} ensures Times(s, l) == Times(u, l) {
        SameIfCovered(cfg, t, l);
      }
    }
  }

  /** Below a single host the condition is that every populated bus is reachable from bus 0. */
  lemma SingleHost(cfg: Config, t: Topology)
    requires Forest(cfg, t) && !Multifunction(cfg(HOST))
    ensures Covered(cfg, t) <==> forall l {:trigger Visible(cfg, l)} :: Visible(cfg, l) ==> Below(cfg, t, 0, l.bus)
  {
    forall l: Loc {:trigger Visible(cfg, l)} ensures OneRoot(cfg, t, l.bus) <==> Below(cfg, t, 0, l.bus) {
      assert Below(cfg, t, 0, l.bus) <==> OnlyRoot(cfg, t, l.bus, 0);
    }
  }

  /** With several hosts it fails as soon as there is a function on bus 0, which no bridge leads to: the
      host itself is one if it is there at all. */
  lemma SeveralHosts(cfg: Config, t: Topology)
    requires Forest(cfg, t) && Multifunction(cfg(HOST)) && 0 !in t.up && Present(cfg(HOST))
    ensures !Covered(cfg, t)
  {
    assert Visible(cfg, HOST);
    assert forall b {:trigger OnlyRoot(cfg, t, 0, b)} :: !OnlyRoot(cfg, t, 0, b);
  }

  /** A list in which only `k` occurs, and once. */
  lemma OnlyOne(s: seq<Loc>, k: Loc)
    requires forall l {:trigger Times(s, l)} :: Times(s, l) == Indicator(l == k)
    ensures s == [k]
  {
    assert Times(s, k) == 1;
    TimesMember(s, 0);
    assert s[0] == k && Times(s, k) == 1 + Times(s[1..], k);
    var rest := s[1..];
    if rest != [] {
      TimesMember(rest, 0);
      TimesMember(s, 1);
    }
  }
}
