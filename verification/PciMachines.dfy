/** Machines for which both lists of PCI functions are known outright. */
module PciMachines {
  import opened Common
  import opened Pci
  import opened PciSpec

  // ---------------------------------------------------------------- a host with the multifunction bit

  /** A machine whose only function is a host with the multifunction bit. */
  function TwoFacedHost(): Config {
    (l: Loc) => if l == HOST then Header(0x8086, 0x80, 0x6, 0x0, 0) else Header(0xFFFF, 0xFF, 0xFF, 0xFF, 0xFF)
  }

  lemma TwoFacedTopology() returns (t: Topology)
    ensures Forest(TwoFacedHost(), t)
    ensures forall l {:trigger Visible(TwoFacedHost(), l)} :: Visible(TwoFacedHost(), l) <==> l == HOST
  {
    t := Topology((b: Byte) => 0, map[]);
  }

  /** Its traversal lists nothing, and brute force the host. */
  method HostMissed() returns (traversal: seq<Loc>, all: seq<Loc>)
    ensures traversal == [] && all == [HOST]
  {
    ghost var t := TwoFacedTopology();
    assert !Present(TwoFacedHost()(Loc(0, 0, 1)));
    assert HostEnd(TwoFacedHost(), 1) == 1;
    traversal, all := Compare(TwoFacedHost(), t);
    forall l {:trigger Times(all, l)} ensures Times(all, l) == Indicator(l == HOST) {
      TimesIsMultiset(all, l);
      assert Visible(TwoFacedHost(), l) <==> l == HOST;
    }
    OnlyOne(all, HOST);
  }

  // ---------------------------------------------------------------- a bridge

  /** A host, a bridge in slot `d` of bus 0 that leads to bus `b`, and on that bus a device with the headers `h` and,
      as function `f`, `g`. */
  function BridgedMachine(d: nat, b: Byte, f: nat, h: Header, g: Header): Config {
    (l: Loc) =>
      if l == Loc(0, 0, 0) then Header(0x8086, 0x00, 0x06, 0x00, 0)
      else if l == Loc(0, d, 0) then Header(0x8086, 0x01, 0x06, 0x04, b)
      else if l == Loc(b, 0, 0) then h
      else if l == Loc(b, 0, f) then g
      else Header(0xFFFF, 0xFF, 0xFF, 0xFF, 0xFF)
  }

  /** A header of a function that is there and leads to no other bus. */
  predicate PlainHeader(h: Header) {
    h.vendorId != 0xFFFF && !(h.classCode == 0x06 && h.subclass == 0x04)
  }

  predicate BridgedOk(d: nat, b: Byte, f: nat, h: Header, g: Header) {
    1 <= d < 32 && b != 0 && 1 <= f < 8 && PlainHeader(h) && PlainHeader(g)
  }

  /** The functions on the bus behind the bridge. */
  function BehindBridge(b: Byte, f: nat, h: Header): seq<Loc> {
    [Loc(b, 0, 0)] + if h.headerType >= 0x80 then [Loc(b, 0, f)] else []
  }

  lemma {:induction false} BridgedFunctions(d: nat, b: Byte, f: nat, h: Header, g: Header, bus: Byte, dev: nat, n: nat)
    requires BridgedOk(d, b, f, h, g)
    ensures FunctionsTo(BridgedMachine(d, b, f, h, g), bus, dev, n) ==
            if bus == b && dev == 0 && f < n then [Loc(b, 0, f)] else []
  {
    if n > 1 { BridgedFunctions(d, b, f, h, g, bus, dev, n - 1); }
  }

  lemma BridgedDevice(d: nat, b: Byte, f: nat, h: Header, g: Header, bus: Byte, dev: nat)
    requires BridgedOk(d, b, f, h, g)
    ensures DeviceList(BridgedMachine(d, b, f, h, g), bus, dev) ==
            if bus == 0 && (dev == 0 || dev == d) then [Loc(0, dev, 0)]
            else if bus == b && dev == 0 then BehindBridge(b, f, h)
            else []
  {
    BridgedFunctions(d, b, f, h, g, bus, dev, FUNCTIONS);
  }

  function OnBridgedBus(d: nat, b: Byte, f: nat, h: Header, bus: Byte, n: nat): seq<Loc> {
    if n == 0 then []
    else if bus == 0 then [Loc(0, 0, 0)] + if d < n then [Loc(0, d, 0)] else []
    else if bus == b then BehindBridge(b, f, h)
    else []
  }

  lemma {:induction false} BridgedDevices(d: nat, b: Byte, f: nat, h: Header, g: Header, bus: Byte, n: nat)
    requires BridgedOk(d, b, f, h, g)
    ensures DevicesTo(BridgedMachine(d, b, f, h, g), bus, n) == OnBridgedBus(d, b, f, h, bus, n)
  {
    if n > 0 {
      BridgedDevices(d, b, f, h, g, bus, n - 1);
      BridgedDevice(d, b, f, h, g, bus, n - 1);
    }
  }

  lemma {:induction false} BridgedBuses(d: nat, b: Byte, f: nat, h: Header, g: Header, n: nat)
    requires BridgedOk(d, b, f, h, g) && n <= 256
    ensures BusesTo(BridgedMachine(d, b, f, h, g), n) ==
            if n == 0 then [] else [Loc(0, 0, 0), Loc(0, d, 0)] + if b < n then BehindBridge(b, f, h) else []
  {
    if n > 0 {
      BridgedBuses(d, b, f, h, g, n - 1);
      BridgedDevices(d, b, f, h, g, n - 1, DEVICES);
    }
  }

  lemma BridgedTopology(d: nat, b: Byte, f: nat, h: Header, g: Header) returns (t: Topology)
    requires BridgedOk(d, b, f, h, g)
    ensures Acyclic(BridgedMachine(d, b, f, h, g), t)
  {
    t := Topology((x: Byte) => if x == 0 then 1 else 0, map[]);
  }

  lemma EntriesOne(cfg: Config, t: Topology, b: Byte, l: Loc)
    requires Acyclic(cfg, t)
    ensures Entries(cfg, t, b, [l]) == Entry(cfg, t, b, l)
  {
    assert [l][1..] == [];
  }

  lemma EntriesTwo(cfg: Config, t: Topology, b: Byte, l: Loc, k: Loc)
    requires Acyclic(cfg, t)
    ensures Entries(cfg, t, b, [l, k]) == Entry(cfg, t, b, l) + Entry(cfg, t, b, k)
  {
    assert [l, k] == [l] + [k];
    EntriesConcat(cfg, t, b, [l], [k]);
    EntriesOne(cfg, t, b, l);
    EntriesOne(cfg, t, b, k);
  }

  /** What the traversal lists behind the bridge. */
  lemma BehindScan(d: nat, b: Byte, f: nat, h: Header, g: Header, t: Topology)
    requires BridgedOk(d, b, f, h, g) && Acyclic(BridgedMachine(d, b, f, h, g), t)
    ensures Scan(BridgedMachine(d, b, f, h, g), t, b) == BehindBridge(b, f, h)
  {
    var cfg := BridgedMachine(d, b, f, h, g);
    BridgedDevices(d, b, f, h, g, b, DEVICES);
    EntriesTwo(cfg, t, b, Loc(b, 0, 0), Loc(b, 0, f));
    EntriesOne(cfg, t, b, Loc(b, 0, 0));
  }

  lemma BridgedTraversal(d: nat, b: Byte, f: nat, h: Header, g: Header, t: Topology)
    requires BridgedOk(d, b, f, h, g) && Acyclic(BridgedMachine(d, b, f, h, g), t)
    ensures Traversal(BridgedMachine(d, b, f, h, g), t) == [Loc(0, 0, 0)] + (BehindBridge(b, f, h) + [Loc(0, d, 0)])
  {
    var cfg := BridgedMachine(d, b, f, h, g);
    BridgedDevices(d, b, f, h, g, 0, DEVICES);
    assert DevicesTo(cfg, 0, DEVICES) == [Loc(0, 0, 0), Loc(0, d, 0)];
    EntriesTwo(cfg, t, 0, Loc(0, 0, 0), Loc(0, d, 0));
    BehindScan(d, b, f, h, g, t);
    assert Entry(cfg, t, 0, Loc(0, 0, 0)) == [Loc(0, 0, 0)];
  }

  /** The traversal lists what is behind the bridge before the bridge, brute force in the order of the buses; both
      list the second function of the device exactly if its first one has the multifunction bit. */
  method BridgeFollowed(d: nat, b: Byte, f: nat, h: Header, g: Header) returns (traversal: seq<Loc>, all: seq<Loc>)
    requires 1 <= d < 32 && b != 0 && 1 <= f < 8 && PlainHeader(h) && PlainHeader(g)
    ensures traversal == [Loc(0, 0, 0), Loc(b, 0, 0)] + (if h.headerType >= 0x80 then [Loc(b, 0, f)] else [])
                         + [Loc(0, d, 0)]
    ensures all == [Loc(0, 0, 0), Loc(0, d, 0), Loc(b, 0, 0)] + if h.headerType >= 0x80 then [Loc(b, 0, f)] else []
  {
    ghost var t := BridgedTopology(d, b, f, h, g);
    var first := new Enumeration(BridgedMachine(d, b, f, h, g));
    first.EnumerateTraversal(t);
    traversal := first.list;
    var second := new Enumeration(BridgedMachine(d, b, f, h, g));
    second.EnumerateAll();
    all := second.list;
    BridgedTraversal(d, b, f, h, g, t);
    BridgedBuses(d, b, f, h, g, BUSES);
  }
}
