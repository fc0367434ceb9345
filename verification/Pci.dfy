/** PCI enumeration by recursive traversal of bridges and by brute force. */
module Pci {
  import opened Common
  import opened PciSpec

  class Enumeration {
    const cfg: Config
    var list: seq<Loc>

    constructor (cfg: Config)
      ensures this.cfg == cfg && list == []
    {
      this.cfg := cfg;
      list := [];
    }

    // -------------------------------------------------------------- brute force

    /** One further function of a device. */
    method CheckFunction(bus: Byte, dev: nat, fun: nat, ghost base: seq<Loc>)
      requires fun >= 1 && list == base + FunctionsTo(cfg, bus, dev, fun)
      modifies this
      ensures list == base + FunctionsTo(cfg, bus, dev, fun + 1)
    {
      if Present(cfg(Loc(bus, dev, fun))) {
        Regroup(base, FunctionsTo(cfg, bus, dev, fun), [Loc(bus, dev, fun)]);
        list := list + [Loc(bus, dev, fun)];
      }
    }

    method CheckFunctions(bus: Byte, dev: nat)
      modifies this
      ensures list == old(list) + FunctionsTo(cfg, bus, dev, FUNCTIONS)
    {
      var fun := 1;
      while fun < FUNCTIONS
        invariant 1 <= fun <= FUNCTIONS && list == old(list) + FunctionsTo(cfg, bus, dev, fun)
      {
        CheckFunction(bus, dev, fun, old(list));
        fun := fun + 1;
      }
    }

    /** Lists the functions of one device. */
    method DeviceCheck(bus: Byte, dev: nat)
      modifies this
      ensures list == old(list) + DeviceList(cfg, bus, dev)
    {
      var header := cfg(Loc(bus, dev, 0));
      if !Present(header) {
        return;
      }
      list := list + [Loc(bus, dev, 0)];
      if Multifunction(header) {
        CheckFunctions(bus, dev);
      }
    }

    method CheckNext(bus: Byte, dev: nat, ghost base: seq<Loc>)
      requires list == base + DevicesTo(cfg, bus, dev)
      modifies this
      ensures list == base + DevicesTo(cfg, bus, dev + 1)
    {
      Regroup(base, DevicesTo(cfg, bus, dev), DeviceList(cfg, bus, dev));
      DeviceCheck(bus, dev);
    }

    /** Lists the functions of one bus. */
    method CheckDevices(bus: Byte)
      modifies this
      ensures list == old(list) + BusList(cfg, bus)
    {
      var dev := 0;
      while dev < DEVICES
        invariant 0 <= dev <= DEVICES && list == old(list) + DevicesTo(cfg, bus, dev)
      {
        CheckNext(bus, dev, old(list));
        dev := dev + 1;
      }
    }

    /** Lists every function by looking in every slot. */
    method EnumerateAll()
      requires list == []
      modifies this
      ensures list == BusesTo(cfg, BUSES)
    {
      var bus := 0;
      while bus < BUSES
        invariant 0 <= bus <= BUSES && list == BusesTo(cfg, bus)
      {
        CheckDevices(bus);
        bus := bus + 1;
      }
    }

    // -------------------------------------------------------------- traversal

    /** Scans the bus behind a function if it is a bridge, and lists the function. */
    method FunctionSecbusCheck(l: Loc, ghost t: Topology)
      requires Acyclic(cfg, t) && l.dev < 32 && l.fun < 8
      requires l.fun == 0 || (Present(cfg(Loc(l.bus, l.dev, 0))) && Multifunction(cfg(Loc(l.bus, l.dev, 0))))
      modifies this
      ensures list == old(list) + if Present(cfg(l)) then Entry(cfg, t, l.bus, l) else []
      decreases t.rank(l.bus), 0
    {
      var header := cfg(l);
      if !Present(header) {
        return;
      }
      if IsBridge(header) {
        assert RankOk(cfg, t, l);
        BusScan(header.secondaryBus, t);
      }
      list := list + [l];
    }

    /** One further function of a device. */
    method NextFunction(bus: Byte, dev: nat, fun: nat, ghost t: Topology, ghost base: seq<Loc>)
      requires Acyclic(cfg, t) && dev < 32 && 1 <= fun < 8
      requires Present(cfg(Loc(bus, dev, 0))) && Multifunction(cfg(Loc(bus, dev, 0)))
      requires list == base + Entries(cfg, t, bus, FunctionsTo(cfg, bus, dev, fun))
      modifies this
      ensures list == base + Entries(cfg, t, bus, FunctionsTo(cfg, bus, dev, fun + 1))
      decreases t.rank(bus), 1
    {
      EntriesFunction(cfg, t, bus, dev, fun, base);
      FunctionSecbusCheck(Loc(bus, dev, fun), t);
    }

    /** Lists the further functions of a device with all that is behind them. */
    method FunctionsScan(bus: Byte, dev: nat, ghost t: Topology)
      requires Acyclic(cfg, t) && dev < 32
      requires Present(cfg(Loc(bus, dev, 0))) && Multifunction(cfg(Loc(bus, dev, 0)))
      modifies this
      ensures list == old(list) + Entries(cfg, t, bus, FunctionsTo(cfg, bus, dev, FUNCTIONS))
      decreases t.rank(bus), 2
    {
      var fun := 1;
      assert Entries(cfg, t, bus, FunctionsTo(cfg, bus, dev, fun)) == [];
      while fun < FUNCTIONS
        invariant 1 <= fun <= FUNCTIONS
        invariant list == old(list) + Entries(cfg, t, bus, FunctionsTo(cfg, bus, dev, fun))
      {
        NextFunction(bus, dev, fun, t, old(list));
        fun := fun + 1;
      }
    }

    /** Lists a device with all that is behind its functions. */
    method DeviceScan(bus: Byte, dev: nat, ghost t: Topology)
      requires Acyclic(cfg, t) && dev < 32
      modifies this
      ensures list == old(list) + Entries(cfg, t, bus, DeviceList(cfg, bus, dev))
      decreases t.rank(bus), 3
    {
      var header := cfg(Loc(bus, dev, 0));
      if !Present(header) {
        return;
      }
      EntriesDevice(cfg, t, bus, dev, list);
      FunctionSecbusCheck(Loc(bus, dev, 0), t);
      if Multifunction(header) {
        FunctionsScan(bus, dev, t);
      }
    }

    /** One slot more of a bus. */
    method NextDevice(bus: Byte, dev: nat, ghost t: Topology, ghost base: seq<Loc>)
      requires Acyclic(cfg, t) && dev < 32
      requires list == base + Entries(cfg, t, bus, DevicesTo(cfg, bus, dev))
      modifies this
      ensures list == base + Entries(cfg, t, bus, DevicesTo(cfg, bus, dev + 1))
      decreases t.rank(bus), 4
    {
      EntriesBus(cfg, t, bus, dev, base);
      DeviceScan(bus, dev, t);
    }

    /** Scans every slot of one bus. */
    method BusScan(bus: Byte, ghost t: Topology)
      requires Acyclic(cfg, t)
      modifies this
      ensures list == old(list) + Scan(cfg, t, bus)
      decreases t.rank(bus), 5
    {
      var dev := 0;
      while dev < DEVICES
        invariant 0 <= dev <= DEVICES
        invariant list == old(list) + Entries(cfg, t, bus, DevicesTo(cfg, bus, dev))
      {
        NextDevice(bus, dev, t, old(list));
        dev := dev + 1;
      }
    }

    /** Scans one bus for each further function of the host, up to the first missing one. */
    method ScanHosts(ghost t: Topology)
      requires list == [] && Acyclic(cfg, t)
      modifies this
      ensures list == HostScans(cfg, t, HostEnd(cfg, 1))
    {
      var fun := 1;
      ghost var end := HostEnd(cfg, fun);
      while fun < FUNCTIONS
        invariant 1 <= fun <= FUNCTIONS && list == HostScans(cfg, t, fun) && HostEnd(cfg, fun) == end
      {
        if !Present(cfg(Loc(0, 0, fun))) {
          break;
        }
        BusScan(fun, t);
        fun := fun + 1;
      }
    }

    /** Traverses the bridges from the host, or from several hosts if the first one has several functions. */
    method EnumerateTraversal(ghost t: Topology)
      requires list == [] && Acyclic(cfg, t)
      modifies this
      ensures list == Traversal(cfg, t)
    {
      if !Multifunction(cfg(HOST)) {
        BusScan(0, t);
      } else {
        ScanHosts(t);
      }
    }
  }

  /** Both enumerations of one machine. They list the same functions equally often exactly if every bus with
      a visible function is below exactly one bus at which the traversal starts; brute force lists every
      visible function once. */
  method Compare(cfg: Config, ghost t: Topology) returns (traversal: seq<Loc>, all: seq<Loc>)
    requires Forest(cfg, t)
    ensures traversal == Traversal(cfg, t) && all == BusesTo(cfg, BUSES)
    ensures multiset(traversal) == multiset(all) <==> Covered(cfg, t)
    ensures forall l {:trigger multiset(all)[l]} :: multiset(all)[l] == Indicator(Visible(cfg, l))
  {
    var a := new Enumeration(cfg);
    a.EnumerateTraversal(t);
    traversal := a.list;
    var b := new Enumeration(cfg);
    b.EnumerateAll();
    all := b.list;
    TraversalComplete(cfg, t);
    forall l {:trigger multiset(all)[l]} ensures multiset(all)[l] == Indicator(Visible(cfg, l)) {
      BusesOnce(cfg, BUSES, l);
      TimesIsMultiset(all, l);
    }
  }
}
