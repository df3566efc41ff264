/** What dev_configure (src/device/device.c) does with one window of a domain. */
module Configure {
  import opened Addresses
  import opened Windows
  import opened Devices
  import opened Layout
  import opened Placement
  import opened Allocator
  import opened IoWindow
  import C = Constraints

  /** Pass 1, the limit lowered as avoid_fixed_resources does, the base from resource_max, pass 2.
      If the computed size fits below the limit, every resource behind the window is placed. */
  method ConfigureMemoryWindow(bus: Bus, window: Resource, mask: set<Flag>, typ: set<Flag>, highest: address, ghost node: Node)
    requires node.res == window && node.kids == OnBus(bus, mask, typ) && Separate(node) && Linked(bus)
    requires Ready(Snap(node)) && !HasIo(Snap(node))
    modifies Owned(node)
    ensures var t1 := Compute(old(Snap(node)));
      var limit := Lower(t1.res.limit, highest);
      && Snap(node) == Allocate(AtTop(t1, limit))
      && (0 < t1.res.size <= limit + 1 ==> Placed(Snap(node)) && Reproduces(old(Snap(node)), Snap(node)))
  {
    ghost var t0 := Snap(node);
    ComputeResources(bus, window, mask, typ, node);
    PrepareTop(window, highest, node);
    AllocateResources(bus, window, mask, typ, node);
    if 0 < Compute(t0).res.size <= Lower(Compute(t0).res.limit, highest) + 1 {
      MemoryWindowSucceeds(t0, Lower(Compute(t0).res.limit, highest));
    }
  }

  // Between the passes.
  method PrepareTop(window: Resource, highest: address, ghost node: Node)
    requires node.res == window && Separate(node)
    modifies window
    ensures Snap(node) == AtTop(old(Snap(node)), Lower(old(window.limit), highest))
  {
    TopResource(window, highest, node.kids);
  }

  method TopResource(window: Resource, highest: address, ghost ns: seq<Node>)
    requires window !in OwnedSeq(ns)
    modifies window
    ensures SnapSeq(ns) == old(SnapSeq(ns))
    ensures var r := old(window.Value()).(limit := Lower(old(window.limit), highest));
      window.Value() == r.(base := ResourceMax(r))
  {
    if window.limit > highest {
      window.limit := highest;
    }
    window.base := ClearLow(Add(Sub(window.limit, window.size), 1), window.align);
  }

  /** Pass 1, the range shrunk to the region that the fixed resources leave, pass 2 from wherever it begins.
      If the walk has room there, every resource behind the window is placed. */
  method ConfigureIoWindow(bus: Bus, window: Resource, mask: set<Flag>, typ: set<Flag>, region: C.Region, ghost node: Node)
    requires node.res == window && node.kids == OnBus(bus, mask, typ) && Separate(node) && Linked(bus)
    requires Ready(Snap(node))
    modifies Owned(node)
    ensures var t := Shrunk(Compute(old(Snap(node))), region);
      && Snap(node) == Allocate(t)
      && (Room(t) ==> AllPlaced(Snap(node)))
  {
    ghost var t0 := Snap(node);
    ComputeResources(bus, window, mask, typ, node);
    RaiseWindow(window, region, node);
    AllocateResources(bus, window, mask, typ, node);
    if Room(Shrunk(Compute(t0), region)) {
      IoWindowSucceeds(t0, Shrunk(Compute(t0), region));
    }
  }

  // Between the passes.
  method RaiseWindow(window: Resource, region: C.Region, ghost node: Node)
    requires node.res == window && Separate(node)
    modifies window
    ensures Snap(node) == Shrunk(old(Snap(node)), region)
  {
    ShrinkResource(window, region, node.kids);
  }

  method ShrinkResource(window: Resource, region: C.Region, ghost ns: seq<Node>)
    requires window !in OwnedSeq(ns)
    modifies window
    ensures SnapSeq(ns) == old(SnapSeq(ns))
    ensures window.Value() == old(window.Value()).(
      base := if region.base > old(window.base) then region.base else old(window.base),
      limit := Lower(old(window.limit), region.limit))
  {
    if region.base > window.base {
      window.base := region.base;
    }
    if window.limit > region.limit {
      window.limit := region.limit;
    }
  }
}
