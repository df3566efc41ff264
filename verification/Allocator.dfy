/**
  The resource allocator of src/device/device.c on mutable resources, proved to compute the
  functions of Windows.dfy on every tree and every 64-bit value.
 */
module Allocator {
  import opened Addresses
  import opened Wrappers
  import opened Windows
  import opened Devices
  import S = Selection

  // ------------------------------------------------------------------ largest_resource

  // Positions that take no part in the allocation do not change the search.
  lemma {:induction false} SkipUnlisted(keys: seq<S.Key>, last: Option<nat>, st: S.PickState, i: nat, j: nat)
    requires i <= j <= |keys| && (last.Some? ==> last.value < |keys| && keys[last.value].eligible)
    requires st.result.Some? ==> st.result.value < |keys|
    requires forall k :: i <= k < j ==> !keys[k].eligible
    ensures S.Search(keys, last, st, i) == S.Search(keys, last, st, j)
    decreases j - i
  {
    if i < j {
      SkipUnlisted(keys, last, st, i + 1, j);
    }
  }

  lemma {:induction false} OnDeviceDisabled(dev: Device, rs: seq<Resource>, mask: set<Flag>, typ: set<Flag>)
    requires !dev.enabled
    ensures forall k :: 0 <= k < |OnDevice(dev, rs, mask, typ)| ==> !OnDevice(dev, rs, mask, typ)[k].listed
    decreases |rs|
  {
    if rs != [] {
      OnDeviceDisabled(dev, rs[1..], mask, typ);
    }
  }

  lemma DistinctNodes(ns: seq<Node>, i: nat, j: nat)
    requires SeparateSeq(ns) && i < |ns| && j < |ns|
    ensures ns[i].res == ns[j].res <==> i == j
  {
    assert ns[i].res in Owned(ns[i]) && ns[j].res in Owned(ns[j]);
  }

  // struct pick_largest_state, apart from `last`.
  datatype Pick = Pick(result: Resource?, seenLast: bool)

  // Reference r and position i name the same listed resource, or both name none.
  ghost predicate Names(ns: seq<Node>, r: Resource?, i: Option<nat>) {
    match i
    case None => r == null
    case Some(k) => k < |ns| && ns[k].res == r && ns[k].listed
  }

  ghost predicate Represents(ns: seq<Node>, p: Pick, st: S.PickState) {
    Names(ns, p.result, st.result) && p.seenLast == st.seenLast
  }

  // `keys` is what the search compares.
  ghost predicate KeysOf(ns: seq<Node>, keys: seq<S.Key>)
    reads OwnedSeq(ns)
  {
    |keys| == |ns| && forall i :: 0 <= i < |ns| ==>
      ns[i].res in Owned(ns[i]) && keys[i] == S.Key(ns[i].listed, ns[i].res.align, ns[i].res.size)
  }

  lemma KeysOfSnap(ns: seq<Node>)
    ensures KeysOf(ns, Keys(SnapSeq(ns)))
  {
  }

  /** pick_largest_resource: offer one resource of an enabled device to the search. */
  method PickLargestResource(last: Resource?, p: Pick, resource: Resource, ghost ns: seq<Node>, ghost keys: seq<S.Key>,
                             ghost at: Option<nat>, ghost st: S.PickState, ghost pos: nat)
    returns (q: Pick)
    requires SeparateSeq(ns) && KeysOf(ns, keys) && Names(ns, last, at) && Represents(ns, p, st)
    requires pos < |ns| && ns[pos].res == resource && (ns[pos].listed <==> FIXED !in resource.flags)
    ensures Represents(ns, q, S.Visit(keys, at, st, pos))
  {
    if at.Some? {
      DistinctNodes(ns, pos, at.value);
    }
    if resource == last {
      return p.(seenLast := true);
    }
    if FIXED in resource.flags {
      return p;
    }
    if last != null &&
       (last.align < resource.align || (last.align == resource.align && last.size < resource.size)
        || (last.align == resource.align && last.size == resource.size && !p.seenLast)) {
      return p;
    }
    if p.result == null || p.result.align < resource.align
       || (p.result.align == resource.align && p.result.size < resource.size) {
      return p.(result := resource);
    }
    return p;
  }

  // The search is at position pos with state p (st in terms of positions) and will end in `goal`.
  ghost predicate Searching(ns: seq<Node>, keys: seq<S.Key>, at: Option<nat>, p: Pick, st: S.PickState, pos: nat,
                            goal: S.PickState)
  {
    && |keys| == |ns| && pos <= |ns|
    && Represents(ns, p, st)
    && (at.Some? ==> at.value < |ns| && ns[at.value].listed)
    && (st.result.Some? ==> st.result.value < |ns|)
    && S.Search(keys, at, st, pos) == goal
  }

  lemma SearchStep(ns: seq<Node>, keys: seq<S.Key>, at: Option<nat>, p: Pick, st: S.PickState, pos: nat,
                   goal: S.PickState, q: Pick, st': S.PickState)
    requires Searching(ns, keys, at, p, st, pos, goal) && pos < |ns|
    requires st' == S.Visit(keys, at, st, pos) && Represents(ns, q, st')
    ensures Searching(ns, keys, at, q, st', pos + 1, goal)
  {
  }

  lemma SearchSkip(ns: seq<Node>, keys: seq<S.Key>, at: Option<nat>, p: Pick, st: S.PickState, pos: nat, stop: nat,
                   goal: S.PickState, dev: Device, mask: set<Flag>, typ: set<Flag>)
    requires Searching(ns, keys, at, p, st, pos, goal) && !dev.enabled
    requires KeysOf(ns, keys)
    requires pos <= stop <= |ns| && ns[pos..stop] == OnDevice(dev, dev.resources, mask, typ)
    ensures Searching(ns, keys, at, p, st, stop, goal)
  {
    OnDeviceDisabled(dev, dev.resources, mask, typ);
    forall k | pos <= k < stop ensures !keys[k].eligible {
      assert ns[k] == ns[pos..stop][k - pos];
    }
    SkipUnlisted(keys, at, st, pos, stop);
  }

  lemma NextOnDevice(ns: seq<Node>, pos: nat, stop: nat, dev: Device, i: nat, mask: set<Flag>, typ: set<Flag>)
    requires i < |dev.resources| && pos <= stop <= |ns|
    requires ns[pos..stop] == OnDevice(dev, dev.resources[i..], mask, typ)
    ensures if Matches(dev.resources[i], mask, typ)
            then pos < stop && ns[pos] == NodeOf(dev, dev.resources[i], mask, typ)
              && ns[pos].res == dev.resources[i] && (ns[pos].listed <==> dev.enabled && FIXED !in dev.resources[i].flags)
              && ns[pos + 1..stop] == OnDevice(dev, dev.resources[i + 1..], mask, typ)
            else ns[pos..stop] == OnDevice(dev, dev.resources[i + 1..], mask, typ)
  {
    assert dev.resources[i..][1..] == dev.resources[i + 1..];
    if Matches(dev.resources[i], mask, typ) {
      assert ns[pos] == ns[pos..stop][0];
      assert ns[pos + 1..stop] == ns[pos..stop][1..];
    }
  }

  // The part of the search that walks the resources of one enabled device, which occupy the
  // positions pos .. stop of the bus.
  method SearchDevice(dev: Device, mask: set<Flag>, typ: set<Flag>, last: Resource?, p: Pick,
                      ghost ns: seq<Node>, ghost keys: seq<S.Key>, ghost at: Option<nat>, ghost st: S.PickState,
                      ghost pos: nat, ghost stop: nat, ghost goal: S.PickState)
    returns (q: Pick, ghost st': S.PickState)
    requires SeparateSeq(ns) && KeysOf(ns, keys) && Names(ns, last, at) && dev.enabled
    requires pos <= stop <= |ns| && ns[pos..stop] == OnDevice(dev, dev.resources, mask, typ)
    requires Searching(ns, keys, at, p, st, pos, goal)
    ensures Searching(ns, keys, at, q, st', stop, goal)
  {
    q, st' := p, st;
    ghost var cur: nat := pos;
    var i := 0;
    assert dev.resources[0..] == dev.resources;
    while i < |dev.resources|
      invariant 0 <= i <= |dev.resources| && cur <= stop
      invariant ns[cur..stop] == OnDevice(dev, dev.resources[i..], mask, typ)
      invariant Searching(ns, keys, at, q, st', cur, goal)
    {
      var resource := dev.resources[i];
      NextOnDevice(ns, cur, stop, dev, i, mask, typ);
      if Matches(resource, mask, typ) {
        ghost var q0, st0 := q, st';
        q := PickLargestResource(last, q, resource, ns, keys, at, st', cur);
        st' := S.Visit(keys, at, st', cur);
        SearchStep(ns, keys, at, q0, st0, cur, goal, q, st');
        cur := cur + 1;
      }
      i := i + 1;
    }
  }

  /** largest_resource: walk the whole bus with pick_largest_resource as the callback. */
  method LargestResource(bus: Bus, mask: set<Flag>, typ: set<Flag>, last: Resource?,
                         ghost ns: seq<Node>, ghost keys: seq<S.Key>, ghost at: Option<nat>)
    returns (result: Resource?)
    requires ns == OnBus(bus, mask, typ) && SeparateSeq(ns) && KeysOf(ns, keys) && Names(ns, last, at)
    ensures Names(ns, result, S.Next(keys, at))
  {
    ghost var st := S.PickState(None, false);
    ghost var goal := S.Search(keys, at, st, 0);
    ghost var pos: nat := 0;
    var p := Pick(null, false);
    var d := 0;
    assert ns[0..] == ns && bus.children[0..] == bus.children;
    while d < |bus.children|
      invariant 0 <= d <= |bus.children| && pos <= |ns|
      invariant ns[pos..] == OnDevices(bus.children[d..], mask, typ)
      invariant Searching(ns, keys, at, p, st, pos, goal)
    {
      var dev := bus.children[d];
      ghost var stop := DeviceRange(ns, bus.children, d, pos, mask, typ);
      if dev.enabled {
        p, st := SearchDevice(dev, mask, typ, last, p, ns, keys, at, st, pos, stop, goal);
      } else {
        SearchSkip(ns, keys, at, p, st, pos, stop, goal, dev, mask, typ);
      }
      pos := stop;
      d := d + 1;
    }
    assert ns[pos..] == [];
    result := p.result;
  }

  // largest_resource changes no resource.
  method NextResource(bus: Bus, mask: set<Flag>, typ: set<Flag>, last: Resource?,
                      ghost ns: seq<Node>, ghost keys: seq<S.Key>, ghost at: Option<nat>)
    returns (result: Resource?, ghost pick: Option<nat>)
    requires ns == OnBus(bus, mask, typ) && SeparateSeq(ns) && KeysOf(ns, keys) && Names(ns, last, at)
    ensures pick == S.Next(keys, at) && Names(ns, result, pick)
    ensures SnapSeq(ns) == old(SnapSeq(ns)) && KeysOf(ns, keys)
  {
    OwnedSeqAllocated(ns);
    result := LargestResource(bus, mask, typ, last, ns, keys, at);
    pick := S.Next(keys, at);
    assert forall r :: r in OwnedSeq(ns) ==> old(allocated(r)) && unchanged(r);
  }

  // Where the resources of device d end in the list of the bus.
  lemma DeviceRange(ns: seq<Node>, devs: seq<Device>, d: nat, pos: nat, mask: set<Flag>, typ: set<Flag>) returns (stop: nat)
    requires d < |devs| && pos <= |ns| && ns[pos..] == OnDevices(devs[d..], mask, typ)
    ensures pos <= stop <= |ns|
    ensures ns[pos..stop] == OnDevice(devs[d], devs[d].resources, mask, typ)
    ensures ns[stop..] == OnDevices(devs[d + 1..], mask, typ)
  {
    var here := OnDevice(devs[d], devs[d].resources, mask, typ);
    assert devs[d..][1..] == devs[d + 1..];
    stop := pos + |here|;
    assert ns[pos..stop] == ns[pos..][..|here|];
    assert ns[stop..] == ns[pos..][|here|..];
  }

  // ------------------------------------------------------------------ compute_resources

  ghost function Computed(t: Tree): Tree {
    if t.window then Compute(t) else t
  }

  method ComputeChild(dev: Device, childBridge: Resource, mask: set<Flag>, typ: set<Flag>, ghost node: Node)
    requires LinkedDevice(dev) && childBridge in dev.resources
    requires node == NodeOf(dev, childBridge, mask, typ) && Separate(node)
    modifies Owned(node)
    ensures Snap(node) == Computed(old(Snap(node)))
    decreases dev, 0
  {
    if BRIDGE in childBridge.flags && dev.links != [] {
      var link := dev.links[FindLink(dev.links, childBridge.link).value].bus;
      ComputeResources(link, childBridge, mask + {PREFETCH}, typ + childBridge.flags * {PREFETCH}, node);
    }
  }

  // The same, seen from the whole bus.
  method ComputeAt(dev: Device, childBridge: Resource, mask: set<Flag>, typ: set<Flag>, ghost ns: seq<Node>, ghost cur: nat)
    requires LinkedDevice(dev) && childBridge in dev.resources
    requires SeparateSeq(ns) && cur < |ns| && ns[cur] == NodeOf(dev, childBridge, mask, typ)
    modifies Owned(ns[cur])
    ensures Snap(ns[cur]) == Computed(old(Snap(ns[cur])))
    ensures forall j :: 0 <= j < |ns| && j != cur ==> Snap(ns[j]) == old(Snap(ns[j]))
    decreases dev, 1
  {
    ghost var node := ns[cur];
    OwnedSeqAllocated(ns);
    ComputeChild(dev, childBridge, mask, typ, node);
    forall j | 0 <= j < |ns| && j != cur ensures Snap(ns[j]) == old(Snap(ns[j])) {
      OwnedApart(ns, j, cur);
      assert Owned(ns[j]) <= OwnedSeq(ns);
      assert forall r :: r in Owned(ns[j]) ==> r in OwnedSeq(ns) && old(allocated(r));
      assert forall r :: r in Owned(ns[j]) ==> r !in Owned(ns[cur]);
      assert forall r :: r in Owned(ns[j]) ==> unchanged(r);
    }
  }

  // Positions below pos have been computed, the others are as they were.
  ghost predicate Progressed(ns: seq<Node>, was: seq<Tree>, pos: nat)
    reads OwnedSeq(ns)
  {
    |was| == |ns| && forall j :: 0 <= j < |ns| ==> SnapSeq(ns)[j] == if j < pos then Computed(was[j]) else was[j]
  }

  // The resource at position cur, those before it having been computed.
  method ComputeNext(dev: Device, childBridge: Resource, mask: set<Flag>, typ: set<Flag>, ghost ns: seq<Node>,
                     ghost cur: nat, ghost was: seq<Tree>)
    requires LinkedDevice(dev) && childBridge in dev.resources
    requires SeparateSeq(ns) && cur < |ns| && ns[cur] == NodeOf(dev, childBridge, mask, typ)
    requires Progressed(ns, was, cur)
    modifies OwnedSeq(ns)
    ensures Progressed(ns, was, cur + 1)
    decreases dev, 2
  {
    ComputeAt(dev, childBridge, mask, typ, ns, cur);
  }

  // The part of the first loop of compute_resources that concerns one device, whose resources occupy
  // the positions pos .. stop of the bus.
  method ComputeDevice(dev: Device, mask: set<Flag>, typ: set<Flag>, ghost ns: seq<Node>, ghost pos: nat, ghost stop: nat,
                       ghost was: seq<Tree>)
    requires SeparateSeq(ns) && pos <= stop <= |ns| && ns[pos..stop] == OnDevice(dev, dev.resources, mask, typ)
    requires LinkedDevice(dev) && Progressed(ns, was, pos)
    modifies OwnedSeq(ns)
    ensures Progressed(ns, was, stop)
    decreases dev, 3
  {
    ghost var cur: nat := pos;
    var i := 0;
    assert dev.resources[0..] == dev.resources;
    while i < |dev.resources|
      invariant 0 <= i <= |dev.resources| && pos <= cur <= stop
      invariant ns[cur..stop] == OnDevice(dev, dev.resources[i..], mask, typ)
      invariant Progressed(ns, was, cur)
    {
      NextOnDevice(ns, cur, stop, dev, i, mask, typ);
      if Matches(dev.resources[i], mask, typ) {
        ComputeNext(dev, dev.resources[i], mask, typ, ns, cur, was);
        cur := cur + 1;
      }
      i := i + 1;
    }
  }

  // One device of the bus, whose resources begin at position pos.
  method ComputeNth(bus: Bus, d: nat, mask: set<Flag>, typ: set<Flag>, ghost ns: seq<Node>, ghost pos: nat, ghost was: seq<Tree>)
    returns (ghost stop: nat)
    requires SeparateSeq(ns) && Linked(bus) && d < |bus.children|
    requires pos <= |ns| && ns[pos..] == OnDevices(bus.children[d..], mask, typ) && Progressed(ns, was, pos)
    modifies OwnedSeq(ns)
    ensures pos <= stop <= |ns| && ns[stop..] == OnDevices(bus.children[d + 1..], mask, typ) && Progressed(ns, was, stop)
    decreases bus, 0
  {
    stop := DeviceRange(ns, bus.children, d, pos, mask, typ);
    ComputeDevice(bus.children[d], mask, typ, ns, pos, stop, was);
  }

  // The first loop of compute_resources: size every window behind the bus.
  method ComputeWindows(bus: Bus, mask: set<Flag>, typ: set<Flag>, ghost ns: seq<Node>, ghost was: seq<Tree>)
    requires ns == OnBus(bus, mask, typ) && SeparateSeq(ns) && Linked(bus) && was == SnapSeq(ns)
    modifies OwnedSeq(ns)
    ensures Progressed(ns, was, |ns|)
    decreases bus, 1
  {
    ghost var pos: nat := 0;
    var d := 0;
    assert ns[0..] == ns && bus.children[0..] == bus.children;
    while d < |bus.children|
      invariant 0 <= d <= |bus.children| && pos <= |ns|
      invariant ns[pos..] == OnDevices(bus.children[d..], mask, typ)
      invariant Progressed(ns, was, pos)
    {
      pos := ComputeNth(bus, d, mask, typ, ns, pos, was);
      d := d + 1;
    }
    assert bus.children[d..] == [] && |ns[pos..]| == 0;
  }

  lemma ProgressedAll(ns: seq<Tree>, was: seq<Tree>)
    requires |was| == |ns| && forall j :: 0 <= j < |ns| ==> ns[j] == Computed(was[j])
    ensures ns == ComputeKids(was)
  {
  }

  // What is left of the walk when position `pick` is about to be visited.
  ghost function Pending(keys: seq<S.Key>, pick: Option<nat>): (o: seq<nat>)
    requires pick.Some? ==> pick.value < |keys|
    ensures InRange(o, |keys|)
  {
    match pick
    case None => []
    case Some(i) => [i] + S.OrderAfter(keys, pick)
  }

  lemma PendingNext(keys: seq<S.Key>, last: Option<nat>)
    requires last.Some? ==> last.value < |keys|
    ensures S.OrderAfter(keys, last) == Pending(keys, S.Next(keys, last))
  {
  }

  // A step of either walk for one resource, out of the context of its bus.
  ghost function Alone(r: Res, base: address, bridge: Res): Loop {
    Loop([Tree(r, true, false, [])], base, bridge)
  }

  lemma ComputeAlone(s: Loop, i: nat)
    requires i < |s.kids|
    ensures var o := ComputeStep(Alone(s.kids[i].res, s.base, s.bridge), 0);
      ComputeStep(s, i) == Loop(SetRes(s.kids, i, o.kids[0].res), o.base, o.bridge)
    ensures Keys(ComputeStep(s, i).kids) == Keys(s.kids)
  {
    assert SetRes(s.kids, i, s.kids[i].res) == s.kids;
  }

  // The body of the second loop of compute_resources.
  method ComputePlace(bridge: Resource, resource: Resource, base: address) returns (next: address)
    requires bridge != resource
    modifies bridge, resource
    ensures Alone(resource.Value(), next, bridge.Value()) == ComputeStep(old(Alone(resource.Value(), base, bridge.Value())), 0)
  {
    next := base;
    if resource.size != 0 {
      if resource.align > bridge.align {
        bridge.align := resource.align;
      }
      if bridge.limit > resource.limit {
        bridge.limit := resource.limit;
      }
      if IO in resource.flags {
        next := SkipLegacy(next);
      }
      next := Round(next, resource.align);
      resource.base := next;
      next := Add(next, resource.size);
    }
  }

  // The same step seen from the bus.
  method ComputeSet(bridge: Resource, resource: Resource, base: address, ghost ns: seq<Node>, ghost i: nat)
    returns (next: address)
    requires SeparateSeq(ns) && bridge !in OwnedSeq(ns) && i < |ns| && ns[i].res == resource
    modifies bridge, resource
    ensures Alone(resource.Value(), next, bridge.Value()) == ComputeStep(old(Alone(resource.Value(), base, bridge.Value())), 0)
    ensures forall j :: 0 <= j < |ns| ==>
      Snap(ns[j]) == if j == i then old(Snap(ns[j])).(res := resource.Value()) else old(Snap(ns[j]))
  {
    OwnedSeqAllocated(ns);
    NodeFrame(ns, i, i);
    next := ComputePlace(bridge, resource, base);
    assert forall r :: r in OwnedSeq(ns) && r != resource ==> old(allocated(r)) && unchanged(r);
    forall j | 0 <= j < |ns|
      ensures Snap(ns[j]) == if j == i then old(Snap(ns[j])).(res := resource.Value()) else old(Snap(ns[j]))
    {
      NodeFrame(ns, i, j);
      if j == i {
        assert forall r :: r in OwnedSeq(ns[j].kids) ==> r in OwnedSeq(ns) && r != resource;
        assert SnapSeq(ns[j].kids) == old(SnapSeq(ns[j].kids));
      } else {
        assert forall r :: r in Owned(ns[j]) ==> r in OwnedSeq(ns) && r != resource;
      }
    }
  }

  method ComputeVisit(bridge: Resource, resource: Resource, base: address, ghost ns: seq<Node>, ghost keys: seq<S.Key>,
                      ghost i: nat, ghost s: Loop)
    returns (next: address)
    requires SeparateSeq(ns) && bridge !in OwnedSeq(ns) && i < |ns| && ns[i].res == resource
    requires s == Loop(SnapSeq(ns), base, bridge.Value()) && keys == Keys(s.kids)
    modifies bridge, resource
    ensures Loop(SnapSeq(ns), next, bridge.Value()) == ComputeStep(s, i) && KeysOf(ns, keys)
  {
    next := ComputeSet(bridge, resource, base, ns, i);
    assert SnapSeq(ns) == SetRes(s.kids, i, resource.Value());
    ComputeAlone(s, i);
    KeysOfSnap(ns);
  }

  /** compute_resources: pass 1 on the tree behind `bridge`. */
  method ComputeResources(bus: Bus, bridge: Resource, mask: set<Flag>, typ: set<Flag>, ghost node: Node)
    requires node.res == bridge && node.kids == OnBus(bus, mask, typ) && Separate(node) && Linked(bus)
    modifies Owned(node)
    ensures Snap(node) == Compute(old(Snap(node)))
    decreases bus, 2
  {
    ghost var ns := node.kids;
    OwnedSeqAllocated(ns);
    var base := Round(bridge.base, bridge.align);
    ghost var was := SnapSeq(ns);
    ComputeWindows(bus, mask, typ, ns, was);
    assert bridge.Value() == old(bridge.Value());
    ProgressedAll(SnapSeq(ns), was);
    base := ComputeWalk(bus, bridge, mask, typ, base, ns);
    SetSize(bridge, base, ns);
  }

  // The size of the window is what the walk has used, to its granularity.
  method SetSize(bridge: Resource, base: address, ghost ns: seq<Node>)
    requires bridge !in OwnedSeq(ns)
    modifies bridge
    ensures bridge.Value() == old(bridge.Value().(size := ComputeSize(Loop(SnapSeq(ns), base, bridge.Value()))))
    ensures SnapSeq(ns) == old(SnapSeq(ns))
  {
    bridge.size := Sub(Round(base, bridge.gran), Round(bridge.base, bridge.align));
  }

  // The second loop of compute_resources.
  method ComputeWalk(bus: Bus, bridge: Resource, mask: set<Flag>, typ: set<Flag>, start: address, ghost ns: seq<Node>)
    returns (base: address)
    requires ns == OnBus(bus, mask, typ) && SeparateSeq(ns) && bridge !in OwnedSeq(ns)
    modifies {bridge} + OwnedSeq(ns)
    ensures Loop(SnapSeq(ns), base, bridge.Value())
         == ComputeLoop(old(Loop(SnapSeq(ns), start, bridge.Value())), S.Order(Keys(old(SnapSeq(ns)))))
  {
    base := start;
    ghost var keys := Keys(SnapSeq(ns));
    ghost var s := Loop(SnapSeq(ns), base, bridge.Value());
    ghost var goal := ComputeLoop(s, S.Order(keys));
    KeysOfSnap(ns);
    PendingNext(keys, None);
    var resource, pick := NextResource(bus, mask, typ, null, ns, keys, None);
    while resource != null
      invariant Names(ns, resource, pick) && KeysOf(ns, keys)
      invariant s == Loop(SnapSeq(ns), base, bridge.Value()) && keys == Keys(s.kids)
      invariant ComputeLoop(s, Pending(keys, pick)) == goal
      decreases |Pending(keys, pick)|
    {
      base := ComputeVisit(bridge, resource, base, ns, keys, pick.value, s);
      ComputeAlone(s, pick.value);
      s := ComputeStep(s, pick.value);
      PendingNext(keys, pick);
      resource, pick := NextResource(bus, mask, typ, resource, ns, keys, pick);
    }
  }

  // ------------------------------------------------------------------ allocate_resources

  ghost function Allocated(t: Tree): Tree {
    if t.window then Allocate(t) else t
  }

  lemma AllocateAlone(s: Loop, i: nat)
    requires i < |s.kids|
    ensures var o := AllocateStep(Alone(s.kids[i].res, s.base, s.bridge), 0);
      AllocateStep(s, i) == Loop(SetRes(s.kids, i, o.kids[0].res), o.base, o.bridge) && o.bridge == s.bridge
    ensures Keys(AllocateStep(s, i).kids) == Keys(s.kids)
  {
  }

  // The body of the first loop of allocate_resources.
  method AllocatePlace(bridge: Resource, resource: Resource, base: address) returns (next: address)
    requires bridge != resource
    modifies resource
    ensures Alone(resource.Value(), next, bridge.Value()) == AllocateStep(old(Alone(resource.Value(), base, bridge.Value())), 0)
  {
    next := base;
    if resource.limit > bridge.limit {
      resource.limit := bridge.limit;
    }
    if resource.size == 0 {
      resource.base := resource.limit;
      resource.isAssigned := true;
      return;
    }
    if IO in resource.flags {
      next := SkipLegacy(next);
    }
    if Sub(Add(Round(next, resource.align), resource.size), 1) <= resource.limit {
      next := Round(next, resource.align);
      resource.base := next;
      resource.isAssigned := true;
      resource.isStored := false;
      next := Add(next, resource.size);
    }
  }

  // The same step seen from the bus.
  method AllocateSet(bridge: Resource, resource: Resource, base: address, ghost ns: seq<Node>, ghost i: nat)
    returns (next: address)
    requires SeparateSeq(ns) && bridge !in OwnedSeq(ns) && i < |ns| && ns[i].res == resource
    modifies resource
    ensures Alone(resource.Value(), next, bridge.Value()) == AllocateStep(old(Alone(resource.Value(), base, bridge.Value())), 0)
    ensures forall j :: 0 <= j < |ns| ==>
      Snap(ns[j]) == if j == i then old(Snap(ns[j])).(res := resource.Value()) else old(Snap(ns[j]))
  {
    OwnedSeqAllocated(ns);
    NodeFrame(ns, i, i);
    next := AllocatePlace(bridge, resource, base);
    assert forall r :: r in OwnedSeq(ns) && r != resource ==> old(allocated(r)) && unchanged(r);
    forall j | 0 <= j < |ns|
      ensures Snap(ns[j]) == if j == i then old(Snap(ns[j])).(res := resource.Value()) else old(Snap(ns[j]))
    {
      NodeFrame(ns, i, j);
      if j == i {
        assert forall r :: r in OwnedSeq(ns[j].kids) ==> r in OwnedSeq(ns) && r != resource;
        assert SnapSeq(ns[j].kids) == old(SnapSeq(ns[j].kids));
      } else {
        assert forall r :: r in Owned(ns[j]) ==> r in OwnedSeq(ns) && r != resource;
      }
    }
  }

  method AllocateVisit(bridge: Resource, resource: Resource, base: address, ghost ns: seq<Node>, ghost keys: seq<S.Key>,
                       ghost i: nat, ghost s: Loop)
    returns (next: address)
    requires SeparateSeq(ns) && bridge !in OwnedSeq(ns) && i < |ns| && ns[i].res == resource
    requires s == Loop(SnapSeq(ns), base, bridge.Value()) && keys == Keys(s.kids)
    modifies resource
    ensures Loop(SnapSeq(ns), next, bridge.Value()) == AllocateStep(s, i) && KeysOf(ns, keys)
  {
    next := AllocateSet(bridge, resource, base, ns, i);
    assert SnapSeq(ns) == SetRes(s.kids, i, resource.Value());
    AllocateAlone(s, i);
    KeysOfSnap(ns);
  }

  // The first loop of allocate_resources.
  method AllocateWalk(bus: Bus, bridge: Resource, mask: set<Flag>, typ: set<Flag>, start: address, ghost ns: seq<Node>)
    requires ns == OnBus(bus, mask, typ) && SeparateSeq(ns) && bridge !in OwnedSeq(ns)
    modifies OwnedSeq(ns)
    ensures SnapSeq(ns)
         == AllocateLoop(old(Loop(SnapSeq(ns), start, bridge.Value())), S.Order(Keys(old(SnapSeq(ns))))).kids
  {
    var base := start;
    ghost var keys := Keys(SnapSeq(ns));
    ghost var s := Loop(SnapSeq(ns), base, bridge.Value());
    ghost var goal := AllocateLoop(s, S.Order(keys));
    KeysOfSnap(ns);
    PendingNext(keys, None);
    var resource, pick := NextResource(bus, mask, typ, null, ns, keys, None);
    while resource != null
      invariant Names(ns, resource, pick) && KeysOf(ns, keys)
      invariant s == Loop(SnapSeq(ns), base, bridge.Value()) && keys == Keys(s.kids)
      invariant AllocateLoop(s, Pending(keys, pick)) == goal
      decreases |Pending(keys, pick)|
    {
      NodeFrame(ns, pick.value, pick.value);
      assert resource in Owned(ns[pick.value]);
      base := AllocateVisit(bridge, resource, base, ns, keys, pick.value, s);
      AllocateAlone(s, pick.value);
      s := AllocateStep(s, pick.value);
      PendingNext(keys, pick);
      resource, pick := NextResource(bus, mask, typ, resource, ns, keys, pick);
    }
  }

  method AllocateChild(dev: Device, childBridge: Resource, mask: set<Flag>, typ: set<Flag>, ghost node: Node)
    requires LinkedDevice(dev) && childBridge in dev.resources
    requires node == NodeOf(dev, childBridge, mask, typ) && Separate(node)
    modifies Owned(node)
    ensures Snap(node) == Allocated(old(Snap(node)))
    decreases dev, 0
  {
    if BRIDGE in childBridge.flags && dev.links != [] {
      var link := dev.links[FindLink(dev.links, childBridge.link).value].bus;
      AllocateResources(link, childBridge, mask + {PREFETCH}, typ + childBridge.flags * {PREFETCH}, node);
    }
  }

  // The same, seen from the whole bus.
  method AllocateAt(dev: Device, childBridge: Resource, mask: set<Flag>, typ: set<Flag>, ghost ns: seq<Node>, ghost cur: nat)
    requires LinkedDevice(dev) && childBridge in dev.resources
    requires SeparateSeq(ns) && cur < |ns| && ns[cur] == NodeOf(dev, childBridge, mask, typ)
    modifies Owned(ns[cur])
    ensures Snap(ns[cur]) == Allocated(old(Snap(ns[cur])))
    ensures forall j :: 0 <= j < |ns| && j != cur ==> Snap(ns[j]) == old(Snap(ns[j]))
    decreases dev, 1
  {
    ghost var node := ns[cur];
    OwnedSeqAllocated(ns);
    AllocateChild(dev, childBridge, mask, typ, node);
    forall j | 0 <= j < |ns| && j != cur ensures Snap(ns[j]) == old(Snap(ns[j])) {
      OwnedApart(ns, j, cur);
      assert Owned(ns[j]) <= OwnedSeq(ns);
      assert forall r :: r in Owned(ns[j]) ==> r in OwnedSeq(ns) && old(allocated(r));
      assert forall r :: r in Owned(ns[j]) ==> r !in Owned(ns[cur]);
      assert forall r :: r in Owned(ns[j]) ==> unchanged(r);
    }
  }

  // Positions below pos have been allocated behind, the others are as they were.
  ghost predicate Descended(ns: seq<Node>, was: seq<Tree>, pos: nat)
    reads OwnedSeq(ns)
  {
    |was| == |ns| && forall j :: 0 <= j < |ns| ==> SnapSeq(ns)[j] == if j < pos then Allocated(was[j]) else was[j]
  }

  // The part of the second loop of allocate_resources that concerns one device.
  method AllocateDevice(dev: Device, mask: set<Flag>, typ: set<Flag>, ghost ns: seq<Node>, ghost pos: nat, ghost stop: nat,
                        ghost was: seq<Tree>)
    requires SeparateSeq(ns) && pos <= stop <= |ns| && ns[pos..stop] == OnDevice(dev, dev.resources, mask, typ)
    requires LinkedDevice(dev) && Descended(ns, was, pos)
    modifies OwnedSeq(ns)
    ensures Descended(ns, was, stop)
    decreases dev, 2
  {
    ghost var cur: nat := pos;
    var i := 0;
    assert dev.resources[0..] == dev.resources;
    while i < |dev.resources|
      invariant 0 <= i <= |dev.resources| && pos <= cur <= stop
      invariant ns[cur..stop] == OnDevice(dev, dev.resources[i..], mask, typ)
      invariant Descended(ns, was, cur)
    {
      NextOnDevice(ns, cur, stop, dev, i, mask, typ);
      if Matches(dev.resources[i], mask, typ) {
        AllocateAt(dev, dev.resources[i], mask, typ, ns, cur);
        cur := cur + 1;
      }
      i := i + 1;
    }
  }

  // One device of the bus, whose resources begin at position pos.
  method AllocateNth(bus: Bus, d: nat, mask: set<Flag>, typ: set<Flag>, ghost ns: seq<Node>, ghost pos: nat, ghost was: seq<Tree>)
    returns (ghost stop: nat)
    requires SeparateSeq(ns) && Linked(bus) && d < |bus.children|
    requires pos <= |ns| && ns[pos..] == OnDevices(bus.children[d..], mask, typ) && Descended(ns, was, pos)
    modifies OwnedSeq(ns)
    ensures pos <= stop <= |ns| && ns[stop..] == OnDevices(bus.children[d + 1..], mask, typ) && Descended(ns, was, stop)
    decreases bus, 0
  {
    stop := DeviceRange(ns, bus.children, d, pos, mask, typ);
    AllocateDevice(bus.children[d], mask, typ, ns, pos, stop, was);
  }

  // The second loop of allocate_resources: descend into every window behind the bus.
  method AllocateWindows(bus: Bus, mask: set<Flag>, typ: set<Flag>, ghost ns: seq<Node>, ghost was: seq<Tree>)
    requires ns == OnBus(bus, mask, typ) && SeparateSeq(ns) && Linked(bus) && was == SnapSeq(ns)
    modifies OwnedSeq(ns)
    ensures Descended(ns, was, |ns|)
    decreases bus, 1
  {
    ghost var pos: nat := 0;
    var d := 0;
    assert ns[0..] == ns && bus.children[0..] == bus.children;
    while d < |bus.children|
      invariant 0 <= d <= |bus.children| && pos <= |ns|
      invariant ns[pos..] == OnDevices(bus.children[d..], mask, typ)
      invariant Descended(ns, was, pos)
    {
      pos := AllocateNth(bus, d, mask, typ, ns, pos, was);
      d := d + 1;
    }
    assert bus.children[d..] == [] && |ns[pos..]| == 0;
  }

  lemma DescendedAll(ns: seq<Tree>, was: seq<Tree>)
    requires |was| == |ns| && forall j :: 0 <= j < |ns| ==> ns[j] == Allocated(was[j])
    ensures ns == AllocateKids(was)
  {
  }

  /** allocate_resources: pass 2 on the tree behind `bridge`. */
  method AllocateResources(bus: Bus, bridge: Resource, mask: set<Flag>, typ: set<Flag>, ghost node: Node)
    requires node.res == bridge && node.kids == OnBus(bus, mask, typ) && Separate(node) && Linked(bus)
    modifies Owned(node)
    ensures Snap(node) == Allocate(old(Snap(node)))
    decreases bus, 2
  {
    ghost var ns := node.kids;
    ghost var t := Snap(node);
    OwnedSeqAllocated(ns);
    AllocateWalk(bus, bridge, mask, typ, bridge.base, ns);
    ghost var was := SnapSeq(ns);
    Mark(bridge, ns);
    AllocateWindows(bus, mask, typ, ns, was);
    DescendedAll(SnapSeq(ns), was);
    assert was == AllocateRun(t).kids;
  }

  // The window itself is marked as assigned.
  method Mark(bridge: Resource, ghost ns: seq<Node>)
    requires bridge !in OwnedSeq(ns)
    modifies bridge
    ensures bridge.Value() == old(bridge.Value()).(isAssigned := true) && SnapSeq(ns) == old(SnapSeq(ns))
  {
    bridge.isAssigned := true;
  }
}
