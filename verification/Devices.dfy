/**
  The device tree as the resource allocator sees it: the topology is fixed while the allocator runs,
  the resources are mutable objects.
 */
module Devices {
  import opened Addresses
  import opened Wrappers
  import opened Windows

  // The IORESOURCE_ flags that neither pass changes.
  datatype Flag = IO | MEM | PREFETCH | BRIDGE | FIXED

  class Resource {
    var base: address
    var size: address
    var limit: address
    var align: shift
    const gran: shift
    const flags: set<Flag>
    var isAssigned: bool       // IORESOURCE_ASSIGNED
    var isStored: bool         // IORESOURCE_STORED
    const link: nat            // IOINDEX_LINK(index)

    constructor (base: address, size: address, limit: address, align: shift, gran: shift, flags: set<Flag>, link: nat)
      ensures Value() == Res(base, size, limit, align, gran, IO in flags, false, false)
      ensures this.flags == flags && this.link == link
    {
      this.base, this.size, this.limit, this.align := base, size, limit, align;
      this.gran, this.flags, this.link := gran, flags, link;
      isAssigned, isStored := false, false;
    }

    function Value(): Res
      reads this
    {
      Res(base, size, limit, align, gran, IO in flags, isAssigned, isStored)
    }
  }

  datatype Bus = Bus(children: seq<Device>)
  datatype Device = Device(enabled: bool, resources: seq<Resource>, links: seq<Link>)
  datatype Link = Link(num: nat, bus: Bus)

  predicate Matches(r: Resource, mask: set<Flag>, typ: set<Flag>) {
    r.flags * mask == typ
  }

  function FindLink(links: seq<Link>, num: nat): (r: Option<nat>)
    ensures r.Some? ==> r.value < |links| && links[r.value].num == num
    ensures r.Some? ==> forall k :: 0 <= k < r.value ==> links[k].num != num
    ensures r.None? ==> forall k :: 0 <= k < |links| ==> links[k].num != num
  {
    if links == [] then None
    else if links[0].num == num then Some(0)
    else
      match FindLink(links[1..], num)
      case None => None
      case Some(k) => Some(k + 1)
  }

  // Every bridge resource of a device with links names one of them (otherwise the C code follows a
  // null pointer).
  ghost predicate Linked(bus: Bus)
    decreases bus
  {
    forall d :: 0 <= d < |bus.children| ==> LinkedDevice(bus.children[d])
  }

  ghost predicate LinkedDevice(dev: Device)
    decreases dev
  {
    && (forall r :: r in dev.resources && BRIDGE in r.flags && dev.links != [] ==> FindLink(dev.links, r.link).Some?)
    && (forall k :: 0 <= k < |dev.links| ==> Linked(dev.links[k].bus))
  }

  // The resources an allocation of (mask, typ) concerns, as a tree of references: the shape of
  // Windows.Tree without the values.
  datatype Node = Node(res: Resource, listed: bool, window: bool, kids: seq<Node>)

  ghost function OnBus(bus: Bus, mask: set<Flag>, typ: set<Flag>): seq<Node>
    decreases bus, 0
  {
    OnDevices(bus.children, mask, typ)
  }

  ghost function OnDevices(devs: seq<Device>, mask: set<Flag>, typ: set<Flag>): seq<Node>
    decreases devs, 0
  {
    if devs == [] then []
    else OnDevice(devs[0], devs[0].resources, mask, typ) + OnDevices(devs[1..], mask, typ)
  }

  ghost function OnDevice(dev: Device, rs: seq<Resource>, mask: set<Flag>, typ: set<Flag>): seq<Node>
    decreases dev, |rs|
  {
    if rs == [] then []
    else if !Matches(rs[0], mask, typ) then OnDevice(dev, rs[1..], mask, typ)
    else [NodeOf(dev, rs[0], mask, typ)] + OnDevice(dev, rs[1..], mask, typ)
  }

  ghost function NodeOf(dev: Device, r: Resource, mask: set<Flag>, typ: set<Flag>): Node
    decreases dev, 0
  {
    var window := BRIDGE in r.flags && dev.links != [];
    var l := FindLink(dev.links, r.link);
    var kids := if window && l.Some?
      then OnBus(dev.links[l.value].bus, mask + {PREFETCH}, typ + r.flags * {PREFETCH})
      else [];
    Node(r, dev.enabled && FIXED !in r.flags, window, kids)
  }

  // All resources of the tree.
  ghost function Owned(n: Node): set<Resource>
    decreases n, 1
  {
    {n.res} + OwnedSeq(n.kids)
  }

  ghost function OwnedSeq(ns: seq<Node>): (s: set<Resource>)
    ensures forall i :: 0 <= i < |ns| ==> Owned(ns[i]) <= s
    decreases ns, 0
  {
    if ns == [] then {} else Owned(ns[0]) + OwnedSeq(ns[1..])
  }

  // No resource is reached twice.
  ghost predicate Separate(n: Node)
    decreases n, 1
  {
    n.res !in OwnedSeq(n.kids) && SeparateSeq(n.kids)
  }

  ghost predicate SeparateSeq(ns: seq<Node>)
    decreases ns, 0
  {
    && (forall i :: 0 <= i < |ns| ==> Separate(ns[i]))
    && (forall i, j :: 0 <= i < j < |ns| ==> Owned(ns[i]) !! Owned(ns[j]))
  }

  ghost function Snap(n: Node): Tree
    reads Owned(n)
    decreases n, 1
  {
    Tree(n.res.Value(), n.listed, n.window, SnapSeq(n.kids))
  }

  ghost function SnapSeq(ns: seq<Node>): (s: seq<Tree>)
    reads OwnedSeq(ns)
    ensures |s| == |ns|
    ensures forall i :: 0 <= i < |ns| ==> s[i] == Snap(ns[i])
    decreases ns, 0
  {
    if ns == [] then [] else [Snap(ns[0])] + SnapSeq(ns[1..])
  }

  lemma OwnedApart(ns: seq<Node>, i: nat, j: nat)
    requires SeparateSeq(ns) && i < |ns| && j < |ns| && i != j
    ensures Owned(ns[i]) !! Owned(ns[j])
  {
    if j < i {
      assert Owned(ns[j]) !! Owned(ns[i]);
    }
  }

  // Where the resource of node i can be found again on the bus: nowhere else.
  lemma NodeFrame(ns: seq<Node>, i: nat, j: nat)
    requires SeparateSeq(ns) && i < |ns| && j < |ns|
    ensures Owned(ns[j]) <= OwnedSeq(ns) && OwnedSeq(ns[j].kids) <= Owned(ns[j])
    ensures ns[i].res !in OwnedSeq(ns[j].kids)
    ensures i != j ==> ns[i].res !in Owned(ns[j])
  {
    assert ns[i].res in Owned(ns[i]);
    if i != j {
      OwnedApart(ns, i, j);
    }
  }

  lemma {:induction false} OwnedAllocated(n: Node)
    ensures forall r :: r in Owned(n) ==> allocated(r)
    decreases n, 1
  {
    OwnedSeqAllocated(n.kids);
  }

  lemma {:induction false} OwnedSeqAllocated(ns: seq<Node>)
    ensures forall r :: r in OwnedSeq(ns) ==> allocated(r)
    decreases ns, 0
  {
    if ns != [] {
      OwnedAllocated(ns[0]);
      OwnedSeqAllocated(ns[1..]);
    }
  }
}
