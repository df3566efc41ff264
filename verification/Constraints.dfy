/**
  How the allocator keeps clear of fixed resources (constrain_resources and avoid_fixed_resources in
  src/device/device.c): one range of addresses per kind, cut down by every fixed resource in turn.
 */
module Constraints {
  import opened Addresses
  import opened Wrappers
  import opened Windows
  import opened Devices
  import opened Layout
  import opened Placement

  datatype Region = Region(base: address, limit: address)
  datatype Fixed = Fixed(base: address, size: address)

  // A resource_t as a signed long long.
  function Signed(x: address): int {
    if x >= WORD / 2 then x - WORD else x
  }

  // The region after one fixed resource: unchanged when the resource is empty or outside, otherwise the
  // part above or the part below it, whichever the signed comparison prefers.
  function Constrain(r: Region, f: Fixed): Region {
    var last := Sub(Add(f.base, f.size), 1);
    if f.size == 0 || last < r.base || f.base > r.limit then r
    else if Signed(Sub(r.limit, last)) > Signed(Sub(f.base, r.base)) then r.(base := Add(f.base, f.size))
    else r.(limit := Sub(f.base, 1))
  }

  // A fixed resource that ends inside the address space.
  ghost predicate Bounded(f: Fixed) {
    f.base + f.size <= WORD
  }

  // No address of the region is one of the resource.
  ghost predicate Avoids(r: Region, f: Fixed) {
    r.base > r.limit || f.size == 0 || f.base + f.size <= r.base || r.limit < f.base
  }

  ghost predicate Inside(r: Region, outer: Region) {
    outer.base <= r.base && r.limit <= outer.limit
  }

  // The new bound does not fit into 64 bits: the range goes on above the last address, or below 0.
  predicate Wraps(r: Region, f: Fixed) {
    var last := Sub(Add(f.base, f.size), 1);
    && f.size != 0 && last >= r.base && f.base <= r.limit
    && if Signed(Sub(r.limit, last)) > Signed(Sub(f.base, r.base)) then f.base + f.size == WORD else f.base == 0
  }

  lemma LastExact(f: Fixed)
    requires Bounded(f) && f.size > 0
    ensures Sub(Add(f.base, f.size), 1) == f.base + f.size - 1
  {
    if f.base + f.size < WORD {
      SmallMod(f.base + f.size, WORD);
      SmallMod(f.base + f.size - 1, WORD);
    }
  }

  /** One fixed resource: the range that is left lies in the old one and avoids the resource, exactly when
      its new bound does not wrap. */
  lemma ConstrainExactly(r: Region, f: Fixed)
    requires Bounded(f)
    ensures Avoids(Constrain(r, f), f) && Inside(Constrain(r, f), r) <==> !Wraps(r, f)
  {
    if f.size > 0 {
      LastExact(f);
    }
  }

  // How far a lies above b when the difference is read as a signed 64-bit number.
  function Distance(a: address, b: address): int {
    if a - b >= WORD / 2 then a - b - WORD
    else if a - b < -(WORD / 2) then a - b + WORD
    else a - b
  }

  // The last address of a fixed resource that is not empty.
  function LastOf(f: Fixed): int {
    f.base + f.size - 1
  }

  /** Which part is left: all of it when the resource is empty or does not meet the range; otherwise the part
      above the resource exactly when it reaches further than the part below, and else the part below. */
  lemma ConstrainSides(r: Region, f: Fixed)
    requires Bounded(f)
    ensures f.size == 0 || LastOf(f) < r.base || r.limit < f.base ==> Constrain(r, f) == r
    ensures f.size != 0 && r.base <= LastOf(f) && f.base <= r.limit ==>
      Constrain(r, f) == if Distance(r.limit, LastOf(f)) > Distance(f.base, r.base)
                         then Region((f.base + f.size) % WORD, r.limit)
                         else Region(r.base, (f.base - 1) % WORD)
  {
    if f.size > 0 {
      LastExact(f);
      SignedDistance(r.limit, LastOf(f));
      SignedDistance(f.base, r.base);
    }
  }

  lemma SignedDistance(a: address, b: address)
    ensures Signed(Sub(a, b)) == Distance(a, b)
  {
    if a >= b {
      SmallMod(a - b, WORD);
    } else {
      SmallMod(a - b + WORD, WORD);
    }
  }

  // The addresses of a range that are above, and below, a resource in it.
  function RoomAbove(r: Region, f: Fixed): int {
    r.limit - LastOf(f)
  }

  function RoomBelow(r: Region, f: Fixed): int {
    f.base - r.base
  }

  /** Of a range of less than half the address space around a resource the larger part is kept, and all of it;
      on a tie the lower one. */
  lemma LargerPartIsKept(r: Region, f: Fixed)
    requires Bounded(f) && f.size != 0 && r.base <= f.base && LastOf(f) <= r.limit && r.limit - r.base < WORD / 2
    requires RoomAbove(r, f) > 0 || RoomBelow(r, f) > 0
    ensures RoomAbove(r, f) > RoomBelow(r, f) ==> Constrain(r, f) == Region(LastOf(f) + 1, r.limit)
    ensures RoomAbove(r, f) <= RoomBelow(r, f) ==> Constrain(r, f) == Region(r.base, f.base - 1)
    ensures var k := Constrain(r, f);
      k.limit - k.base + 1 == if RoomAbove(r, f) > RoomBelow(r, f) then RoomAbove(r, f) else RoomBelow(r, f)
  {
    ConstrainSides(r, f);
    if RoomAbove(r, f) > 0 {
      SmallMod(f.base + f.size, WORD);
    }
    if RoomBelow(r, f) > 0 {
      SmallMod(f.base - 1, WORD);
    }
  }

  ghost function ConstrainAll(r: Region, fs: seq<Fixed>): Region
    decreases |fs|
  {
    if fs == [] then r else ConstrainAll(Constrain(r, fs[0]), fs[1..])
  }

  predicate Clean(r: Region, fs: seq<Fixed>)
    decreases |fs|
  {
    fs != [] ==> !Wraps(r, fs[0]) && Clean(Constrain(r, fs[0]), fs[1..])
  }

  /** The range left after all of them avoids every one, when none wraps. */
  lemma {:induction false} AllAvoided(r: Region, fs: seq<Fixed>)
    requires Clean(r, fs) && forall i :: 0 <= i < |fs| ==> Bounded(fs[i])
    ensures Inside(ConstrainAll(r, fs), r)
    ensures forall i :: 0 <= i < |fs| ==> Avoids(ConstrainAll(r, fs), fs[i])
    decreases |fs|
  {
    if fs != [] {
      var next := Constrain(r, fs[0]);
      ConstrainExactly(r, fs[0]);
      AllAvoided(next, fs[1..]);
      InsideAvoids(ConstrainAll(next, fs[1..]), next, fs[0]);
      forall i | 0 <= i < |fs| ensures Avoids(ConstrainAll(r, fs), fs[i]) {
        if i > 0 {
          assert fs[i] == fs[1..][i - 1];
        }
      }
    }
  }

  lemma InsideAvoids(r: Region, outer: Region, f: Fixed)
    requires Inside(r, outer) && Avoids(outer, f)
    ensures Avoids(r, f)
  {
  }

  // No fixed resource starts at 0 or ends at the end of the address space.
  ghost predicate Inner(fs: seq<Fixed>) {
    forall i :: 0 <= i < |fs| ==> fs[i].base > 0 && fs[i].base + fs[i].size < WORD
  }

  /** Then nothing wraps. */
  lemma {:induction false} InnerIsClean(r: Region, fs: seq<Fixed>)
    requires Inner(fs)
    ensures Clean(r, fs)
    decreases |fs|
  {
    if fs != [] {
      InnerIsClean(Constrain(r, fs[0]), fs[1..]);
    }
  }

  /** A fixed resource at address 0 that covers the whole region does not empty it: the limit wraps and the
      region becomes the whole address space. */
  lemma CoveredRegionIsFreed(r: Region, f: Fixed)
    requires r.base == 0 && f.base == 0 && r.limit < f.size <= r.limit + WORD / 2
    ensures Constrain(r, f) == Region(0, WORD - 1)
  {
    LastExact(f);
  }

  lemma {:induction false} ConstrainConcat(r: Region, a: seq<Fixed>, b: seq<Fixed>)
    ensures ConstrainAll(r, a + b) == ConstrainAll(ConstrainAll(r, a), b)
    decreases |a|
  {
    if a == [] {
      assert a + b == b;
    } else {
      assert (a + b)[1..] == a[1..] + b;
      ConstrainConcat(Constrain(r, a[0]), a[1..], b);
    }
  }

  // ------------------------------------------------------------------ the tree

  datatype Kind = Pref | Mem | Io

  // The kind of a resource.  memMask is MEM_MASK: with 64-bit prefetchable memory configured it contains
  // PREFETCH, without it prefetchable memory counts as memory.
  function KindOf(flags: set<Flag>, memMask: set<Flag>): Option<Kind> {
    if flags * memMask == {PREFETCH, MEM} then Some(Pref)
    else if flags * memMask == {MEM} then Some(Mem)
    else if flags * {IO} == {IO} then Some(Io)
    else None
  }

  /** Which range a resource concerns, flag by flag: memory that is not prefetchable the memory range,
      prefetchable memory its own range where there is one and else the memory range, and I/O the I/O range. */
  lemma KindCases(flags: set<Flag>, memMask: set<Flag>)
    requires memMask == {MEM} || memMask == {PREFETCH, MEM}
    ensures KindOf(flags, memMask) ==
      if MEM in flags then Some(if PREFETCH in flags && PREFETCH in memMask then Pref else Mem)
      else if IO in flags then Some(Io)
      else None
  {
    var both := flags * memMask;
    assert MEM in both <==> MEM in flags;
    assert PREFETCH in both <==> PREFETCH in flags && PREFETCH in memMask;
    assert both <= {PREFETCH, MEM};
    assert MEM in both && PREFETCH in both ==> both == {PREFETCH, MEM};
    assert MEM in both && PREFETCH !in both ==> both == {MEM};
    assert IO in flags ==> flags * {IO} == {IO};
  }

  // The resources of a device and of the enabled devices behind it, in the order of the recursive walk.
  function Listed(dev: Device): seq<Resource>
    decreases dev, 1
  {
    dev.resources + OnLinks(dev.links)
  }

  function OnLinks(links: seq<Link>): seq<Resource>
    decreases links, 0
  {
    if links == [] then [] else OnLink(links[0]) + OnLinks(links[1..])
  }

  function OnLink(link: Link): seq<Resource>
    decreases link, 0
  {
    OnChildren(link.bus.children)
  }

  function OnChildren(devs: seq<Device>): seq<Resource>
    decreases devs, 0
  {
    if devs == [] then []
    else OnChild(devs[0]) + OnChildren(devs[1..])
  }

  function OnChild(dev: Device): seq<Resource>
    decreases dev, 2
  {
    if dev.enabled then Listed(dev) else []
  }

  // From a device to the child-th device on its link-th link.
  datatype Hop = Hop(link: nat, child: nat)

  // The path goes through enabled devices.
  ghost predicate Reached(dev: Device, path: seq<Hop>)
    decreases |path|
  {
    path != [] ==>
      var h := path[0];
      && h.link < |dev.links| && h.child < |dev.links[h.link].bus.children|
      && dev.links[h.link].bus.children[h.child].enabled
      && Reached(dev.links[h.link].bus.children[h.child], path[1..])
  }

  ghost function DeviceAt(dev: Device, path: seq<Hop>): Device
    requires Reached(dev, path)
    decreases |path|
  {
    if path == [] then dev else DeviceAt(dev.links[path[0].link].bus.children[path[0].child], path[1..])
  }

  // Where resource r of the walk is.
  lemma {:induction false} ListedAt(dev: Device, r: Resource) returns (path: seq<Hop>)
    requires r in Listed(dev)
    ensures Reached(dev, path) && r in DeviceAt(dev, path).resources
    decreases dev
  {
    if r in dev.resources {
      path := [];
    } else {
      var l := OnSomeLink(dev.links, r);
      var c := OnSomeChild(dev.links[l].bus.children, r);
      var rest := ListedAt(dev.links[l].bus.children[c], r);
      path := [Hop(l, c)] + rest;
      assert path[1..] == rest;
    }
  }

  lemma {:induction false} OnSomeLink(links: seq<Link>, r: Resource) returns (l: nat)
    requires r in OnLinks(links)
    ensures l < |links| && r in OnChildren(links[l].bus.children)
  {
    if r in OnLink(links[0]) {
      l := 0;
    } else {
      var k := OnSomeLink(links[1..], r);
      l := k + 1;
    }
  }

  lemma {:induction false} OnSomeChild(devs: seq<Device>, r: Resource) returns (c: nat)
    requires r in OnChildren(devs)
    ensures c < |devs| && devs[c].enabled && r in Listed(devs[c])
  {
    if r in OnChild(devs[0]) {
      c := 0;
    } else {
      var k := OnSomeChild(devs[1..], r);
      c := k + 1;
    }
  }

  lemma {:induction false} OnLinksHas(links: seq<Link>, l: nat, r: Resource)
    requires l < |links| && r in OnChildren(links[l].bus.children)
    ensures r in OnLinks(links)
  {
    if l > 0 {
      OnLinksHas(links[1..], l - 1, r);
    } else {
      assert r in OnLink(links[0]);
    }
  }

  lemma {:induction false} OnChildrenHas(devs: seq<Device>, c: nat, r: Resource)
    requires c < |devs| && devs[c].enabled && r in Listed(devs[c])
    ensures r in OnChildren(devs)
  {
    if c > 0 {
      OnChildrenHas(devs[1..], c - 1, r);
    } else {
      assert r in OnChild(devs[0]);
    }
  }

  lemma {:induction false} ReachedIsListed(dev: Device, path: seq<Hop>, r: Resource)
    requires Reached(dev, path) && r in DeviceAt(dev, path).resources
    ensures r in Listed(dev)
    decreases |path|
  {
    if path != [] {
      var h := path[0];
      var devs := dev.links[h.link].bus.children;
      ReachedIsListed(devs[h.child], path[1..], r);
      OnChildrenHas(devs, h.child, r);
      OnLinksHas(dev.links, h.link, r);
    }
  }

  /** The walk comes to a resource exactly when it belongs to a device that enabled devices lead to. */
  lemma ListedExactly(dev: Device, r: Resource)
    ensures r in Listed(dev) <==> exists path :: Reached(dev, path) && r in DeviceAt(dev, path).resources
  {
    if r in Listed(dev) {
      var path := ListedAt(dev, r);
    }
    if path :| Reached(dev, path) && r in DeviceAt(dev, path).resources {
      ReachedIsListed(dev, path, r);
    }
  }

  lemma {:induction false} OnLinksSnoc(links: seq<Link>, l: nat)
    requires l < |links|
    ensures OnLinks(links[..l + 1]) == OnLinks(links[..l]) + OnLink(links[l])
  {
    if l > 0 {
      OnLinksSnoc(links[1..], l - 1);
      assert links[..l + 1][1..] == links[1..][..l] && links[..l][1..] == links[1..][..l - 1];
    } else {
      assert links[..1] == [links[0]];
    }
  }

  lemma {:induction false} OnChildrenSnoc(devs: seq<Device>, c: nat)
    requires c < |devs|
    ensures OnChildren(devs[..c + 1]) == OnChildren(devs[..c]) + OnChild(devs[c])
  {
    if c > 0 {
      OnChildrenSnoc(devs[1..], c - 1);
      assert devs[..c + 1][1..] == devs[1..][..c] && devs[..c][1..] == devs[1..][..c - 1];
    } else {
      assert devs[..1] == [devs[0]];
    }
  }

  // The fixed resources of one kind.
  ghost function FixedIn(rs: seq<Resource>, kind: Kind, memMask: set<Flag>): seq<Fixed>
    reads rs
    decreases |rs|
  {
    if rs == [] then []
    else
      var rest := FixedIn(rs[1..], kind, memMask);
      if FIXED in rs[0].flags && KindOf(rs[0].flags, memMask) == Some(kind) then [Fixed(rs[0].base, rs[0].size)] + rest
      else rest
  }

  lemma {:induction false} FixedConcat(a: seq<Resource>, b: seq<Resource>, kind: Kind, memMask: set<Flag>)
    ensures FixedIn(a + b, kind, memMask) == FixedIn(a, kind, memMask) + FixedIn(b, kind, memMask)
    decreases |a|
  {
    if a == [] {
      assert a + b == b;
    } else {
      assert (a + b)[1..] == a[1..] + b;
      FixedConcat(a[1..], b, kind, memMask);
    }
  }

  // struct constraints
  datatype Limits = Limits(pref: Region, mem: Region, io: Region)

  // now is what was becomes when the resources of rs are visited in order.
  ghost predicate Visited(was: Limits, now: Limits, rs: seq<Resource>, memMask: set<Flag>)
    reads rs
  {
    && now.pref == ConstrainAll(was.pref, FixedIn(rs, Pref, memMask))
    && now.mem == ConstrainAll(was.mem, FixedIn(rs, Mem, memMask))
    && now.io == ConstrainAll(was.io, FixedIn(rs, Io, memMask))
  }

  lemma VisitedConcat(l0: Limits, l1: Limits, l2: Limits, a: seq<Resource>, b: seq<Resource>, memMask: set<Flag>)
    requires Visited(l0, l1, a, memMask) && Visited(l1, l2, b, memMask)
    ensures Visited(l0, l2, a + b, memMask)
  {
    Walked(l0.pref, a, b, Pref, memMask);
    Walked(l0.mem, a, b, Mem, memMask);
    Walked(l0.io, a, b, Io, memMask);
  }

  // One part of the walk after another.
  lemma Walked(r0: Region, a: seq<Resource>, b: seq<Resource>, kind: Kind, memMask: set<Flag>)
    ensures ConstrainAll(r0, FixedIn(a + b, kind, memMask))
         == ConstrainAll(ConstrainAll(r0, FixedIn(a, kind, memMask)), FixedIn(b, kind, memMask))
  {
    FixedConcat(a, b, kind, memMask);
    ConstrainConcat(r0, FixedIn(a, kind, memMask), FixedIn(b, kind, memMask));
  }

  // The limit that a resource concerns is cut down by it.
  function Cut(l: Limits, flags: set<Flag>, f: Fixed, memMask: set<Flag>): Limits {
    if FIXED !in flags || f.size == 0 then l
    else
      match KindOf(flags, memMask)
      case Some(Pref) => l.(pref := Constrain(l.pref, f))
      case Some(Mem) => l.(mem := Constrain(l.mem, f))
      case Some(Io) => l.(io := Constrain(l.io, f))
      case None => l
  }

  lemma CutVisits(l: Limits, res: Resource, memMask: set<Flag>)
    ensures Visited(l, Cut(l, res.flags, Fixed(res.base, res.size), memMask), [res], memMask)
  {
    assert [res][1..] == [];
  }

  // The walk has visited seen, and now a device's own resources.
  method ConstrainOwn(rs: seq<Resource>, limits0: Limits, memMask: set<Flag>, ghost start: Limits,
                      ghost seen: seq<Resource>) returns (limits: Limits)
    requires Visited(start, limits0, seen, memMask)
    ensures Visited(start, limits, seen + rs, memMask)
  {
    limits := limits0;
    assert seen + rs[..0] == seen;
    for i := 0 to |rs|
      invariant Visited(start, limits, seen + rs[..i], memMask)
    {
      var next := Cut(limits, rs[i].flags, Fixed(rs[i].base, rs[i].size), memMask);
      CutVisits(limits, rs[i], memMask);
      VisitedConcat(start, limits, next, seen + rs[..i], [rs[i]], memMask);
      assert seen + rs[..i + 1] == (seen + rs[..i]) + [rs[i]];
      limits := next;
    }
    assert rs[..|rs|] == rs;
  }

  // And the enabled devices of one link.
  method ConstrainChildren(devs: seq<Device>, limits0: Limits, memMask: set<Flag>, ghost start: Limits,
                           ghost seen: seq<Resource>) returns (limits: Limits)
    requires Visited(start, limits0, seen, memMask)
    ensures Visited(start, limits, seen + OnChildren(devs), memMask)
    decreases devs, 1
  {
    limits := limits0;
    assert seen + OnChildren(devs[..0]) == seen;
    for c := 0 to |devs|
      invariant Visited(start, limits, seen + OnChildren(devs[..c]), memMask)
    {
      ghost var now := seen + OnChildren(devs[..c]);
      if devs[c].enabled {
        limits := ConstrainBehind(devs[c], limits, memMask, start, now);
        assert Visited(start, limits, now + Listed(devs[c]), memMask);
      } else {
        assert now + [] == now;
      }
      NextChild(seen, devs, c);
    }
    assert devs[..|devs|] == devs;
  }

  lemma NextChild(seen: seq<Resource>, devs: seq<Device>, c: nat)
    requires c < |devs|
    ensures seen + OnChildren(devs[..c + 1]) ==
      seen + OnChildren(devs[..c]) + if devs[c].enabled then Listed(devs[c]) else []
  {
    OnChildrenSnoc(devs, c);
  }

  lemma NextLink(seen: seq<Resource>, links: seq<Link>, l: nat)
    requires l < |links|
    ensures seen + OnLinks(links[..l + 1]) == seen + OnLinks(links[..l]) + OnChildren(links[l].bus.children)
  {
    OnLinksSnoc(links, l);
  }

  // And a device with all that is behind it.
  method ConstrainBehind(dev: Device, limits0: Limits, memMask: set<Flag>, ghost start: Limits,
                         ghost seen: seq<Resource>) returns (limits: Limits)
    requires Visited(start, limits0, seen, memMask)
    ensures Visited(start, limits, seen + Listed(dev), memMask)
    decreases dev, 0
  {
    limits := ConstrainOwn(dev.resources, limits0, memMask, start, seen);
    ghost var own := seen + dev.resources;
    assert own + OnLinks(dev.links[..0]) == own;
    for l := 0 to |dev.links|
      invariant Visited(start, limits, own + OnLinks(dev.links[..l]), memMask)
    {
      NextLink(own, dev.links, l);
      limits := ConstrainChildren(dev.links[l].bus.children, limits, memMask, start, own + OnLinks(dev.links[..l]));
    }
    assert dev.links[..|dev.links|] == dev.links;
    assert own + OnLinks(dev.links) == seen + Listed(dev);
  }

  /** constrain_resources(): the device's own resources, then those of every enabled device behind it. */
  method ConstrainResources(dev: Device, limits0: Limits, memMask: set<Flag>) returns (limits: Limits)
    ensures Visited(limits0, limits, Listed(dev), memMask)
  {
    limits := ConstrainBehind(dev, limits0, memMask, limits0, []);
    assert [] + Listed(dev) == Listed(dev);
  }

  // ------------------------------------------------------------------ the windows of a domain

  /** A memory window that dev_configure puts at resource_max(), below the limit that is left, lies in the
      region, and so overlaps no fixed resource, exactly when it fits above the region's base. */
  lemma WindowInRegion(r: Res, region: Region)
    requires 0 < r.size <= r.limit + 1 && r.limit <= region.limit
    ensures region.base <= ResourceMax(r) && ResourceMax(r) + r.size <= region.limit + 1
        <==> RoundUp(region.base, r.align) + r.size <= r.limit + 1
  {
    ResourceMaxIsGreatest(r);
    RoundUpBounds(region.base, r.align);
    if region.base <= ResourceMax(r) {
      RoundUpLeast(region.base, r.align, ResourceMax(r));
    }
  }

  /** And then no resource that both passes place in the window overlaps a fixed one. */
  lemma PlacedAvoidsFixed(t: Tree, path: seq<nat>, region: Region, fs: seq<Fixed>, i: nat)
    requires Placed(t) && path != [] && Leads(t, path) && At(t, path).res.size != 0
    requires region.base <= t.res.base && t.res.base + t.res.size <= region.limit + 1
    requires i < |fs| && fs[i].size != 0 && Avoids(region, fs[i])
    ensures var r := At(t, path).res;
      r.base + r.size <= fs[i].base || fs[i].base + fs[i].size <= r.base
  {
    PlacedBelow(t, path);
  }

  /** From the fixed resources of the tree to the last device: when nothing wraps and the computed size fits
      into the region that the fixed resources leave, no resource of a domain's memory window overlaps a
      fixed resource of its kind. */
  lemma DomainAvoidsFixed(t0: Tree, start: Region, fs: seq<Fixed>, path: seq<nat>, i: nat)
    requires Ready(t0) && !HasIo(t0) && Clean(start, fs) && forall k :: 0 <= k < |fs| ==> Bounded(fs[k])
    requires var region, t1 := ConstrainAll(start, fs), Compute(t0);
      var limit := Lower(t1.res.limit, region.limit);
      && t1.res.size > 0 && RoundUp(region.base, t1.res.align) + t1.res.size <= limit + 1
      && path != [] && Leads(Allocate(AtTop(t1, limit)), path)
    requires i < |fs| && fs[i].size != 0
    ensures var region, t1 := ConstrainAll(start, fs), Compute(t0);
      var r := At(Allocate(AtTop(t1, Lower(t1.res.limit, region.limit))), path).res;
      r.size != 0 ==> r.base + r.size <= fs[i].base || fs[i].base + fs[i].size <= r.base
  {
    var region, t1 := ConstrainAll(start, fs), Compute(t0);
    var limit := Lower(t1.res.limit, region.limit);
    var top := AtTop(t1, limit);
    AllAvoided(start, fs);
    RoundUpBounds(region.base, t1.res.align);
    MemoryWindowSucceeds(t0, limit);
    WindowInRegion(top.res, region);
    if At(Allocate(top), path).res.size != 0 {
      PlacedAvoidsFixed(Allocate(top), path, region, fs, i);
    }
  }

  /** So no resource of the window meets a fixed one when those lie inside the address space and the window
      fits. */
  lemma DomainAvoidsInner(t0: Tree, start: Region, fs: seq<Fixed>, path: seq<nat>, i: nat)
    requires Ready(t0) && !HasIo(t0) && Inner(fs)
    requires var region, t1 := ConstrainAll(start, fs), Compute(t0);
      var limit := Lower(t1.res.limit, region.limit);
      && t1.res.size > 0 && RoundUp(region.base, t1.res.align) + t1.res.size <= limit + 1
      && path != [] && Leads(Allocate(AtTop(t1, limit)), path)
    requires i < |fs| && fs[i].size != 0
    ensures var region, t1 := ConstrainAll(start, fs), Compute(t0);
      var r := At(Allocate(AtTop(t1, Lower(t1.res.limit, region.limit))), path).res;
      r.size != 0 ==> r.base + r.size <= fs[i].base || fs[i].base + fs[i].size <= r.base
  {
    InnerIsClean(start, fs);
    DomainAvoidsFixed(t0, start, fs, path, i);
  }
}
