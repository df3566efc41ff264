/**
  avoid_fixed_resources (src/device/device.c): a domain's own windows are cut down to what the fixed resources
  of the whole tree leave of the range that the windows themselves allow.
 */
module AvoidFixed {
  import opened Addresses
  import opened Windows
  import opened Wrappers
  import opened Devices
  import opened Constraints

  // A window of the domain of one kind.
  ghost predicate Concerned(r: Resource, mask: set<Flag>, typ: set<Flag>) {
    FIXED !in r.flags && r.flags * mask == typ
  }

  // The lowest of the limits of these windows, and the last address when there are none.
  ghost predicate LowestLimit(limit: address, rs: seq<Resource>, mask: set<Flag>, typ: set<Flag>)
    reads rs
  {
    && (forall r :: r in rs && Concerned(r, mask, typ) ==> limit <= r.limit)
    && (limit == WORD - 1 || exists r :: r in rs && Concerned(r, mask, typ) && r.limit == limit)
  }

  // Where the walk over the fixed resources begins.
  ghost predicate Begins(l: Limits, rs: seq<Resource>, memMask: set<Flag>)
    reads rs
  {
    && l.pref.base == 0 && LowestLimit(l.pref.limit, rs, memMask, {PREFETCH, MEM})
    && l.mem.base == 0 && LowestLimit(l.mem.limit, rs, memMask, {MEM})
    && l.io.base == 0 && LowestLimit(l.io.limit, rs, {IO}, {IO})
  }

  function Lowered(limit: address, r: Resource, mask: set<Flag>, typ: set<Flag>): address
    reads r
  {
    if FIXED !in r.flags && r.flags * mask == typ && r.limit < limit then r.limit else limit
  }

  lemma OneMoreWindow(limit: address, rs: seq<Resource>, i: nat, mask: set<Flag>, typ: set<Flag>)
    requires i < |rs| && LowestLimit(limit, rs[..i], mask, typ)
    ensures LowestLimit(Lowered(limit, rs[i], mask, typ), rs[..i + 1], mask, typ)
  {
    var now := Lowered(limit, rs[i], mask, typ);
    assert rs[..i + 1] == rs[..i] + [rs[i]];
    if now == limit != WORD - 1 {
      var r :| r in rs[..i] && Concerned(r, mask, typ) && r.limit == limit;
      assert r in rs[..i + 1];
    } else if now != limit {
      assert rs[i] in rs[..i + 1] && Concerned(rs[i], mask, typ);
    }
  }

  method InitialLimits(rs: seq<Resource>, memMask: set<Flag>) returns (l: Limits)
    ensures Begins(l, rs, memMask)
  {
    var all := Region(0, WORD - 1);
    l := Limits(all, all, all);
    for i := 0 to |rs|
      invariant Begins(l, rs[..i], memMask)
    {
      var pref := Lowered(l.pref.limit, rs[i], memMask, {PREFETCH, MEM});
      var mem := Lowered(l.mem.limit, rs[i], memMask, {MEM});
      var io := Lowered(l.io.limit, rs[i], {IO}, {IO});
      OneMoreWindow(l.pref.limit, rs, i, memMask, {PREFETCH, MEM});
      OneMoreWindow(l.mem.limit, rs, i, memMask, {MEM});
      OneMoreWindow(l.io.limit, rs, i, {IO}, {IO});
      l := Limits(Region(0, pref), Region(0, mem), Region(0, io));
    }
    assert rs[..|rs|] == rs;
  }

  // The region for a window, if there is one.
  function RegionFor(l: Limits, flags: set<Flag>, memMask: set<Flag>): Option<Region> {
    if FIXED in flags then None
    else
      match KindOf(flags, memMask)
      case Some(Pref) => Some(l.pref)
      case Some(Mem) => Some(l.mem)
      case Some(Io) => Some(l.io)
      case None => None
  }

  /** Flag by flag: a fixed resource is no window; prefetchable memory has its own region where there is one,
      all other memory the memory region, and I/O the I/O region. */
  lemma RegionCases(l: Limits, flags: set<Flag>, memMask: set<Flag>)
    requires memMask == {MEM} || memMask == {PREFETCH, MEM}
    ensures RegionFor(l, flags, memMask) ==
      if FIXED in flags then None
      else if MEM in flags then Some(if PREFETCH in flags && PREFETCH in memMask then l.pref else l.mem)
      else if IO in flags then Some(l.io)
      else None
  {
    KindCases(flags, memMask);
  }

  // The window from then on.
  function Narrowed(was: Res, region: Option<Region>): Res {
    if region.None? then was
    else
      was.(base := if region.value.base > was.base then region.value.base else was.base,
           limit := if was.limit > region.value.limit then region.value.limit else was.limit)
  }

  ghost predicate Holds(base: address, limit: address, a: address) {
    base <= a <= limit
  }

  /** It keeps exactly the addresses that are in the region too, and everything else is as it was. */
  lemma NarrowedIsCommon(was: Res, region: Option<Region>)
    ensures var now := Narrowed(was, region);
      && now == was.(base := now.base, limit := now.limit)
      && forall a: address :: Holds(now.base, now.limit, a) <==>
           Holds(was.base, was.limit, a) && (region.Some? ==> Holds(region.value.base, region.value.limit, a))
  {
  }

  /** So when no bound wraps, no address of the window is one of a fixed resource of its kind. */
  lemma NarrowedAvoids(was: Res, start: Region, fs: seq<Fixed>, i: nat, a: address)
    requires Clean(start, fs) && forall k :: 0 <= k < |fs| ==> Bounded(fs[k])
    requires i < |fs|
    requires var now := Narrowed(was, Some(ConstrainAll(start, fs))); Holds(now.base, now.limit, a)
    ensures !(fs[i].base <= a < fs[i].base + fs[i].size)
  {
    NarrowedIsCommon(was, Some(ConstrainAll(start, fs)));
    AllAvoided(start, fs);
    assert Avoids(ConstrainAll(start, fs), fs[i]);
  }

  method Narrow(r: Resource, l: Limits, memMask: set<Flag>)
    modifies r
    ensures r.Value() == Narrowed(old(r.Value()), RegionFor(l, r.flags, memMask))
  {
    var region := RegionFor(l, r.flags, memMask);
    if region.Some? {
      if region.value.base > r.base {
        r.base := region.value.base;
      }
      if r.limit > region.value.limit {
        r.limit := region.value.limit;
      }
    }
  }

  // A window may be listed twice: narrowing it again changes nothing.
  lemma NarrowedTwice(was: Res, region: Option<Region>)
    ensures Narrowed(Narrowed(was, region), region) == Narrowed(was, region)
  {
  }

  method NarrowAll(rs: seq<Resource>, l: Limits, memMask: set<Flag>)
    modifies rs
    ensures forall r :: r in rs ==> r.Value() == Narrowed(old(r.Value()), RegionFor(l, r.flags, memMask))
  {
    for i := 0 to |rs|
      invariant forall r :: r in rs[..i] ==> r.Value() == Narrowed(old(r.Value()), RegionFor(l, r.flags, memMask))
      invariant forall r :: r in rs && r !in rs[..i] ==> r.Value() == old(r.Value())
    {
      NarrowedTwice(old(rs[i].Value()), RegionFor(l, rs[i].flags, memMask));
      Narrow(rs[i], l, memMask);
      assert rs[..i + 1] == rs[..i] + [rs[i]];
    }
    assert rs[..|rs|] == rs;
  }

  lemma {:induction false} ListedAllocated(dev: Device)
    ensures forall r :: r in Listed(dev) ==> allocated(r)
    decreases dev, 1
  {
    LinksAllocated(dev.links);
  }

  lemma {:induction false} LinksAllocated(links: seq<Link>)
    ensures forall r :: r in OnLinks(links) ==> allocated(r)
    decreases links, 0
  {
    if links != [] {
      LinkAllocated(links[0]);
      LinksAllocated(links[1..]);
    }
  }

  lemma {:induction false} LinkAllocated(link: Link)
    ensures forall r :: r in OnLink(link) ==> allocated(r)
    decreases link, 0
  {
    ChildrenAllocated(link.bus.children);
  }

  lemma {:induction false} ChildrenAllocated(devs: seq<Device>)
    ensures forall r :: r in OnChildren(devs) ==> allocated(r)
    decreases devs, 0
  {
    if devs != [] {
      ChildAllocated(devs[0]);
      ChildrenAllocated(devs[1..]);
    }
  }

  lemma {:induction false} ChildAllocated(dev: Device)
    ensures forall r :: r in OnChild(dev) ==> allocated(r)
    decreases dev, 2
  {
    if dev.enabled {
      ListedAllocated(dev);
    }
  }

  // Both walks over the tree change nothing.
  method FindLimits(dev: Device, memMask: set<Flag>) returns (ghost start: Limits, limits: Limits)
    ensures old(Begins(start, dev.resources, memMask))
    ensures old(Visited(start, limits, Listed(dev), memMask))
  {
    ghost var rs := Listed(dev);
    ListedAllocated(dev);
    var limits0 := InitialLimits(dev.resources, memMask);
    limits := ConstrainResources(dev, limits0, memMask);
    start := limits0;
    assert FixedIn(rs, Pref, memMask) == old(FixedIn(rs, Pref, memMask));
    assert FixedIn(rs, Mem, memMask) == old(FixedIn(rs, Mem, memMask));
    assert FixedIn(rs, Io, memMask) == old(FixedIn(rs, Io, memMask));
  }

  /** avoid_fixed_resources(): every window of the domain is narrowed to what the fixed resources leave, all of
      them read before any window changes. */
  method AvoidFixedResources(dev: Device, memMask: set<Flag>) returns (ghost start: Limits, ghost l: Limits)
    modifies dev.resources
    ensures old(Begins(start, dev.resources, memMask))
    ensures old(Visited(start, l, Listed(dev), memMask))
    ensures forall r :: r in dev.resources ==> r.Value() == Narrowed(old(r.Value()), RegionFor(l, r.flags, memMask))
  {
    var limits;
    start, limits := FindLimits(dev, memMask);
    l := limits;
    NarrowAll(dev.resources, limits, memMask);
  }
}
