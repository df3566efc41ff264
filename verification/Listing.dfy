/**
  Which resources an allocation pass is about: the walk of search_bus_resources (src/device/device_util.c)
  and of the bridge loops of src/device/device.c, said of flags, devices and links alone.
 */
module Listing {
  import opened Wrappers
  import opened Devices

  // The flags asked about are those of the type and no others.
  ghost predicate Agrees(flags: set<Flag>, mask: set<Flag>, typ: set<Flag>) {
    forall f :: f in mask ==> (f in flags <==> f in typ)
  }

  // The item-th resource of the dev-th device on a bus.
  datatype Place = Place(dev: nat, item: nat)

  ghost predicate Before(a: Place, b: Place) {
    a.dev < b.dev || (a.dev == b.dev && a.item < b.item)
  }

  ghost predicate Exists(devs: seq<Device>, a: Place) {
    a.dev < |devs| && a.item < |devs[a.dev].resources|
  }

  ghost predicate Wanted(devs: seq<Device>, a: Place, mask: set<Flag>, typ: set<Flag>) {
    Exists(devs, a) && Agrees(devs[a.dev].resources[a.item].flags, mask, typ)
  }

  // The first link of that number.
  ghost predicate LinkNumber(links: seq<Link>, num: nat, l: nat) {
    l < |links| && links[l].num == num && forall k :: 0 <= k < l ==> links[k].num != num
  }

  // Node n is the resource at a: it takes part when its device is enabled and it is not fixed, and it is a
  // window when it is a bridge resource of a device with links.
  ghost predicate IsAt(n: Node, devs: seq<Device>, a: Place, mask: set<Flag>, typ: set<Flag>)
    decreases devs, 0
  {
    Exists(devs, a) &&
    var dev := devs[a.dev];
    var r := dev.resources[a.item];
    && n.res == r
    && (n.listed <==> dev.enabled && FIXED !in r.flags)
    && (n.window <==> BRIDGE in r.flags && dev.links != [])
    && (!n.window ==> n.kids == [])
    && (n.window ==> forall l: nat :: LinkNumber(dev.links, r.link, l) ==>
          Lists(n.kids, dev.links[l].bus.children, mask + {PREFETCH}, if PREFETCH in r.flags then typ + {PREFETCH} else typ))
  }

  // The nodes are the wanted resources of the devices, each once, in device and list order.
  ghost predicate ListsAt(ns: seq<Node>, devs: seq<Device>, mask: set<Flag>, typ: set<Flag>, at: seq<Place>)
    decreases devs, 1
  {
    && |at| == |ns|
    && (forall k :: 0 <= k < |ns| ==> IsAt(ns[k], devs, at[k], mask, typ))
    && (forall j, k :: 0 <= j < k < |at| ==> Before(at[j], at[k]))
    && (forall a :: a in at <==> Wanted(devs, a, mask, typ))
  }

  ghost predicate Lists(ns: seq<Node>, devs: seq<Device>, mask: set<Flag>, typ: set<Flag>)
    decreases devs, 2
  {
    exists at: seq<Place> :: ListsAt(ns, devs, mask, typ, at)
  }

  // ------------------------------------------------------------------ parts of the walk

  // The same for the places from lo up to hi.
  ghost predicate Part(ns: seq<Node>, devs: seq<Device>, mask: set<Flag>, typ: set<Flag>, at: seq<Place>, lo: Place, hi: Place) {
    && |at| == |ns|
    && (forall k :: 0 <= k < |ns| ==> IsAt(ns[k], devs, at[k], mask, typ))
    && (forall j, k :: 0 <= j < k < |at| ==> Before(at[j], at[k]))
    && (forall a :: a in at <==> Wanted(devs, a, mask, typ) && !Before(a, lo) && Before(a, hi))
  }

  lemma PartsJoin(ns: seq<Node>, ms: seq<Node>, devs: seq<Device>, mask: set<Flag>, typ: set<Flag>,
                  at: seq<Place>, bt: seq<Place>, lo: Place, mid: Place, hi: Place)
    requires Part(ns, devs, mask, typ, at, lo, mid) && Part(ms, devs, mask, typ, bt, mid, hi)
    requires !Before(mid, lo) && !Before(hi, mid)
    ensures Part(ns + ms, devs, mask, typ, at + bt, lo, hi)
  {
    var ct := at + bt;
    forall j, k | 0 <= j < k < |ct| ensures Before(ct[j], ct[k]) {
      if j < |at| <= k {
        assert ct[j] in at && ct[k] in bt;
      }
    }
  }

  lemma EmptyPart(devs: seq<Device>, mask: set<Flag>, typ: set<Flag>, lo: Place, hi: Place)
    requires forall a :: Wanted(devs, a, mask, typ) && !Before(a, lo) ==> !Before(a, hi)
    ensures Part([], devs, mask, typ, [], lo, hi)
  {
  }

  lemma OnePart(n: Node, devs: seq<Device>, mask: set<Flag>, typ: set<Flag>, d: nat, i: nat)
    requires Wanted(devs, Place(d, i), mask, typ) && IsAt(n, devs, Place(d, i), mask, typ)
    ensures Part([n], devs, mask, typ, [Place(d, i)], Place(d, i), Place(d, i + 1))
  {
  }

  lemma AgreesIsMatches(r: Resource, mask: set<Flag>, typ: set<Flag>)
    requires typ <= mask
    ensures Matches(r, mask, typ) <==> Agrees(r.flags, mask, typ)
  {
    if Matches(r, mask, typ) {
      forall f | f in mask ensures f in r.flags <==> f in typ {
        assert f in r.flags * mask <==> f in typ;
      }
    }
  }

  // ------------------------------------------------------------------ the walk

  lemma NodeIsAt(devs: seq<Device>, d: nat, i: nat, mask: set<Flag>, typ: set<Flag>)
    requires typ <= mask && d < |devs| && i < |devs[d].resources|
    ensures IsAt(NodeOf(devs[d], devs[d].resources[i], mask, typ), devs, Place(d, i), mask, typ)
    decreases devs[d], 0
  {
    var dev := devs[d];
    var r := dev.resources[i];
    var n := NodeOf(dev, r, mask, typ);
    forall l: nat | n.window && LinkNumber(dev.links, r.link, l)
      ensures Lists(n.kids, dev.links[l].bus.children, mask + {PREFETCH}, if PREFETCH in r.flags then typ + {PREFETCH} else typ)
    {
      var typ' := if PREFETCH in r.flags then typ + {PREFETCH} else typ;
      assert typ + r.flags * {PREFETCH} == typ';
      assert FindLink(dev.links, r.link) == Some(l);
      BusIsListed(dev.links[l].bus, mask + {PREFETCH}, typ');
    }
  }

  lemma DevicePart(devs: seq<Device>, d: nat, i: nat, mask: set<Flag>, typ: set<Flag>) returns (at: seq<Place>)
    requires typ <= mask && d < |devs| && i <= |devs[d].resources|
    ensures Part(OnDevice(devs[d], devs[d].resources[i..], mask, typ), devs, mask, typ, at, Place(d, i), Place(d + 1, 0))
    decreases devs[d], 1, |devs[d].resources| - i
  {
    var rs := devs[d].resources;
    if i == |rs| {
      at := [];
      EmptyPart(devs, mask, typ, Place(d, i), Place(d + 1, 0));
    } else {
      var rest := DevicePart(devs, d, i + 1, mask, typ);
      assert rs[i..][1..] == rs[i + 1..];
      AgreesIsMatches(rs[i], mask, typ);
      var ns := OnDevice(devs[d], rs[i + 1..], mask, typ);
      if Matches(rs[i], mask, typ) {
        var n := NodeOf(devs[d], rs[i], mask, typ);
        NodeIsAt(devs, d, i, mask, typ);
        OnePart(n, devs, mask, typ, d, i);
        PartsJoin([n], ns, devs, mask, typ, [Place(d, i)], rest, Place(d, i), Place(d, i + 1), Place(d + 1, 0));
        at := [Place(d, i)] + rest;
      } else {
        EmptyPart(devs, mask, typ, Place(d, i), Place(d, i + 1));
        PartsJoin([], ns, devs, mask, typ, [], rest, Place(d, i), Place(d, i + 1), Place(d + 1, 0));
        assert [] + ns == ns && [] + rest == rest;
        at := rest;
      }
    }
  }

  lemma DevicesPart(devs: seq<Device>, d: nat, mask: set<Flag>, typ: set<Flag>) returns (at: seq<Place>)
    requires typ <= mask && d <= |devs|
    ensures Part(OnDevices(devs[d..], mask, typ), devs, mask, typ, at, Place(d, 0), Place(|devs|, 0))
    decreases devs, 2, |devs| - d
  {
    if d == |devs| {
      at := [];
      EmptyPart(devs, mask, typ, Place(d, 0), Place(d, 0));
    } else {
      var first := DevicePart(devs, d, 0, mask, typ);
      var rest := DevicesPart(devs, d + 1, mask, typ);
      assert devs[d..][1..] == devs[d + 1..] && devs[d].resources[0..] == devs[d].resources;
      PartsJoin(OnDevice(devs[d], devs[d].resources, mask, typ), OnDevices(devs[d + 1..], mask, typ), devs, mask, typ,
                first, rest, Place(d, 0), Place(d + 1, 0), Place(|devs|, 0));
      at := first + rest;
    }
  }

  /** A pass for type typ under the mask concerns exactly the resources of the bus whose flags agree with typ
      on the mask, in device and list order, and behind a bridge resource those of its link's bus for the
      mask with PREFETCH and the bridge's own PREFETCH. */
  lemma BusIsListed(bus: Bus, mask: set<Flag>, typ: set<Flag>)
    requires typ <= mask
    ensures Lists(OnBus(bus, mask, typ), bus.children, mask, typ)
    decreases bus.children, 3
  {
    var at := DevicesPart(bus.children, 0, mask, typ);
    assert bus.children[0..] == bus.children;
    assert ListsAt(OnBus(bus, mask, typ), bus.children, mask, typ, at);
  }
}
