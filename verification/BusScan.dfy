/**
  The recursive scan that numbers the buses (do_pci_scan_bridge and pci_scan_bus in
  src/device/pci_device.c, scan_bus in src/device/device.c).  The bridges' bus number registers are a
  map in configuration space; every write to one of them is a moment of the history.
 */
module BusScan {
  import opened BusNumbers

  class Fabric {
    var regs: map<nat, nat>

    // The bridges set up by this scan, and the state after every write.
    ghost var configured: set<nat>
    ghost var history: seq<State>

    ghost function Now(): State
      reads this
    {
      State(regs, configured)
    }

    // pci_write_config32(dev, PCI_PRIMARY_BUS, r): the register's top byte is the latency timer, which no
    // write here may change.
    method Write(id: nat, r: nat)
      requires id in regs && Latency(r) == Latency(regs[id])
      modifies this
      ensures regs == old(regs)[id := r] && configured == old(configured) + {id}
      ensures history == old(history) + [Now()]
      ensures LatencyKept(Now(), old(Now()))
    {
      regs := regs[id := r];
      configured := configured + {id};
      history := history + [Now()];
    }

    // Since n, at every moment the bridges of bs are routed and all others are as in s.
    ghost predicate Sound(n: nat, s: State, bs: seq<Bridge>, primary: nat, lo: nat)
      reads this
    {
      Moments(history, n, s, bs, primary, lo)
    }
  }

  ghost predicate Moments(h: seq<State>, n: nat, s: State, bs: seq<Bridge>, primary: nat, lo: nat) {
    n <= |h| && forall k :: n <= k < |h| ==> Moment(h[k], s, bs, primary, lo)
  }

  // Since n, at every moment cycles for the buses numbered so far arrive there.
  ghost predicate Delivers(h: seq<State>, n: nat, bs: seq<Bridge>) {
    forall k :: n <= k < |h| ==> AllDelivered(h[k], bs)
  }

  lemma MomentsDeliver(h: seq<State>, n: nat, s: State, bs: seq<Bridge>, primary: nat, lo: nat)
    requires Moments(h, n, s, bs, primary, lo)
    ensures Delivers(h, n, bs)
  {
    forall k | n <= k < |h| ensures AllDelivered(h[k], bs) {
      var m := h[k];
      assert Moment(m, s, bs, primary, lo);
      forall id | id in Ids(bs) && id in m.configured && id in m.regs
        ensures Delivered(m, bs, Secondary(m.regs[id]), id)
      {
        RoutedDelivers(m, bs, primary, lo, LAST, id);
      }
    }
  }

  // Every bridge has the latency timer it had: the top byte of the register with its bus numbers.
  ghost predicate LatencyKept(m: State, s: State) {
    m.regs.Keys == s.regs.Keys && forall x :: x in s.regs ==> Latency(m.regs[x]) == Latency(s.regs[x])
  }

  // m and s differ on the bridges of bs at most.
  ghost predicate Elsewhere(m: State, s: State, bs: seq<Bridge>) {
    && m.regs.Keys == s.regs.Keys
    && forall x :: x in s.regs && x !in Ids(bs) ==>
         m.regs[x] == s.regs[x] && (x in m.configured <==> x in s.configured)
  }

  ghost predicate Moment(m: State, s: State, bs: seq<Bridge>, primary: nat, lo: nat) {
    Elsewhere(m, s, bs) && Known(m, bs) && Routed(m, bs, primary, lo, LAST)
  }

  // What a scan may start from: enough numbers, and bridges that are there and not yet set up.
  ghost predicate Ready(s: State, bs: seq<Bridge>, primary: nat, max: nat) {
    && Known(s, bs) && Distinct(bs) && Ids(bs) !! s.configured
    && primary <= LAST && max + Count(bs) <= LAST
  }

  // What it leaves.
  ghost predicate Scanned(s: State, t: State, bs: seq<Bridge>, primary: nat, max: nat) {
    && Elsewhere(t, s, bs) && Known(t, bs)
    && Settled(t, bs, primary, max)
    && Routed(t, bs, primary, max, max + Count(bs))
  }

  // ------------------------------------------------------------------ one bridge among its siblings

  // The bridges before the i-th, itself, and those after it.
  lemma Parts(bs: seq<Bridge>, i: nat)
    requires i < |bs|
    ensures bs == bs[..i] + ([bs[i]] + bs[i + 1..]) && bs[..i + 1] == bs[..i] + [bs[i]]
    ensures Ids(bs) == Ids(bs[..i]) + Ids([bs[i]]) + Ids(bs[i + 1..])
    ensures Ids(bs[..i + 1]) == Ids(bs[..i]) + Ids([bs[i]])
    ensures Count(bs) == Count(bs[..i]) + Count([bs[i]]) + Count(bs[i + 1..])
    ensures Count(bs[..i + 1]) == Count(bs[..i]) + Count([bs[i]])
  {
    var a, c, r := bs[..i], [bs[i]], bs[i + 1..];
    assert bs == a + (c + r);
    assert bs[..i + 1] == a + c;
    IdsConcat(a, c + r);
    IdsConcat(c, r);
    IdsConcat(a, c);
    CountConcat(a, c + r);
    CountConcat(c, r);
    CountConcat(a, c);
  }

  lemma PartsDistinct(bs: seq<Bridge>, i: nat)
    requires i < |bs| && Distinct(bs)
    ensures Distinct([bs[i]])
    ensures Ids(bs[..i]) !! Ids([bs[i]]) && Ids(bs[..i]) !! Ids(bs[i + 1..]) && Ids([bs[i]]) !! Ids(bs[i + 1..])
  {
    Parts(bs, i);
    ThreeOf(bs, bs[..i], [bs[i]], bs[i + 1..]);
  }

  lemma ThreeOf(bs: seq<Bridge>, a: seq<Bridge>, b: seq<Bridge>, c: seq<Bridge>)
    requires bs == a + (b + c) && Distinct(bs)
    ensures Distinct(b)
    ensures Ids(a) !! Ids(b) && Ids(a) !! Ids(c) && Ids(b) !! Ids(c)
  {
    ThreeDistinct(a, b, c);
  }

  lemma ThreeDistinct(a: seq<Bridge>, b: seq<Bridge>, c: seq<Bridge>)
    requires Distinct(a + (b + c))
    ensures Distinct(b)
    ensures Ids(a) !! Ids(b) && Ids(a) !! Ids(c) && Ids(b) !! Ids(c)
  {
    DistinctConcat(a, b + c);
    DistinctConcat(b, c);
    IdsConcat(b, c);
  }

  lemma Next(s: State, t: State, bs: seq<Bridge>, i: nat, primary: nat, max: nat)
    requires i < |bs| && Ready(s, bs, primary, max) && Scanned(s, t, bs[..i], primary, max)
    ensures Ready(t, [bs[i]], primary, max + Count(bs[..i]))
    ensures Count(bs[..i + 1]) == Count(bs[..i]) + Count([bs[i]])
  {
    Parts(bs, i);
    PartsDistinct(bs, i);
  }

  // Any moment of scanning the i-th bridge is a moment of scanning the bus.
  lemma LiftMoment(s: State, t: State, m: State, bs: seq<Bridge>, i: nat, primary: nat, max: nat)
    requires i < |bs| && Ready(s, bs, primary, max) && Scanned(s, t, bs[..i], primary, max)
    requires Moment(m, t, [bs[i]], primary, max + Count(bs[..i]))
    ensures Moment(m, s, bs, primary, max)
  {
    var a, c, r, mid := bs[..i], [bs[i]], bs[i + 1..], max + Count(bs[..i]);
    Parts(bs, i);
    PartsDistinct(bs, i);
    IdsConcat(c, r);
    RoutedFrame(t, m, a, primary, max, mid);
    UnconfiguredRouted(m, r, primary, LAST, LAST);
    RoutedConcat(m, c, r, primary, mid, LAST, LAST);
    RoutedConcat(m, a, c + r, primary, max, mid, LAST);
  }

  lemma LiftMoments(s: State, t: State, g: seq<State>, h: seq<State>, n: nat, bs: seq<Bridge>, i: nat, primary: nat, max: nat)
    requires i < |bs| && Ready(s, bs, primary, max) && Scanned(s, t, bs[..i], primary, max)
    requires g <= h && Moments(g, n, s, bs, primary, max)
    requires Moments(h, |g|, t, [bs[i]], primary, max + Count(bs[..i]))
    ensures Moments(h, n, s, bs, primary, max)
  {
    forall k | n <= k < |h| ensures Moment(h[k], s, bs, primary, max) {
      if k < |g| {
        assert h[k] == g[k];
      } else {
        LiftMoment(s, t, h[k], bs, i, primary, max);
      }
    }
  }

  lemma LiftScanned(s: State, t: State, u: State, bs: seq<Bridge>, i: nat, primary: nat, max: nat)
    requires i < |bs| && Ready(s, bs, primary, max) && Scanned(s, t, bs[..i], primary, max)
    requires Scanned(t, u, [bs[i]], primary, max + Count(bs[..i]))
    ensures Scanned(s, u, bs[..i + 1], primary, max)
  {
    Parts(bs, i);
    PartsDistinct(bs, i);
    BothScanned(t, u, bs[..i], [bs[i]], primary, max);
  }

  lemma BothScanned(t: State, u: State, a: seq<Bridge>, b: seq<Bridge>, primary: nat, max: nat)
    requires Known(t, a) && Known(u, a) && Known(u, b) && Known(u, a + b) && Elsewhere(u, t, b) && Ids(a) !! Ids(b)
    requires Settled(t, a, primary, max) && Routed(t, a, primary, max, max + Count(a))
    requires Settled(u, b, primary, max + Count(a)) && Routed(u, b, primary, max + Count(a), max + Count(a) + Count(b))
    ensures Settled(u, a + b, primary, max) && Routed(u, a + b, primary, max, max + Count(a) + Count(b))
  {
    var mid := max + Count(a);
    RoutedFrame(t, u, a, primary, max, mid);
    RoutedConcat(u, a, b, primary, max, mid, mid + Count(b));
    SettledFrame(t, u, a, primary, max);
    SettledConcat(u, a, b, primary, max);
  }

  // ------------------------------------------------------------------ one bridge and those behind it

  // t: b's bus is sec, open to the last bus; nothing behind b is set up.
  ghost predicate Opened(s: State, t: State, b: Bridge, primary: nat, sec: nat) {
    && b.id in s.regs && t.regs.Keys == s.regs.Keys && t.configured == s.configured + {b.id}
    && (forall x :: x in s.regs && x != b.id ==> t.regs[x] == s.regs[x])
    && var r := t.regs[b.id];
       Primary(r) == primary && Secondary(r) == sec && Subordinate(r) == LAST
  }

  lemma OpenedMoment(s: State, t: State, b: Bridge, primary: nat, max: nat)
    requires Ready(s, [b], primary, max) && b.active && Opened(s, t, b, primary, max + 1)
    ensures Moment(t, s, [b], primary, max) && Ready(t, b.behind, max + 1, max + 1)
  {
    OfOne(b);
    UnconfiguredRouted(t, b.behind, max + 1, max + 1, LAST);
  }

  lemma OfOne(b: Bridge)
    ensures Ids([b]) == {b.id} + Ids(b.behind) && [b][1..] == []
    ensures Count([b]) == if b.active then 1 + Count(b.behind) else 0
    ensures Distinct([b]) ==> b.id !in Ids(b.behind) && Distinct(b.behind)
  {
  }

  // While what is behind b is scanned, b is open.
  lemma BehindMoment(s: State, t: State, m: State, b: Bridge, primary: nat, max: nat)
    requires Ready(s, [b], primary, max) && b.active && Opened(s, t, b, primary, max + 1)
    requires Moment(m, t, b.behind, max + 1, max + 1)
    ensures Moment(m, s, [b], primary, max)
  {
    OfOne(b);
    assert m.regs[b.id] == t.regs[b.id];
  }

  lemma BehindMoments(s: State, t: State, g: seq<State>, h: seq<State>, n: nat, b: Bridge, primary: nat, max: nat)
    requires Ready(s, [b], primary, max) && b.active && Opened(s, t, b, primary, max + 1)
    requires g <= h && Moments(g, n, s, [b], primary, max) && Moments(h, |g|, t, b.behind, max + 1, max + 1)
    ensures Moments(h, n, s, [b], primary, max)
  {
    forall k | n <= k < |h| ensures Moment(h[k], s, [b], primary, max) {
      if k < |g| {
        assert h[k] == g[k];
      } else {
        BehindMoment(s, t, h[k], b, primary, max);
      }
    }
  }

  // u, and then b closed at the highest number used.
  lemma Closed(s: State, t: State, u: State, v: State, b: Bridge, primary: nat, max: nat)
    requires Ready(s, [b], primary, max) && b.active && Opened(s, t, b, primary, max + 1)
    requires Scanned(t, u, b.behind, max + 1, max + 1)
    requires b.id in u.regs && v.configured == u.configured + {b.id} && v.regs.Keys == u.regs.Keys
    requires forall x :: x in u.regs && x != b.id ==> v.regs[x] == u.regs[x]
    requires var r := v.regs[b.id];
      Primary(r) == primary && Secondary(r) == max + 1 && Subordinate(r) == max + Count([b])
    ensures Scanned(s, v, [b], primary, max) && Moment(v, s, [b], primary, max)
  {
    OfOne(b);
    var sec := max + 1;
    RoutedFrame(u, v, b.behind, sec, sec, sec + Count(b.behind));
    SettledFrame(u, v, b.behind, sec, sec);
    RoutedWider(v, [b], primary, max, max, max + Count([b]), LAST);
  }

  // A bridge that is not scanned stays as it was.
  lemma Skipped(s: State, b: Bridge, primary: nat, max: nat)
    requires Ready(s, [b], primary, max) && !b.active
    ensures Scanned(s, s, [b], primary, max)
  {
    OfOne(b);
    UnconfiguredRouted(s, [b], primary, max, max);
  }

  // A new value of the register but for its top byte.
  lemma RegisterWrite(r: nat, primary: nat, sec: nat)
    requires primary <= LAST && sec <= LAST
    ensures var first := r / 0x100_0000 * 0x100_0000 + primary + sec * 0x100 + LAST * 0x1_0000;
      Primary(first) == primary && Secondary(first) == sec && Subordinate(first) == LAST && Latency(first) == Latency(r)
  {
    RegisterFields(Latency(r), primary, sec, LAST);
  }

  // The same with another subordinate number.
  lemma SubordinateWrite(r: nat, sub: nat)
    requires sub <= LAST
    ensures var w := r - Subordinate(r) * 0x1_0000 + sub * 0x1_0000;
      && w >= 0 && Primary(w) == Primary(r) && Secondary(w) == Secondary(r) && Subordinate(w) == sub
      && Latency(w) == Latency(r)
  {
    var l, p, s, b := Latency(r), Primary(r), Secondary(r), Subordinate(r);
    RegisterOf(r);
    RegisterFields(l, p, s, sub);
  }

  lemma RegisterOf(r: nat)
    ensures Register(Latency(r), Primary(r), Secondary(r), Subordinate(r)) == r
  {
    var q := r / 0x100;
    var t := q / 0x100;
    assert r / 0x1_0000 == t && r / 0x100_0000 == t / 0x100;
  }

  // ------------------------------------------------------------------ the scan

  /** pci_scan_bus(), after probing: scan the bridges of a bus in turn. */
  method ScanBus(f: Fabric, bs: seq<Bridge>, primary: nat, max0: nat) returns (max: nat)
    requires Ready(f.Now(), bs, primary, max0)
    modifies f
    ensures max == max0 + Count(bs)
    ensures Scanned(old(f.Now()), f.Now(), bs, primary, max0)
    ensures LatencyKept(f.Now(), old(f.Now()))
    ensures f.Sound(old(|f.history|), old(f.Now()), bs, primary, max0)
    ensures Delivers(f.history, old(|f.history|), bs)
    ensures old(f.history) <= f.history
    decreases bs, 0
  {
    ghost var s, n := f.Now(), |f.history|;
    max := max0;
    for i := 0 to |bs|
      invariant max == max0 + Count(bs[..i])
      invariant Scanned(s, f.Now(), bs[..i], primary, max0)
      invariant LatencyKept(f.Now(), s)
      invariant f.Sound(n, s, bs, primary, max0)
      invariant old(f.history) <= f.history
    {
      max := ScanChild(f, bs, i, primary, max, s, n, max0);
    }
    assert bs[..|bs|] == bs;
    MomentsDeliver(f.history, n, s, bs, primary, max0);
  }

  // The i-th bridge of a bus whose scan began at s, after n moments.
  method ScanChild(f: Fabric, bs: seq<Bridge>, i: nat, primary: nat, max0: nat, ghost s: State, ghost n: nat, ghost lo: nat)
    returns (max: nat)
    requires i < |bs| && Ready(s, bs, primary, lo) && max0 == lo + Count(bs[..i])
    requires Scanned(s, f.Now(), bs[..i], primary, lo) && f.Sound(n, s, bs, primary, lo)
    modifies f
    ensures max == lo + Count(bs[..i + 1])
    ensures Scanned(s, f.Now(), bs[..i + 1], primary, lo) && f.Sound(n, s, bs, primary, lo)
    ensures LatencyKept(f.Now(), old(f.Now()))
    ensures old(f.history) <= f.history
    decreases bs, 0, i
  {
    ghost var t, g := f.Now(), f.history;
    Next(s, t, bs, i, primary, lo);
    max := ScanBridge(f, bs[i], primary, max0);
    ghost var u := f.Now();
    LiftScanned(s, t, u, bs, i, primary, lo);
    LiftMoments(s, t, g, f.history, n, bs, i, primary, lo);
  }

  // Number the bus behind b, and open b.
  method Open(f: Fabric, b: Bridge, primary: nat, max: nat) returns (buses: nat)
    requires Ready(f.Now(), [b], primary, max) && b.active
    modifies f
    ensures f.history == old(f.history) + [f.Now()] && b.id in f.regs && buses == f.regs[b.id]
    ensures Opened(old(f.Now()), f.Now(), b, primary, max + 1) && LatencyKept(f.Now(), old(f.Now()))
  {
    var secondary := max + 1;
    buses := f.regs[b.id];
    RegisterWrite(buses, primary, secondary);
    buses := buses / 0x100_0000 * 0x100_0000 + primary + secondary * 0x100 + 0xFF * 0x1_0000;
    f.Write(b.id, buses);
  }

  /** scan_bus() and do_pci_scan_bridge(): number the bus behind the bridge, leave it open to the last bus
      while what is behind it is scanned, then close it. */
  method ScanBridge(f: Fabric, b: Bridge, primary: nat, max0: nat) returns (max: nat)
    requires Ready(f.Now(), [b], primary, max0)
    modifies f
    ensures max == max0 + Count([b])
    ensures Scanned(old(f.Now()), f.Now(), [b], primary, max0) && LatencyKept(f.Now(), old(f.Now()))
    ensures f.Sound(old(|f.history|), old(f.Now()), [b], primary, max0)
    ensures old(f.history) <= f.history
    decreases b, 1
  {
    max := max0;
    if !b.active {
      Skipped(f.Now(), b, primary, max0);
    } else {
      max := ScanActive(f, b, primary, max0);
    }
  }

  method ScanActive(f: Fabric, b: Bridge, primary: nat, max0: nat) returns (max: nat)
    requires Ready(f.Now(), [b], primary, max0) && b.active
    modifies f
    ensures max == max0 + Count([b])
    ensures Scanned(old(f.Now()), f.Now(), [b], primary, max0) && LatencyKept(f.Now(), old(f.Now()))
    ensures f.Sound(old(|f.history|), old(f.Now()), [b], primary, max0)
    ensures old(f.history) <= f.history
    decreases b, 0
  {
    ghost var s, n := f.Now(), |f.history|;
    max := max0 + 1;
    var secondary := max;
    OfOne(b);
    var buses := Open(f, b, primary, max0);
    ghost var t, g := f.Now(), f.history;
    OpenedMoment(s, t, b, primary, max0);
    max := ScanBus(f, b.behind, secondary, max);
    BehindMoments(s, t, g, f.history, n, b, primary, max0);
    assert f.regs[b.id] == t.regs[b.id];
    Close(f, b, primary, max0, max, buses, s, t, n);
  }

  // Close b at the highest number used behind it.
  method Close(f: Fabric, b: Bridge, primary: nat, lo: nat, max: nat, buses0: nat,
    ghost s: State, ghost t: State, ghost n: nat)
    requires Ready(s, [b], primary, lo) && b.active && Opened(s, t, b, primary, lo + 1)
    requires Scanned(t, f.Now(), b.behind, lo + 1, lo + 1) && max == lo + 1 + Count(b.behind)
    requires b.id in f.regs && f.regs[b.id] == t.regs[b.id] == buses0
    requires f.Sound(n, s, [b], primary, lo)
    modifies f
    ensures Scanned(s, f.Now(), [b], primary, lo) && LatencyKept(f.Now(), old(f.Now()))
    ensures f.Sound(n, s, [b], primary, lo) && old(f.history) <= f.history
  {
    ghost var u := f.Now();
    OfOne(b);
    SubordinateWrite(buses0, max);
    var buses := buses0 - Subordinate(buses0) * 0x1_0000 + max * 0x1_0000;
    f.Write(b.id, buses);
    Closed(s, t, u, f.Now(), b, primary, lo);
  }
}
