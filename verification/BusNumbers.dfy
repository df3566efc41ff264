/**
  What PCI bus numbers a scan leaves in the bridges, and what they mean for routing
  (src/device/pci_device.c).  A bridge takes the configuration cycles for the buses from its secondary
  to its subordinate number.
 */
module BusNumbers {
  const LAST: nat := 0xFF

  // A bridge, whether it is scanned (enabled, with a scan_bus operation), and the bridges that probing
  // finds on the bus behind it.
  datatype Bridge = Bridge(id: nat, active: bool, behind: seq<Bridge>)

  // ------------------------------------------------------------------ the bus number register

  function Primary(r: nat): nat { r % 0x100 }
  function Secondary(r: nat): nat { r / 0x100 % 0x100 }
  function Subordinate(r: nat): nat { r / 0x1_0000 % 0x100 }
  function Latency(r: nat): nat { r / 0x100_0000 }

  function Register(latency: nat, primary: nat, secondary: nat, subordinate: nat): nat {
    latency * 0x100_0000 + subordinate * 0x1_0000 + secondary * 0x100 + primary
  }

  lemma RegisterFields(l: nat, p: nat, s: nat, b: nat)
    requires p <= LAST && s <= LAST && b <= LAST
    ensures var r := Register(l, p, s, b);
      Latency(r) == l && Primary(r) == p && Secondary(r) == s && Subordinate(r) == b
  {
    var r := Register(l, p, s, b);
    var q := l * 0x1_0000 + b * 0x100 + s;
    var t := l * 0x100 + b;
    assert r == q * 0x100 + p;
    assert r / 0x100 == q && q / 0x100 == t && t / 0x100 == l;
    assert r / 0x1_0000 == q / 0x100 && r / 0x100_0000 == t / 0x100;
  }

  // ------------------------------------------------------------------ trees of bridges

  function Ids(bs: seq<Bridge>): set<nat> {
    if bs == [] then {} else {bs[0].id} + Ids(bs[0].behind) + Ids(bs[1..])
  }

  // No bridge is found twice.
  predicate Distinct(bs: seq<Bridge>) {
    bs != [] ==>
      && bs[0].id !in Ids(bs[0].behind) + Ids(bs[1..])
      && Ids(bs[0].behind) !! Ids(bs[1..])
      && Distinct(bs[0].behind)
      && Distinct(bs[1..])
  }

  // The buses that a scan numbers.
  function Count(bs: seq<Bridge>): nat {
    if bs == [] then 0
    else (if bs[0].active then 1 + Count(bs[0].behind) else 0) + Count(bs[1..])
  }

  lemma {:induction false} IdsConcat(a: seq<Bridge>, b: seq<Bridge>)
    ensures Ids(a + b) == Ids(a) + Ids(b)
  {
    if a == [] {
      assert a + b == b;
    } else {
      assert (a + b)[1..] == a[1..] + b;
      IdsConcat(a[1..], b);
    }
  }

  lemma {:induction false} CountConcat(a: seq<Bridge>, b: seq<Bridge>)
    ensures Count(a + b) == Count(a) + Count(b)
  {
    if a == [] {
      assert a + b == b;
    } else {
      assert (a + b)[1..] == a[1..] + b;
      CountConcat(a[1..], b);
    }
  }

  lemma {:induction false} DistinctConcat(a: seq<Bridge>, b: seq<Bridge>)
    requires Distinct(a + b)
    ensures Distinct(a) && Distinct(b) && Ids(a) !! Ids(b)
  {
    if a == [] {
      assert a + b == b;
    } else {
      assert (a + b)[1..] == a[1..] + b;
      IdsConcat(a[1..], b);
      DistinctConcat(a[1..], b);
    }
  }

  // ------------------------------------------------------------------ every moment

  // The registers, and the bridges this scan has set up so far.
  datatype State = State(regs: map<nat, nat>, configured: set<nat>)

  ghost predicate Known(s: State, bs: seq<Bridge>) {
    Ids(bs) <= s.regs.Keys
  }

  // The bridges set up among bs are on bus primary and claim numbers above lo up to hi, each one's claim
  // before the next one's, and the bridges behind each are routed inside its claim.
  ghost predicate Routed(s: State, bs: seq<Bridge>, primary: nat, lo: nat, hi: nat)
    requires Known(s, bs)
  {
    bs != [] ==>
      var b := bs[0];
      if b.id in s.configured then
        var r := s.regs[b.id];
        && Primary(r) == primary && lo < Secondary(r) <= Subordinate(r) <= hi
        && Routed(s, b.behind, Secondary(r), Secondary(r), Subordinate(r))
        && Routed(s, bs[1..], primary, Subordinate(r), hi)
      else
        && Ids(b.behind) !! s.configured
        && Routed(s, bs[1..], primary, lo, hi)
  }

  ghost predicate Claims(s: State, b: Bridge, n: nat) {
    b.id in s.configured && b.id in s.regs && Secondary(s.regs[b.id]) <= n <= Subordinate(s.regs[b.id])
  }

  lemma {:induction false} IdIn(bs: seq<Bridge>, i: nat)
    requires i < |bs|
    ensures bs[i].id in Ids(bs) && Ids(bs[i].behind) <= Ids(bs)
  {
    if i > 0 {
      IdIn(bs[1..], i - 1);
    }
  }

  lemma {:induction false} ClaimAbove(s: State, bs: seq<Bridge>, primary: nat, lo: nat, hi: nat, i: nat, n: nat)
    requires Known(s, bs) && Routed(s, bs, primary, lo, hi)
    requires i < |bs| && Claims(s, bs[i], n)
    ensures lo < n <= hi
  {
    if i == 0 {
      RoutedOrder(s, bs, primary, lo, hi);
    } else if bs[0].id in s.configured {
      ClaimAbove(s, bs[1..], primary, Subordinate(s.regs[bs[0].id]), hi, i - 1, n);
    } else {
      ClaimAbove(s, bs[1..], primary, lo, hi, i - 1, n);
    }
  }

  lemma RoutedOrder(s: State, bs: seq<Bridge>, primary: nat, lo: nat, hi: nat)
    requires Known(s, bs) && Routed(s, bs, primary, lo, hi) && bs != [] && bs[0].id in s.configured
    ensures lo < Secondary(s.regs[bs[0].id]) <= Subordinate(s.regs[bs[0].id]) <= hi
  {
  }

  /** No bus number is claimed by two bridges on the same bus. */
  lemma {:induction false} OneClaim(s: State, bs: seq<Bridge>, primary: nat, lo: nat, hi: nat, i: nat, j: nat, n: nat)
    requires Known(s, bs) && Routed(s, bs, primary, lo, hi)
    requires i < j < |bs|
    ensures !(Claims(s, bs[i], n) && Claims(s, bs[j], n))
  {
    if !(Claims(s, bs[i], n) && Claims(s, bs[j], n)) {
    } else if i == 0 {
      ClaimAbove(s, bs[1..], primary, Subordinate(s.regs[bs[0].id]), hi, j - 1, n);
    } else if bs[0].id in s.configured {
      OneClaim(s, bs[1..], primary, Subordinate(s.regs[bs[0].id]), hi, i - 1, j - 1, n);
    } else {
      OneClaim(s, bs[1..], primary, lo, hi, i - 1, j - 1, n);
    }
  }

  /** What a bridge behind b claims, b claims, and b's own bus is not among it. */
  lemma {:induction false} ClaimsNest(s: State, bs: seq<Bridge>, primary: nat, lo: nat, hi: nat, i: nat, j: nat, n: nat)
    requires Known(s, bs) && Routed(s, bs, primary, lo, hi) && i < |bs| && j < |bs[i].behind|
    requires Claims(s, bs[i].behind[j], n)
    ensures Claims(s, bs[i], n) && n != Secondary(s.regs[bs[i].id])
  {
    if i == 0 {
      IdIn(bs[0].behind, j);
      if bs[0].id in s.configured {
        var r := s.regs[bs[0].id];
        ClaimAbove(s, bs[0].behind, Secondary(r), Secondary(r), Subordinate(r), j, n);
      }
    } else if bs[0].id in s.configured {
      ClaimsNest(s, bs[1..], primary, Subordinate(s.regs[bs[0].id]), hi, i - 1, j, n);
    } else {
      ClaimsNest(s, bs[1..], primary, lo, hi, i - 1, j, n);
    }
  }

  // Of the bridges on a bus, the i-th alone takes cycles for bus n.
  ghost predicate OnlyClaim(s: State, bs: seq<Bridge>, i: nat, n: nat)
    requires i < |bs|
  {
    Claims(s, bs[i], n) && forall j :: 0 <= j < |bs| && j != i ==> !Claims(s, bs[j], n)
  }

  // A cycle for bus n that appears on the bus of bs is taken by exactly one bridge of each bus on its way,
  // and comes out on the bus behind bridge id.
  ghost predicate Delivered(s: State, bs: seq<Bridge>, n: nat, id: nat) {
    exists i :: 0 <= i < |bs| && OnlyClaim(s, bs, i, n)
      && if Secondary(s.regs[bs[i].id]) == n then bs[i].id == id else Delivered(s, bs[i].behind, n, id)
  }

  // The cycles for every bus numbered so far arrive there.
  ghost predicate AllDelivered(s: State, bs: seq<Bridge>) {
    forall id :: id in Ids(bs) && id in s.configured && id in s.regs ==> Delivered(s, bs, Secondary(s.regs[id]), id)
  }

  lemma DeliveredToFirst(s: State, bs: seq<Bridge>, primary: nat, lo: nat, hi: nat)
    requires Known(s, bs) && Routed(s, bs, primary, lo, hi) && bs != [] && bs[0].id in s.configured
    ensures Delivered(s, bs, Secondary(s.regs[bs[0].id]), bs[0].id)
  {
    var n := Secondary(s.regs[bs[0].id]);
    RoutedOrder(s, bs, primary, lo, hi);
    assert Claims(s, bs[0], n);
    forall j | 0 <= j < |bs| && j != 0 ensures !Claims(s, bs[j], n) {
      OneClaim(s, bs, primary, lo, hi, 0, j, n);
    }
    assert OnlyClaim(s, bs, 0, n);
  }

  lemma DeliveredBehindFirst(s: State, bs: seq<Bridge>, primary: nat, lo: nat, hi: nat, n: nat, id: nat)
    requires Known(s, bs) && Routed(s, bs, primary, lo, hi) && bs != [] && Delivered(s, bs[0].behind, n, id)
    ensures Delivered(s, bs, n, id)
  {
    var k :| 0 <= k < |bs[0].behind| && OnlyClaim(s, bs[0].behind, k, n);
    ClaimsNest(s, bs, primary, lo, hi, 0, k, n);
    forall j | 0 <= j < |bs| && j != 0 ensures !Claims(s, bs[j], n) {
      OneClaim(s, bs, primary, lo, hi, 0, j, n);
    }
    assert OnlyClaim(s, bs, 0, n);
  }

  lemma DeliveredAfterFirst(s: State, bs: seq<Bridge>, primary: nat, lo: nat, hi: nat, n: nat, id: nat)
    requires Known(s, bs) && Routed(s, bs, primary, lo, hi) && bs != [] && Delivered(s, bs[1..], n, id)
    ensures Delivered(s, bs, n, id)
  {
    var k :| 0 <= k < |bs[1..]| && OnlyClaim(s, bs[1..], k, n)
      && if Secondary(s.regs[bs[1..][k].id]) == n then bs[1..][k].id == id else Delivered(s, bs[1..][k].behind, n, id);
    assert bs[1..][k] == bs[k + 1];
    forall j | 0 <= j < |bs| && j != k + 1 ensures !Claims(s, bs[j], n) {
      if j == 0 {
        OneClaim(s, bs, primary, lo, hi, 0, k + 1, n);
      } else {
        assert bs[j] == bs[1..][j - 1];
      }
    }
    assert OnlyClaim(s, bs, k + 1, n);
  }

  /** In a routed state a cycle for any numbered bus is taken by exactly one bridge of each bus on its way,
      and arrives there. */
  lemma {:induction false} RoutedDelivers(s: State, bs: seq<Bridge>, primary: nat, lo: nat, hi: nat, id: nat)
    requires Known(s, bs) && Routed(s, bs, primary, lo, hi)
    requires id in Ids(bs) && id in s.configured
    ensures Delivered(s, bs, Secondary(s.regs[id]), id)
  {
    var b, n := bs[0], Secondary(s.regs[id]);
    if b.id in s.configured {
      var r := s.regs[b.id];
      if id == b.id {
        DeliveredToFirst(s, bs, primary, lo, hi);
      } else if id in Ids(b.behind) {
        RoutedDelivers(s, b.behind, Secondary(r), Secondary(r), Subordinate(r), id);
        DeliveredBehindFirst(s, bs, primary, lo, hi, n, id);
      } else {
        RoutedDelivers(s, bs[1..], primary, Subordinate(r), hi, id);
        DeliveredAfterFirst(s, bs, primary, lo, hi, n, id);
      }
    } else {
      RoutedDelivers(s, bs[1..], primary, lo, hi, id);
      DeliveredAfterFirst(s, bs, primary, lo, hi, n, id);
    }
  }

  // Two states that agree on the bridges of bs.
  ghost predicate Agree(s: State, t: State, bs: seq<Bridge>) {
    && Known(s, bs) && Known(t, bs)
    && forall x :: x in Ids(bs) ==> s.regs[x] == t.regs[x] && (x in s.configured <==> x in t.configured)
  }

  lemma {:induction false} RoutedFrame(s: State, t: State, bs: seq<Bridge>, primary: nat, lo: nat, hi: nat)
    requires Agree(s, t, bs) && Routed(s, bs, primary, lo, hi)
    ensures Routed(t, bs, primary, lo, hi)
  {
    if bs != [] {
      var b := bs[0];
      var r := s.regs[b.id];
      if b.id in s.configured {
        RoutedFrame(s, t, b.behind, Secondary(r), Secondary(r), Subordinate(r));
        RoutedFrame(s, t, bs[1..], primary, Subordinate(r), hi);
      } else {
        RoutedFrame(s, t, bs[1..], primary, lo, hi);
      }
    }
  }

  lemma {:induction false} UnconfiguredRouted(s: State, bs: seq<Bridge>, primary: nat, lo: nat, hi: nat)
    requires Known(s, bs) && Ids(bs) !! s.configured
    ensures Routed(s, bs, primary, lo, hi)
  {
    if bs != [] {
      assert bs[0].id in Ids(bs);
      UnconfiguredRouted(s, bs[1..], primary, lo, hi);
    }
  }

  lemma {:induction false} RoutedConcat(s: State, a: seq<Bridge>, b: seq<Bridge>, primary: nat, lo: nat, mid: nat, hi: nat)
    requires Known(s, a + b) && Known(s, a) && Known(s, b)
    requires lo <= mid <= hi && Routed(s, a, primary, lo, mid) && Routed(s, b, primary, mid, hi)
    ensures Routed(s, a + b, primary, lo, hi)
  {
    if a == [] {
      assert a + b == b;
      RoutedWider(s, b, primary, mid, lo, hi, hi);
    } else {
      assert (a + b)[1..] == a[1..] + b;
      var from := if a[0].id in s.configured then Subordinate(s.regs[a[0].id]) else lo;
      RoutedConcat(s, a[1..], b, primary, from, mid, hi);
    }
  }

  lemma {:induction false} RoutedWider(s: State, bs: seq<Bridge>, primary: nat, lo: nat, lo': nat, hi: nat, hi': nat)
    requires Known(s, bs) && Routed(s, bs, primary, lo, hi) && lo' <= lo && hi <= hi'
    ensures Routed(s, bs, primary, lo', hi')
  {
    if bs != [] {
      if bs[0].id in s.configured {
        var sub := Subordinate(s.regs[bs[0].id]);
        RoutedWider(s, bs[1..], primary, sub, sub, hi, hi');
      } else {
        RoutedWider(s, bs[1..], primary, lo, lo', hi, hi');
      }
    }
  }

  // ------------------------------------------------------------------ after the scan

  // The numbers a complete scan of bs leaves when the highest number before it was lo.
  ghost predicate Settled(s: State, bs: seq<Bridge>, primary: nat, lo: nat)
    requires Known(s, bs)
  {
    bs != [] ==>
      var b := bs[0];
      if b.active then
        var r := s.regs[b.id];
        && b.id in s.configured
        && Primary(r) == primary && Secondary(r) == lo + 1 && Subordinate(r) == lo + 1 + Count(b.behind)
        && Settled(s, b.behind, Secondary(r), Secondary(r))
        && Settled(s, bs[1..], primary, Subordinate(r))
      else Settled(s, bs[1..], primary, lo)
  }

  // The secondary numbers, each bridge before those behind it.
  ghost function Numbers(regs: map<nat, nat>, bs: seq<Bridge>): seq<nat>
    requires Ids(bs) <= regs.Keys
  {
    if bs == [] then []
    else if bs[0].active then
      [Secondary(regs[bs[0].id])] + Numbers(regs, bs[0].behind) + Numbers(regs, bs[1..])
    else Numbers(regs, bs[1..])
  }

  // from, from + 1, ..., upto
  ghost function Run(from: nat, upto: int): seq<nat>
    decreases upto - from
  {
    if from > upto then [] else Run(from, upto - 1) + [upto]
  }

  lemma {:induction false} RunConcat(a: nat, b: nat, c: nat)
    requires a <= b + 1 && b <= c
    ensures Run(a, b) + Run(b + 1, c) == Run(a, c)
  {
    if b < c {
      RunConcat(a, b, c - 1);
      assert Run(a, b) + (Run(b + 1, c - 1) + [c]) == (Run(a, b) + Run(b + 1, c - 1)) + [c];
    }
  }

  lemma RunTwice(a: nat, b: nat, c: nat)
    requires a <= b <= c
    ensures [a] + Run(a + 1, b) + Run(b + 1, c) == Run(a, c)
  {
    assert Run(a, a) == [a];
    RunConcat(a, a, b);
    RunConcat(a, b, c);
  }

  /** The numbers used below a bus are consecutive, each used once. */
  lemma {:induction false} NumbersAreConsecutive(s: State, bs: seq<Bridge>, primary: nat, lo: nat)
    requires Known(s, bs) && Settled(s, bs, primary, lo)
    ensures Numbers(s.regs, bs) == Run(lo + 1, lo + Count(bs))
  {
    if bs != [] {
      if bs[0].active {
        var sec := lo + 1;
        var sub := sec + Count(bs[0].behind);
        NumbersAreConsecutive(s, bs[0].behind, sec, sec);
        NumbersAreConsecutive(s, bs[1..], primary, sub);
        RunTwice(sec, sub, sub + Count(bs[1..]));
      } else {
        NumbersAreConsecutive(s, bs[1..], primary, lo);
      }
    }
  }

  // Every bridge claims exactly its own bus and those behind it.
  ghost predicate ClaimsExactly(regs: map<nat, nat>, bs: seq<Bridge>)
    requires Ids(bs) <= regs.Keys
  {
    bs != [] ==>
      && (bs[0].active ==>
            && [Secondary(regs[bs[0].id])] + Numbers(regs, bs[0].behind)
                 == Run(Secondary(regs[bs[0].id]), Subordinate(regs[bs[0].id]))
            && ClaimsExactly(regs, bs[0].behind))
      && ClaimsExactly(regs, bs[1..])
  }

  /** At every depth, the buses at and behind a bridge are exactly its secondary to its subordinate. */
  lemma {:induction false} SettledClaims(s: State, bs: seq<Bridge>, primary: nat, lo: nat)
    requires Known(s, bs) && Settled(s, bs, primary, lo)
    ensures ClaimsExactly(s.regs, bs)
  {
    if bs != [] {
      if bs[0].active {
        var sec := lo + 1;
        var sub := sec + Count(bs[0].behind);
        NumbersAreConsecutive(s, bs[0].behind, sec, sec);
        assert Run(sec, sec) == [sec];
        RunConcat(sec, sec, sub);
        SettledClaims(s, bs[0].behind, sec, sec);
        SettledClaims(s, bs[1..], primary, sub);
      } else {
        SettledClaims(s, bs[1..], primary, lo);
      }
    }
  }

  // Every number of the scan is the secondary number of a bridge set up by it.
  lemma {:induction false} NumberUsed(s: State, bs: seq<Bridge>, primary: nat, lo: nat, n: nat) returns (id: nat)
    requires Known(s, bs) && Settled(s, bs, primary, lo) && lo < n <= lo + Count(bs)
    ensures id in Ids(bs) && id in s.configured && Secondary(s.regs[id]) == n
  {
    var b := bs[0];
    if !b.active {
      id := NumberUsed(s, bs[1..], primary, lo, n);
    } else if n == lo + 1 {
      id := b.id;
    } else if n <= lo + 1 + Count(b.behind) {
      id := NumberUsed(s, b.behind, lo + 1, lo + 1, n);
    } else {
      id := NumberUsed(s, bs[1..], primary, lo + 1 + Count(b.behind), n);
    }
  }

  /** After the scan a cycle for every number up to the highest used arrives on a bus of that number. */
  lemma EveryNumberIsReached(s: State, bs: seq<Bridge>, primary: nat, lo: nat, hi: nat, n: nat)
    requires Known(s, bs) && Settled(s, bs, primary, lo) && Routed(s, bs, primary, lo, hi)
    requires lo < n <= lo + Count(bs)
    ensures exists id :: id in Ids(bs) && Secondary(s.regs[id]) == n && Delivered(s, bs, n, id)
  {
    var id := NumberUsed(s, bs, primary, lo, n);
    RoutedDelivers(s, bs, primary, lo, hi, id);
  }

  lemma {:induction false} SettledFrame(s: State, t: State, bs: seq<Bridge>, primary: nat, lo: nat)
    requires Agree(s, t, bs) && Settled(s, bs, primary, lo)
    ensures Settled(t, bs, primary, lo)
  {
    if bs != [] {
      if bs[0].active {
        SettledFrame(s, t, bs[0].behind, lo + 1, lo + 1);
        SettledFrame(s, t, bs[1..], primary, lo + 1 + Count(bs[0].behind));
      } else {
        SettledFrame(s, t, bs[1..], primary, lo);
      }
    }
  }

  lemma {:induction false} SettledConcat(s: State, a: seq<Bridge>, b: seq<Bridge>, primary: nat, lo: nat)
    requires Known(s, a) && Known(s, b) && Known(s, a + b)
    requires Settled(s, a, primary, lo) && Settled(s, b, primary, lo + Count(a))
    ensures Settled(s, a + b, primary, lo)
  {
    if a == [] {
      assert a + b == b;
    } else {
      assert (a + b)[1..] == a[1..] + b;
      SettledConcat(s, a[1..], b, primary, if a[0].active then lo + 1 + Count(a[0].behind) else lo);
    }
  }
}
