/**
  What pass 2 makes of the I/O window of a domain (src/device/device.c): avoid_fixed_resources raises its base
  to the end of a fixed resource without rounding it, so the walk may start anywhere.
 */
module IoWindow {
  import opened Addresses
  import opened Powers
  import opened Windows
  import opened Layout
  import opened Placement
  import C = Constraints
  import S = Selection

  // ------------------------------------------------------------------ the walk from any base

  // What pass 2 does to a resource that it does not refuse.
  ghost predicate Given(r0: Res, r: Res, limit: address) {
    && r == r0.(base := r.base, limit := Lower(r0.limit, limit), isAssigned := true, isStored := r0.size == 0 && r0.isStored)
    && (r.size == 0 ==> r.base == r.limit)
  }

  ghost predicate AllEmpty(kids: seq<Tree>, ord: seq<nat>)
    requires InRange(ord, |kids|)
  {
    forall k :: 0 <= k < |ord| ==> kids[ord[k]].res.size == 0
  }

  // The walk from x ends within the limit, or has nothing to place.
  ghost predicate HasRoom(kids: seq<Tree>, ord: seq<nat>, x: nat, limit: address)
    requires InRange(ord, |kids|)
  {
    AllEmpty(kids, ord) || End(kids, ord, x) <= limit + 1
  }

  ghost predicate Limited(kids: seq<Tree>, ord: seq<nat>, limit: address)
    requires InRange(ord, |kids|)
  {
    forall k :: 0 <= k < |ord| && kids[ord[k]].res.size != 0 ==> limit <= kids[ord[k]].res.limit
  }

  // The running base after the first resource of the walk.
  ghost function Next(kids: seq<Tree>, ord: seq<nat>, x: nat): nat
    requires ord != [] && InRange(ord, |kids|)
  {
    var r := kids[ord[0]].res;
    if r.size == 0 then x else Slot(x, r) + r.size
  }

  lemma StepGives(a: Loop, x: nat, ord: seq<nat>)
    requires ord != [] && InRange(ord, |a.kids|) && a.base == x % WORD
    requires Limited(a.kids, ord, a.bridge.limit) && HasRoom(a.kids, ord, x, a.bridge.limit)
    ensures var i, n, y := ord[0], AllocateStep(a, ord[0]), Next(a.kids, ord, x);
      && n == Loop(SetRes(a.kids, i, n.kids[i].res), y % WORD, a.bridge)
      && Given(a.kids[i].res, n.kids[i].res, a.bridge.limit) && Inside(n.kids[i].res, x, y) && x <= y
  {
    var i := ord[0];
    var r, y := a.kids[i].res, Next(a.kids, ord, x);
    SlotBounds(x, r);
    if r.size != 0 {
      EndBound(a.kids, ord[1..], y);
      SmallMod(x, WORD);
      AllocateStepExact(a, i);
    }
  }

  lemma RoomStays(a: seq<Tree>, b: seq<Tree>, ord: seq<nat>, x: nat, limit: address)
    requires ord != [] && InRange(ord, |a|) && Distinct(ord) && |b| == |a|
    requires forall i :: 0 <= i < |a| && i != ord[0] ==> b[i] == a[i]
    requires b[ord[0]].res.size == a[ord[0]].res.size && b[ord[0]].res.align == a[ord[0]].res.align
    requires b[ord[0]].res.io == a[ord[0]].res.io
    requires Limited(a, ord, limit) && HasRoom(a, ord, x, limit)
    ensures Limited(b, ord[1..], limit) && HasRoom(b, ord[1..], Next(a, ord, x), limit)
    ensures End(b, ord[1..], Next(a, ord, x)) == End(a, ord, x)
  {
    var rest := ord[1..];
    EndSame(a, b, rest, Next(a, ord, x));
    forall k | 0 <= k < |rest| ensures b[rest[k]] == a[ord[k + 1]] {
      assert rest[k] == ord[k + 1];
    }
  }

  /** A walk with room gives every resource its place: aligned, in range, apart from the others. */
  lemma {:induction false} WalkGives(a: Loop, x: nat, ord: seq<nat>)
    requires InRange(ord, |a.kids|) && Distinct(ord) && a.base == x % WORD
    requires Limited(a.kids, ord, a.bridge.limit) && HasRoom(a.kids, ord, x, a.bridge.limit)
    ensures var r := AllocateLoop(a, ord);
      && Packed(r.kids, ord, x, End(a.kids, ord, x))
      && forall k :: 0 <= k < |ord| ==> Given(a.kids[ord[k]].res, r.kids[ord[k]].res, a.bridge.limit)
    decreases |ord|
  {
    if ord != [] {
      var i, n, y, rest := ord[0], AllocateStep(a, ord[0]), Next(a.kids, ord, x), ord[1..];
      StepGives(a, x, ord);
      RoomStays(a.kids, n.kids, ord, x, a.bridge.limit);
      WalkGives(n, y, rest);
      AllocateLoopKids(n, rest);
      assert i !in rest;
      EndBound(n.kids, rest, y);
      PackedCons(AllocateLoop(a, ord).kids, ord, x, y, End(a.kids, ord, x));
      forall k | 0 < k < |ord| ensures ord[k] == rest[k - 1] && ord[k] != i {
      }
    }
  }

  // ------------------------------------------------------------------ when the walk refuses a resource

  ghost predicate Unassigned(kids: seq<Tree>, ord: seq<nat>)
    requires InRange(ord, |kids|)
  {
    forall k :: 0 <= k < |ord| && kids[ord[k]].res.size != 0 ==> !kids[ord[k]].res.isAssigned
  }

  // Resource i does not fit below its limit and the bridge's.
  ghost predicate Refused(a: Loop, i: nat)
    requires i < |a.kids|
  {
    var r := a.kids[i].res;
    r.size != 0 && Lower(r.limit, a.bridge.limit) + 1 < Slot(a.base, r) + r.size <= WORD
  }

  /** A refused resource stays where it was and is marked as it was; only its limit comes down to the bridge's.
      The running base moves by no more than the skip over legacy I/O addresses. */
  lemma StepRefuses(a: Loop, i: nat)
    requires i < |a.kids| && Refused(a, i)
    ensures var r := a.kids[i].res;
      && Start(a.base, r) == Begin(a.base, r)
      && AllocateStep(a, i) == Loop(SetRes(a.kids, i, r.(limit := Lower(r.limit, a.bridge.limit))), Start(a.base, r), a.bridge)
  {
    var r := a.kids[i].res.(limit := Lower(a.kids[i].res.limit, a.bridge.limit));
    PlaceExact(a.base, r);
    FitsExact(Slot(a.base, r), r);
  }

  lemma SkipTwice(base: address)
    ensures SkipLegacy(SkipLegacy(base)) == SkipLegacy(base)
  {
    if (base / 0x100) % 4 != 0 {
      var q := base / 0x400 + 1;
      assert base - base % 0x400 + 0x400 == q * 0x400;
      SkipMultiple(if q * 0x400 < WORD then q else q - WORD / 0x400);
      SmallMod(if q * 0x400 < WORD then q * 0x400 else q * 0x400 - WORD, WORD);
    }
  }

  lemma SkipMultiple(q: nat)
    requires q * 0x400 < WORD
    ensures SkipLegacy(q * 0x400) == q * 0x400
  {
    DivUnique(q * 0x400, 4 * q, 0x100, 0);
    ModAddMultiple(0, q, 4);
  }

  // The same walk from two running bases that differ by a skip of I/O addresses.
  ghost predicate Alike(a: Loop, b: Loop, ord: seq<nat>)
    requires InRange(ord, |a.kids|)
  {
    && |b.kids| == |a.kids| && b.bridge == a.bridge
    && (forall k :: 0 <= k < |ord| ==> b.kids[ord[k]] == a.kids[ord[k]])
    && (b.base == a.base || (b.base == SkipLegacy(a.base) && AllIo(a.kids, ord)))
  }

  ghost predicate AllIo(kids: seq<Tree>, ord: seq<nat>)
    requires InRange(ord, |kids|)
  {
    forall k :: 0 <= k < |ord| && kids[ord[k]].res.size != 0 ==> kids[ord[k]].res.io
  }

  lemma AlikeStep(a: Loop, b: Loop, ord: seq<nat>)
    requires ord != [] && InRange(ord, |a.kids|) && Distinct(ord) && Alike(a, b, ord)
    ensures Alike(AllocateStep(a, ord[0]), AllocateStep(b, ord[0]), ord[1..])
    ensures AllocateStep(a, ord[0]).kids[ord[0]] == AllocateStep(b, ord[0]).kids[ord[0]]
  {
    var i, rest := ord[0], ord[1..];
    assert b.kids[i] == a.kids[i];
    SkipTwice(a.base);
    assert forall k :: 0 <= k < |rest| ==> rest[k] == ord[k + 1] && rest[k] != i;
  }

  lemma {:induction false} AlikeWalks(a: Loop, b: Loop, ord: seq<nat>)
    requires InRange(ord, |a.kids|) && Distinct(ord) && Alike(a, b, ord)
    ensures forall k :: 0 <= k < |ord| ==> AllocateLoop(a, ord).kids[ord[k]] == AllocateLoop(b, ord).kids[ord[k]]
    decreases |ord|
  {
    if ord != [] {
      var n, m, rest := AllocateStep(a, ord[0]), AllocateStep(b, ord[0]), ord[1..];
      AlikeStep(a, b, ord);
      AlikeWalks(n, m, rest);
      AllocateLoopKids(n, rest);
      AllocateLoopKids(m, rest);
      assert forall k :: 0 < k < |ord| ==> ord[k] == rest[k - 1];
    }
  }

  /** A refused resource takes no room: those behind it are placed, or refused, as if it were not there.  So a
      smaller one behind it still gets its place. */
  lemma RefusedTakesNoRoom(a: Loop, ord: seq<nat>)
    requires ord != [] && InRange(ord, |a.kids|) && Distinct(ord) && Refused(a, ord[0])
    requires a.kids[ord[0]].res.io ==> AllIo(a.kids, ord)
    ensures var r := a.kids[ord[0]].res;
      AllocateLoop(a, ord).kids[ord[0]].res == r.(limit := Lower(r.limit, a.bridge.limit))
    ensures forall k :: 0 < k < |ord| ==> AllocateLoop(a, ord).kids[ord[k]] == AllocateLoop(a, ord[1..]).kids[ord[k]]
  {
    var n, rest := AllocateStep(a, ord[0]), ord[1..];
    StepRefuses(a, ord[0]);
    SlotBounds(a.base, a.kids[ord[0]].res);
    if a.kids[ord[0]].res.io {
      SkipLegacyExact(a.base);
    }
    assert forall k :: 0 < k < |ord| ==> ord[k] == rest[k - 1];
    assert forall k :: 0 <= k < |rest| ==> rest[k] == ord[k + 1] && rest[k] != ord[0];
    AlikeWalks(a, n, rest);
    AllocateLoopKids(n, rest);
    assert ord[0] !in rest;
  }

  lemma StepFits(a: Loop, ord: seq<nat>)
    requires ord != [] && InRange(ord, |a.kids|) && Limited(a.kids, ord, a.bridge.limit)
    requires Next(a.kids, ord, a.base) < WORD
    requires a.kids[ord[0]].res.size != 0 ==> Next(a.kids, ord, a.base) <= a.bridge.limit + 1
    ensures var n := AllocateStep(a, ord[0]);
      && n == Loop(SetRes(a.kids, ord[0], n.kids[ord[0]].res), Next(a.kids, ord, a.base), a.bridge)
      && n.kids[ord[0]].res.size == a.kids[ord[0]].res.size && n.kids[ord[0]].res.align == a.kids[ord[0]].res.align
      && n.kids[ord[0]].res.io == a.kids[ord[0]].res.io
  {
    if a.kids[ord[0]].res.size != 0 {
      SmallMod(Next(a.kids, ord, a.base), WORD);
      AllocateStepExact(a, ord[0]);
    }
  }

  // The walk has resources to place and ends beyond the limit.
  ghost predicate Overfull(a: Loop, ord: seq<nat>)
    requires InRange(ord, |a.kids|)
  {
    && Distinct(ord) && Unassigned(a.kids, ord) && Limited(a.kids, ord, a.bridge.limit)
    && End(a.kids, ord, a.base) < WORD && !HasRoom(a.kids, ord, a.base, a.bridge.limit)
  }

  // The first resource is refused, or the rest of the walk is overfull.
  lemma RefusesOrGoesOn(a: Loop, ord: seq<nat>)
    requires InRange(ord, |a.kids|) && Overfull(a, ord)
    ensures ord != []
    ensures var n := AllocateStep(a, ord[0]);
      (a.kids[ord[0]].res.size != 0 && !n.kids[ord[0]].res.isAssigned) || Overfull(n, ord[1..])
  {
    var i, n := ord[0], AllocateStep(a, ord[0]);
    var q, y := a.kids[i].res, Next(a.kids, ord, a.base);
    EndBound(a.kids, ord[1..], y);
    if q.size != 0 && y > a.bridge.limit + 1 {
      StepRefuses(a, i);
    } else {
      StepFits(a, ord);
      RestWithoutRoom(a.kids, n.kids, ord, a.base, a.bridge.limit);
    }
  }

  /** A walk without room refuses some resource. */
  lemma {:induction false} WalkRefuses(a: Loop, ord: seq<nat>) returns (k: nat)
    requires InRange(ord, |a.kids|) && Overfull(a, ord)
    ensures k < |ord| && !AllocateLoop(a, ord).kids[ord[k]].res.isAssigned
    decreases |ord|
  {
    RefusesOrGoesOn(a, ord);
    var n, rest := AllocateStep(a, ord[0]), ord[1..];
    if Overfull(n, rest) {
      k := WalkRefuses(n, rest);
      assert rest[k] == ord[k + 1];
      k := k + 1;
    } else {
      k := 0;
      AllocateLoopKids(n, rest);
      assert ord[0] !in rest;
    }
  }

  lemma RestWithoutRoom(a: seq<Tree>, b: seq<Tree>, ord: seq<nat>, x: nat, limit: address)
    requires ord != [] && InRange(ord, |a|) && Distinct(ord) && |b| == |a|
    requires forall i :: 0 <= i < |a| && i != ord[0] ==> b[i] == a[i]
    requires b[ord[0]].res.size == a[ord[0]].res.size && b[ord[0]].res.align == a[ord[0]].res.align
    requires b[ord[0]].res.io == a[ord[0]].res.io
    requires Limited(a, ord, limit) && Unassigned(a, ord) && !HasRoom(a, ord, x, limit)
    requires a[ord[0]].res.size != 0 ==> Next(a, ord, x) <= limit + 1
    ensures Limited(b, ord[1..], limit) && Unassigned(b, ord[1..]) && !HasRoom(b, ord[1..], Next(a, ord, x), limit)
    ensures End(b, ord[1..], Next(a, ord, x)) == End(a, ord, x)
  {
    var rest := ord[1..];
    EndSame(a, b, rest, Next(a, ord, x));
    forall k | 0 <= k < |rest| ensures b[rest[k]] == a[ord[k + 1]] {
      assert rest[k] == ord[k + 1];
    }
    if AllEmpty(b, rest) {
      EmptyEnd(b, rest, Next(a, ord, x));
    }
  }

  lemma {:induction false} EmptyEnd(kids: seq<Tree>, ord: seq<nat>, x: nat)
    requires InRange(ord, |kids|) && AllEmpty(kids, ord)
    ensures End(kids, ord, x) == x
    decreases |ord|
  {
    if ord != [] {
      assert forall k :: 0 <= k < |ord| - 1 ==> ord[1..][k] == ord[k + 1];
      EmptyEnd(kids, ord[1..], x);
    }
  }

  // ------------------------------------------------------------------ the window and what is behind it

  // The walk of pass 2 behind window t.
  ghost function OrderOf(t: Tree): (o: seq<nat>)
    ensures InRange(o, |t.kids|)
  {
    S.Order(Keys(t.kids))
  }

  ghost predicate Room(t: Tree) {
    HasRoom(t.kids, OrderOf(t), t.res.base, t.res.limit)
  }

  // t is the window after pass 1 with another base and perhaps a lower limit.
  ghost predicate Rebound(t0: Tree, t: Tree) {
    t == Compute(t0).(res := t.res) && t.res.limit <= Compute(t0).res.limit
  }

  lemma WalkOf(t0: Tree, t: Tree)
    requires Ready(t0) && Rebound(t0, t)
    ensures OrderOf(t) == PlanOf(t0).ord && Distinct(OrderOf(t)) && Limited(t.kids, OrderOf(t), t.res.limit)
    ensures forall i :: 0 <= i < |t0.kids| ==> (i in OrderOf(t) <==> t0.kids[i].listed)
    ensures |t.kids| == |t0.kids|
  {
    var p := PlanOf(t0);
    PlanMade(t0);
    assert Keys(t.kids) == Keys(p.kids);
    forall k | 0 <= k < |p.ord| && t.kids[p.ord[k]].res.size != 0 ensures t.res.limit <= t.kids[p.ord[k]].res.limit {
      assert Covers(Compute(t0).res, p.kids[p.ord[k]].res);
    }
  }

  // Every resource listed behind the window has been given a place by the walk of its bus.
  ghost predicate AllAssigned(t0: Tree, t: Tree)
    requires |t.kids| == |t0.kids|
  {
    forall i :: 0 <= i < |t0.kids| && t0.kids[i].listed ==> AllocateRun(t).kids[i].res.isAssigned
  }

  /** The walk of pass 2 from any base assigns every resource behind the window exactly when it ends within
      the limit, or there is nothing to place. */
  lemma WalkAssignsExactly(t0: Tree, t: Tree)
    requires Ready(t0) && Rebound(t0, t) && |t.kids| == |t0.kids|
    requires Unassigned(t.kids, OrderOf(t)) && End(t.kids, OrderOf(t), t.res.base) < WORD
    ensures AllAssigned(t0, t) <==> Room(t)
  {
    var a, ord := Loop(t.kids, t.res.base, t.res), OrderOf(t);
    WalkOf(t0, t);
    SmallMod(t.res.base, WORD);
    if Room(t) {
      WalkGives(a, t.res.base, ord);
      forall i | 0 <= i < |t0.kids| && t0.kids[i].listed ensures AllocateRun(t).kids[i].res.isAssigned {
        var k :| 0 <= k < |ord| && ord[k] == i;
        assert Given(a.kids[ord[k]].res, AllocateRun(t).kids[ord[k]].res, t.res.limit);
      }
    } else {
      var k := WalkRefuses(a, ord);
      assert ord[k] in ord;
    }
  }

  // What pass 2 promises of a resource directly behind the window.
  ghost predicate PlacedFrom(w: Res, r: Res) {
    && r.isAssigned
    && (r.size == 0 ==> r.base == r.limit)
    && (r.size != 0 ==>
          !r.isStored && Multiple(r.base, r.align) && w.base <= r.base && r.base + r.size - 1 <= r.limit <= w.limit)
  }

  // Everything is placed between the window's base and its limit, and behind every window there in it.
  ghost predicate AllPlaced(t: Tree) {
    && (forall i :: 0 <= i < |t.kids| && t.kids[i].listed ==>
          PlacedFrom(t.res, t.kids[i].res) && (t.kids[i].window && t.kids[i].res.size != 0 ==> Placed(t.kids[i])))
    && (forall i, j :: 0 <= i < |t.kids| && 0 <= j < |t.kids| && i != j && t.kids[i].listed && t.kids[j].listed ==>
          Apart(t.kids[i].res, t.kids[j].res))
  }

  lemma GivenIsPlaced(t: Tree, q: Res, r: Res, end: nat)
    requires Given(q, r, t.res.limit) && Inside(r, t.res.base, end)
    requires q.size != 0 ==> t.res.limit <= q.limit && end <= t.res.limit + 1
    ensures PlacedFrom(t.res, r)
  {
  }

  lemma KidOfWalk(t0: Tree, t: Tree, i: nat)
    requires Ready(t0) && Rebound(t0, t) && Room(t) && i < |t0.kids| && t0.kids[i].listed
    ensures |t.kids| == |t0.kids|
    ensures var k := AllocateRun(t).kids[i];
      && PlacedFrom(t.res, k.res) && Walked(t0.kids[i], t.kids[i], k, k.res)
  {
    var a, ord := Loop(t.kids, t.res.base, t.res), OrderOf(t);
    WalkOf(t0, t);
    SmallMod(t.res.base, WORD);
    WalkGives(a, t.res.base, ord);
    var k :| 0 <= k < |ord| && ord[k] == i;
    var r := AllocateRun(t).kids[i].res;
    assert Given(a.kids[ord[k]].res, r, t.res.limit) && Inside(r, t.res.base, End(t.kids, ord, t.res.base));
    GivenIsPlaced(t, a.kids[i].res, r, End(t.kids, ord, t.res.base));
    KidIsWalked(t0, t, i);
  }

  lemma KidIsWalked(t0: Tree, t: Tree, i: nat)
    requires Ready(t0) && Rebound(t0, t) && |t.kids| == |t0.kids| && i < |t0.kids| && t0.kids[i].listed
    requires Given(t.kids[i].res, AllocateRun(t).kids[i].res, t.res.limit)
    requires PlacedFrom(t.res, AllocateRun(t).kids[i].res)
    ensures Walked(t0.kids[i], t.kids[i], AllocateRun(t).kids[i], AllocateRun(t).kids[i].res)
  {
    var p := PlanOf(t0);
    PlanMade(t0);
    AllocateLoopShape(Loop(t.kids, t.res.base, t.res), OrderOf(t));
    assert p.kids[i] == if t0.kids[i].window then Compute(t0.kids[i]) else t0.kids[i];
  }

  lemma KidPlaced(t0: Tree, t: Tree, i: nat)
    requires Ready(t0) && Rebound(t0, t) && Room(t) && i < |t0.kids| && t0.kids[i].listed
    ensures |t.kids| == |t0.kids|
    ensures var k := AllocateRun(t).kids[i]; PlacedFrom(t.res, k.res) && KidAgrees(t0.kids[i], k, Final(k))
  {
    KidOfWalk(t0, t, i);
    KidAgreement(t0.kids[i], t.kids[i], AllocateRun(t).kids[i], AllocateRun(t).kids[i].res);
  }

  lemma ShapeOfRun(t0: Tree, t: Tree)
    requires Ready(t0) && Rebound(t0, t)
    ensures |t.kids| == |t0.kids| == |Allocate(t).kids| && Allocate(t).res == t.res.(isAssigned := true)
    ensures forall i :: 0 <= i < |t0.kids| ==>
      Allocate(t).kids[i] == Final(AllocateRun(t).kids[i]) && AllocateRun(t).kids[i].listed == t0.kids[i].listed
  {
    var p := PlanOf(t0);
    PlanMade(t0);
    AllocateLoopShape(Loop(t.kids, t.res.base, t.res), OrderOf(t));
    forall i | 0 <= i < |t0.kids| ensures AllocateRun(t).kids[i].listed == t0.kids[i].listed {
      assert t.kids[i].listed == p.kids[i].listed;
    }
  }

  /** From any base: when the walk has room, both passes place everything behind the window at every depth,
      and the windows behind it keep the offsets of pass 1. */
  lemma IoWindowSucceeds(t0: Tree, t: Tree)
    requires Ready(t0) && Rebound(t0, t) && Room(t)
    ensures AllPlaced(Allocate(t)) && |Allocate(t).kids| == |t0.kids|
    ensures forall i :: 0 <= i < |t0.kids| && t0.kids[i].listed && t0.kids[i].window && Allocate(t).kids[i].res.size != 0 ==>
      Reproduces(t0.kids[i], Allocate(t).kids[i])
  {
    var r := AllocateRun(t);
    ShapeOfRun(t0, t);
    forall i | 0 <= i < |t0.kids| && t0.kids[i].listed
      ensures PlacedFrom(t.res, r.kids[i].res) && KidAgrees(t0.kids[i], r.kids[i], Final(r.kids[i]))
    {
      KidPlaced(t0, t, i);
    }
    WalkApart(t0, t);
    AllAssembled(t0, t, r, Allocate(t));
  }

  lemma WalkApart(t0: Tree, t: Tree)
    requires Ready(t0) && Rebound(t0, t) && Room(t)
    ensures |t.kids| == |t0.kids|
    ensures forall i, j :: 0 <= i < |t.kids| && 0 <= j < |t.kids| && i != j && t0.kids[i].listed && t0.kids[j].listed ==>
      Apart(AllocateRun(t).kids[i].res, AllocateRun(t).kids[j].res)
  {
    var a, ord := Loop(t.kids, t.res.base, t.res), OrderOf(t);
    WalkOf(t0, t);
    SmallMod(t.res.base, WORD);
    WalkGives(a, t.res.base, ord);
    forall i, j | 0 <= i < |t.kids| && 0 <= j < |t.kids| && i != j && t0.kids[i].listed && t0.kids[j].listed
      ensures Apart(AllocateRun(t).kids[i].res, AllocateRun(t).kids[j].res)
    {
      PackedPair(AllocateRun(t).kids, ord, t.res.base, End(t.kids, ord, t.res.base), i, j);
    }
  }

  lemma AllAssembled(t0: Tree, t: Tree, r: Loop, out: Tree)
    requires |out.kids| == |t0.kids| == |r.kids| == |t.kids| && out.res == t.res.(isAssigned := true)
    requires forall i :: 0 <= i < |t0.kids| ==> out.kids[i] == Final(r.kids[i]) && r.kids[i].listed == t0.kids[i].listed
    requires forall i :: 0 <= i < |t0.kids| && t0.kids[i].listed ==>
      PlacedFrom(t.res, r.kids[i].res) && KidAgrees(t0.kids[i], r.kids[i], Final(r.kids[i]))
    requires forall i, j :: 0 <= i < |t.kids| && 0 <= j < |t.kids| && i != j && t0.kids[i].listed && t0.kids[j].listed ==>
      Apart(r.kids[i].res, r.kids[j].res)
    ensures AllPlaced(out)
    ensures forall i :: 0 <= i < |t0.kids| && t0.kids[i].listed && t0.kids[i].window && out.kids[i].res.size != 0 ==>
      Reproduces(t0.kids[i], out.kids[i])
  {
  }

  // ------------------------------------------------------------------ a condition on sizes

  lemma SkipMonotone(x: nat, y: nat)
    requires x <= y
    ensures Skip(x) <= Skip(y)
  {
    var m, d := x / 0x400, x % 0x400;
    SkipPeriod(m, d);
    SkipInKib(d);
    if y < 0x400 * (m + 1) {
      SkipPeriod(m, y - 0x400 * m);
      SkipInKib(y - 0x400 * m);
    } else {
      SkipBounds(y);
    }
  }

  lemma SkipInKib(d: nat)
    requires d < 0x400
    ensures Skip(d) == if d < 0x100 then d else 0x400
  {
  }

  lemma {:induction false} EndMonotone(kids: seq<Tree>, ord: seq<nat>, x: nat, y: nat)
    requires InRange(ord, |kids|) && x <= y
    ensures End(kids, ord, x) <= End(kids, ord, y)
    decreases |ord|
  {
    if ord != [] {
      var r := kids[ord[0]].res;
      SkipMonotone(x, y);
      RoundUpMonotone(Begin(x, r), Begin(y, r), r.align);
      EndMonotone(kids, ord[1..], Next(kids, ord, x), Next(kids, ord, y));
    }
  }

  // Moving the walk by aligned amounts moves its end by as much.
  lemma {:induction false} EndShift(kids: seq<Tree>, ord: seq<nat>, x: nat, anchor: nat, b: nat, align: nat)
    requires InRange(ord, |kids|) && anchor <= x && Multiple(anchor, align) && Multiple(b, align)
    requires anchor % 0x400 == 0 && b % 0x400 == 0
    requires forall k :: 0 <= k < |ord| && kids[ord[k]].res.size != 0 ==> kids[ord[k]].res.align <= align
    ensures End(kids, ord, b + (x - anchor)) == b + (End(kids, ord, x) - anchor)
    decreases |ord|
  {
    if ord != [] {
      var r, rest := kids[ord[0]].res, ord[1..];
      assert forall k :: 0 <= k < |rest| ==> rest[k] == ord[k + 1];
      if r.size != 0 {
        SlotShift(x, r, anchor, b, align);
        EndShift(kids, rest, Slot(x, r) + r.size, anchor, b, align);
      } else {
        EndShift(kids, rest, x, anchor, b, align);
      }
    }
  }

  // The base rounded up to the alignment of the window and to 1 KiB.
  ghost function Rounded(t: Tree): nat {
    RoundUp(t.res.base, if t.res.align < 10 then 10 else t.res.align)
  }

  lemma RoundedIs(t: Tree)
    ensures t.res.base <= Rounded(t) && Multiple(Rounded(t), t.res.align) && Rounded(t) % 0x400 == 0
  {
    RoundUpBounds(t.res.base, if t.res.align < 10 then 10 else t.res.align);
    KibFromMultiple(Rounded(t), if t.res.align < 10 then 10 else t.res.align);
    if t.res.align < 10 {
      MultipleFromKib(Rounded(t), t.res.align);
    }
  }

  /** There is room when the computed size fits above the base rounded up. */
  lemma RoomAbove(t0: Tree, t: Tree)
    requires Ready(t0) && HasIo(t0) && Rebound(t0, t) && t.res.align == Compute(t0).res.align
    requires Rounded(t) + Compute(t0).res.size <= t.res.limit + 1
    ensures Room(t)
  {
    WalkOf(t0, t);
    RoundedIs(t);
    EndFromAligned(t0, t, Rounded(t));
    EndMonotone(t.kids, OrderOf(t), t.res.base, Rounded(t));
  }

  ghost predicate Aligned(kids: seq<Tree>, ord: seq<nat>, align: nat)
    requires InRange(ord, |kids|)
  {
    forall k :: 0 <= k < |ord| && kids[ord[k]].res.size != 0 ==> kids[ord[k]].res.align <= align
  }

  lemma EndAtMost(kids: seq<Tree>, other: seq<Tree>, ord: seq<nat>, anchor: nat, b: nat, align: nat, size: nat)
    requires SameNeeds(other, kids) && InRange(ord, |kids|) && Aligned(kids, ord, align)
    requires Multiple(anchor, align) && Multiple(b, align) && anchor % 0x400 == 0 && b % 0x400 == 0
    requires End(kids, ord, anchor) <= anchor + size
    ensures End(other, ord, b) <= b + size
  {
    EndShift(kids, ord, anchor, anchor, b, align);
    EndSame(other, kids, ord, b);
  }

  // What pass 1 has made of the walk.
  lemma PlanFacts(t0: Tree, t: Tree) returns (kids: seq<Tree>, anchor: nat)
    requires Ready(t0) && HasIo(t0) && Rebound(t0, t)
    ensures SameNeeds(t.kids, kids) && Aligned(kids, OrderOf(t), Compute(t0).res.align)
    ensures Multiple(anchor, Compute(t0).res.align) && anchor % 0x400 == 0
    ensures End(kids, OrderOf(t), anchor) <= anchor + Compute(t0).res.size
  {
    var p := PlanOf(t0);
    PlanMade(t0);
    PlanGives(t0, Compute(t0), p);
    WalkOf(t0, t);
    kids, anchor := p.kids, p.anchor;
  }

  lemma PlanGives(t0: Tree, t1: Tree, p: Plan)
    requires Planned(t0, t1, p) && HasIo(t0)
    ensures InRange(p.ord, |p.kids|) && SameNeeds(t1.kids, p.kids) && Aligned(p.kids, p.ord, t1.res.align)
    ensures Multiple(p.anchor, t1.res.align) && p.anchor % 0x400 == 0
    ensures End(p.kids, p.ord, p.anchor) <= p.anchor + t1.res.size
  {
    forall k | 0 <= k < |p.ord| ensures Covers(t1.res, p.kids[p.ord[k]].res) {
    }
  }

  // From an aligned base the walk takes no more than the computed size.
  lemma EndFromAligned(t0: Tree, t: Tree, b: nat)
    requires Ready(t0) && HasIo(t0) && Rebound(t0, t)
    requires Multiple(b, Compute(t0).res.align) && b % 0x400 == 0
    ensures End(t.kids, OrderOf(t), b) <= b + Compute(t0).res.size
  {
    var kids, anchor := PlanFacts(t0, t);
    EndAtMost(kids, t.kids, OrderOf(t), anchor, b, Compute(t0).res.align, Compute(t0).res.size);
  }

  // ------------------------------------------------------------------ the I/O window of a domain

  // avoid_fixed_resources(): a window that the region is inside of shrinks to it.
  ghost function Shrunk(t: Tree, region: C.Region): Tree {
    t.(res := t.res.(base := if region.base > t.res.base then region.base else t.res.base,
                     limit := Lower(t.res.limit, region.limit)))
  }

  // A placed resource at any depth lies between the window's base and its limit.
  lemma PlacedInside(t: Tree, path: seq<nat>)
    requires AllPlaced(t) && path != [] && Leads(t, path)
    ensures var r := At(t, path).res; r.size != 0 && t.res.base <= r.base && r.base + r.size <= t.res.limit + 1
  {
    var k := t.kids[path[0]];
    assert PlacedFrom(t.res, k.res);
    if |path| > 1 {
      PlacedBelow(k, path[1..]);
      LeadsToSize(k, path[1..]);
    } else {
      assert At(t, path) == At(k, path[1..]) == k;
    }
  }

  lemma {:induction false} LeadsToSize(t: Tree, path: seq<nat>)
    requires path != [] && Leads(t, path)
    ensures At(t, path).res.size != 0
    decreases |path|
  {
    if |path| > 1 {
      LeadsToSize(t.kids[path[0]], path[1..]);
    } else {
      assert At(t, path) == At(t.kids[path[0]], path[1..]) == t.kids[path[0]];
    }
  }

  /** End to end for the I/O window of a domain: when nothing wraps in the cuts and the walk has room above the
      raised base, everything is placed, and nothing of it meets a fixed I/O resource. */
  lemma DomainIoAvoidsFixed(t0: Tree, start: C.Region, fs: seq<C.Fixed>)
    requires Ready(t0) && C.Clean(start, fs) && forall k :: 0 <= k < |fs| ==> C.Bounded(fs[k])
    requires Room(Shrunk(Compute(t0), C.ConstrainAll(start, fs)))
    ensures var out := Allocate(Shrunk(Compute(t0), C.ConstrainAll(start, fs)));
      && AllPlaced(out)
      && forall path, i :: path != [] && Leads(out, path) && 0 <= i < |fs| && fs[i].size != 0 ==>
           var r := At(out, path).res;
           r.base + r.size <= fs[i].base || fs[i].base + fs[i].size <= r.base
  {
    var region := C.ConstrainAll(start, fs);
    var t := Shrunk(Compute(t0), region);
    IoWindowSucceeds(t0, t);
    C.AllAvoided(start, fs);
    var out := Allocate(t);
    forall path, i | path != [] && Leads(out, path) && 0 <= i < |fs| && fs[i].size != 0
      ensures var r := At(out, path).res;
        r.base + r.size <= fs[i].base || fs[i].base + fs[i].size <= r.base
    {
      PlacedInside(out, path);
      assert C.Avoids(region, fs[i]);
    }
  }
}
