/** How tightly one bus is packed, and where its I/O resources may lie. */
module Packing {
  import opened Powers
  import opened Addresses
  import opened Windows
  import opened Layout
  import S = Selection

  ghost function SumOfSizes(kids: seq<Tree>, ord: seq<nat>): nat
    requires InRange(ord, |kids|)
    decreases |ord|
  {
    if ord == [] then 0 else kids[ord[0]].res.size + SumOfSizes(kids, ord[1..])
  }

  // Memory resources as PCI requires them: the size is a multiple of the alignment.
  ghost predicate SizedToAlign(kids: seq<Tree>, ord: seq<nat>)
    requires InRange(ord, |kids|)
  {
    forall k :: 0 <= k < |ord| ==> !kids[ord[k]].res.io && Multiple(kids[ord[k]].res.size, kids[ord[k]].res.align)
  }

  // A walk by descending alignment from a base aligned for every resource on it leaves no gap.
  lemma {:induction false} WalkIsGapFree(kids: seq<Tree>, ord: seq<nat>, base: nat)
    requires InRange(ord, |kids|) && S.Sorted(Keys(kids), ord) && SizedToAlign(kids, ord)
    requires forall k :: 0 <= k < |ord| && kids[ord[k]].res.size != 0 ==> Multiple(base, kids[ord[k]].res.align)
    ensures End(kids, ord, base) == base + SumOfSizes(kids, ord)
    decreases |ord|
  {
    if ord != [] {
      var q, rest := kids[ord[0]].res, ord[1..];
      if q.size != 0 {
        RoundUpFixed(base, q.align);
        forall k | 0 <= k < |rest| && kids[rest[k]].res.size != 0
          ensures Multiple(base + q.size, kids[rest[k]].res.align)
        {
          assert rest[k] == ord[k + 1] && S.Before(Keys(kids), ord[0], ord[k + 1]);
          MultipleSum(base, q.size, q.align);
          MultipleWeaken(base + q.size, kids[rest[k]].res.align, q.align);
        }
        WalkIsGapFree(kids, rest, base + q.size);
      } else {
        assert forall k :: 0 <= k < |rest| ==> rest[k] == ord[k + 1];
        WalkIsGapFree(kids, rest, base);
      }
    }
  }

  /** A memory window whose resources are all sized to their alignment gets exactly the sum of their
      sizes, rounded up to the granularity of the window: the packing is optimal. */
  lemma WindowIsGapFree(t: Tree)
    requires Sound(t) && t.res.base == 0 && SizedToAlign(ComputeKids(t.kids), Walk(t))
    ensures Compute(t).res.size == RoundUp(SumOfSizes(ComputeKids(t.kids), Walk(t)), t.res.gran)
  {
    RoundUpZero(ComputeRun(t).bridge.align);
    PlanOutcome(t, PlanOf(t), ComputeRun(t));
    WalkFacts(t);
    PlanIsGapFree(PlanOf(t), ComputeRun(t));
  }

  lemma PlanIsGapFree(p: Plan, r: Loop)
    requires InRange(p.ord, |p.kids|) && S.Sorted(Keys(p.kids), p.ord) && SizedToAlign(p.kids, p.ord)
    requires p.anchor == 0 == RoundUp(r.bridge.base, r.bridge.align)
    requires r.base == p.end == End(p.kids, p.ord, p.anchor) && RoundUp(r.base, r.bridge.gran) < WORD
    ensures ComputeSize(r) == RoundUp(SumOfSizes(p.kids, p.ord), r.bridge.gran)
  {
    forall k | 0 <= k < |p.ord| ensures Multiple(0, p.kids[p.ord[k]].res.align) {
      ZeroMultiple(p.kids[p.ord[k]].res.align);
    }
    WalkIsGapFree(p.kids, p.ord, 0);
    SizeExact(r, 0);
  }

  lemma {:induction false} ZeroMultiple(pow: nat)
    ensures Multiple(0, pow)
  {
    if pow != 0 {
      ZeroMultiple(pow - 1);
    }
  }

  lemma RoundUpZero(pow: nat)
    ensures RoundUp(0, pow) == 0
  {
    ZeroMultiple(pow);
    RoundUpFixed(0, pow);
  }

  // ------------------------------------------------------------------ I/O resources

  // Outside the ranges that cards decoding ten address bits alias: base & 0x300 == 0.
  predicate AliasFree(base: nat) {
    (base / 0x100) % 4 == 0
  }

  // An I/O resource as PCI requires it: the size is the alignment.
  ghost predicate PciIo(r: Res) {
    r.size != 0 ==> r.io && r.size == Pow2(r.align)
  }

  // From a base that is already aligned for it, a PCI I/O resource starts alias free, and the base
  // after it is still aligned for it.
  lemma SlotAliasFree(base: nat, r: Res)
    requires r.io && Multiple(base, r.align)
    ensures AliasFree(Slot(base, r)) && Multiple(Slot(base, r), r.align)
  {
    SkipAliasFree(base);
    if Skip(base) != base {
      if r.align > 10 {
        KibFromMultiple(base, r.align);
        KibIsAliasFree(base);
      } else {
        MultipleFromKib(Skip(base), r.align);
      }
    }
    RoundUpFixed(Skip(base), r.align);
  }

  lemma SkipAliasFree(base: nat)
    ensures AliasFree(Skip(base))
    ensures Skip(base) != base ==> Skip(base) % 0x400 == 0
  {
    if Skip(base) != base {
      assert Skip(base) == 0x400 * (base / 0x400 + 1);
      KibIsAliasFree(Skip(base));
    }
  }

  lemma KibIsAliasFree(x: nat)
    requires x % 0x400 == 0
    ensures AliasFree(x)
  {
    assert x / 0x100 == 4 * (x / 0x400);
  }

  // The walk at `base` is aligned for every nonzero resource it still has to place.
  ghost predicate AlignedFor(base: nat, kids: seq<Tree>, ord: seq<nat>)
    requires InRange(ord, |kids|)
  {
    forall k :: 0 <= k < |ord| && kids[ord[k]].res.size != 0 ==> Multiple(base, kids[ord[k]].res.align)
  }

  lemma StaysAligned(kids: seq<Tree>, ord: seq<nat>, base: nat)
    requires ord != [] && InRange(ord, |kids|) && S.Sorted(Keys(kids), ord)
    requires kids[ord[0]].res.size != 0 && PciIo(kids[ord[0]].res) && AlignedFor(base, kids, ord)
    ensures AliasFree(Slot(base, kids[ord[0]].res))
    ensures AlignedFor(Slot(base, kids[ord[0]].res) + kids[ord[0]].res.size, kids, ord[1..])
  {
    var q, rest := kids[ord[0]].res, ord[1..];
    var next := Slot(base, q) + q.size;
    SlotAliasFree(base, q);
    Pow2Multiple(q.align, q.align);
    MultipleSum(Slot(base, q), q.size, q.align);
    forall k | 0 <= k < |rest| && kids[rest[k]].res.size != 0
      ensures Multiple(next, kids[rest[k]].res.align)
    {
      assert rest[k] == ord[k + 1] && S.Before(Keys(kids), ord[0], ord[k + 1]);
      MultipleWeaken(next, kids[rest[k]].res.align, q.align);
    }
  }

  /** Pass 1 gives every I/O resource of PCI shape an alias-free base, when the walk starts aligned
      for all of them. */
  lemma {:induction false} IoIsAliasFree(s: Loop, ord: seq<nat>)
    requires InRange(ord, |s.kids|) && Distinct(ord) && S.Sorted(Keys(s.kids), ord)
    requires End(s.kids, ord, s.base) < WORD
    requires (forall k :: 0 <= k < |ord| ==> PciIo(s.kids[ord[k]].res)) && AlignedFor(s.base, s.kids, ord)
    ensures forall k :: 0 <= k < |ord| && s.kids[ord[k]].res.size != 0 ==>
      AliasFree(ComputeLoop(s, ord).kids[ord[k]].res.base)
    decreases |ord|
  {
    if ord != [] {
      var i, rest := ord[0], ord[1..];
      var m := ComputeStep(s, i);
      FirstIsAliasFree(s, ord);
      NextWalk(s, m, ord);
      IoIsAliasFree(m, rest);
      forall k | 0 <= k < |ord| && s.kids[ord[k]].res.size != 0
        ensures AliasFree(ComputeLoop(s, ord).kids[ord[k]].res.base)
      {
        if k == 0 {
          ComputeLoopKids(m, rest);
          assert i !in rest;
        } else {
          assert ord[k] == rest[k - 1];
        }
      }
    }
  }

  lemma FirstIsAliasFree(s: Loop, ord: seq<nat>)
    requires ord != [] && InRange(ord, |s.kids|) && S.Sorted(Keys(s.kids), ord) && End(s.kids, ord, s.base) < WORD
    requires PciIo(s.kids[ord[0]].res) && AlignedFor(s.base, s.kids, ord)
    ensures var m := ComputeStep(s, ord[0]);
      && Rebased(s.kids, m.kids, [ord[0]]) && AlignedFor(m.base, s.kids, ord[1..])
      && End(s.kids, ord[1..], m.base) == End(s.kids, ord, s.base)
      && (s.kids[ord[0]].res.size != 0 ==> AliasFree(m.kids[ord[0]].res.base))
  {
    StepBase(s, ord);
    NextAligned(s.base, ComputeStep(s, ord[0]).base, s.kids, ord);
  }

  lemma NextAligned(base: nat, next: nat, kids: seq<Tree>, ord: seq<nat>)
    requires ord != [] && InRange(ord, |kids|) && S.Sorted(Keys(kids), ord)
    requires PciIo(kids[ord[0]].res) && AlignedFor(base, kids, ord)
    requires var q := kids[ord[0]].res; next == if q.size == 0 then base else Slot(base, q) + q.size
    ensures AlignedFor(next, kids, ord[1..]) && End(kids, ord[1..], next) == End(kids, ord, base)
    ensures kids[ord[0]].res.size != 0 ==> AliasFree(Slot(base, kids[ord[0]].res))
  {
    if kids[ord[0]].res.size != 0 {
      StaysAligned(kids, ord, base);
    } else {
      AlignedRest(base, kids, ord);
    }
  }

  // Where the first resource of the walk goes, and where the walk is then.
  lemma StepBase(s: Loop, ord: seq<nat>)
    requires ord != [] && InRange(ord, |s.kids|) && End(s.kids, ord, s.base) < WORD
    ensures var q, m := s.kids[ord[0]].res, ComputeStep(s, ord[0]);
      && Rebased(s.kids, m.kids, [ord[0]])
      && m.base == (if q.size == 0 then s.base else Slot(s.base, q) + q.size)
      && (q.size != 0 ==> m.kids[ord[0]].res.base == Slot(s.base, q))
  {
    var q := s.kids[ord[0]].res;
    if q.size != 0 {
      EndBound(s.kids, ord[1..], Slot(s.base, q) + q.size);
      ComputeStepExact(s, ord[0]);
    }
  }

  lemma AlignedRest(base: nat, kids: seq<Tree>, ord: seq<nat>)
    requires ord != [] && InRange(ord, |kids|) && AlignedFor(base, kids, ord)
    ensures AlignedFor(base, kids, ord[1..])
  {
    assert forall k :: 0 <= k < |ord| - 1 ==> ord[1..][k] == ord[k + 1];
  }

  // The premises of IoIsAliasFree after one step.
  lemma NextWalk(s: Loop, m: Loop, ord: seq<nat>)
    requires ord != [] && InRange(ord, |s.kids|) && Distinct(ord) && S.Sorted(Keys(s.kids), ord)
    requires Rebased(s.kids, m.kids, [ord[0]])
    requires forall k :: 0 <= k < |ord| ==> PciIo(s.kids[ord[k]].res)
    requires AlignedFor(m.base, s.kids, ord[1..])
    ensures S.Sorted(Keys(m.kids), ord[1..]) && AlignedFor(m.base, m.kids, ord[1..])
    ensures forall k :: 0 <= k < |ord[1..]| ==> PciIo(m.kids[ord[1..][k]].res)
    ensures End(m.kids, ord[1..], m.base) == End(s.kids, ord[1..], m.base)
  {
    assert Keys(m.kids) == Keys(s.kids);
    EndSame(s.kids, m.kids, ord[1..], m.base);
    forall k | 0 <= k < |ord[1..]|
      ensures ord[1..][k] !in [ord[0]] && PciIo(s.kids[ord[1..][k]].res)
    {
      assert ord[1..][k] == ord[k + 1];
    }
  }

  /** Both passes: behind a granted I/O window, every nonzero listed I/O resource of PCI shape is alias
      free. */
  lemma IoStaysAliasFree(t0: Tree, t: Tree)
    requires Sound(t0) && Granted(t0, Compute(t0), t)
    requires forall k :: 0 <= k < |Walk(t0)| ==> PciIo(ComputeKids(t0.kids)[Walk(t0)[k]].res)
    ensures forall i :: 0 <= i < |t0.kids| && t0.kids[i].listed && t.kids[i].res.size != 0 ==>
      AliasFree(AllocateRun(t).kids[i].res.base)
  {
    PlanMade(t0);
    WalkFacts(t0);
    PlannedAliasFree(t0, Compute(t0), t, PlanOf(t0));
  }

  lemma PlannedAliasFree(t0: Tree, t1: Tree, t: Tree, p: Plan)
    requires Planned(t0, t1, p) && Granted(t0, t1, t) && S.Sorted(Keys(p.kids), p.ord)
    requires forall k :: 0 <= k < |p.ord| ==> PciIo(p.kids[p.ord[k]].res)
    ensures forall i :: 0 <= i < |t0.kids| && t0.kids[i].listed && t.kids[i].res.size != 0 ==>
      AliasFree(AllocateRun(t).kids[i].res.base)
  {
    PassOneAliasFree(t0, t1, p);
    WindowMoves(t0, t1, t, p);
    forall i | 0 <= i < |t0.kids| && t0.kids[i].listed && t.kids[i].res.size != 0
      ensures AliasFree(AllocateRun(t).kids[i].res.base)
    {
      KidFacts(t0, t1, t, p, i);
      MovedAliasFree(t.kids[i].res, AllocateRun(t).kids[i].res, p.anchor, t.res.base, t.res.limit);
    }
  }

  // Moving by whole alias periods keeps a base alias free.
  lemma MovedAliasFree(r: Res, r': Res, anchor: nat, b: nat, limit: address)
    requires r.size != 0 && AliasFree(r.base) && Moved(r, r', r.base, anchor, b, limit)
    requires b % 0x400 == 0 && anchor % 0x400 == 0 && anchor <= r.base
    ensures AliasFree(r'.base)
  {
    AliasShift(b, r.base, anchor);
  }

  lemma PassOneAliasFree(t0: Tree, t1: Tree, p: Plan)
    requires Planned(t0, t1, p) && S.Sorted(Keys(p.kids), p.ord)
    requires forall k :: 0 <= k < |p.ord| ==> PciIo(p.kids[p.ord[k]].res)
    ensures forall i :: 0 <= i < |t0.kids| && t0.kids[i].listed && t1.kids[i].res.size != 0 ==> AliasFree(t1.kids[i].res.base)
  {
    forall k | 0 <= k < |p.ord| && p.kids[p.ord[k]].res.size != 0
      ensures Multiple(p.anchor, p.kids[p.ord[k]].res.align)
    {
      assert Covers(t1.res, p.kids[p.ord[k]].res);
      MultipleWeaken(p.anchor, p.kids[p.ord[k]].res.align, t1.res.align);
    }
    IoIsAliasFree(Loop(p.kids, p.anchor, t0.res), p.ord);
    forall i | 0 <= i < |t0.kids| && t0.kids[i].listed && t1.kids[i].res.size != 0
      ensures AliasFree(t1.kids[i].res.base)
    {
      assert i in p.ord;
    }
  }

  lemma KidFacts(t0: Tree, t1: Tree, t: Tree, p: Plan, i: nat)
    requires Planned(t0, t1, p) && Granted(t0, t1, t)
    requires forall k :: 0 <= k < |p.ord| ==> PciIo(p.kids[p.ord[k]].res)
    requires i < |t0.kids| && t0.kids[i].listed && t.kids[i].res.size != 0
    ensures t.kids[i].listed && t.kids[i].res.size == p.kids[i].res.size
    ensures exists k :: 0 <= k < |p.ord| && p.ord[k] == i
    ensures p.anchor <= t.kids[i].res.base && t.res.base % 0x400 == 0 && p.anchor % 0x400 == 0
  {
    assert i in p.ord;
    var k :| 0 <= k < |p.ord| && p.ord[k] == i;
    assert PciIo(p.kids[p.ord[k]].res);
    assert HasIo(t0) by {
      assert t0.kids[i].res.io;
    }
    assert Inside(t.kids[p.ord[k]].res, p.anchor, p.end);
  }

  lemma AliasShift(b: nat, x: nat, anchor: nat)
    requires b % 0x400 == 0 && anchor % 0x400 == 0 && anchor <= x && AliasFree(x)
    ensures AliasFree(b + x - anchor)
  {
    AliasPeriod(anchor / 0x400, x - anchor);
    AliasPeriod(b / 0x400, x - anchor);
  }

  lemma AliasPeriod(m: nat, d: nat)
    ensures AliasFree(0x400 * m + d) <==> AliasFree(d)
  {
    DivUnique(0x400 * m + d, 4 * m + d / 0x100, 0x100, d % 0x100);
    ModAddMultiple(d / 0x100, m, 4);
  }
}
