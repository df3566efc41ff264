/**
  What the two passes achieve: the size promised by pass 1 is enough for pass 2, at every depth.
 */
module Layout {
  import opened Addresses
  import opened Powers
  import opened Wrappers
  import opened Windows
  import S = Selection

  // ------------------------------------------------------------------ one loop on unbounded numbers

  // SkipLegacy without its unreachable VGA branch and without wrap-around.
  ghost function Skip(base: nat): nat {
    if (base / 0x100) % 4 != 0 then base - base % 0x400 + 0x400 else base
  }

  ghost function Begin(base: nat, r: Res): nat {
    if r.io then Skip(base) else base
  }

  // Where a nonzero resource goes when the running base is `base`.
  ghost function Slot(base: nat, r: Res): nat {
    RoundUp(Begin(base, r), r.align)
  }

  // The running base after the resources of `ord` have been placed.
  ghost function End(kids: seq<Tree>, ord: seq<nat>, base: nat): nat
    requires InRange(ord, |kids|)
    decreases |ord|
  {
    if ord == [] then base
    else
      var r := kids[ord[0]].res;
      End(kids, ord[1..], if r.size == 0 then base else Slot(base, r) + r.size)
  }

  lemma SkipBounds(base: nat)
    ensures base <= Skip(base)
    ensures (Skip(base) / 0x100) % 4 == 0
  {
  }

  /** The skip goes no further than it has to: to the first address at or above base whose bits 8 and 9 are
      clear. */
  lemma SkipLeast(base: nat, x: nat)
    requires base <= x && (x / 0x100) % 4 == 0
    ensures Skip(base) <= x
  {
    if (base / 0x100) % 4 != 0 && x < Skip(base) {
      var m := base / 0x400;
      DivUnique(x, m, 0x400, x - 0x400 * m);
      InBlock(m, x - 0x400 * m);
      InBlock(m, base - 0x400 * m);
    }
  }

  lemma InBlock(m: nat, r: nat)
    requires r < 0x400
    ensures ((0x400 * m + r) / 0x100) % 4 == r / 0x100
  {
    DivUnique(0x400 * m + r, 4 * m + r / 0x100, 0x100, r % 0x100);
    ModAddMultiple(r / 0x100, m, 4);
  }

  /** The VGA branch of both loops cannot be reached: 0x3b0 .. 0x3df fail the alias test before it. */
  lemma SkipLegacyExact(base: address)
    requires Skip(base) < WORD
    ensures SkipLegacy(base) == Skip(base)
    ensures (base / 0x100) % 4 == 0 ==> !(0x3b0 <= base <= 0x3df)
  {
  }

  lemma SkipPeriod(m: nat, x: nat)
    ensures Skip(0x400 * m + x) == 0x400 * m + Skip(x)
  {
    DivUnique(0x400 * m + x, 4 * m + x / 0x100, 0x100, x % 0x100);
    ModAddMultiple(x / 0x100, m, 4);
    ModAddMultiple(x, m, 0x400);
  }

  lemma SkipShift(b: nat, x: nat)
    requires b % 0x400 == 0
    ensures Skip(b + x) == b + Skip(x)
  {
    SkipPeriod(b / 0x400, x);
  }

  lemma SlotBounds(base: nat, r: Res)
    ensures base <= Begin(base, r) <= Slot(base, r)
    ensures Multiple(Slot(base, r), r.align)
  {
    SkipBounds(base);
    RoundUpBounds(Begin(base, r), r.align);
  }

  lemma {:induction false} EndBound(kids: seq<Tree>, ord: seq<nat>, base: nat)
    requires InRange(ord, |kids|)
    ensures base <= End(kids, ord, base)
    decreases |ord|
  {
    if ord != [] {
      var r := kids[ord[0]].res;
      SlotBounds(base, r);
      EndBound(kids, ord[1..], if r.size == 0 then base else Slot(base, r) + r.size);
    }
  }

  // End depends on the sizes, alignments and kinds only.
  ghost predicate SameNeeds(a: seq<Tree>, b: seq<Tree>) {
    |a| == |b| && forall i :: 0 <= i < |a| ==>
      a[i].res.size == b[i].res.size && a[i].res.align == b[i].res.align && a[i].res.io == b[i].res.io
  }

  lemma {:induction false} EndSame(a: seq<Tree>, b: seq<Tree>, ord: seq<nat>, base: nat)
    requires SameNeeds(a, b) && InRange(ord, |a|)
    ensures End(a, ord, base) == End(b, ord, base)
    decreases |ord|
  {
    if ord != [] {
      var r := a[ord[0]].res;
      EndSame(a, b, ord[1..], if r.size == 0 then base else Slot(base, r) + r.size);
    }
  }

  ghost predicate Distinct(ord: seq<nat>) {
    forall a, b :: 0 <= a < b < |ord| ==> ord[a] != ord[b]
  }

  // ------------------------------------------------------------------ the loop of pass 1

  // The resource at position k of the walk, if it needs space, starts at or after `from`, is aligned
  // and ends at or before `to`.
  ghost predicate Inside(r: Res, from: nat, to: nat) {
    r.size != 0 ==> from <= r.base && r.base + r.size <= to && Multiple(r.base, r.align)
  }

  ghost predicate Apart(a: Res, b: Res) {
    a.size != 0 && b.size != 0 ==> a.base + a.size <= b.base || b.base + b.size <= a.base
  }

  // Where either pass puts a resource, when nothing wraps.
  lemma PlaceExact(base: address, r: Res)
    requires Slot(base, r) < WORD
    ensures Start(base, r) == Begin(base, r)
    ensures Round(Start(base, r), r.align) == Slot(base, r)
  {
    SlotBounds(base, r);
    if r.io {
      SkipLegacyExact(base);
    }
    RoundExact(Begin(base, r), r.align);
  }

  lemma ComputeStepExact(s: Loop, i: nat)
    requires i < |s.kids| && s.kids[i].res.size != 0
    requires Slot(s.base, s.kids[i].res) + s.kids[i].res.size < WORD
    ensures var r := s.kids[i].res;
      ComputeStep(s, i) == Loop(SetRes(s.kids, i, r.(base := Slot(s.base, r))), Slot(s.base, r) + r.size,
        s.bridge.(align := if r.align > s.bridge.align then r.align else s.bridge.align,
                  limit := if s.bridge.limit > r.limit then r.limit else s.bridge.limit))
  {
    PlaceExact(s.base, s.kids[i].res);
  }

  // The loop of pass 1 changes nothing but the bases of the resources of `ord`.
  ghost predicate Rebased(a: seq<Tree>, b: seq<Tree>, ord: seq<nat>) {
    |a| == |b| && forall i :: 0 <= i < |a| ==>
      && b[i] == a[i].(res := a[i].res.(base := b[i].res.base))
      && (i !in ord ==> b[i] == a[i])
  }

  lemma {:induction false} ComputeLoopKids(s: Loop, ord: seq<nat>)
    requires InRange(ord, |s.kids|)
    ensures Rebased(s.kids, ComputeLoop(s, ord).kids, ord)
    decreases |ord|
  {
    if ord != [] {
      var m := ComputeStep(s, ord[0]);
      ComputeLoopKids(m, ord[1..]);
      assert forall i :: i in ord[1..] ==> i in ord;
    }
  }

  // How the loop of pass 1 changes the bridge: alignment raised to the largest, limit lowered to
  // the smallest of the resources that need space.
  ghost predicate Raised(br: Res, br': Res, kids: seq<Tree>, ord: seq<nat>)
    requires InRange(ord, |kids|)
  {
    && br' == br.(align := br'.align, limit := br'.limit)
    && br'.align >= br.align && br'.limit <= br.limit
    && (forall a :: 0 <= a < |ord| ==> Covers(br', kids[ord[a]].res))
    && (br'.align == br.align || exists a :: 0 <= a < |ord| && Largest(br', kids[ord[a]].res))
  }

  ghost predicate Covers(br: Res, r: Res) {
    r.size != 0 ==> r.align <= br.align && br.limit <= r.limit
  }

  ghost predicate Largest(br: Res, r: Res) {
    r.size != 0 && r.align == br.align
  }

  lemma {:induction false} ComputeLoopBridge(s: Loop, ord: seq<nat>)
    requires InRange(ord, |s.kids|) && Distinct(ord)
    ensures Raised(s.bridge, ComputeLoop(s, ord).bridge, s.kids, ord)
    decreases |ord|
  {
    if ord != [] {
      var m, rest := ComputeStep(s, ord[0]), ord[1..];
      ComputeLoopBridge(m, rest);
      RaisedCons(s.bridge, m.bridge, ComputeLoop(s, ord).bridge, s.kids, m.kids, ord);
    }
  }

  ghost predicate LimitOf(limit: address, r: Res) {
    r.size != 0 && r.limit == limit
  }

  /** And the limit is lowered no further than to that of a resource that needs space. */
  lemma {:induction false} ComputeLoopLimit(s: Loop, ord: seq<nat>)
    requires InRange(ord, |s.kids|) && Distinct(ord)
    ensures var limit := ComputeLoop(s, ord).bridge.limit;
      limit == s.bridge.limit || exists a :: 0 <= a < |ord| && LimitOf(limit, s.kids[ord[a]].res)
    decreases |ord|
  {
    if ord != [] {
      var m, rest := ComputeStep(s, ord[0]), ord[1..];
      var limit := ComputeLoop(s, ord).bridge.limit;
      ComputeLoopLimit(m, rest);
      if limit == m.bridge.limit != s.bridge.limit {
        assert LimitOf(limit, s.kids[ord[0]].res);
      } else if limit != m.bridge.limit {
        var a :| 0 <= a < |rest| && LimitOf(limit, m.kids[rest[a]].res);
        assert rest[a] == ord[a + 1];
        assert LimitOf(limit, s.kids[ord[a + 1]].res);
      }
    }
  }

  lemma RaisedCons(br: Res, mid: Res, br': Res, kids: seq<Tree>, kids': seq<Tree>, ord: seq<nat>)
    requires ord != [] && InRange(ord, |kids|) && |kids| == |kids'| && Distinct(ord)
    requires forall i :: 0 <= i < |kids| && i != ord[0] ==> kids'[i] == kids[i]
    requires Raised(mid, br', kids', ord[1..])
    requires var q := kids[ord[0]].res;
      mid == if q.size == 0 then br else
        br.(align := if q.align > br.align then q.align else br.align,
            limit := if br.limit > q.limit then q.limit else br.limit)
    ensures Raised(br, br', kids, ord)
  {
    var rest := ord[1..];
    forall a | 0 <= a < |ord| ensures Covers(br', kids[ord[a]].res) {
      if a != 0 { assert ord[a] == rest[a - 1] && Covers(br', kids'[rest[a - 1]].res); }
    }
    if br'.align != br.align {
      if br'.align == mid.align {
        assert Largest(br', kids[ord[0]].res);
      } else {
        var a :| 0 <= a < |rest| && Largest(br', kids'[rest[a]].res);
        assert rest[a] == ord[a + 1];
      }
    }
  }

  // Where the loop of pass 1 has put the resources of `ord`.
  ghost predicate Packed(kids: seq<Tree>, ord: seq<nat>, from: nat, to: nat)
    requires InRange(ord, |kids|)
  {
    && (forall a :: 0 <= a < |ord| ==> Inside(kids[ord[a]].res, from, to))
    && (forall a, b :: 0 <= a < b < |ord| ==> Apart(kids[ord[a]].res, kids[ord[b]].res))
  }

  lemma FirstIsPacked(s: Loop, ord: seq<nat>)
    requires ord != [] && InRange(ord, |s.kids|) && End(s.kids, ord, s.base) < WORD
    ensures var m := ComputeStep(s, ord[0]);
      && s.base <= m.base && Inside(m.kids[ord[0]].res, s.base, m.base)
      && End(m.kids, ord[1..], m.base) == End(s.kids, ord, s.base)
  {
    var q, m, rest := s.kids[ord[0]].res, ComputeStep(s, ord[0]), ord[1..];
    if q.size != 0 {
      EndBound(s.kids, rest, Slot(s.base, q) + q.size);
      ComputeStepExact(s, ord[0]);
      SlotBounds(s.base, q);
    }
    EndSame(s.kids, m.kids, rest, m.base);
  }

  lemma {:induction false} ComputeLoopPacks(s: Loop, ord: seq<nat>)
    requires InRange(ord, |s.kids|) && Distinct(ord)
    requires End(s.kids, ord, s.base) < WORD
    ensures ComputeLoop(s, ord).base == End(s.kids, ord, s.base)
    ensures Packed(ComputeLoop(s, ord).kids, ord, s.base, ComputeLoop(s, ord).base)
    decreases |ord|
  {
    if ord != [] {
      var i, rest := ord[0], ord[1..];
      var m := ComputeStep(s, i);
      FirstIsPacked(s, ord);
      ComputeLoopPacks(m, rest);
      ComputeLoopKids(m, rest);
      EndBound(m.kids, rest, m.base);
      assert i !in rest;
      PackedCons(ComputeLoop(s, ord).kids, ord, s.base, m.base, ComputeLoop(s, ord).base);
    }
  }

  lemma PackedCons(kids: seq<Tree>, ord: seq<nat>, from: nat, mid: nat, to: nat)
    requires ord != [] && InRange(ord, |kids|) && from <= mid <= to
    requires Inside(kids[ord[0]].res, from, mid) && Packed(kids, ord[1..], mid, to)
    ensures Packed(kids, ord, from, to)
  {
    var rest := ord[1..];
    forall b | 0 < b < |ord| ensures Inside(kids[ord[b]].res, mid, to) {
      assert ord[b] == rest[b - 1];
    }
    forall a, b | 0 <= a < b < |ord| ensures Apart(kids[ord[a]].res, kids[ord[b]].res) {
      if a != 0 { assert ord[a] == rest[a - 1] && ord[b] == rest[b - 1]; }
    }
  }

  // ------------------------------------------------------------------ the loop of pass 2

  lemma {:induction false} AllocateLoopKids(s: Loop, ord: seq<nat>)
    requires InRange(ord, |s.kids|)
    ensures forall i :: 0 <= i < |s.kids| && i !in ord ==> AllocateLoop(s, ord).kids[i] == s.kids[i]
    decreases |ord|
  {
    if ord != [] {
      AllocateLoopKids(AllocateStep(s, ord[0]), ord[1..]);
      assert forall i :: i in ord[1..] ==> i in ord;
    }
  }

  ghost function Lower(a: address, b: address): address {
    if a > b then b else a
  }

  // Resource r after pass 2 put its window at b with limit `limit`, when pass 1 had put the window
  // at `anchor` and r at `at`.
  ghost predicate Moved(r: Res, r': Res, at: nat, anchor: nat, b: nat, limit: address) {
    && r' == r.(base := r'.base, limit := Lower(r.limit, limit), isAssigned := true,
                isStored := r.size == 0 && r.isStored)
    && r'.base == if r.size == 0 then r'.limit else b + at - anchor
  }

  // Moving the running base by a sufficiently aligned amount moves the slot by as much.
  lemma SlotMove(c: nat, d: nat, r: Res)
    requires Multiple(c, r.align) && (r.io ==> c % 0x400 == 0)
    ensures Slot(c + d, r) == c + Slot(d, r)
  {
    if r.io {
      SkipShift(c, d);
    }
    RoundUpShift(c, Begin(d, r), r.align);
  }

  lemma SlotShift(x: nat, r: Res, anchor: nat, b: nat, align: nat)
    requires anchor <= x && r.align <= align
    requires Multiple(anchor, align) && Multiple(b, align)
    requires r.io ==> anchor % 0x400 == 0 && b % 0x400 == 0
    ensures anchor <= Slot(x, r)
    ensures Slot(b + (x - anchor), r) == b + (Slot(x, r) - anchor)
  {
    MultipleWeaken(anchor, r.align, align);
    MultipleWeaken(b, r.align, align);
    SlotMove(anchor, x - anchor, r);
    SlotMove(b, x - anchor, r);
    SlotBounds(x, r);
  }

  // Both loops at the same position of the walk.
  ghost predicate InStep(s: Loop, a: Loop, anchor: nat, b: nat, align: nat, ord: seq<nat>)
    requires InRange(ord, |s.kids|)
  {
    && SameNeeds(a.kids, s.kids)
    && anchor <= s.base && Multiple(anchor, align) && Multiple(b, align)
    && a.base == (b + (s.base - anchor)) % WORD
    && End(s.kids, ord, s.base) < WORD
    && b + (End(s.kids, ord, s.base) - anchor) <= a.bridge.limit + 1
    && (forall k :: 0 <= k < |ord| ==> Movable(a.kids[ord[k]].res, align, a.bridge.limit, anchor, b))
  }

  ghost predicate Movable(r: Res, align: nat, limit: nat, anchor: nat, b: nat) {
    r.size != 0 ==> r.align <= align && limit <= r.limit && (r.io ==> anchor % 0x400 == 0 && b % 0x400 == 0)
  }

  // One placement of pass 2, when the resource fits.
  lemma AllocateStepExact(a: Loop, i: nat)
    requires i < |a.kids| && a.kids[i].res.size != 0 && a.bridge.limit <= a.kids[i].res.limit
    requires Slot(a.base, a.kids[i].res) + a.kids[i].res.size <= a.bridge.limit + 1
    ensures var r := a.kids[i].res;
      AllocateStep(a, i) == Loop(
        SetRes(a.kids, i, r.(base := Slot(a.base, r), limit := a.bridge.limit, isAssigned := true, isStored := false)),
        (Slot(a.base, r) + r.size) % WORD, a.bridge)
  {
    var r := a.kids[i].res.(limit := a.bridge.limit);
    PlaceExact(a.base, r);
    FitsExact(Slot(a.base, r), r);
  }

  // The walk of pass 2 at b stands where the walk of pass 1 stood at `anchor`.
  lemma PlaceShift(x: address, at: address, q: Res, anchor: nat, b: nat, align: nat, limit: address)
    requires anchor <= x && Multiple(anchor, align) && Multiple(b, align) && at == (b + (x - anchor)) % WORD
    requires Movable(q, align, limit, anchor, b) && q.size != 0
    requires b + (Slot(x, q) + q.size - anchor) <= limit + 1
    ensures anchor <= Slot(x, q)
    ensures Slot(at, q) == b + (Slot(x, q) - anchor)
  {
    SlotBounds(x, q);
    SlotShift(x, q, anchor, b, align);
    SmallMod(b + (x - anchor), WORD);
  }

  lemma AllocateStepShift(s: Loop, a: Loop, anchor: nat, b: nat, align: nat, ord: seq<nat>)
    requires ord != [] && InRange(ord, |s.kids|) && InStep(s, a, anchor, b, align, ord)
    ensures var n, m := AllocateStep(a, ord[0]), ComputeStep(s, ord[0]);
      && n == Loop(SetRes(a.kids, ord[0], n.kids[ord[0]].res), n.base, a.bridge)
      && Moved(a.kids[ord[0]].res, n.kids[ord[0]].res, m.kids[ord[0]].res.base, anchor, b, a.bridge.limit)
      && anchor <= m.base
      && n.base == (b + (m.base - anchor)) % WORD
      && m.base == (if a.kids[ord[0]].res.size == 0 then s.base
                    else Slot(s.base, s.kids[ord[0]].res) + s.kids[ord[0]].res.size)
  {
    var i := ord[0];
    var q, r := s.kids[i].res, a.kids[i].res;
    assert Movable(r, align, a.bridge.limit, anchor, b);
    if r.size != 0 {
      EndBound(s.kids, ord[1..], Slot(s.base, q) + q.size);
      PlaceShift(s.base, a.base, r, anchor, b, align, a.bridge.limit);
      ComputeStepExact(s, i);
      AllocateStepExact(a, i);
    }
  }

  lemma FitsExact(at: address, r: Res)
    requires r.size != 0 && at + r.size <= WORD
    ensures Fits(at, r) <==> at + r.size - 1 <= r.limit
  {
  }

  lemma StaysInStep(s: Loop, a: Loop, anchor: nat, b: nat, align: nat, ord: seq<nat>)
    requires ord != [] && InRange(ord, |s.kids|) && Distinct(ord) && InStep(s, a, anchor, b, align, ord)
    ensures var n, m := AllocateStep(a, ord[0]), ComputeStep(s, ord[0]);
      && InStep(m, n, anchor, b, align, ord[1..]) && n.bridge == a.bridge
      && n.kids == SetRes(a.kids, ord[0], n.kids[ord[0]].res)
      && Moved(a.kids[ord[0]].res, n.kids[ord[0]].res, m.kids[ord[0]].res.base, anchor, b, a.bridge.limit)
  {
    var i, rest := ord[0], ord[1..];
    var m, n := ComputeStep(s, i), AllocateStep(a, i);
    AllocateStepShift(s, a, anchor, b, align, ord);
    EndSame(s.kids, m.kids, rest, m.base);
    forall k | 0 <= k < |rest|
      ensures rest[k] != i && Movable(n.kids[rest[k]].res, align, n.bridge.limit, anchor, b)
    {
      assert rest[k] == ord[k + 1];
      assert Movable(a.kids[ord[k + 1]].res, align, a.bridge.limit, anchor, b);
    }
  }

  lemma {:induction false} AllocateLoopShift(s: Loop, a: Loop, anchor: nat, b: nat, align: nat, ord: seq<nat>)
    requires InRange(ord, |s.kids|) && Distinct(ord) && InStep(s, a, anchor, b, align, ord)
    ensures var r, c := AllocateLoop(a, ord), ComputeLoop(s, ord);
      forall k :: 0 <= k < |ord| ==>
        Moved(a.kids[ord[k]].res, r.kids[ord[k]].res, c.kids[ord[k]].res.base, anchor, b, a.bridge.limit)
    decreases |ord|
  {
    if ord != [] {
      var i, rest := ord[0], ord[1..];
      var m, n := ComputeStep(s, i), AllocateStep(a, i);
      StaysInStep(s, a, anchor, b, align, ord);
      AllocateLoopShift(m, n, anchor, b, align, rest);
      AllocateLoopKids(n, rest);
      ComputeLoopKids(m, rest);
      assert forall k :: 1 <= k < |ord| ==> ord[k] == rest[k - 1];
    }
  }

  // ------------------------------------------------------------------ the start of a window

  // Pass 1 starts from the bridge base rounded with the bridge's own alignment, but measures the
  // size from the base rounded with the raised alignment.  The first resource placed has the
  // largest alignment, so starting from there makes no difference.
  lemma {:induction false} FirstPlacement(s: Loop, anchor: address, ord: seq<nat>, align: nat)
    requires InRange(ord, |s.kids|) && S.Sorted(Keys(s.kids), ord)
    requires forall k :: 0 <= k < |ord| && s.kids[ord[k]].res.size != 0 ==> s.kids[ord[k]].res.align <= align
    requires exists k :: 0 <= k < |ord| && s.kids[ord[k]].res.size != 0 && s.kids[ord[k]].res.align == align
    requires forall k :: 0 <= k < |ord| && s.kids[ord[k]].res.align == align ==>
      Slot(s.base, s.kids[ord[k]].res) == Slot(anchor, s.kids[ord[k]].res)
    requires End(s.kids, ord, s.base) < WORD
    ensures ComputeLoop(s, ord) == ComputeLoop(s.(base := anchor), ord)
    ensures End(s.kids, ord, anchor) == End(s.kids, ord, s.base)
    decreases |ord|
  {
    var k :| 0 <= k < |ord| && s.kids[ord[k]].res.size != 0 && s.kids[ord[k]].res.align == align;
    var q, rest := s.kids[ord[0]].res, ord[1..];
    if q.size == 0 {
      assert rest[k - 1] == ord[k];
      assert forall j :: 0 <= j < |rest| ==> rest[j] == ord[j + 1];
      FirstPlacement(s, anchor, rest, align);
    } else {
      if k != 0 {
        assert S.Before(Keys(s.kids), ord[0], ord[k]);
      }
      assert q.align == align;
      EndBound(s.kids, rest, Slot(s.base, q) + q.size);
      SameSlotSameStep(s, anchor, ord[0]);
    }
  }

  lemma SameSlotSameStep(s: Loop, anchor: address, i: nat)
    requires i < |s.kids| && s.kids[i].res.size != 0 && Slot(s.base, s.kids[i].res) < WORD
    requires Slot(s.base, s.kids[i].res) == Slot(anchor, s.kids[i].res)
    ensures ComputeStep(s, i) == ComputeStep(s.(base := anchor), i)
  {
    PlaceExact(s.base, s.kids[i].res);
    PlaceExact(anchor, s.kids[i].res);
  }

  // The address from which pass 1 measures the size of window t.
  ghost function Anchor(t: Tree): nat {
    RoundUp(t.res.base, ComputeRun(t).bridge.align)
  }

  ghost function Walk(t: Tree): (o: seq<nat>)
    ensures InRange(o, |t.kids|)
  {
    S.Order(Keys(ComputeKids(t.kids)))
  }

  // The unwrapped end of pass 1 on the bus behind t.
  ghost function RunEnd(t: Tree): nat {
    End(ComputeKids(t.kids), Walk(t), RoundUp(t.res.base, t.res.align))
  }

  ghost predicate HasIo(t: Tree) {
    exists i :: 0 <= i < |t.kids| && t.kids[i].listed && t.kids[i].res.io
  }

  // No 64-bit sum of pass 1 wraps on the bus behind t, and an I/O bus starts on a 1 KiB boundary.
  ghost predicate Sound(t: Tree) {
    && RoundUp(RunEnd(t), t.res.gran) < WORD
    && (HasIo(t) ==> RoundUp(t.res.base, t.res.align) % 0x400 == 0)
  }

  lemma WalkFacts(t: Tree)
    ensures Distinct(Walk(t)) && S.Sorted(Keys(ComputeKids(t.kids)), Walk(t))
    ensures forall i :: 0 <= i < |t.kids| ==> (i in Walk(t) <==> t.kids[i].listed)
    ensures forall i :: 0 <= i < |t.kids| ==> ComputeKids(t.kids)[i].listed == t.kids[i].listed
    ensures forall i :: 0 <= i < |t.kids| ==> ComputeKids(t.kids)[i].res.io == t.kids[i].res.io
  {
    var keys := Keys(ComputeKids(t.kids));
    forall i | 0 <= i < |t.kids|
      ensures ComputeKids(t.kids)[i].listed == t.kids[i].listed
      ensures ComputeKids(t.kids)[i].res.io == t.kids[i].res.io
    {
      if t.kids[i].window {
        ComputeKeeps(t.kids[i]);
      }
    }
    S.OrderAfterSpec(keys, None);
    S.OrderIsSortedPermutation(keys);
  }

  // Pass 1 leaves everything of a window but base, size, alignment and limit as it was.
  lemma ComputeKeeps(t: Tree)
    ensures var r := Compute(t);
      && r.listed == t.listed && r.window == t.window && |r.kids| == |t.kids|
      && r.res == t.res.(size := r.res.size, align := r.res.align, limit := r.res.limit)
      && r.res.align >= t.res.align && r.res.limit <= t.res.limit
  {
    var kids := ComputeKids(t.kids);
    S.OrderAfterSpec(Keys(kids), None);
    S.OrderIsSortedPermutation(Keys(kids));
    ComputeLoopBridge(Loop(kids, Round(t.res.base, t.res.align), t.res), S.Order(Keys(kids)));
  }

  lemma BeginKib(x: nat, r: Res)
    requires r.io ==> x % 0x400 == 0
    ensures Begin(x, r) == x
  {
  }

  // The anchor is where a resource of the raised alignment goes first.
  lemma AnchorSlot(raw: nat, own: nat, r: Res)
    requires own <= r.align
    requires r.io ==> RoundUp(raw, own) % 0x400 == 0
    ensures Slot(RoundUp(raw, own), r) == RoundUp(raw, r.align)
    ensures Slot(RoundUp(raw, r.align), r) == RoundUp(raw, r.align)
    ensures r.io ==> RoundUp(raw, r.align) % 0x400 == 0
  {
    RoundUpTwice(raw, own, r.align);
    RoundUpBounds(raw, r.align);
    RoundUpFixed(RoundUp(raw, r.align), r.align);
    if r.io {
      AnchorKib(raw, own, r.align);
    }
    BeginKib(RoundUp(raw, own), r);
    BeginKib(RoundUp(raw, r.align), r);
  }

  lemma AnchorKib(raw: nat, own: nat, align: nat)
    requires own <= align && RoundUp(raw, own) % 0x400 == 0
    ensures RoundUp(raw, align) % 0x400 == 0
  {
    if align >= 10 {
      RoundUpBounds(raw, align);
      KibFromMultiple(RoundUp(raw, align), align);
    } else {
      MultipleFromKib(RoundUp(raw, own), align);
      RoundUpFixed(RoundUp(raw, own), align);
      RoundUpTwice(raw, own, align);
    }
  }

  lemma {:induction false} FirstInRange(kids: seq<Tree>, ord: seq<nat>, base: nat, anchor: nat, align: nat)
    requires InRange(ord, |kids|)
    requires exists k :: 0 <= k < |ord| && kids[ord[k]].res.size != 0 && kids[ord[k]].res.align == align
    requires anchor == RoundUp(base, align)
    ensures anchor <= End(kids, ord, base)
    decreases |ord|
  {
    var k :| 0 <= k < |ord| && kids[ord[k]].res.size != 0 && kids[ord[k]].res.align == align;
    var q, rest := kids[ord[0]].res, ord[1..];
    var next := if q.size == 0 then base else Slot(base, q) + q.size;
    SlotBounds(base, q);
    if k == 0 {
      RoundUpMonotone(base, Begin(base, q), align);
      EndBound(kids, rest, next);
    } else {
      assert rest[k - 1] == ord[k];
      RoundUpMonotone(base, next, align);
      FirstInRange(kids, rest, next, RoundUp(next, align), align);
    }
  }

  lemma RaisedLoop(s: Loop, raw: nat, ord: seq<nat>) returns (anchor: nat)
    requires InRange(ord, |s.kids|) && Distinct(ord) && S.Sorted(Keys(s.kids), ord)
    requires s.base == RoundUp(raw, s.bridge.align) && End(s.kids, ord, s.base) < WORD
    requires forall k :: 0 <= k < |ord| && s.kids[ord[k]].res.io ==> s.base % 0x400 == 0
    requires ComputeLoop(s, ord).bridge.align != s.bridge.align
    ensures anchor == RoundUp(raw, ComputeLoop(s, ord).bridge.align) <= End(s.kids, ord, s.base)
    ensures ComputeLoop(s, ord) == ComputeLoop(s.(base := anchor), ord)
    ensures End(s.kids, ord, s.base) == End(s.kids, ord, anchor)
  {
    ComputeLoopBridge(s, ord);
    var br := ComputeLoop(s, ord).bridge;
    var k :| 0 <= k < |ord| && Largest(br, s.kids[ord[k]].res);
    anchor := RoundUp(raw, br.align);
    RoundUpTwice(raw, s.bridge.align, br.align);
    FirstInRange(s.kids, ord, s.base, anchor, br.align);
    forall j | 0 <= j < |ord|
      ensures s.kids[ord[j]].res.size != 0 ==> s.kids[ord[j]].res.align <= br.align
      ensures s.kids[ord[j]].res.align == br.align ==> Slot(s.base, s.kids[ord[j]].res) == Slot(anchor, s.kids[ord[j]].res)
    {
      assert Covers(br, s.kids[ord[j]].res);
      if s.kids[ord[j]].res.align == br.align {
        AnchorSlot(raw, s.bridge.align, s.kids[ord[j]].res);
      }
    }
    FirstPlacement(s, anchor, ord, br.align);
  }

  // Pass 1 on one bus, with the walk started at the anchor.
  lemma RunFromAnchor(t: Tree)
    requires Sound(t)
    ensures Anchor(t) <= RunEnd(t) < WORD
    ensures ComputeRun(t) == ComputeLoop(Loop(ComputeKids(t.kids), Anchor(t), t.res), Walk(t))
    ensures RunEnd(t) == End(ComputeKids(t.kids), Walk(t), Anchor(t))
    ensures HasIo(t) ==> Anchor(t) % 0x400 == 0
  {
    var kids, ord := ComputeKids(t.kids), Walk(t);
    var base := RoundUp(t.res.base, t.res.align);
    WalkFacts(t);
    EndBound(kids, ord, base);
    RoundUpBounds(RunEnd(t), t.res.gran);
    RoundExact(t.res.base, t.res.align);
    var s := Loop(kids, base, t.res);
    if ComputeRun(t).bridge.align != t.res.align {
      forall k | 0 <= k < |ord| && kids[ord[k]].res.io ensures base % 0x400 == 0 {
        assert ord[k] in ord;
      }
      var anchor := RaisedLoop(s, t.res.base, ord);
      if HasIo(t) {
        ComputeLoopBridge(s, ord);
        AnchorKib(t.res.base, t.res.align, ComputeRun(t).bridge.align);
      }
    }
  }

  // ------------------------------------------------------------------ one window, both passes

  // The outcome of pass 1 for a window: `kids` are the resources behind it with the windows among
  // them computed, `ord` is the walk, [anchor, end) is the range the walk filled.
  datatype Plan = Plan(kids: seq<Tree>, ord: seq<nat>, anchor: address, end: address)

  ghost predicate Planned(t0: Tree, t1: Tree, p: Plan) {
    && |p.kids| == |t0.kids| == |t1.kids| && InRange(p.ord, |p.kids|) && Distinct(p.ord)
    && (forall i :: 0 <= i < |t0.kids| ==> (i in p.ord <==> t0.kids[i].listed))
    && (forall i :: 0 <= i < |t0.kids| ==> p.kids[i].listed == t0.kids[i].listed && p.kids[i].res.io == t0.kids[i].res.io)
    && p.ord == S.Order(Keys(p.kids))
    && t1.kids == ComputeLoop(Loop(p.kids, p.anchor, t0.res), p.ord).kids
    && p.end == End(p.kids, p.ord, p.anchor) && p.anchor <= p.end <= p.anchor + t1.res.size
    && Rebased(p.kids, t1.kids, p.ord)
    && Packed(t1.kids, p.ord, p.anchor, p.end)
    && (forall k :: 0 <= k < |p.ord| ==> Covers(t1.res, p.kids[p.ord[k]].res))
    && Multiple(p.anchor, t1.res.align)
    && (HasIo(t0) ==> p.anchor % 0x400 == 0)
  }

  ghost function PlanOf(t: Tree): Plan
    requires Sound(t)
  {
    RunFromAnchor(t);
    Plan(ComputeKids(t.kids), Walk(t), Anchor(t), RunEnd(t))
  }

  // The size computed from the ends of the walk.
  lemma SizeExact(r: Loop, anchor: nat)
    requires RoundUp(r.bridge.base, r.bridge.align) == anchor <= r.base
    requires RoundUp(r.base, r.bridge.gran) < WORD
    ensures ComputeSize(r) == RoundUp(r.base, r.bridge.gran) - anchor
    ensures r.base - anchor <= ComputeSize(r)
  {
    RoundUpBounds(r.base, r.bridge.gran);
    RoundExact(r.base, r.bridge.gran);
    RoundExact(r.bridge.base, r.bridge.align);
    SmallMod(RoundUp(r.base, r.bridge.gran) - anchor, WORD);
  }

  lemma LoopOutcome(s: Loop, ord: seq<nat>, r: Loop)
    requires InRange(ord, |s.kids|) && Distinct(ord) && r == ComputeLoop(s, ord)
    requires End(s.kids, ord, s.base) < WORD
    ensures r.base == End(s.kids, ord, s.base)
    ensures Rebased(s.kids, r.kids, ord) && Packed(r.kids, ord, s.base, r.base)
    ensures forall k :: 0 <= k < |ord| ==> Covers(r.bridge, s.kids[ord[k]].res)
    ensures r.bridge == s.bridge.(align := r.bridge.align, limit := r.bridge.limit)
  {
    ComputeLoopPacks(s, ord);
    ComputeLoopBridge(s, ord);
    ComputeLoopKids(s, ord);
  }

  lemma PlanOutcome(t: Tree, p: Plan, r: Loop)
    requires Sound(t) && p == PlanOf(t) && r == ComputeRun(t)
    ensures r == ComputeLoop(Loop(p.kids, p.anchor, t.res), p.ord)
    ensures r.base == p.end && p.end == End(p.kids, p.ord, p.anchor) && p.anchor <= p.end
    ensures Distinct(p.ord) && p.ord == S.Order(Keys(p.kids))
    ensures Rebased(p.kids, r.kids, p.ord) && Packed(r.kids, p.ord, p.anchor, p.end)
    ensures forall k :: 0 <= k < |p.ord| ==> Covers(r.bridge, p.kids[p.ord[k]].res)
    ensures RoundUp(r.bridge.base, r.bridge.align) == p.anchor
    ensures RoundUp(r.base, r.bridge.gran) < WORD
    ensures r.bridge == t.res.(align := r.bridge.align, limit := r.bridge.limit)
  {
    RunFromAnchor(t);
    WalkFacts(t);
    LoopOutcome(Loop(p.kids, p.anchor, t.res), p.ord, r);
  }

  lemma PlanMade(t: Tree)
    requires Sound(t)
    ensures Planned(t, Compute(t), PlanOf(t))
  {
    var p, r := PlanOf(t), ComputeRun(t);
    PlanOutcome(t, p, r);
    SizeExact(r, p.anchor);
    RunFromAnchor(t);
    RoundUpBounds(t.res.base, r.bridge.align);
    WalkFacts(t);
    PlanAssembled(t, r, p);
  }

  lemma PlanAssembled(t: Tree, r: Loop, p: Plan)
    requires |r.kids| == |t.kids| == |p.kids| && InRange(p.ord, |p.kids|) && Distinct(p.ord)
    requires forall i :: 0 <= i < |t.kids| ==> (i in p.ord <==> t.kids[i].listed)
    requires forall i :: 0 <= i < |t.kids| ==> p.kids[i].listed == t.kids[i].listed && p.kids[i].res.io == t.kids[i].res.io
    requires p.ord == S.Order(Keys(p.kids))
    requires r.kids == ComputeLoop(Loop(p.kids, p.anchor, t.res), p.ord).kids
    requires p.end == End(p.kids, p.ord, p.anchor) && p.anchor <= p.end <= p.anchor + ComputeSize(r)
    requires Rebased(p.kids, r.kids, p.ord) && Packed(r.kids, p.ord, p.anchor, p.end)
    requires forall k :: 0 <= k < |p.ord| ==> Covers(r.bridge, p.kids[p.ord[k]].res)
    requires Multiple(p.anchor, r.bridge.align) && (HasIo(t) ==> p.anchor % 0x400 == 0)
    ensures Planned(t, t.(kids := r.kids, res := r.bridge.(size := ComputeSize(r))), p)
  {
    var t1 := t.(kids := r.kids, res := r.bridge.(size := ComputeSize(r)));
    forall k | 0 <= k < |p.ord| ensures Covers(t1.res, p.kids[p.ord[k]].res) {
      assert Covers(r.bridge, p.kids[p.ord[k]].res);
    }
  }

  // A window after pass 1 (t1), given an address range that is large enough and aligned (t).
  ghost predicate Granted(t0: Tree, t1: Tree, t: Tree) {
    && t == t1.(res := t.res)
    && t.res.size == t1.res.size && t.res.align == t1.res.align && t.res.limit <= t1.res.limit
    && Multiple(t.res.base, t.res.align)
    && t.res.base + t.res.size <= t.res.limit + 1
    && (HasIo(t0) ==> t.res.base % 0x400 == 0)
  }

  lemma BeginsInStep(t0: Tree, t1: Tree, t: Tree, p: Plan)
    requires Planned(t0, t1, p) && Granted(t0, t1, t)
    ensures InStep(Loop(p.kids, p.anchor, t0.res), Loop(t.kids, t.res.base, t.res), p.anchor, t.res.base, t.res.align, p.ord)
  {
    SmallMod(t.res.base, WORD);
    forall k | 0 <= k < |p.ord|
      ensures Movable(t.kids[p.ord[k]].res, t.res.align, t.res.limit, p.anchor, t.res.base)
    {
      assert p.ord[k] in p.ord && Covers(t1.res, p.kids[p.ord[k]].res);
    }
  }

  /** Behind a granted window every listed resource ends up at its pass 1 offset. */
  lemma WindowMoves(t0: Tree, t1: Tree, t: Tree, p: Plan)
    requires Planned(t0, t1, p) && Granted(t0, t1, t)
    ensures forall i :: 0 <= i < |t.kids| && t.kids[i].listed ==>
      Moved(t.kids[i].res, AllocateRun(t).kids[i].res, t.kids[i].res.base, p.anchor, t.res.base, t.res.limit)
  {
    assert Keys(t.kids) == Keys(p.kids);
    var s, a := Loop(p.kids, p.anchor, t0.res), Loop(t.kids, t.res.base, t.res);
    BeginsInStep(t0, t1, t, p);
    AllocateLoopShift(s, a, p.anchor, t.res.base, t.res.align, p.ord);
    forall i | 0 <= i < |t.kids| && t.kids[i].listed
      ensures Moved(t.kids[i].res, AllocateRun(t).kids[i].res, t.kids[i].res.base, p.anchor, t.res.base, t.res.limit)
    {
      assert i in p.ord;
      var k :| 0 <= k < |p.ord| && p.ord[k] == i;
    }
  }

  // ------------------------------------------------------------------ whole trees

  // What the theorem asks of the tree before pass 1: at no level does a 64-bit sum wrap, and I/O
  // windows below the top have at least the 1 KiB alignment of the legacy alias period (PCI bridges
  // have 4 KiB).
  ghost predicate Ready(t: Tree)
    decreases t
  {
    && Sound(t)
    && forall i :: 0 <= i < |t.kids| && t.kids[i].listed && t.kids[i].window ==>
         Ready(t.kids[i]) && (HasIo(t.kids[i]) ==> t.kids[i].res.align >= 10)
  }

  // A resource that needs space has been given some: aligned, inside its window, within its limit.
  ghost predicate PlacedIn(w: Res, r: Res) {
    && r.isAssigned
    && (r.size == 0 ==> r.base == r.limit)
    && (r.size != 0 ==>
          && !r.isStored
          && Multiple(r.base, r.align)
          && w.base <= r.base && r.base + r.size <= w.base + w.size
          && r.base + r.size - 1 <= r.limit <= w.limit)
  }

  ghost predicate Placed(t: Tree)
    decreases t
  {
    && (forall i :: 0 <= i < |t.kids| && t.kids[i].listed ==>
          PlacedIn(t.res, t.kids[i].res) && (t.kids[i].window && t.kids[i].res.size != 0 ==> Placed(t.kids[i])))
    && (forall i, j :: 0 <= i < |t.kids| && 0 <= j < |t.kids| && i != j && t.kids[i].listed && t.kids[j].listed ==>
          Apart(t.kids[i].res, t.kids[j].res))
  }

  // Pass 2 reproduces the offsets of pass 1 at every level: `t0` is the tree before both passes,
  // `t` the tree after them.
  ghost predicate Reproduces(t0: Tree, t: Tree)
    decreases t0
  {
    && Sound(t0) && |t.kids| == |t0.kids|
    && forall i :: 0 <= i < |t.kids| && t0.kids[i].listed && t.kids[i].res.size != 0 ==>
         && t.kids[i].res.base == t.res.base + Compute(t0).kids[i].res.base - PlanOf(t0).anchor
         && (t0.kids[i].window ==> Reproduces(t0.kids[i], t.kids[i]))
  }

  lemma MovedIsPlaced(w: Res, q: Res, r: Res, anchor: nat, end: nat)
    requires Moved(q, r, q.base, anchor, w.base, w.limit)
    requires Inside(q, anchor, end) && Covers(w, q)
    requires end - anchor <= w.size && w.base + w.size <= w.limit + 1
    requires Multiple(anchor, w.align) && Multiple(w.base, w.align)
    ensures PlacedIn(w, r)
  {
    if q.size != 0 {
      MultipleWeaken(anchor, q.align, w.align);
      MultipleWeaken(w.base, q.align, w.align);
      MultipleDiff(q.base, anchor, q.align);
      MultipleSum(w.base, q.base - anchor, q.align);
    }
  }

  lemma PackedPair(kids: seq<Tree>, ord: seq<nat>, from: nat, to: nat, i: nat, j: nat)
    requires InRange(ord, |kids|) && Packed(kids, ord, from, to) && i in ord && j in ord && i != j
    ensures Apart(kids[i].res, kids[j].res)
    ensures Inside(kids[i].res, from, to) && Inside(kids[j].res, from, to)
  {
    var a :| 0 <= a < |ord| && ord[a] == i;
    var b :| 0 <= b < |ord| && ord[b] == j;
    if a < b {
      assert Apart(kids[ord[a]].res, kids[ord[b]].res);
    } else {
      assert Apart(kids[ord[b]].res, kids[ord[a]].res);
    }
  }

  // What WindowMoves means for the resources of the window.
  lemma WindowPlaced(t0: Tree, t1: Tree, t: Tree, p: Plan, r: Loop)
    requires Planned(t0, t1, p) && Granted(t0, t1, t) && r == AllocateRun(t)
    ensures forall i :: 0 <= i < |t.kids| && t0.kids[i].listed ==> PlacedIn(t.res, r.kids[i].res)
  {
    WindowMoves(t0, t1, t, p);
    forall i | 0 <= i < |t.kids| && t0.kids[i].listed ensures PlacedIn(t.res, r.kids[i].res) {
      assert i in p.ord && t.kids[i].listed;
      var k :| 0 <= k < |p.ord| && p.ord[k] == i;
      assert Inside(t.kids[p.ord[k]].res, p.anchor, p.end) && Covers(t1.res, p.kids[p.ord[k]].res);
      MovedIsPlaced(t.res, t.kids[i].res, r.kids[i].res, p.anchor, p.end);
    }
  }

  lemma WindowApart(t0: Tree, t1: Tree, t: Tree, p: Plan, r: Loop)
    requires Planned(t0, t1, p) && Granted(t0, t1, t) && r == AllocateRun(t)
    ensures forall i, j :: 0 <= i < |t.kids| && 0 <= j < |t.kids| && i != j && t0.kids[i].listed && t0.kids[j].listed ==>
      Apart(r.kids[i].res, r.kids[j].res)
  {
    WindowMoves(t0, t1, t, p);
    forall i, j | 0 <= i < |t.kids| && 0 <= j < |t.kids| && i != j && t0.kids[i].listed && t0.kids[j].listed
      ensures Apart(r.kids[i].res, r.kids[j].res)
    {
      assert i in p.ord && j in p.ord && t.kids[i].listed && t.kids[j].listed;
      PackedPair(t.kids, p.ord, p.anchor, p.end, i, j);
    }
  }

  // The outcome of pass 2 behind one resource: `k0` before both passes, `k` when the walk of its bus
  // is over, `k2` in the end.
  ghost predicate KidAgrees(k0: Tree, k: Tree, k2: Tree) {
    && k2.res == k.res && k2.listed && k2.window == k0.window
    && (k0.window && k.res.size != 0 ==> Placed(k2) && Reproduces(k0, k2))
  }

  // A resource of the bus behind window w: k0 before both passes, k1 after pass 1, k after the walk
  // of pass 2 on its bus.
  ghost predicate Walked(k0: Tree, k1: Tree, k: Tree, w: Res) {
    && k0.listed
    && (if k0.window then k1 == Compute(k0).(res := Compute(k0).res.(base := k1.res.base)) else k1.kids == k0.kids)
    && k1.listed && k1.window == k0.window
    && k == k1.(res := k.res)
    && k.res == k1.res.(base := k.res.base, limit := k.res.limit, isAssigned := true, isStored := k.res.isStored)
    && k.res.limit <= k1.res.limit
    && PlacedIn(w, k.res)
  }

  // A window that was placed is granted to the walk behind it.
  lemma KidGranted(k0: Tree, k1: Tree, k: Tree, w: Res)
    requires Walked(k0, k1, k, w) && k0.window && k.res.size != 0
    requires HasIo(k0) ==> k0.res.align >= 10
    ensures Granted(k0, Compute(k0), k)
  {
    ComputeKeeps(k0);
    if HasIo(k0) {
      KibFromMultiple(k.res.base, k.res.align);
    }
  }

  /** Two-pass agreement: when pass 1 has computed window t0 and the window is then given an aligned
      range of the computed size within its limit, pass 2 places every resource at every depth. */
  lemma {:induction false} TwoPassAgreement(t0: Tree, t: Tree)
    requires Ready(t0) && Granted(t0, Compute(t0), t)
    ensures Placed(Allocate(t)) && Reproduces(t0, Allocate(t))
    decreases t0, 1
  {
    var p, r := PlanOf(t0), AllocateRun(t);
    PlanMade(t0);
    WindowPlaced(t0, Compute(t0), t, p, r);
    WindowApart(t0, Compute(t0), t, p, r);
    WindowMoves(t0, Compute(t0), t, p);
    forall i | 0 <= i < |t0.kids| && t0.kids[i].listed
      ensures KidAgrees(t0.kids[i], r.kids[i], Final(r.kids[i]))
    {
      KidWalked(t0, t, p, r, i);
      KidAgreement(t0.kids[i], t.kids[i], r.kids[i], t.res);
    }
    AllocateLoopShape(Loop(t.kids, t.res.base, t.res), S.Order(Keys(t.kids)));
    AgreementAssembled(t0, t, p, r, Allocate(t));
  }

  ghost function Final(k: Tree): Tree {
    if k.window then Allocate(k) else k
  }

  lemma KidWalked(t0: Tree, t: Tree, p: Plan, r: Loop, i: nat)
    requires Sound(t0) && Planned(t0, Compute(t0), p) && p == PlanOf(t0) && t.kids == Compute(t0).kids
    requires r == AllocateRun(t) && i < |t0.kids| && t0.kids[i].listed
    requires PlacedIn(t.res, r.kids[i].res)
    requires Moved(t.kids[i].res, r.kids[i].res, t.kids[i].res.base, p.anchor, t.res.base, t.res.limit)
    ensures Walked(t0.kids[i], t.kids[i], r.kids[i], t.res)
  {
    AllocateLoopShape(Loop(t.kids, t.res.base, t.res), S.Order(Keys(t.kids)));
    assert p.kids[i] == if t0.kids[i].window then Compute(t0.kids[i]) else t0.kids[i];
  }

  lemma {:induction false} KidAgreement(k0: Tree, k1: Tree, k: Tree, w: Res)
    requires Walked(k0, k1, k, w)
    requires k0.window ==> Ready(k0) && (HasIo(k0) ==> k0.res.align >= 10)
    ensures KidAgrees(k0, k, Final(k))
    decreases k0, 2
  {
    if k0.window && k.res.size != 0 {
      KidGranted(k0, k1, k, w);
      TwoPassAgreement(k0, k);
    }
  }

  lemma AgreementAssembled(t0: Tree, t: Tree, p: Plan, r: Loop, out: Tree)
    requires Sound(t0) && p == PlanOf(t0) && |out.kids| == |t0.kids| == |r.kids| == |t.kids|
    requires t.kids == Compute(t0).kids && out.res == t.res.(isAssigned := true)
    requires forall i :: 0 <= i < |t0.kids| ==> out.kids[i] == Final(r.kids[i]) && r.kids[i].listed == t0.kids[i].listed
    requires forall i :: 0 <= i < |t0.kids| && t0.kids[i].listed ==>
      && KidAgrees(t0.kids[i], r.kids[i], Final(r.kids[i]))
      && PlacedIn(t.res, r.kids[i].res)
      && Moved(t.kids[i].res, r.kids[i].res, t.kids[i].res.base, p.anchor, t.res.base, t.res.limit)
    requires forall i, j :: 0 <= i < |t.kids| && 0 <= j < |t.kids| && i != j && t0.kids[i].listed && t0.kids[j].listed ==>
      Apart(r.kids[i].res, r.kids[j].res)
    ensures Placed(out) && Reproduces(t0, out)
  {
  }
}
