/**
  What compute_resources and allocate_resources (src/device/device.c) do to a tree of bridge
  windows, as functions on values.  Allocator.dfy proves that the code on mutable resources
  computes exactly these functions; Layout.dfy proves what they achieve.
 */
module Windows {
  import opened Addresses
  import S = Selection

  // The fields of a struct resource that the two passes read or write.
  datatype Res = Res(base: address, size: address, limit: address, align: shift, gran: shift,
                     io: bool, isAssigned: bool, isStored: bool)

  // A resource that matches the type being allocated.  `listed`: it takes part in the allocation
  // of its bus (enabled device, not fixed).  `window`: it is a bridge resource and `kids` are the
  // matching resources behind the bridge.
  datatype Tree = Tree(res: Res, listed: bool, window: bool, kids: seq<Tree>)

  function KeyOf(t: Tree): S.Key {
    S.Key(t.listed, t.res.align, t.res.size)
  }

  function Keys(kids: seq<Tree>): (k: seq<S.Key>)
    ensures |k| == |kids|
  {
    seq(|kids|, i requires 0 <= i < |kids| => KeyOf(kids[i]))
  }

  // Keep I/O resources out of the ranges that legacy cards alias.
  function SkipLegacy(base: address): address {
    if (base / 0x100) % 4 != 0 then Add(base - base % 0x400, 0x400)
    else if 0x3b0 <= base <= 0x3df then 0x3e0
    else base
  }

  function Start(base: address, r: Res): address {
    if r.io then SkipLegacy(base) else base
  }

  // The state of the loop in either pass: the resources of the bus, the running base and the
  // bridge resource.
  datatype Loop = Loop(kids: seq<Tree>, base: address, bridge: Res)

  function SetRes(kids: seq<Tree>, i: nat, r: Res): (k: seq<Tree>)
    requires i < |kids|
    ensures |k| == |kids|
  {
    kids[i := kids[i].(res := r)]
  }

  // ------------------------------------------------------------------ pass 1: compute_resources

  function ComputeStep(s: Loop, i: nat): (r: Loop)
    requires i < |s.kids|
    ensures |r.kids| == |s.kids|
  {
    var r := s.kids[i].res;
    if r.size == 0 then s
    else
      var br := s.bridge.(align := if r.align > s.bridge.align then r.align else s.bridge.align,
                          limit := if s.bridge.limit > r.limit then r.limit else s.bridge.limit);
      var at := Round(Start(s.base, r), r.align);
      Loop(SetRes(s.kids, i, r.(base := at)), Add(at, r.size), br)
  }

  ghost predicate InRange(ord: seq<nat>, n: nat) {
    forall k :: 0 <= k < |ord| ==> ord[k] < n
  }

  ghost function ComputeLoop(s: Loop, ord: seq<nat>): (r: Loop)
    requires InRange(ord, |s.kids|)
    ensures |r.kids| == |s.kids|
    decreases |ord|
  {
    if ord == [] then s else ComputeLoop(ComputeStep(s, ord[0]), ord[1..])
  }

  function ComputeSize(s: Loop): address {
    Sub(Round(s.base, s.bridge.gran), Round(s.bridge.base, s.bridge.align))
  }

  ghost function ComputeKids(kids: seq<Tree>): (r: seq<Tree>)
    ensures |r| == |kids|
    ensures forall i :: 0 <= i < |kids| ==> r[i] == if kids[i].window then Compute(kids[i]) else kids[i]
    decreases kids, 0
  {
    if kids == [] then []
    else [if kids[0].window then Compute(kids[0]) else kids[0]] + ComputeKids(kids[1..])
  }

  // The loop of compute_resources on window t, the windows behind it having been computed.
  ghost function ComputeRun(t: Tree): (r: Loop)
    ensures |r.kids| == |t.kids|
    decreases t, 0
  {
    var kids := ComputeKids(t.kids);
    ComputeLoop(Loop(kids, Round(t.res.base, t.res.align), t.res), S.Order(Keys(kids)))
  }

  ghost function Compute(t: Tree): Tree
    decreases t, 1
  {
    var r := ComputeRun(t);
    t.(kids := r.kids, res := r.bridge.(size := ComputeSize(r)))
  }

  // ------------------------------------------------------------------ pass 2: allocate_resources

  predicate Fits(at: address, r: Res) {
    Sub(Add(at, r.size), 1) <= r.limit
  }

  function AllocateStep(s: Loop, i: nat): (r: Loop)
    requires i < |s.kids|
    ensures |r.kids| == |s.kids|
  {
    var was := s.kids[i].res;
    var r := was.(limit := if was.limit > s.bridge.limit then s.bridge.limit else was.limit);
    if r.size == 0 then
      s.(kids := SetRes(s.kids, i, r.(base := r.limit, isAssigned := true)))
    else
      var base := Start(s.base, r);
      var at := Round(base, r.align);
      if Fits(at, r) then
        Loop(SetRes(s.kids, i, r.(base := at, isAssigned := true, isStored := false)), Add(at, r.size), s.bridge)
      else
        s.(kids := SetRes(s.kids, i, r), base := base)
  }

  ghost function AllocateLoop(s: Loop, ord: seq<nat>): (r: Loop)
    requires InRange(ord, |s.kids|)
    ensures |r.kids| == |s.kids|
    decreases |ord|
  {
    if ord == [] then s else AllocateLoop(AllocateStep(s, ord[0]), ord[1..])
  }

  ghost function AllocateRun(t: Tree): (r: Loop)
    ensures |r.kids| == |t.kids|
  {
    AllocateLoop(Loop(t.kids, t.res.base, t.res), S.Order(Keys(t.kids)))
  }

  // AllocateLoop changes no resource list, so the tree below keeps its shape.
  ghost function Height(t: Tree): nat
    decreases t, 0
  {
    1 + HeightSeq(t.kids)
  }

  ghost function HeightSeq(kids: seq<Tree>): (h: nat)
    ensures forall i :: 0 <= i < |kids| ==> Height(kids[i]) <= h
    decreases kids, 1
  {
    if kids == [] then 0
    else
      var a, b := Height(kids[0]), HeightSeq(kids[1..]);
      if a > b then a else b
  }

  ghost predicate SameShape(a: seq<Tree>, b: seq<Tree>) {
    |a| == |b| && forall i :: 0 <= i < |a| ==> a[i] == b[i].(res := a[i].res)
  }

  lemma {:induction false} AllocateLoopShape(s: Loop, ord: seq<nat>)
    requires InRange(ord, |s.kids|)
    ensures SameShape(AllocateLoop(s, ord).kids, s.kids)
    decreases |ord|
  {
    if ord != [] {
      AllocateLoopShape(AllocateStep(s, ord[0]), ord[1..]);
    }
  }

  lemma SameShapeHeight(a: seq<Tree>, b: seq<Tree>)
    requires SameShape(a, b)
    ensures HeightSeq(a) == HeightSeq(b)
  {
    if a != [] {
      assert Height(a[0]) == Height(b[0]);
      SameShapeHeight(a[1..], b[1..]);
    }
  }

  ghost function AllocateKids(kids: seq<Tree>): (r: seq<Tree>)
    ensures |r| == |kids|
    ensures forall i :: 0 <= i < |kids| ==> r[i] == if kids[i].window then Allocate(kids[i]) else kids[i]
    decreases HeightSeq(kids), 1, |kids|
  {
    if kids == [] then []
    else [if kids[0].window then Allocate(kids[0]) else kids[0]] + AllocateKids(kids[1..])
  }

  ghost function Allocate(t: Tree): Tree
    decreases Height(t), 0, 0
  {
    var r := AllocateRun(t);
    AllocateLoopShape(Loop(t.kids, t.res.base, t.res), S.Order(Keys(t.kids)));
    SameShapeHeight(r.kids, t.kids);
    t.(kids := AllocateKids(r.kids), res := t.res.(isAssigned := true))
  }
}
