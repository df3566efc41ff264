/** Consequences of the two-pass agreement for pairs of resources anywhere in the tree. */
module Placement {
  import opened Addresses
  import opened Windows
  import opened Layout

  // ------------------------------------------------------------------ any two resources

  // `path` leads from window t through windows that need space to a resource that needs space.
  ghost predicate Leads(t: Tree, path: seq<nat>)
    decreases |path|
  {
    path == [] ||
    (&& path[0] < |t.kids| && t.kids[path[0]].listed && t.kids[path[0]].res.size != 0
     && (|path| > 1 ==> t.kids[path[0]].window)
     && Leads(t.kids[path[0]], path[1..]))
  }

  ghost function At(t: Tree, path: seq<nat>): Tree
    requires Leads(t, path)
    decreases |path|
  {
    if path == [] then t else At(t.kids[path[0]], path[1..])
  }

  ghost predicate Within(r: Res, w: Res) {
    w.base <= r.base && r.base + r.size <= w.base + w.size
  }

  /** Every resource lies inside every window above it, aligned, assigned and within its limit. */
  lemma {:induction false} PlacedBelow(t: Tree, path: seq<nat>)
    requires Placed(t) && path != [] && Leads(t, path)
    ensures Within(At(t, path).res, t.res)
    ensures At(t, path).res.isAssigned && Multiple(At(t, path).res.base, At(t, path).res.align)
    ensures At(t, path).res.base + At(t, path).res.size - 1 <= At(t, path).res.limit <= t.res.limit
    decreases |path|
  {
    var k := t.kids[path[0]];
    assert PlacedIn(t.res, k.res);
    if |path| > 1 {
      PlacedBelow(k, path[1..]);
    } else {
      assert At(t, path) == At(k, path[1..]) == k;
    }
  }

  lemma {:induction false} EnclosingWindows(t: Tree, above: seq<nat>, below: seq<nat>)
    requires Placed(t) && Leads(t, above + below) && below != []
    ensures Leads(t, above) && Within(At(t, above + below).res, At(t, above).res)
    decreases |above|
  {
    if above == [] {
      assert above + below == below;
      PlacedBelow(t, below);
    } else {
      assert (above + below)[1..] == above[1..] + below;
      EnclosingWindows(t.kids[above[0]], above[1..], below);
    }
  }

  /** Two resources, neither of which is a window around the other, never overlap. */
  lemma {:induction false} UnrelatedAreApart(t: Tree, p: seq<nat>, q: seq<nat>)
    requires Placed(t) && Leads(t, p) && Leads(t, q)
    requires !(p <= q) && !(q <= p)
    ensures Apart(At(t, p).res, At(t, q).res)
    decreases |p|
  {
    var i, j := p[0], q[0];
    if i == j {
      assert p == [i] + p[1..] && q == [i] + q[1..];
      UnrelatedAreApart(t.kids[i], p[1..], q[1..]);
    } else {
      assert Apart(t.kids[i].res, t.kids[j].res);
      KidHolds(t, p);
      KidHolds(t, q);
    }
  }

  lemma KidHolds(t: Tree, p: seq<nat>)
    requires Placed(t) && p != [] && Leads(t, p)
    ensures Within(At(t, p).res, t.kids[p[0]].res)
  {
    if |p| > 1 {
      PlacedBelow(t.kids[p[0]], p[1..]);
    }
  }

  // ------------------------------------------------------------------ the top of the tree

  // resource_max() of device_util.c
  function ResourceMax(r: Res): address {
    ClearLow(Add(Sub(r.limit, r.size), 1), r.align)
  }

  /** resource_max is the greatest aligned base at which the resource ends within its limit. */
  lemma ResourceMaxIsGreatest(r: Res)
    requires 0 < r.size <= r.limit + 1
    ensures Multiple(ResourceMax(r), r.align) && ResourceMax(r) + r.size <= r.limit + 1
    ensures forall m: nat :: Multiple(m, r.align) && m + r.size <= r.limit + 1 ==> m <= ResourceMax(r)
  {
    SmallMod(r.limit + 1 - r.size, WORD);
    ClearLowBounds(r.limit + 1 - r.size, r.align);
    forall m: nat | Multiple(m, r.align) && m + r.size <= r.limit + 1
      ensures m <= ResourceMax(r)
    {
      ClearLowGreatest(r.limit + 1 - r.size, r.align, m);
    }
  }

  // What dev_configure does to a memory window of a domain between the passes: the limit has been
  // lowered to `limit` by avoid_fixed_resources, the base becomes resource_max.
  ghost function AtTop(t: Tree, limit: address): Tree {
    var r := t.res.(limit := limit);
    t.(res := r.(base := ResourceMax(r)))
  }

  /** For every memory window of a domain: if the computed size does not exceed the space below the
      limit, both passes together place every resource of the tree. */
  lemma MemoryWindowSucceeds(t0: Tree, limit: address)
    requires Ready(t0) && !HasIo(t0)
    requires limit <= Compute(t0).res.limit
    requires 0 < Compute(t0).res.size <= limit + 1
    ensures Placed(Allocate(AtTop(Compute(t0), limit)))
    ensures Reproduces(t0, Allocate(AtTop(Compute(t0), limit)))
  {
    ResourceMaxIsGreatest(Compute(t0).res.(limit := limit));
    TwoPassAgreement(t0, AtTop(Compute(t0), limit));
  }
}
