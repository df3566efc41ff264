/** The change points of a memory map and the order sanitize_e820_map (memsize.c) brings them into. */
module ChangePoints {
  import opened E820

  // An address at which entry number `entry` starts or ends.
  datatype Point = Point(addr: nat, entry: nat)

  function StartOf(m: seq<Entry>, x: nat): Point
    requires x < |m|
  {
    Point(m[x].addr, x)
  }

  function EndOf(m: seq<Entry>, x: nat): Point
    requires x < |m|
  {
    Point(m[x].End(), x)
  }

  predicate IsStart(m: seq<Entry>, p: Point)
    requires p.entry < |m|
  {
    p.addr == m[p.entry].addr
  }

  ghost predicate PointsInto(m: seq<Entry>, ps: seq<Point>) {
    forall k :: 0 <= k < |ps| ==> ps[k].entry < |m|
  }

  // The change points of the first n entries, in the order in which they are recorded.
  ghost function Points(m: seq<Entry>, n: nat): (ps: seq<Point>)
    requires n <= |m|
    ensures |ps| == 2 * n && PointsInto(m, ps)
  {
    if n == 0 then [] else Points(m, n - 1) + [StartOf(m, n - 1), EndOf(m, n - 1)]
  }

  // a must come before b: lower address, or a start and an end at the same address.
  predicate Less(m: seq<Entry>, a: Point, b: Point)
    requires a.entry < |m| && b.entry < |m|
  {
    a.addr < b.addr || (a.addr == b.addr && IsStart(m, a) && !IsStart(m, b))
  }

  ghost predicate Sorted(m: seq<Entry>, ps: seq<Point>) {
    PointsInto(m, ps) && forall i, j :: 0 <= i < j < |ps| ==> !Less(m, ps[j], ps[i])
  }

  // ------------------------------------------------------------------ inversions

  // How many elements of ps must come after x.
  ghost function Above(m: seq<Entry>, ps: seq<Point>, x: Point): nat
    requires PointsInto(m, ps) && x.entry < |m|
  {
    if ps == [] then 0
    else Above(m, ps[..|ps| - 1], x) + (if Less(m, x, ps[|ps| - 1]) then 1 else 0)
  }

  // The number of pairs that stand in the wrong order.
  ghost function Inversions(m: seq<Entry>, ps: seq<Point>): nat
    requires PointsInto(m, ps)
  {
    if ps == [] then 0
    else Inversions(m, ps[..|ps| - 1]) + Above(m, ps[..|ps| - 1], ps[|ps| - 1])
  }

  ghost function Swapped(ps: seq<Point>, i: nat): (r: seq<Point>)
    requires 0 < i < |ps|
    ensures |r| == |ps|
  {
    ps[i := ps[i - 1]][i - 1 := ps[i]]
  }

  lemma {:induction false} AboveSwapped(m: seq<Entry>, ps: seq<Point>, i: nat, x: Point)
    requires PointsInto(m, ps) && 0 < i < |ps| && x.entry < |m|
    ensures Above(m, Swapped(ps, i), x) == Above(m, ps, x)
  {
    var qs, n := Swapped(ps, i), |ps|;
    if i < n - 1 {
      AboveSwapped(m, ps[..n - 1], i, x);
      assert qs[..n - 1] == Swapped(ps[..n - 1], i);
    } else {
      assert qs[..n - 1][..n - 2] == ps[..n - 1][..n - 2];
    }
  }

  /** Swapping two neighbours that stand in the wrong order removes exactly one inversion. */
  lemma {:induction false} SwapRemovesInversion(m: seq<Entry>, ps: seq<Point>, i: nat)
    requires PointsInto(m, ps) && 0 < i < |ps| && Less(m, ps[i], ps[i - 1])
    ensures Inversions(m, Swapped(ps, i)) == Inversions(m, ps) - 1
  {
    var qs, n := Swapped(ps, i), |ps|;
    if i < n - 1 {
      SwapRemovesInversion(m, ps[..n - 1], i);
      assert qs[..n - 1] == Swapped(ps[..n - 1], i);
      AboveSwapped(m, ps[..n - 1], i, ps[n - 1]);
    } else {
      assert qs[..n - 1][..n - 2] == ps[..n - 1][..n - 2];
    }
  }

  lemma SwapKeepsMultiset(ps: seq<Point>, i: nat)
    requires 0 < i < |ps|
    ensures multiset(Swapped(ps, i)) == multiset(ps)
  {
  }

  lemma {:induction false} SortedFromNeighbours(m: seq<Entry>, ps: seq<Point>, i: nat, j: nat)
    requires PointsInto(m, ps) && i < j < |ps|
    requires forall k :: 0 < k < |ps| ==> !Less(m, ps[k], ps[k - 1])
    ensures !Less(m, ps[j], ps[i])
    decreases j - i
  {
    assert !Less(m, ps[j], ps[j - 1]);
    if i < j - 1 {
      SortedFromNeighbours(m, ps, i, j - 1);
    }
  }

  // Two neighbouring change points change places.
  method SwapNeighbours(cp: array<Point>, i: nat)
    requires 0 < i < cp.Length
    modifies cp
    ensures cp[..] == Swapped(old(cp[..]), i)
  {
    cp[i], cp[i - 1] := cp[i - 1], cp[i];
  }

  // No two neighbours among the first n points stand in the wrong order.
  ghost predicate InOrder(m: seq<Entry>, ps: seq<Point>, n: nat) {
    PointsInto(m, ps) && forall k :: 0 < k < n && k < |ps| ==> !Less(m, ps[k], ps[k - 1])
  }

  lemma SortedWhenInOrder(m: seq<Entry>, ps: seq<Point>)
    requires InOrder(m, ps, |ps|)
    ensures Sorted(m, ps)
  {
    forall i, j | 0 <= i < j < |ps| ensures !Less(m, ps[j], ps[i]) {
      SortedFromNeighbours(m, ps, i, j);
    }
  }

  // One pass of the bubble sort.
  method SortPass(m: seq<Entry>, cp: array<Point>) returns (changed: bool)
    requires PointsInto(m, cp[..])
    modifies cp
    ensures PointsInto(m, cp[..]) && multiset(cp[..]) == old(multiset(cp[..]))
    ensures if changed then Inversions(m, cp[..]) < old(Inversions(m, cp[..]))
            else Inversions(m, cp[..]) == old(Inversions(m, cp[..])) && InOrder(m, cp[..], cp.Length)
  {
    changed := false;
    var i := 1;
    while i < cp.Length
      invariant 1 <= i
      invariant PointsInto(m, cp[..]) && multiset(cp[..]) == old(multiset(cp[..]))
      invariant if changed then Inversions(m, cp[..]) < old(Inversions(m, cp[..]))
                else cp[..] == old(cp[..]) && InOrder(m, cp[..], i)
    {
      if Less(m, cp[i], cp[i - 1]) {
        ghost var ps := cp[..];
        assert ps[i] == cp[i] && ps[i - 1] == cp[i - 1];
        SwapRemovesInversion(m, ps, i);
        SwapKeepsMultiset(ps, i);
        SwapNeighbours(cp, i);
        changed := true;
      }
      i := i + 1;
    }
  }

  /** The bubble sort of sanitize_e820_map: passes over the list until one changes nothing. */
  method SortPoints(m: seq<Entry>, cp: array<Point>)
    requires PointsInto(m, cp[..])
    modifies cp
    ensures Sorted(m, cp[..]) && multiset(cp[..]) == old(multiset(cp[..]))
  {
    var stillChanging := true;
    while stillChanging
      invariant PointsInto(m, cp[..]) && multiset(cp[..]) == old(multiset(cp[..]))
      invariant !stillChanging ==> InOrder(m, cp[..], cp.Length)
      decreases Inversions(m, cp[..]), stillChanging
    {
      stillChanging := SortPass(m, cp);
    }
    SortedWhenInOrder(m, cp[..]);
  }

  // ------------------------------------------------------------------ what the sorted list contains

  ghost function Occurrences(ps: seq<Point>, p: Point): nat {
    if ps == [] then 0 else Occurrences(ps[..|ps| - 1], p) + (if ps[|ps| - 1] == p then 1 else 0)
  }

  lemma {:induction false} OccurrencesMultiset(ps: seq<Point>, p: Point)
    ensures multiset(ps)[p] == Occurrences(ps, p)
  {
    if ps != [] {
      OccurrencesMultiset(ps[..|ps| - 1], p);
      assert ps == ps[..|ps| - 1] + [ps[|ps| - 1]];
    }
  }

  // How often p is among the change points of the first n entries.
  ghost function Times(m: seq<Entry>, n: nat, p: Point): nat
    requires n <= |m|
  {
    if n == 0 then 0
    else Times(m, n - 1, p) + (if p == StartOf(m, n - 1) then 1 else 0) + (if p == EndOf(m, n - 1) then 1 else 0)
  }

  lemma {:induction false} PointsTimes(m: seq<Entry>, n: nat, p: Point)
    requires n <= |m|
    ensures Occurrences(Points(m, n), p) == Times(m, n, p)
  {
    if n != 0 {
      PointsTimes(m, n - 1, p);
      var ps := Points(m, n);
      assert ps[..2 * n - 1][..2 * n - 2] == Points(m, n - 1);
    }
  }

  lemma {:induction false} TimesNone(m: seq<Entry>, n: nat, p: Point)
    requires n <= |m| && n <= p.entry
    ensures Times(m, n, p) == 0
  {
    if n != 0 {
      TimesNone(m, n - 1, p);
    }
  }

  lemma {:induction false} TimesSome(m: seq<Entry>, n: nat, p: Point)
    requires p.entry < n <= |m|
    ensures Times(m, n, p) == (if p == StartOf(m, p.entry) then 1 else 0) + (if p == EndOf(m, p.entry) then 1 else 0)
  {
    if p.entry < n - 1 {
      TimesSome(m, n - 1, p);
    } else {
      TimesNone(m, n - 1, p);
    }
  }

  // A start and an end of every entry, both at once when the entry is empty.
  lemma PointsCount(m: seq<Entry>, p: Point)
    ensures multiset(Points(m, |m|))[p] ==
      if p.entry >= |m| then 0
      else (if p == StartOf(m, p.entry) then 1 else 0) + (if p == EndOf(m, p.entry) then 1 else 0)
  {
    OccurrencesMultiset(Points(m, |m|), p);
    PointsTimes(m, |m|, p);
    if p.entry < |m| {
      TimesSome(m, |m|, p);
    } else {
      TimesNone(m, |m|, p);
    }
  }

  // ps is a sorted arrangement of all change points of m.
  ghost predicate Arranged(m: seq<Entry>, ps: seq<Point>) {
    Sorted(m, ps) && multiset(ps) == multiset(Points(m, |m|))
  }

  lemma ArrangedMembers(m: seq<Entry>, ps: seq<Point>, p: Point)
    requires Arranged(m, ps)
    ensures p in ps ==> p.entry < |m| && (p == StartOf(m, p.entry) || p == EndOf(m, p.entry))
    ensures p.entry < |m| && (p == StartOf(m, p.entry) || p == EndOf(m, p.entry)) ==> p in ps
  {
    if p in ps {
      var k :| 0 <= k < |ps| && ps[k] == p;
    }
    assert p in ps <==> multiset(ps)[p] > 0;
    PointsCount(m, p);
  }

  // A change point of an entry that is not empty occurs once.
  lemma ArrangedOnce(m: seq<Entry>, ps: seq<Point>, i: nat, j: nat)
    requires Arranged(m, ps) && i < j < |ps| && ps[i] == ps[j]
    ensures m[ps[i].entry].size == 0
  {
    var p := ps[i];
    PointsCount(m, p);
    assert ps == ps[..j] + ps[j..];
    assert multiset(ps[..j])[p] >= 1 by {
      assert p in ps[..j];
    }
    assert multiset(ps[j..])[p] >= 1 by {
      assert p in ps[j..];
    }
  }
}
