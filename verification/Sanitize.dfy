/** sanitize_e820_map of memtest86+ (memsize.c): the sweep over the sorted change points. */
module Sanitize {
  import opened E820
  import opened ChangePoints

  // ------------------------------------------------------------------ the entries that are open

  // Entry x has started among the first k points and not ended.
  ghost predicate Live(m: seq<Entry>, ps: seq<Point>, k: nat, x: nat)
    requires k <= |ps|
  {
    x < |m| && StartOf(m, x) in ps[..k] && (m[x].size == 0 || EndOf(m, x) !in ps[..k])
  }

  // `t` is the largest type among the live entries.
  ghost predicate LargestLive(m: seq<Entry>, ps: seq<Point>, k: nat, t: nat)
    requires k <= |ps|
  {
    && (forall x :: 0 <= x < |m| && Live(m, ps, k, x) ==> m[x].typ <= t)
    && (t == 0 || exists x :: 0 <= x < |m| && Live(m, ps, k, x) && m[x].typ == t)
  }

  // When the first k points are exactly those up to address a, the live entries are those that reach a.
  lemma LiveReaches(m: seq<Entry>, ps: seq<Point>, k: nat, a: nat, x: nat)
    requires Arranged(m, ps) && k <= |ps| && x < |m|
    requires forall j :: 0 <= j < k ==> ps[j].addr <= a
    requires forall j :: k <= j < |ps| ==> a < ps[j].addr
    ensures Live(m, ps, k, x) <==> Reaches(m[x], a)
  {
    ArrangedMembers(m, ps, StartOf(m, x));
    ArrangedMembers(m, ps, EndOf(m, x));
    var s :| 0 <= s < |ps| && ps[s] == StartOf(m, x);
    var e :| 0 <= e < |ps| && ps[e] == EndOf(m, x);
    assert s < k ==> ps[..k][s] == ps[s];
    assert e < k ==> ps[..k][e] == ps[e];
  }

  lemma LargestLiveIsReached(m: seq<Entry>, ps: seq<Point>, k: nat, a: nat, t: nat)
    requires Arranged(m, ps) && k <= |ps| && LargestLive(m, ps, k, t)
    requires forall j :: 0 <= j < k ==> ps[j].addr <= a
    requires forall j :: k <= j < |ps| ==> a < ps[j].addr
    ensures ReachedAt(m, a) == t
  {
    ReachedAtSpec(m, a);
    forall x | 0 <= x < |m| ensures Live(m, ps, k, x) <==> Reaches(m[x], a) {
      LiveReaches(m, ps, k, a, x);
    }
  }

  // What one more point does to the live entries.
  lemma LiveStart(m: seq<Entry>, ps: seq<Point>, k: nat, x: nat)
    requires Arranged(m, ps) && k < |ps| && IsStart(m, ps[k])
    ensures Live(m, ps, k + 1, x) <==> Live(m, ps, k, x) || x == ps[k].entry
  {
    assert ps[..k + 1] == ps[..k] + [ps[k]];
    ArrangedMembers(m, ps, ps[k]);
  }

  lemma LiveEnd(m: seq<Entry>, ps: seq<Point>, k: nat, x: nat)
    requires Arranged(m, ps) && k < |ps| && !IsStart(m, ps[k])
    ensures Live(m, ps, k + 1, x) <==> Live(m, ps, k, x) && x != ps[k].entry
  {
    assert ps[..k + 1] == ps[..k] + [ps[k]];
    ArrangedMembers(m, ps, ps[k]);
  }

  // An entry that ends has started, once, and has not ended.
  lemma EndIsLive(m: seq<Entry>, ps: seq<Point>, k: nat)
    requires Arranged(m, ps) && k < |ps| && !IsStart(m, ps[k])
    ensures Live(m, ps, k, ps[k].entry)
  {
    var x := ps[k].entry;
    ArrangedMembers(m, ps, ps[k]);
    ArrangedMembers(m, ps, StartOf(m, x));
    var s :| 0 <= s < |ps| && ps[s] == StartOf(m, x);
    assert s < k;
    assert ps[..k][s] == StartOf(m, x);
    if EndOf(m, x) in ps[..k] {
      var j :| 0 <= j < k && ps[j] == EndOf(m, x);
      ArrangedOnce(m, ps, j, k);
    }
  }

  // ------------------------------------------------------------------ the overlap list

  // The list holds the live entries, at most as often as they have started; only an empty one can be on
  // it twice.
  ghost predicate Lists(m: seq<Entry>, ps: seq<Point>, k: nat, list: seq<nat>)
    requires k <= |ps|
  {
    && (forall i :: 0 <= i < |list| ==> list[i] < |m|)
    && (forall x :: x in list <==> Live(m, ps, k, x))
    && (forall i, j :: 0 <= i < j < |list| && list[i] == list[j] ==> m[list[i]].size == 0)
    && AllStarted(m, ps, k, list)
  }

  ghost predicate AllStarted(m: seq<Entry>, ps: seq<Point>, k: nat, list: seq<nat>)
    requires k <= |ps|
  {
    forall x: nat :: x < |m| ==> Started(m, ps, k, list, x)
  }

  ghost predicate Started(m: seq<Entry>, ps: seq<Point>, k: nat, list: seq<nat>, x: nat)
    requires k <= |ps| && x < |m|
  {
    multiset(list)[x] <= multiset(ps[..k])[StartOf(m, x)]
  }

  lemma AllStartedNext(m: seq<Entry>, ps: seq<Point>, k: nat, list: seq<nat>, list': seq<nat>)
    requires k < |ps| && ps[k].entry < |m| && AllStarted(m, ps, k, list)
    requires multiset(list') <= if IsStart(m, ps[k]) then multiset(list) + multiset{ps[k].entry} else multiset(list)
    ensures AllStarted(m, ps, k + 1, list')
  {
    var next := k + 1;
    assert ps[..next] == ps[..k] + [ps[k]];
    forall x: nat | x < |m| ensures Started(m, ps, next, list', x) {
      assert Started(m, ps, k, list, x);
    }
  }

  lemma ListsStart(m: seq<Entry>, ps: seq<Point>, k: nat, list: seq<nat>)
    requires Arranged(m, ps) && k < |ps| && IsStart(m, ps[k]) && Lists(m, ps, k, list)
    ensures Lists(m, ps, k + 1, list + [ps[k].entry])
  {
    var x, list' := ps[k].entry, list + [ps[k].entry];
    forall y ensures y in list' <==> Live(m, ps, k + 1, y) {
      LiveStart(m, ps, k, y);
    }
    AllStartedNext(m, ps, k, list, list');
    forall i, j | 0 <= i < j < |list'| && list'[i] == list'[j] ensures m[list'[i]].size == 0 {
      if j == |list| && m[x].size != 0 {
        assert x in list;
        var s :| 0 <= s < k && ps[s] == StartOf(m, x);
        ArrangedOnce(m, ps, s, k);
      }
    }
  }

  // The list after the swap-with-last removal of position q.
  ghost function Without(list: seq<nat>, q: nat): seq<nat>
    requires q < |list|
  {
    list[q := list[|list| - 1]][..|list| - 1]
  }

  lemma WithoutMultiset(list: seq<nat>, q: nat)
    requires q < |list|
    ensures multiset(Without(list, q)) <= multiset(list)
  {
    var n, a := |list|, list[..q];
    if q == n - 1 {
      assert Without(list, q) == a && list == a + [list[q]];
    } else {
      var z, last := list[q + 1..n - 1], list[n - 1];
      assert Without(list, q) == a + [last] + z;
      assert list == a + [list[q]] + z + [last];
    }
  }

  lemma WithoutMembers(list: seq<nat>, q: nat)
    requires q < |list| && forall i :: 0 <= i < |list| && list[i] == list[q] ==> i == q
    ensures forall y :: y in Without(list, q) <==> y in list && y != list[q]
  {
    var n, list' := |list|, Without(list, q);
    forall y ensures y in list' <==> y in list && y != list[q] {
      if y in list && y != list[q] {
        var i :| 0 <= i < n && list[i] == y;
        assert list'[if i == n - 1 then q else i] == y;
      }
      if y in list' {
        var i :| 0 <= i < n - 1 && list'[i] == y;
        assert y == list[if i == q then n - 1 else i];
      }
    }
  }

  lemma WithoutRepeats(m: seq<Entry>, list: seq<nat>, q: nat)
    requires q < |list| && forall i :: 0 <= i < |list| ==> list[i] < |m|
    requires forall i, j :: 0 <= i < j < |list| && list[i] == list[j] ==> m[list[i]].size == 0
    ensures var w := Without(list, q);
      && (forall i :: 0 <= i < |w| ==> w[i] < |m|)
      && (forall i, j :: 0 <= i < j < |w| && w[i] == w[j] ==> m[w[i]].size == 0)
  {
  }

  lemma ListsEnd(m: seq<Entry>, ps: seq<Point>, k: nat, list: seq<nat>, q: nat)
    requires Arranged(m, ps) && k < |ps| && !IsStart(m, ps[k]) && Lists(m, ps, k, list)
    requires q < |list| && list[q] == ps[k].entry
    ensures Lists(m, ps, k + 1, Without(list, q))
  {
    ArrangedMembers(m, ps, ps[k]);
    WithoutMembers(list, q);
    forall y ensures y in Without(list, q) <==> Live(m, ps, k + 1, y) {
      LiveEnd(m, ps, k, y);
    }
    WithoutRepeats(m, list, q);
    WithoutMultiset(list, q);
    AllStartedNext(m, ps, k, list, Without(list, q));
  }

  // The loop that takes an entry off the overlap list.
  method RemoveEntry(overlap: array<nat>, n: nat, x: nat) returns (ghost q: nat)
    requires 0 < n <= overlap.Length
    requires exists i :: 0 <= i < n && overlap[i] == x
    requires forall i, j :: 0 <= i < j < n && overlap[i] == overlap[j] ==> overlap[i] != x
    modifies overlap
    ensures q < n && old(overlap[q]) == x && overlap[..n - 1] == Without(old(overlap[..n]), q)
  {
    q :| 0 <= q < n && overlap[q] == x;
    var i := 0;
    while i < n
      invariant 0 <= i <= n
      invariant overlap[..n] == if i <= q then old(overlap[..n]) else old(overlap[..n])[q := old(overlap[n - 1])]
    {
      assert overlap[..n][i] == overlap[i];
      assert overlap[..n][n - 1] == overlap[n - 1];
      if overlap[i] == x {
        overlap[i] := overlap[n - 1];
      }
      i := i + 1;
    }
    assert overlap[..n - 1] == overlap[..n][..n - 1];
  }

  // The loop that finds the largest type on the overlap list.
  method LargestType(m: seq<Entry>, overlap: array<nat>, n: nat) returns (t: nat)
    requires n <= overlap.Length && forall i :: 0 <= i < n ==> overlap[i] < |m|
    ensures forall i :: 0 <= i < n ==> m[overlap[i]].typ <= t
    ensures t == 0 || exists i :: 0 <= i < n && m[overlap[i]].typ == t
  {
    t := 0;
    var i := 0;
    while i < n
      invariant 0 <= i <= n
      invariant forall j :: 0 <= j < i ==> m[overlap[j]].typ <= t
      invariant t == 0 || exists j :: 0 <= j < i && m[overlap[j]].typ == t
    {
      if m[overlap[i]].typ > t {
        t := m[overlap[i]].typ;
      }
      i := i + 1;
    }
  }

  lemma LargestListed(m: seq<Entry>, ps: seq<Point>, k: nat, list: seq<nat>, t: nat)
    requires k <= |ps| && Lists(m, ps, k, list)
    requires forall i :: 0 <= i < |list| ==> m[list[i]].typ <= t
    requires t == 0 || exists i :: 0 <= i < |list| && m[list[i]].typ == t
    ensures LargestLive(m, ps, k, t)
  {
    forall x | 0 <= x < |m| && Live(m, ps, k, x) ensures m[x].typ <= t {
      assert x in list;
    }
    if t != 0 {
      var i :| 0 <= i < |list| && m[list[i]].typ == t;
      assert list[i] in list;
    }
  }

  method LargestOnList(m: seq<Entry>, overlap: array<nat>, n: nat, ghost ps: seq<Point>, ghost k: nat) returns (t: nat)
    requires k <= |ps| && n <= overlap.Length && Lists(m, ps, k, overlap[..n])
    ensures LargestLive(m, ps, k, t)
  {
    ghost var list := overlap[..n];
    assert forall i :: 0 <= i < n ==> overlap[i] == list[i];
    t := LargestType(m, overlap, n);
    LargestListed(m, ps, k, list, t);
  }

  // ------------------------------------------------------------------ the sweep

  // What the sweep has built: the finished entries of the new map, the type of the open one (0: none)
  // and the address where it begins.
  datatype Sweep = Sweep(out: seq<Entry>, lastType: nat, lastAddr: u64)

  // Close the open entry at `addr`, unless it is empty.
  function Close(st: Sweep, addr: u64): seq<Entry>
    requires st.lastAddr <= addr
  {
    if st.lastType != 0 && addr - st.lastAddr != 0
    then st.out + [Entry(st.lastAddr, addr - st.lastAddr, st.lastType)]
    else st.out
  }

  // The effect of one change point, the largest live type being `t` after it.
  function Advance(st: Sweep, addr: u64, t: nat): Sweep
    requires st.lastAddr <= addr
  {
    if t == st.lastType then st else Sweep(Close(st, addr), t, if t != 0 then addr else st.lastAddr)
  }

  // The address of the last point swept.
  ghost function Front(ps: seq<Point>, k: nat): nat
    requires k <= |ps|
  {
    if k == 0 then 0 else ps[k - 1].addr
  }

  // The addresses whose type the finished entries already give.
  ghost function Settled(st: Sweep, front: nat): nat {
    if st.lastType != 0 then st.lastAddr else front
  }

  // Why no entry will begin at `front` with the type of the one just closed there: either the type
  // has risen above it because of an entry that starts here, or it has fallen and only ends are left
  // at this address.
  ghost predicate Moved(m: seq<Entry>, ps: seq<Point>, k: nat, closed: nat, t: nat)
    requires 0 < k <= |ps| && PointsInto(m, ps)
  {
    || (t > closed && exists x :: 0 <= x < |m| && Live(m, ps, k, x) && m[x].addr == ps[k - 1].addr && m[x].typ > closed)
    || (t < closed && !IsStart(m, ps[k - 1]))
  }

  ghost predicate Meaning(m: seq<Entry>, st: Sweep, front: nat) {
    && (forall a :: 0 <= a < Settled(st, front) ==> TypeAt(st.out, a) == ReachedAt(m, a))
    && (forall a :: Settled(st, front) <= a < front ==> ReachedAt(m, a) == st.lastType)
  }

  ghost predicate Built(st: Sweep, front: nat) {
    && Canonical(st.out) && st.lastAddr <= front
    && (forall i :: 0 <= i < |st.out| ==> st.out[i].End() <= Settled(st, front))
    && (st.lastType != 0 && st.out != [] && Last(st.out).End() == st.lastAddr ==> Last(st.out).typ != st.lastType)
  }

  ghost function Last(out: seq<Entry>): Entry
    requires out != []
  {
    out[|out| - 1]
  }

  ghost predicate Swept(m: seq<Entry>, ps: seq<Point>, k: nat, st: Sweep)
    requires k <= |ps| && Arranged(m, ps)
  {
    && LargestLive(m, ps, k, st.lastType)
    && Built(st, Front(ps, k))
    && Meaning(m, st, Front(ps, k))
    && (k > 0 && st.out != [] && Last(st.out).End() == Front(ps, k) ==> Moved(m, ps, k, Last(st.out).typ, st.lastType))
    && (k == 0 ==> st.out == [])
  }

  // Between two change points the type does not change.
  lemma Between(m: seq<Entry>, ps: seq<Point>, k: nat, t: nat, a: nat)
    requires Arranged(m, ps) && k < |ps| && LargestLive(m, ps, k, t)
    requires Front(ps, k) <= a < ps[k].addr
    ensures ReachedAt(m, a) == t
  {
    forall j | 0 <= j < k ensures ps[j].addr <= a {
      assert j < k - 1 ==> !Less(m, ps[k - 1], ps[j]);
    }
    forall j | k <= j < |ps| ensures a < ps[j].addr {
      assert j > k ==> !Less(m, ps[j], ps[k]);
    }
    LargestLiveIsReached(m, ps, k, a, t);
  }

  lemma FrontGrows(m: seq<Entry>, ps: seq<Point>, k: nat)
    requires Arranged(m, ps) && k < |ps|
    ensures Front(ps, k) <= ps[k].addr
    ensures k > 0 && Front(ps, k) == ps[k].addr && !IsStart(m, ps[k - 1]) ==> !IsStart(m, ps[k])
  {
    if k > 0 {
      assert !Less(m, ps[k], ps[k - 1]);
    }
  }

  // The sweep moved forward to the next point, before that point takes effect.
  lemma Reach(m: seq<Entry>, ps: seq<Point>, k: nat, st: Sweep)
    requires Arranged(m, ps) && k < |ps| && Swept(m, ps, k, st)
    ensures Built(st, ps[k].addr) && Meaning(m, st, ps[k].addr)
  {
    FrontGrows(m, ps, k);
    forall a | Front(ps, k) <= a < ps[k].addr ensures ReachedAt(m, a) == st.lastType {
      Between(m, ps, k, st.lastType, a);
    }
    forall a | Settled(st, Front(ps, k)) <= a < Settled(st, ps[k].addr) ensures TypeAt(st.out, a) == ReachedAt(m, a) {
      NoneCovers(st.out, a);
    }
  }

  // The entries once the open one is closed at `addr`.
  lemma CloseCanonical(st: Sweep, addr: u64)
    requires Built(st, addr)
    ensures var out := Close(st, addr);
      Canonical(out) && forall i :: 0 <= i < |out| ==> out[i].End() <= addr
  {
    var out := Close(st, addr);
    if out != st.out {
      var e := Entry(st.lastAddr, addr - st.lastAddr, st.lastType);
      assert st.out != [] ==> Follows(Last(st.out), e);
      forall i | 0 < i < |out| ensures Follows(out[i - 1], out[i]) {
        if i < |st.out| {
          assert Follows(st.out[i - 1], st.out[i]);
        }
      }
    }
  }

  // What they say.
  lemma CloseMeaning(m: seq<Entry>, st: Sweep, addr: u64)
    requires Built(st, addr) && Meaning(m, st, addr)
    ensures SanitizedBelow(m, Close(st, addr), addr)
  {
    var out := Close(st, addr);
    CloseCanonical(st, addr);
    if out != st.out {
      assert out[..|out| - 1] == st.out;
      forall a | st.lastAddr <= a ensures TypeAt(st.out, a) == 0 {
        NoneCovers(st.out, a);
      }
    }
  }

  // How the largest live type moves at one point.
  lemma TypeMoves(m: seq<Entry>, ps: seq<Point>, k: nat, t: nat, t': nat)
    requires Arranged(m, ps) && k < |ps| && LargestLive(m, ps, k, t) && LargestLive(m, ps, k + 1, t')
    ensures IsStart(m, ps[k]) ==> t <= t' && (t < t' ==> t' == m[ps[k].entry].typ && Live(m, ps, k + 1, ps[k].entry))
    ensures !IsStart(m, ps[k]) ==> t' <= t
  {
    ArrangedMembers(m, ps, ps[k]);
    forall x | 0 <= x < |m|
      ensures IsStart(m, ps[k]) ==> (Live(m, ps, k + 1, x) <==> Live(m, ps, k, x) || x == ps[k].entry)
      ensures !IsStart(m, ps[k]) ==> (Live(m, ps, k + 1, x) <==> Live(m, ps, k, x) && x != ps[k].entry)
    {
      if IsStart(m, ps[k]) {
        LiveStart(m, ps, k, x);
      } else {
        LiveEnd(m, ps, k, x);
      }
    }
  }

  // The reason of Moved survives another point at the same address.
  lemma MovedStays(m: seq<Entry>, ps: seq<Point>, k: nat, closed: nat, t: nat, t': nat)
    requires Arranged(m, ps) && 0 < k < |ps| && LargestLive(m, ps, k, t) && LargestLive(m, ps, k + 1, t')
    requires ps[k].addr == ps[k - 1].addr && Moved(m, ps, k, closed, t)
    ensures Moved(m, ps, k + 1, closed, t')
  {
    TypeMoves(m, ps, k, t, t');
    FrontGrows(m, ps, k);
    if t > closed {
      var x :| 0 <= x < |m| && Live(m, ps, k, x) && m[x].addr == ps[k - 1].addr && m[x].typ > closed;
      if IsStart(m, ps[k]) {
        LiveStart(m, ps, k, x);
      } else {
        LiveEnd(m, ps, k, x);
      }
      assert Live(m, ps, k + 1, x);
    }
  }

  lemma MovedNow(m: seq<Entry>, ps: seq<Point>, k: nat, t: nat, t': nat)
    requires Arranged(m, ps) && k < |ps| && LargestLive(m, ps, k, t) && LargestLive(m, ps, k + 1, t') && t != t'
    ensures Moved(m, ps, k + 1, t, t')
  {
    TypeMoves(m, ps, k, t, t');
    ArrangedMembers(m, ps, ps[k]);
  }

  /** One change point keeps the sweep right. */
  lemma SweptStep(m: seq<Entry>, ps: seq<Point>, k: nat, st: Sweep, addr: u64, t: nat)
    requires Arranged(m, ps) && k < |ps| && Swept(m, ps, k, st)
    requires addr == ps[k].addr && LargestLive(m, ps, k + 1, t)
    ensures st.lastAddr <= addr && Swept(m, ps, k + 1, Advance(st, addr, t))
  {
    Reach(m, ps, k, st);
    AdvanceMoved(m, ps, k, st, addr, t);
    AdvanceBuilt(m, st, addr, t);
  }

  lemma AdvanceMoved(m: seq<Entry>, ps: seq<Point>, k: nat, st: Sweep, addr: u64, t: nat)
    requires Arranged(m, ps) && k < |ps| && Swept(m, ps, k, st) && st.lastAddr <= addr
    requires addr == ps[k].addr && LargestLive(m, ps, k + 1, t)
    ensures var st' := Advance(st, addr, t);
      st'.out != [] && Last(st'.out).End() == addr ==> Moved(m, ps, k + 1, Last(st'.out).typ, st'.lastType)
  {
    FrontGrows(m, ps, k);
    var st' := Advance(st, addr, t);
    if t != st.lastType {
      MovedNow(m, ps, k, st.lastType, t);
    }
    if st'.out != [] && Last(st'.out).End() == addr && st'.out == st.out {
      assert k > 0 && Front(ps, k) == addr;
      MovedStays(m, ps, k, Last(st.out).typ, st.lastType, t);
    }
  }

  lemma AdvanceBuilt(m: seq<Entry>, st: Sweep, addr: u64, t: nat)
    requires Built(st, addr) && Meaning(m, st, addr)
    requires var st' := Advance(st, addr, t);
      st'.out != [] && Last(st'.out).End() == addr ==> Last(st'.out).typ != st'.lastType
    ensures var st' := Advance(st, addr, t); Built(st', addr) && Meaning(m, st', addr)
  {
    CloseMeaning(m, st, addr);
  }

  // ------------------------------------------------------------------ the result

  // The largest type among the empty entries.
  function LeftOver(m: seq<Entry>): nat {
    if m == [] then 0
    else
      var t := LeftOver(m[..|m| - 1]);
      if m[|m| - 1].size == 0 then Max(t, m[|m| - 1].typ) else t
  }

  lemma {:induction false} LeftOverSpec(m: seq<Entry>)
    ensures forall i :: 0 <= i < |m| && m[i].size == 0 ==> m[i].typ <= LeftOver(m)
    ensures LeftOver(m) != 0 ==> exists i :: 0 <= i < |m| && m[i].size == 0 && m[i].typ == LeftOver(m)
  {
    if m != [] {
      var init := m[..|m| - 1];
      LeftOverSpec(init);
      assert forall i :: 0 <= i < |init| ==> m[i] == init[i];
      if LeftOver(m) != 0 && LeftOver(m) == LeftOver(init) {
        var i :| 0 <= i < |init| && init[i].size == 0 && init[i].typ == LeftOver(init);
        assert m[i].size == 0 && m[i].typ == LeftOver(m);
      }
    }
  }

  // The largest empty entries decide the type of a: no larger type covers it, and theirs does, or one of
  // them lies at a or below.
  ghost predicate LeftOverDecides(m: seq<Entry>, a: nat) {
    var z := LeftOver(m);
    && TypeAt(m, a) <= z
    && (TypeAt(m, a) == z || exists i :: 0 <= i < |m| && m[i].size == 0 && m[i].typ == z && m[i].addr <= a)
  }

  lemma LeftOverDecidesExactly(m: seq<Entry>, a: nat)
    requires LeftOver(m) != 0
    ensures LeftOverDecides(m, a) <==> ReachedAt(m, a) == LeftOver(m)
  {
    LeftOverSpec(m);
    TypeAtSpec(m, a);
    ReachedAtSpec(m, a);
    assert forall i :: 0 <= i < |m| && Covers(m[i], a) ==> Reaches(m[i], a);
    if ReachedAt(m, a) != 0 {
      var i :| 0 <= i < |m| && Reaches(m[i], a) && m[i].typ == ReachedAt(m, a);
      assert m[i].size != 0 ==> Covers(m[i], a);
    }
    if LeftOverDecides(m, a) {
      var i :| 0 <= i < |m| && Reaches(m[i], a) && m[i].typ == LeftOver(m);
    }
  }

  // Where the new map stops: at the last change point, or, when empty entries are left over, where
  // the final stretch begins in which they alone decide the type.
  ghost predicate IsCut(m: seq<Entry>, cut: nat) {
    var z := LeftOver(m);
    if z == 0 then cut == LastPoint(m)
    else
      && cut <= LastPoint(m)
      && (forall a :: cut <= a < LastPoint(m) ==> LeftOverDecides(m, a))
      && (cut > 0 ==> !LeftOverDecides(m, cut - 1))
  }

  // `out` is the canonical form of m below `top` and says nothing above.
  ghost predicate SanitizedBelow(m: seq<Entry>, out: seq<Entry>, top: nat) {
    && Canonical(out)
    && (forall i :: 0 <= i < |out| ==> out[i].End() <= top)
    && (forall a :: 0 <= a < top ==> TypeAt(out, a) == ReachedAt(m, a))
  }

  // What sanitize_e820_map promises for a map without address overflow.
  ghost predicate Sanitized(m: seq<Entry>, out: seq<Entry>) {
    if |out| < E820MAX then exists cut :: IsCut(m, cut) && SanitizedBelow(m, out, cut)
    else |out| == E820MAX && SanitizedBelow(m, out, Last(out).End())
  }

  predicate Overflows(e: Entry) {
    (e.addr + e.size) % WORD64 < e.addr
  }

  lemma AllLive(m: seq<Entry>, ps: seq<Point>, t: nat)
    requires Arranged(m, ps) && LargestLive(m, ps, |ps|, t)
    ensures t == LeftOver(m)
  {
    LeftOverSpec(m);
    assert ps[..|ps|] == ps;
    forall x | 0 <= x < |m| ensures Live(m, ps, |ps|, x) <==> m[x].size == 0 {
      ArrangedMembers(m, ps, StartOf(m, x));
      ArrangedMembers(m, ps, EndOf(m, x));
    }
  }

  lemma FrontIsLast(m: seq<Entry>, ps: seq<Point>)
    requires Arranged(m, ps)
    ensures Front(ps, |ps|) == LastPoint(m)
  {
    LastPointSpec(m);
    if m == [] {
      assert |multiset(ps)| == |ps|;
    } else {
      var x :| 0 <= x < |m| && m[x].End() == LastPoint(m);
      ArrangedMembers(m, ps, EndOf(m, x));
      var e :| 0 <= e < |ps| && ps[e] == EndOf(m, x);
      ArrangedMembers(m, ps, ps[|ps| - 1]);
      NoneAbove(m, ps, e, |ps| - 1);
    }
  }

  lemma OpenStretch(m: seq<Entry>, st: Sweep, front: nat)
    requires Built(st, front) && Meaning(m, st, front) && st.lastType != 0 && st.lastAddr > 0
    ensures ReachedAt(m, st.lastAddr - 1) != st.lastType
  {
    var a := st.lastAddr - 1;
    if ReachedAt(m, a) == st.lastType {
      TypeAtSpec(st.out, a);
      var i :| 0 <= i < |st.out| && Covers(st.out[i], a) && st.out[i].typ == TypeAt(st.out, a);
      if i < |st.out| - 1 {
        CanonicalOrder(st.out, i, |st.out| - 1);
      }
    }
  }

  // The end of the sweep.
  lemma SweptAll(m: seq<Entry>, ps: seq<Point>, st: Sweep)
    requires Arranged(m, ps) && Swept(m, ps, |ps|, st)
    ensures IsCut(m, Settled(st, Front(ps, |ps|)))
    ensures SanitizedBelow(m, st.out, Settled(st, Front(ps, |ps|)))
  {
    AllLive(m, ps, st.lastType);
    FrontIsLast(m, ps);
    if st.lastType != 0 {
      if st.lastAddr > 0 {
        OpenStretch(m, st, Front(ps, |ps|));
        LeftOverDecidesExactly(m, st.lastAddr - 1);
      }
      forall a | Settled(st, Front(ps, |ps|)) <= a < LastPoint(m) ensures LeftOverDecides(m, a) {
        LeftOverDecidesExactly(m, a);
      }
    }
  }

  // The initial list of change points.
  method RecordPoints(m: seq<Entry>) returns (cp: array<Point>)
    ensures fresh(cp) && cp[..] == Points(m, |m|)
  {
    cp := new Point[2 * |m|](_ => Point(0, 0));
    var i := 0;
    while i < |m|
      invariant 0 <= i <= |m|
      invariant cp[..2 * i] == Points(m, i)
    {
      cp[2 * i] := Point(m[i].addr, i);
      cp[2 * i + 1] := Point(m[i].addr + m[i].size, i);
      assert cp[..2 * i + 2] == cp[..2 * i] + [StartOf(m, i), EndOf(m, i)];
      i := i + 1;
    }
    assert cp[..2 * |m|] == cp[..];
  }

  lemma NoOverflow(e: Entry)
    ensures Overflows(e) <==> e.End() >= WORD64
  {
  }

  // How often an entry is on the list when everything that starts at or below a has been put there, and
  // what ends below a has been taken off.
  function Room(e: Entry, a: nat): nat {
    if a < e.addr then 0
    else if e.size == 0 then 2
    else if a <= e.End() then 1
    else 0
  }

  function Crowd(m: seq<Entry>, n: nat, a: nat): nat
    requires n <= |m|
  {
    if n == 0 then 0 else Crowd(m, n - 1, a) + Room(m[n - 1], a)
  }

  // The list has room for all entries that are on it at the same time.
  predicate Uncrowded(m: seq<Entry>) {
    forall i :: 0 <= i < |m| ==> Crowd(m, |m|, m[i].addr) <= E820MAX
  }

  lemma {:induction false} CrowdBounds(m: seq<Entry>, n: nat, a: nat, held: multiset<nat>)
    requires n <= |m| && forall x :: x in held ==> x < n && held[x] <= Room(m[x], a)
    ensures |held| <= Crowd(m, n, a)
  {
    if n == 0 {
      assert held == multiset{};
    } else {
      var rest := held[n - 1 := 0];
      forall x | x in rest ensures x < n - 1 && rest[x] <= Room(m[x], a) {
        assert x in held && x != n - 1;
      }
      CrowdBounds(m, n - 1, a, rest);
      assert n - 1 in held ==> held[n - 1] <= Room(m[n - 1], a);
    }
  }

  // An entry on the list before the k-th point is one of those that take room at that address.
  lemma LiveTakesRoom(m: seq<Entry>, ps: seq<Point>, k: nat, list: seq<nat>, x: nat)
    requires Arranged(m, ps) && 0 < k <= |ps| && Lists(m, ps, k, list) && x in list
    ensures x < |m| && multiset(list)[x] <= Room(m[x], ps[k - 1].addr)
  {
    assert Live(m, ps, k, x);
    var s :| 0 <= s < k && ps[..k][s] == StartOf(m, x);
    NoneAbove(m, ps, s, k - 1);
    PointsCount(m, StartOf(m, x));
    assert Started(m, ps, k, list, x);
    assert ps == ps[..k] + ps[k..];
    if m[x].size != 0 {
      EndsLater(m, ps, k, x);
    }
  }

  lemma EndsLater(m: seq<Entry>, ps: seq<Point>, k: nat, x: nat)
    requires Arranged(m, ps) && 0 < k <= |ps| && Live(m, ps, k, x) && m[x].size != 0
    ensures ps[k - 1].addr <= m[x].End()
  {
    ArrangedMembers(m, ps, EndOf(m, x));
    forall i | 0 <= i < k ensures ps[i] != EndOf(m, x) {
      assert ps[i] == ps[..k][i];
    }
    var e :| 0 <= e < |ps| && ps[e] == EndOf(m, x);
    NoneAbove(m, ps, k - 1, e);
  }

  lemma NoneAbove(m: seq<Entry>, ps: seq<Point>, i: nat, j: nat)
    requires Arranged(m, ps) && i <= j < |ps|
    ensures ps[i].addr <= ps[j].addr
  {
    assert i < j ==> !Less(m, ps[j], ps[i]);
  }

  // After a start the list is no longer than that.
  lemma ListFits(m: seq<Entry>, ps: seq<Point>, k: nat, list: seq<nat>)
    requires Arranged(m, ps) && k < |ps| && IsStart(m, ps[k]) && Lists(m, ps, k + 1, list) && Uncrowded(m)
    ensures |list| <= E820MAX
  {
    forall x | x in multiset(list) ensures x < |m| && multiset(list)[x] <= Room(m[x], ps[k].addr) {
      LiveTakesRoom(m, ps, k + 1, list, x);
    }
    CrowdBounds(m, |m|, ps[k].addr, multiset(list));
  }

  // Put the entry of a point on the overlap list or take it off.
  method UpdateOverlap(m: seq<Entry>, overlap: array<nat>, n: nat, p: Point, ghost ps: seq<Point>, ghost k: nat)
    returns (n': nat)
    requires Arranged(m, ps) && k < |ps| && p == ps[k] && Uncrowded(m)
    requires overlap.Length == E820MAX && n <= overlap.Length && Lists(m, ps, k, overlap[..n])
    modifies overlap
    ensures n' <= overlap.Length && Lists(m, ps, k + 1, overlap[..n'])
  {
    ghost var list := overlap[..n];
    if p.addr == m[p.entry].addr {
      ListsStart(m, ps, k, list);
      ListFits(m, ps, k, list + [p.entry]);
      overlap[n] := p.entry;
      n' := n + 1;
      assert overlap[..n'] == list + [p.entry];
    } else {
      EndIsLive(m, ps, k);
      ArrangedMembers(m, ps, p);
      assert p.entry in list;
      assert forall i :: 0 <= i < n ==> list[i] == overlap[i];
      ghost var q := RemoveEntry(overlap, n, p.entry);
      ListsEnd(m, ps, k, list, q);
      n' := n - 1;
    }
  }

  // Everything one round of the sweep establishes.
  lemma SweepFacts(m: seq<Entry>, ps: seq<Point>, k: nat, st: Sweep, t: nat)
    requires Arranged(m, ps) && k < |ps| && Swept(m, ps, k, st) && ps[k].addr < WORD64
    requires LargestLive(m, ps, k + 1, t)
    ensures st.lastAddr <= ps[k].addr && Swept(m, ps, k + 1, Advance(st, ps[k].addr, t))
    ensures |Close(st, ps[k].addr)| == E820MAX ==> Sanitized(m, Close(st, ps[k].addr))
  {
    SweptStep(m, ps, k, st, ps[k].addr, t);
    Reach(m, ps, k, st);
    CloseMeaning(m, st, ps[k].addr);
    if |Close(st, ps[k].addr)| == E820MAX {
      FullMap(m, Close(st, ps[k].addr), ps[k].addr);
    }
  }

  // Keep track of the overlapping entries and decide which type to use.
  method TakePoint(m: seq<Entry>, overlap: array<nat>, n: nat, p: Point, ghost ps: seq<Point>, ghost k: nat)
    returns (n': nat, t: nat)
    requires Arranged(m, ps) && k < |ps| && p == ps[k] && Uncrowded(m)
    requires overlap.Length == E820MAX && n <= overlap.Length && Lists(m, ps, k, overlap[..n])
    modifies overlap
    ensures n' <= overlap.Length && Lists(m, ps, k + 1, overlap[..n']) && LargestLive(m, ps, k + 1, t)
  {
    n' := UpdateOverlap(m, overlap, n, p, ps, k);
    t := LargestOnList(m, overlap, n', ps, k + 1);
  }

  // The new map up to position n agrees with the sweep, and slot n holds the open entry.
  ghost predicate Written(bios: seq<Entry>, n: nat, st: Sweep) {
    && n < E820MAX <= |bios| && bios[..n] == st.out
    && (st.lastType != 0 ==> bios[n].addr == st.lastAddr && bios[n].typ == st.lastType)
  }

  // Continue building the new map at one point; `full` when no slot is left.
  method WritePoint(newBios: array<Entry>, n: nat, addr: u64, lastType: nat, lastAddr: u64, t: nat, ghost st: Sweep)
    returns (n': nat, lastType': nat, lastAddr': u64, full: bool)
    requires st.lastType == lastType && st.lastAddr == lastAddr <= addr && Written(newBios[..], n, st)
    modifies newBios
    ensures n' <= E820MAX <= newBios.Length && newBios[..n'] == Advance(st, addr, t).out
    ensures full <==> n' == E820MAX
    ensures full ==> t != lastType && Advance(st, addr, t).out == Close(st, addr)
    ensures !full ==> lastType' == Advance(st, addr, t).lastType && lastAddr' == Advance(st, addr, t).lastAddr
                      && Written(newBios[..], n', Advance(st, addr, t))
  {
    n', lastType', lastAddr', full := n, lastType, lastAddr, false;
    assert newBios[..n] == newBios[..][..n];
    if t != lastType {
      if lastType != 0 {
        assert newBios[..][n] == newBios[n];
        newBios[n] := newBios[n].(size := addr - lastAddr);
        assert newBios[..n] == st.out;
        if newBios[n].size != 0 {
          n' := n + 1;
          assert newBios[..n'] == st.out + [newBios[n]];
          if n' >= E820MAX {
            full := true;
            return;
          }
        }
      }
      if t != 0 {
        newBios[n'] := newBios[n'].(addr := addr, typ := t);
        lastAddr' := addr;
      }
      lastType' := t;
      assert newBios[..n'] == Close(st, addr);
    }
  }

  /** sanitize_e820_map: returns the number of entries of the new map, 0 when an entry of the old one
      overflows the address space. */
  method SanitizeE820Map(orig: array<Entry>, newBios: array<Entry>, oldNr: nat) returns (n: nat)
    requires oldNr <= orig.Length && E820MAX <= newBios.Length && orig != newBios
    requires oldNr <= E820MAX
    requires (forall i :: 0 <= i < oldNr ==> !Overflows(orig[i])) ==> Uncrowded(orig[..oldNr])
    modifies newBios
    ensures n <= newBios.Length
    ensures if exists i :: 0 <= i < oldNr && Overflows(orig[i]) then n == 0
            else Sanitized(old(orig[..oldNr]), newBios[..n])
  {
    var m := orig[..oldNr];
    var i := 0;
    while i < oldNr
      invariant 0 <= i <= oldNr && forall j :: 0 <= j < i ==> !Overflows(orig[j])
    {
      if (m[i].addr + m[i].size) % WORD64 < m[i].addr {
        return 0;
      }
      i := i + 1;
    }
    var cp := RecordPoints(m);
    SortPoints(m, cp);
    n := SweepPoints(m, cp, newBios);
  }

  // One change point: the overlap list, and then the new map.
  method SweepPoint(m: seq<Entry>, overlap: array<nat>, entries: nat, newBios: array<Entry>, n: nat, p: Point,
                    lastType: nat, lastAddr: u64, ghost ps: seq<Point>, ghost k: nat, ghost st: Sweep)
    returns (entries': nat, n': nat, lastType': nat, lastAddr': u64, full: bool, ghost st': Sweep)
    requires Uncrowded(m)
    requires Arranged(m, ps) && k < |ps| && p == ps[k] && ps[k].addr < WORD64 && Swept(m, ps, k, st)
    requires overlap.Length == E820MAX && entries <= overlap.Length && Lists(m, ps, k, overlap[..entries])
    requires st.lastType == lastType && st.lastAddr == lastAddr && Written(newBios[..], n, st)
    modifies overlap, newBios
    ensures n' <= E820MAX <= newBios.Length
    ensures full ==> Sanitized(m, newBios[..n'])
    ensures !full ==> entries' <= overlap.Length && Lists(m, ps, k + 1, overlap[..entries'])
    ensures !full ==> Swept(m, ps, k + 1, st') && st'.lastType == lastType' && st'.lastAddr == lastAddr'
    ensures !full ==> Written(newBios[..], n', st')
  {
    var currentType;
    entries', currentType := TakePoint(m, overlap, entries, p, ps, k);
    SweepFacts(m, ps, k, st, currentType);
    st' := Advance(st, p.addr, currentType);
    n', lastType', lastAddr', full := WritePoint(newBios, n, p.addr, lastType, lastAddr, currentType, st);
  }

  // The sweep itself.
  method SweepPoints(m: seq<Entry>, cp: array<Point>, newBios: array<Entry>) returns (n: nat)
    requires Arranged(m, cp[..]) && E820MAX <= newBios.Length
    requires Uncrowded(m)
    requires forall i :: 0 <= i < |m| ==> !Overflows(m[i])
    modifies newBios
    ensures n <= newBios.Length && Sanitized(m, newBios[..n])
  {
    ghost var ps := cp[..];
    var overlap := new nat[E820MAX](_ => 0);
    var overlapEntries: nat, lastType: nat := 0, 0;
    var lastAddr: u64 := 0;
    ghost var st := Sweep([], 0, 0);
    n := 0;
    var chgidx := 0;
    assert ps[..0] == [] && newBios[..0] == [] && overlap[..0] == [];
    while chgidx < cp.Length
      invariant 0 <= chgidx <= cp.Length && overlapEntries <= overlap.Length
      invariant cp[..] == ps && Lists(m, ps, chgidx, overlap[..overlapEntries])
      invariant Swept(m, ps, chgidx, st) && st.lastType == lastType && st.lastAddr == lastAddr
      invariant Written(newBios[..], n, st)
    {
      assert cp[chgidx] == ps[chgidx];
      PointAddress(m, ps, chgidx);
      var full;
      overlapEntries, n, lastType, lastAddr, full, st :=
        SweepPoint(m, overlap, overlapEntries, newBios, n, cp[chgidx], lastType, lastAddr, ps, chgidx, st);
      if full {
        return;
      }
      chgidx := chgidx + 1;
    }
    SweptAll(m, ps, st);
    assert newBios[..n] == newBios[..][..n];
  }

  lemma PointAddress(m: seq<Entry>, ps: seq<Point>, k: nat)
    requires Arranged(m, ps) && k < |ps| && forall i :: 0 <= i < |m| ==> !Overflows(m[i])
    ensures ps[k].addr < WORD64
  {
    ArrangedMembers(m, ps, ps[k]);
    NoOverflow(m[ps[k].entry]);
  }

  lemma FullMap(m: seq<Entry>, out: seq<Entry>, addr: nat)
    requires |out| == E820MAX && SanitizedBelow(m, out, addr)
    ensures Sanitized(m, out)
  {
    forall i | 0 <= i < |out| ensures out[i].End() <= Last(out).End() {
      if i < |out| - 1 {
        CanonicalOrder(out, i, |out| - 1);
      }
    }
  }
}
