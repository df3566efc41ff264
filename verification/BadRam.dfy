/**
  The BadRAM pattern table of memtest86+ (patn.c): at most ten address/mask patterns, merged as
  cheaply as possible.
 */
module BadRam {
  import opened Powers
  import opened Wrappers
  import opened Cubes

  const BADRAM_MAXPATNS: nat := 10

  // (~0L) << 2: a pattern of this mask is one longword.
  function DefaultMask(): (m: word)
    ensures forall i :: 0 <= i < WIDTH ==> m[i] == (i >= 2)
  {
    seq(WIDTH, i => i >= 2)
  }

  function Word(adr: word): Pair {
    Pair(adr, DefaultMask())
  }

  // v->patn and v->numpatn.  Slots from n on are stale but still there.
  datatype Table = Table(patn: seq<Pair>, n: nat) {
    ghost predicate Valid() {
      |patn| == BADRAM_MAXPATNS && n <= BADRAM_MAXPATNS
    }
  }

  // ------------------------------------------------------------------ what the functions compute

  // What each slot would gain by taking in p.
  function Costs(patn: seq<Pair>, p: Pair): (r: seq<nat>)
    ensures |r| == |patn|
  {
    seq(|patn|, j requires 0 <= j < |patn| => CombiCost(patn[j], p))
  }

  // cheapindex() with i slots left to look at.
  function CheapFrom(costs: seq<nat>, mincost: nat, best: Option<nat>, i: nat): Option<nat>
    requires i <= |costs|
  {
    if i == 0 then best
    else if costs[i - 1] < mincost then CheapFrom(costs, costs[i - 1], Some(i - 1), i - 1)
    else CheapFrom(costs, mincost, best, i - 1)
  }

  function CheapIndex(t: Table, p: Pair, mincost: nat): Option<nat>
    requires t.n <= |t.patn|
  {
    CheapFrom(Costs(t.patn, p), mincost, None, t.n)
  }

  // Slot k is the last of the cheapest among the first n.
  ghost predicate Cheapest(costs: seq<nat>, n: nat, k: nat)
    requires k < n <= |costs|
  {
    forall j :: 0 <= j < n && j != k ==> costs[k] <= costs[j] && (j > k ==> costs[k] < costs[j])
  }

  lemma {:induction false} CheapFromSpec(costs: seq<nat>, mincost: nat, best: Option<nat>, i: nat, n: nat)
    requires i <= n <= |costs|
    requires best.Some? ==> i <= best.value < n && costs[best.value] == mincost
    requires best.Some? ==> forall j :: best.value < j < n ==> mincost < costs[j]
    requires forall j :: i <= j < n ==> mincost <= costs[j]
    ensures match CheapFrom(costs, mincost, best, i)
      case None => best.None? && forall j :: 0 <= j < n ==> costs[j] >= mincost
      case Some(k) =>
        && k < n && (costs[k] < mincost || best == Some(k))
        && forall j :: 0 <= j < n ==> costs[k] <= costs[j] && (j > k ==> costs[k] < costs[j])
  {
    if i != 0 {
      if costs[i - 1] < mincost {
        CheapFromSpec(costs, costs[i - 1], Some(i - 1), i - 1, n);
      } else {
        CheapFromSpec(costs, mincost, best, i - 1, n);
      }
    }
  }

  /** cheapindex() finds the cheapest slot below the given cost, if there is one. */
  lemma CheapIndexIsCheapest(t: Table, p: Pair, mincost: nat)
    requires t.n <= |t.patn|
    ensures match CheapIndex(t, p, mincost)
      case None => forall j :: 0 <= j < t.n ==> CombiCost(t.patn[j], p) >= mincost
      case Some(k) =>
        && k < t.n && CombiCost(t.patn[k], p) < mincost
        && forall j :: 0 <= j < t.n ==> CombiCost(t.patn[k], p) <= CombiCost(t.patn[j], p)
  {
    var costs := Costs(t.patn, p);
    CheapFromSpec(costs, mincost, None, t.n, t.n);
    var k := CheapIndex(t, p, mincost);
    forall j | 0 <= j < t.n ensures if k == None then CombiCost(t.patn[j], p) >= mincost
                                    else CombiCost(t.patn[k.value], p) <= CombiCost(t.patn[j], p) {
      assert costs[j] == CombiCost(t.patn[j], p);
    }
  }

  /** Which slot that is: on ties the one with the highest number, since the search counts down. */
  lemma CheapIndexExactly(t: Table, p: Pair, mincost: nat, k: nat)
    requires t.n <= |t.patn|
    ensures CheapIndex(t, p, mincost) == Some(k) <==>
      k < t.n && CombiCost(t.patn[k], p) < mincost && Cheapest(Costs(t.patn, p), t.n, k)
  {
    CheapFromSpec(Costs(t.patn, p), mincost, None, t.n, t.n);
  }

  lemma CheapestIs(t: Table, p: Pair, mincost: nat, k: nat)
    requires k < t.n <= |t.patn| && CombiCost(t.patn[k], p) < mincost
    requires forall j :: 0 <= j < t.n && j != k ==> CombiCost(t.patn[k], p) < CombiCost(t.patn[j], p)
    ensures CheapIndex(t, p, mincost) == Some(k)
  {
    CheapIndexIsCheapest(t, p, mincost);
  }

  // The table while relocateidx() hides slot idx from the search.
  function Hidden(t: Table, idx: nat): Table
    requires idx < |t.patn|
  {
    t.(patn := t.patn[idx := t.patn[idx].(adr := Not(t.patn[idx].adr))])
  }

  function RelocateIdx(t: Table, idx: nat): Option<nat>
    requires t.Valid() && idx < BADRAM_MAXPATNS
  {
    CheapIndex(Hidden(t, idx), t.patn[idx], 1 + Addresses(t.patn[idx].mask))
  }

  // One merge of relocateiffree(): slot idx goes into slot j, the last slot takes its place.
  function Merge(t: Table, idx: nat, j: nat): (r: Table)
    requires t.Valid() && idx < BADRAM_MAXPATNS && j < t.n
    ensures r.Valid() && r.n == t.n - 1
  {
    var patn := t.patn[j := Combine(t.patn[j], t.patn[idx])];
    Table(if idx < t.n - 1 then patn[idx := patn[t.n - 1]] else patn, t.n - 1)
  }

  lemma RelocateIdxActive(t: Table, idx: nat)
    requires t.Valid() && idx < BADRAM_MAXPATNS && RelocateIdx(t, idx).Some?
    ensures RelocateIdx(t, idx).value < t.n
  {
    CheapIndexIsCheapest(Hidden(t, idx), t.patn[idx], 1 + Addresses(t.patn[idx].mask));
  }

  function RelocateIfFree(t: Table, idx: nat): (r: Table)
    requires t.Valid() && idx < BADRAM_MAXPATNS
    ensures r.Valid() && r.n <= t.n
    decreases t.n
  {
    match RelocateIdx(t, idx)
    case None => t
    case Some(j) =>
      RelocateIdxActive(t, idx);
      RelocateIfFree(Merge(t, idx, j), j)
  }

  // The call of relocateiffree() that insertaddress() makes.
  function Relocation(t: Table, adr: word): (r: (Table, nat))
    requires t.Valid() && Longwords(t)
    ensures r.0.Valid() && r.1 < r.0.n
  {
    if t.n < BADRAM_MAXPATNS then
      (Table(t.patn[t.n := Word(adr)], t.n + 1), t.n)
    else
      FullTableHasCheapest(t, Word(adr));
      var idx := CheapIndex(t, Word(adr), ULONG - 1).value;
      (t.(patn := t.patn[idx := Combine(t.patn[idx], Word(adr))]), idx)
  }

  // insertaddress(): the new table and the value returned.
  function InsertAddress(t: Table, adr: word): (Table, bool)
    requires t.Valid() && Longwords(t)
  {
    if CheapIndex(t, Word(adr), 1).Some? then (t, false)
    else (RelocateIfFree(Relocation(t, adr).0, Relocation(t, adr).1), true)
  }

  // No pattern is finer than a longword.
  ghost predicate Longwords(t: Table)
    requires t.Valid()
  {
    forall i :: 0 <= i < t.n ==> Coarse(t.patn[i])
  }

  predicate Coarse(p: Pair) {
    !p.mask[0] && !p.mask[1]
  }

  lemma CoarseCost(p: Pair, q: Pair)
    requires Coarse(p)
    ensures CombiCost(p, q) < ULONG - 1
  {
    CombineZeros(p, q);
    CombiCostIsExact(p, q);
    CubeSize(p);
    CubeSize(Combine(p, q));
    PowerRange(Zeros(p.mask), Zeros(Combine(p, q).mask));
    assert p.mask == [p.mask[0]] + [p.mask[1]] + p.mask[2..];
    assert Zeros(p.mask) >= 2 by {
      assert p.mask[1..][0] == p.mask[1];
    }
    Pow2Monotone(2, Zeros(p.mask));
  }

  // So a full table always has a slot below the cost ~0L.
  lemma FullTableHasCheapest(t: Table, p: Pair)
    requires t.Valid() && Longwords(t) && t.n > 0
    ensures CheapIndex(t, p, ULONG - 1).Some? && CheapIndex(t, p, ULONG - 1).value < t.n
  {
    CheapIndexIsCheapest(t, p, ULONG - 1);
    assert Coarse(t.patn[0]);
    CoarseCost(t.patn[0], p);
  }

  // ------------------------------------------------------------------ coverage

  ghost predicate Covered(t: Table, x: word)
    requires t.Valid()
  {
    exists i :: 0 <= i < t.n && Covers(t.patn[i], x)
  }

  /** insertaddress() returns 0, and changes nothing, exactly when one pattern already holds the whole
      longword. */
  lemma InsertReturnsZeroIffHeld(t: Table, adr: word)
    requires t.Valid() && Longwords(t)
    ensures !InsertAddress(t, adr).1 <==> exists i :: 0 <= i < t.n && Within(Word(adr), t.patn[i])
    ensures !InsertAddress(t, adr).1 ==> InsertAddress(t, adr).0 == t
  {
    CheapIndexIsCheapest(t, Word(adr), 1);
    forall j | 0 <= j < t.n ensures CombiCost(t.patn[j], Word(adr)) == 0 <==> Within(Word(adr), t.patn[j]) {
      FreeMeansWithin(t.patn[j], Word(adr));
    }
  }

  // A merge that loses nothing: another slot, and not the last one, which is about to be moved or
  // dropped.
  predicate Healthy(t: Table, idx: nat, j: nat) {
    idx < t.n && j != idx && j + 1 < t.n
  }

  // Every merge of the run of relocateiffree() is healthy.
  predicate HealthyRun(t: Table, idx: nat)
    requires t.Valid() && idx < BADRAM_MAXPATNS
    decreases t.n
  {
    match RelocateIdx(t, idx)
    case None => true
    case Some(j) =>
      RelocateIdxActive(t, idx);
      Healthy(t, idx, j) && HealthyRun(Merge(t, idx, j), j)
  }

  lemma MergeCovers(t: Table, idx: nat, j: nat, x: word)
    requires t.Valid() && Healthy(t, idx, j) && Covered(t, x)
    ensures Covered(Merge(t, idx, j), x)
  {
    var i :| 0 <= i < t.n && Covers(t.patn[i], x);
    CombineIsLeast(t.patn[j], t.patn[idx], t.patn[j]);
    var k := if i == idx then j else if i == t.n - 1 then idx else i;
    assert Covers(Merge(t, idx, j).patn[k], x);
  }

  /** relocateiffree() keeps everything covered on a healthy run. */
  lemma {:induction false} RelocateKeepsCoverage(t: Table, idx: nat, x: word)
    requires t.Valid() && idx < BADRAM_MAXPATNS && HealthyRun(t, idx) && Covered(t, x)
    ensures Covered(RelocateIfFree(t, idx), x)
    decreases t.n
  {
    if RelocateIdx(t, idx).Some? {
      var j := RelocateIdx(t, idx).value;
      RelocateIdxActive(t, idx);
      MergeCovers(t, idx, j, x);
      RelocateKeepsCoverage(Merge(t, idx, j), j, x);
    }
  }

  lemma RelocationCovers(t: Table, adr: word, x: word)
    requires t.Valid() && Longwords(t) && (Covered(t, x) || Covers(Word(adr), x))
    ensures Covered(Relocation(t, adr).0, x)
  {
    var (r, idx) := Relocation(t, adr);
    if t.n == BADRAM_MAXPATNS {
      CombineIsLeast(t.patn[idx], Word(adr), Word(adr));
    }
    if Covers(Word(adr), x) {
      assert Covers(r.patn[idx], x);
    } else {
      var i :| 0 <= i < t.n && Covers(t.patn[i], x);
      assert Covers(r.patn[i], x);
    }
  }

  /** When the run of relocateiffree() is healthy, insertaddress() covers the new longword, keeps what
      was covered, and never exceeds ten patterns. */
  lemma InsertCovers(t: Table, adr: word, x: word)
    requires t.Valid() && Longwords(t)
    requires HealthyRun(Relocation(t, adr).0, Relocation(t, adr).1)
    requires Covered(t, x) || Covers(Word(adr), x)
    ensures InsertAddress(t, adr).0.Valid() && Covered(InsertAddress(t, adr).0, x)
  {
    if InsertAddress(t, adr).1 {
      RelocationCovers(t, adr, x);
      RelocateKeepsCoverage(Relocation(t, adr).0, Relocation(t, adr).1, x);
    } else {
      HeldIsCovered(t, adr, x);
    }
  }

  // ------------------------------------------------------------------ where the new longword goes

  // The addresses that p gains by taking in q.
  ghost function Gain(p: Pair, q: Pair): int {
    |Cube(Combine(p, q))| - |Cube(p)|
  }

  // c is the least pattern that holds p and q.
  ghost predicate LeastHolding(c: Pair, p: Pair, q: Pair) {
    && Within(p, c) && Within(q, c)
    && forall r: Pair :: Within(p, r) && Within(q, r) ==> Within(c, r)
  }

  // From t the longword comes to table r, at slot k: a pattern of its own while there is room, and otherwise
  // in the slot that gains least by it, the last of them on a tie.
  ghost predicate Enters(t: Table, w: Pair, r: Table, k: nat)
    requires t.Valid()
  {
    if t.n < BADRAM_MAXPATNS then
      k == t.n && r.n == t.n + 1 && r.patn == t.patn[t.n := w]
    else
      && k < t.n && r.n == t.n && |r.patn| == |t.patn|
      && (forall i :: 0 <= i < t.n && i != k ==> r.patn[i] == t.patn[i])
      && LeastHolding(r.patn[k], t.patn[k], w)
      && (forall j :: 0 <= j < t.n ==> Gain(t.patn[k], w) <= Gain(t.patn[j], w))
      && (forall j :: k < j < t.n ==> Gain(t.patn[k], w) < Gain(t.patn[j], w))
  }

  /** A longword that no pattern holds joins the table in that way, and relocation starts from there. */
  lemma InsertEnters(t: Table, adr: word)
    requires t.Valid() && Longwords(t)
    ensures Enters(t, Word(adr), Relocation(t, adr).0, Relocation(t, adr).1)
    ensures (forall i :: 0 <= i < t.n ==> !Within(Word(adr), t.patn[i])) ==>
      InsertAddress(t, adr) == (RelocateIfFree(Relocation(t, adr).0, Relocation(t, adr).1), true)
  {
    InsertReturnsZeroIffHeld(t, adr);
    if t.n == BADRAM_MAXPATNS {
      FullTableHasCheapest(t, Word(adr));
      EntersFull(t, Word(adr), ULONG - 1, Relocation(t, adr).1);
    }
  }

  lemma EntersFull(t: Table, w: Pair, bound: nat, k: nat)
    requires t.Valid() && t.n == BADRAM_MAXPATNS && CheapIndex(t, w, bound) == Some(k) && k < t.n
    ensures Enters(t, w, t.(patn := t.patn[k := Combine(t.patn[k], w)]), k)
  {
    CheapestGainsLeast(t, w, bound, k);
    CombinesLeast(t.patn[k], w);
  }

  // cheapindex() compares what the slots really gain.
  lemma CheapestGainsLeast(t: Table, w: Pair, bound: nat, k: nat)
    requires t.n <= |t.patn| && CheapIndex(t, w, bound) == Some(k)
    ensures k < t.n
    ensures forall j :: 0 <= j < t.n ==> Gain(t.patn[k], w) <= Gain(t.patn[j], w)
    ensures forall j :: k < j < t.n ==> Gain(t.patn[k], w) < Gain(t.patn[j], w)
  {
    CheapIndexExactly(t, w, bound, k);
    forall j | 0 <= j < t.n ensures Gain(t.patn[j], w) == Costs(t.patn, w)[j] {
      CombiCostIsExact(t.patn[j], w);
    }
  }

  lemma CombinesLeast(p: Pair, q: Pair)
    ensures LeastHolding(Combine(p, q), p, q)
  {
    forall r: Pair ensures Within(p, Combine(p, q)) && Within(q, Combine(p, q))
                        && (Within(p, r) && Within(q, r) ==> Within(Combine(p, q), r)) {
      CombineIsLeast(p, q, r);
    }
  }

  // ------------------------------------------------------------------ after a merge into the last slot

  // Slot idx was merged into the last slot, which was then moved to idx: the recursion goes on with the
  // number of the slot that is gone, and always finds the moved pattern, or one that holds it.
  lemma StaleSlotFound(t: Table, idx: nat) returns (k: nat)
    requires t.Valid() && idx + 1 < t.n && RelocateIdx(t, idx) == Some(t.n - 1)
    ensures var u := Merge(t, idx, t.n - 1);
      && u.patn[idx] == u.patn[t.n - 1]
      && k < u.n && RelocateIdx(u, t.n - 1) == Some(k) && Within(u.patn[t.n - 1], u.patn[k])
  {
    var u := Merge(t, idx, t.n - 1);
    var c := u.patn[t.n - 1];
    var hid := Hidden(u, t.n - 1);
    CheapIndexIsCheapest(hid, c, 1 + Addresses(c.mask));
    assert hid.patn[idx] == c;
    FreeMeansWithin(c, c);
    k := RelocateIdx(u, t.n - 1).value;
    FreeMeansWithin(u.patn[k], c);
  }

  // One of the first n patterns covers x.
  ghost predicate CoveredBy(patn: seq<Pair>, n: nat, x: word)
    requires n <= |patn|
  {
    exists i :: 0 <= i < n && Covers(patn[i], x)
  }

  // Merging a pattern into one that holds it changes nothing but the number of patterns.
  lemma StaleMergeDrops(u: Table, stale: nat, k: nat, x: word)
    requires u.Valid() && stale < BADRAM_MAXPATNS && u.n <= stale && k < u.n && Within(u.patn[stale], u.patn[k])
    ensures Covered(Merge(u, stale, k), x) <==> CoveredBy(u.patn, u.n - 1, x)
  {
    var v := Merge(u, stale, k);
    CombineIsLeast(u.patn[k], u.patn[stale], u.patn[k]);
    assert Covers(v.patn[k], x) <==> Covers(u.patn[k], x);
    forall i | 0 <= i < u.n - 1 ensures Covers(v.patn[i], x) <==> Covers(u.patn[i], x) {
    }
    if CoveredBy(u.patn, u.n - 1, x) {
      var i :| 0 <= i < u.n - 1 && Covers(u.patn[i], x);
      assert Covers(v.patn[i], x);
    }
    if Covered(v, x) {
      var i :| 0 <= i < v.n && Covers(v.patn[i], x);
      assert Covers(u.patn[i], x);
    }
  }

  // The pattern that the recursion throws away when slot idx was merged into the last slot.
  ghost predicate InDropped(t: Table, idx: nat, x: word)
    requires t.Valid() && idx + 1 < t.n
  {
    Covers(t.patn[t.n - 2], x) || (idx == t.n - 2 && Covers(t.patn[t.n - 1], x))
  }

  /** A merge into the last slot is always followed by a second one that throws the then last pattern away.
      The two together keep everything covered exactly when, between them, the patterns below the last
      cover that one's addresses. */
  lemma MergeIntoLastDrops(t: Table, idx: nat) returns (k: nat)
    requires t.Valid() && idx + 1 < t.n && RelocateIdx(t, idx) == Some(t.n - 1)
    ensures var u := Merge(t, idx, t.n - 1);
      k < u.n && RelocateIfFree(t, idx) == RelocateIfFree(Merge(u, t.n - 1, k), k)
    ensures var u := Merge(t, idx, t.n - 1);
      (forall x :: Covered(t, x) ==> Covered(Merge(u, t.n - 1, k), x))
      <==> (forall x :: InDropped(t, idx, x) ==> CoveredBy(u.patn, u.n - 1, x))
  {
    k := StaleSlotFound(t, idx);
    var u := Merge(t, idx, t.n - 1);
    var v, below := Merge(u, t.n - 1, k), u.n - 1;
    forall x ensures Covered(v, x) <==> CoveredBy(u.patn, below, x) {
      StaleMergeDrops(u, t.n - 1, k, x);
    }
    forall x ensures InDropped(t, idx, x) ==> Covered(t, x) {
      if Covers(t.patn[t.n - 2], x) {
        assert Covered(t, x);
      }
    }
    forall x | Covered(t, x) ensures InDropped(t, idx, x) || CoveredBy(u.patn, u.n - 1, x) {
      MergedSurvives(t, idx, x);
    }
  }

  lemma MergedSurvives(t: Table, idx: nat, x: word)
    requires t.Valid() && idx + 1 < t.n && Covered(t, x)
    ensures InDropped(t, idx, x) || CoveredBy(Merge(t, idx, t.n - 1).patn, t.n - 2, x)
  {
    var i :| 0 <= i < t.n && Covers(t.patn[i], x);
    if !InDropped(t, idx, x) {
      MovedCovers(t, idx, i, x);
    }
  }

  // Where a pattern is found after a merge into the last slot.
  lemma MovedCovers(t: Table, idx: nat, i: nat, x: word)
    requires t.Valid() && idx + 1 < t.n && i < t.n && Covers(t.patn[i], x)
    ensures Covers(Merge(t, idx, t.n - 1).patn[if i == t.n - 1 then idx else i], x)
  {
    CombineIsLeast(t.patn[t.n - 1], t.patn[idx], t.patn[idx]);
  }

  // ------------------------------------------------------------------ what a whole run drops

  // The pattern that one step drops: with a slot number no longer in use, the last one, since nothing is
  // moved; with a slot merged into itself, that slot's; otherwise none.
  ghost function Dropped(t: Table, idx: nat, j: nat): seq<Pair>
    requires t.Valid() && idx < BADRAM_MAXPATNS && j < t.n
  {
    if idx >= t.n then [t.patn[t.n - 1]]
    else if j == idx then [t.patn[idx]]
    else []
  }

  // All the patterns that relocateiffree() drops.
  ghost function Drops(t: Table, idx: nat): seq<Pair>
    requires t.Valid() && idx < BADRAM_MAXPATNS
    decreases t.n
  {
    match RelocateIdx(t, idx)
    case None => []
    case Some(j) =>
      RelocateIdxActive(t, idx);
      Dropped(t, idx, j) + Drops(Merge(t, idx, j), j)
  }

  ghost predicate InDrops(ds: seq<Pair>, x: word) {
    exists k :: 0 <= k < |ds| && Covers(ds[k], x)
  }

  // Where slot i is after the merge, when it is not the dropped one.
  function Kept(t: Table, idx: nat, j: nat, i: nat): nat {
    if i == idx then (if j + 1 == t.n then idx else j)
    else if i + 1 == t.n && idx < t.n then idx
    else i
  }

  lemma KeptCovers(t: Table, idx: nat, j: nat, i: nat, x: word)
    requires t.Valid() && idx < BADRAM_MAXPATNS && j < t.n && i < t.n && Covers(t.patn[i], x)
    requires if idx >= t.n then i + 1 < t.n else j != idx || i != idx
    ensures Kept(t, idx, j, i) < t.n - 1 && Covers(Merge(t, idx, j).patn[Kept(t, idx, j, i)], x)
  {
    CombineIsLeast(t.patn[j], t.patn[idx], t.patn[j]);
  }

  lemma MergeKeepsOrDrops(t: Table, idx: nat, j: nat, x: word)
    requires t.Valid() && idx < BADRAM_MAXPATNS && j < t.n && Covered(t, x)
    ensures Covered(Merge(t, idx, j), x) || InDrops(Dropped(t, idx, j), x)
  {
    var i :| 0 <= i < t.n && Covers(t.patn[i], x);
    if if idx >= t.n then i + 1 == t.n else j == idx && i == idx {
      assert Covers(Dropped(t, idx, j)[0], x);
    } else {
      KeptCovers(t, idx, j, i, x);
    }
  }

  /** Whatever the run, an address that is lost was covered by one of the dropped patterns. */
  lemma {:induction false} RunKeepsOrDrops(t: Table, idx: nat, x: word)
    requires t.Valid() && idx < BADRAM_MAXPATNS && Covered(t, x)
    ensures Covered(RelocateIfFree(t, idx), x) || InDrops(Drops(t, idx), x)
    decreases t.n
  {
    if RelocateIdx(t, idx).Some? {
      var j := RelocateIdx(t, idx).value;
      RelocateIdxActive(t, idx);
      MergeKeepsOrDrops(t, idx, j, x);
      var now, later := Dropped(t, idx, j), Drops(Merge(t, idx, j), j);
      if Covered(Merge(t, idx, j), x) {
        RunKeepsOrDrops(Merge(t, idx, j), j, x);
      }
      DropsConcat(now, later, x);
    }
  }

  lemma DropsConcat(a: seq<Pair>, b: seq<Pair>, x: word)
    ensures InDrops(a + b, x) <==> InDrops(a, x) || InDrops(b, x)
  {
    if InDrops(a, x) {
      var k :| 0 <= k < |a| && Covers(a[k], x);
      assert Covers((a + b)[k], x);
    }
    if InDrops(b, x) {
      var k :| 0 <= k < |b| && Covers(b[k], x);
      assert Covers((a + b)[|a| + k], x);
    }
    if InDrops(a + b, x) {
      var k :| 0 <= k < |a + b| && Covers((a + b)[k], x);
      assert if k < |a| then Covers(a[k], x) else Covers(b[k - |a|], x);
    }
  }

  // The slot that a merge gives up: idx, or the last one when idx is no longer in use.
  function Gone(t: Table, idx: nat): nat
    requires t.n > 0
  {
    if idx < t.n then idx else t.n - 1
  }

  // What slot i holds once idx has been merged into j.
  function After(t: Table, idx: nat, j: nat, i: nat): Pair
    requires t.Valid() && idx < BADRAM_MAXPATNS && i < t.n
  {
    if i == j then Combine(t.patn[i], t.patn[idx]) else t.patn[i]
  }

  // A slot other than the one given up covers x then.
  ghost predicate OthersCover(t: Table, idx: nat, j: nat, x: word)
    requires t.Valid() && idx < BADRAM_MAXPATNS
  {
    exists i :: 0 <= i < t.n && i != Gone(t, idx) && Covers(After(t, idx, j, i), x)
  }

  // Where the slots other than the one given up are afterwards.
  function Place(t: Table, idx: nat, i: nat): nat
    requires t.n > 0
  {
    if i == t.n - 1 then Gone(t, idx) else i
  }

  /** One merge, exactly: afterwards an address is covered when a slot other than the one given up covers
      it, the slot merged into counting with what it took in. */
  lemma StepExactly(t: Table, idx: nat, j: nat, x: word)
    requires t.Valid() && idx < BADRAM_MAXPATNS && j < t.n
    ensures Covered(Merge(t, idx, j), x) <==> OthersCover(t, idx, j, x)
  {
    var r := Merge(t, idx, j);
    forall i | 0 <= i < t.n && i != Gone(t, idx)
      ensures Place(t, idx, i) < r.n && r.patn[Place(t, idx, i)] == After(t, idx, j, i)
    {
    }
    if Covered(r, x) {
      var k :| 0 <= k < r.n && Covers(r.patn[k], x);
      var i := if k == Gone(t, idx) then t.n - 1 else k;
      assert Place(t, idx, i) == k;
    }
  }

  // The merge loses nothing: what it drops, the other slots cover.
  ghost predicate LosslessStep(t: Table, idx: nat, j: nat)
    requires t.Valid() && idx < BADRAM_MAXPATNS && j < t.n
  {
    forall x :: InDrops(Dropped(t, idx, j), x) ==> OthersCover(t, idx, j, x)
  }

  // No merge of the run of relocateiffree() loses anything.
  ghost predicate Lossless(t: Table, idx: nat)
    requires t.Valid() && idx < BADRAM_MAXPATNS
    decreases t.n
  {
    match RelocateIdx(t, idx)
    case None => true
    case Some(j) =>
      RelocateIdxActive(t, idx);
      LosslessStep(t, idx, j) && Lossless(Merge(t, idx, j), j)
  }

  // r covers what t covers.
  ghost predicate CoversAll(r: Table, t: Table)
    requires r.Valid() && t.Valid()
  {
    forall x :: Covered(t, x) ==> Covered(r, x)
  }

  // No table of the run covers less than the one before it.
  ghost predicate NeverLess(t: Table, idx: nat)
    requires t.Valid() && idx < BADRAM_MAXPATNS
    decreases t.n
  {
    match RelocateIdx(t, idx)
    case None => true
    case Some(j) =>
      RelocateIdxActive(t, idx);
      CoversAll(Merge(t, idx, j), t) && NeverLess(Merge(t, idx, j), j)
  }

  /** One merge keeps everything covered exactly when the other slots cover what it drops. */
  lemma LosslessStepExactly(t: Table, idx: nat, j: nat)
    requires t.Valid() && idx < BADRAM_MAXPATNS && j < t.n
    ensures CoversAll(Merge(t, idx, j), t) <==> LosslessStep(t, idx, j)
  {
    forall x
      ensures Covered(Merge(t, idx, j), x) <==> OthersCover(t, idx, j, x)
      ensures Covered(t, x) && !InDrops(Dropped(t, idx, j), x) ==> Covered(Merge(t, idx, j), x)
      ensures InDrops(Dropped(t, idx, j), x) ==> Covered(t, x)
    {
      StepExactly(t, idx, j, x);
      if Covered(t, x) {
        MergeKeepsOrDrops(t, idx, j, x);
      }
    }
  }

  /** No table of a run covers less than the one before it exactly when at every merge the slots that stay
      cover what is dropped; and then the run keeps everything covered. */
  lemma {:induction false} RunCoverageExactly(t: Table, idx: nat)
    requires t.Valid() && idx < BADRAM_MAXPATNS
    ensures NeverLess(t, idx) <==> Lossless(t, idx)
    ensures Lossless(t, idx) ==> CoversAll(RelocateIfFree(t, idx), t)
    decreases t.n
  {
    if RelocateIdx(t, idx).Some? {
      var j := RelocateIdx(t, idx).value;
      RelocateIdxActive(t, idx);
      LosslessStepExactly(t, idx, j);
      RunCoverageExactly(Merge(t, idx, j), j);
    }
  }

  /** And a run drops nothing exactly when every merge goes into another slot that is not the last. */
  lemma {:induction false} DropsNothingExactly(t: Table, idx: nat)
    requires t.Valid() && idx < t.n
    ensures Drops(t, idx) == [] <==> HealthyRun(t, idx)
    decreases t.n
  {
    if RelocateIdx(t, idx).Some? {
      var j := RelocateIdx(t, idx).value;
      RelocateIdxActive(t, idx);
      if Healthy(t, idx, j) {
        DropsNothingExactly(Merge(t, idx, j), j);
      } else if j != idx {
        var k := StaleSlotFound(t, idx);
        assert Dropped(Merge(t, idx, j), j, k) != [];
      }
    }
  }

  // What insertaddress() drops.
  ghost function InsertDrops(t: Table, adr: word): seq<Pair>
    requires t.Valid() && Longwords(t)
  {
    if InsertAddress(t, adr).1 then Drops(Relocation(t, adr).0, Relocation(t, adr).1) else []
  }

  /** insertaddress() covers the new longword and keeps what was covered, but for addresses that one of the
      dropped patterns covered. */
  lemma InsertKeepsOrDrops(t: Table, adr: word, x: word)
    requires t.Valid() && Longwords(t) && (Covered(t, x) || Covers(Word(adr), x))
    ensures Covered(InsertAddress(t, adr).0, x) || InDrops(InsertDrops(t, adr), x)
  {
    if InsertAddress(t, adr).1 {
      RelocationCovers(t, adr, x);
      RunKeepsOrDrops(Relocation(t, adr).0, Relocation(t, adr).1, x);
    } else {
      HeldIsCovered(t, adr, x);
    }
  }

  // No merge of insertaddress() loses anything.
  ghost predicate InsertLossless(t: Table, adr: word)
    requires t.Valid() && Longwords(t)
  {
    InsertAddress(t, adr).1 ==> Lossless(Relocation(t, adr).0, Relocation(t, adr).1)
  }

  // No table of its run covers less than the one before it.
  ghost predicate InsertNeverLess(t: Table, adr: word)
    requires t.Valid() && Longwords(t)
  {
    InsertAddress(t, adr).1 ==> NeverLess(Relocation(t, adr).0, Relocation(t, adr).1)
  }

  /** So it is never without an address it knew, or the new one, exactly when at every merge the slots that
      stay cover what is dropped; and then they are all covered in the end. */
  lemma InsertCoverageExactly(t: Table, adr: word)
    requires t.Valid() && Longwords(t)
    ensures InsertNeverLess(t, adr) <==> InsertLossless(t, adr)
    ensures InsertLossless(t, adr) ==> forall x :: Covered(t, x) || Covers(Word(adr), x) ==> Covered(InsertAddress(t, adr).0, x)
  {
    RunCoverageExactly(Relocation(t, adr).0, Relocation(t, adr).1);
    if InsertLossless(t, adr) {
      forall x | Covered(t, x) || Covers(Word(adr), x) ensures Covered(InsertAddress(t, adr).0, x) {
        LosslessCovers(t, adr, x);
      }
    }
  }

  lemma LosslessCovers(t: Table, adr: word, x: word)
    requires t.Valid() && Longwords(t) && InsertLossless(t, adr) && (Covered(t, x) || Covers(Word(adr), x))
    ensures Covered(InsertAddress(t, adr).0, x)
  {
    if InsertAddress(t, adr).1 {
      RelocationCovers(t, adr, x);
      RunCoverageExactly(Relocation(t, adr).0, Relocation(t, adr).1);
    } else {
      HeldIsCovered(t, adr, x);
    }
  }

  lemma HeldIsCovered(t: Table, adr: word, x: word)
    requires t.Valid() && Longwords(t) && !InsertAddress(t, adr).1 && (Covered(t, x) || Covers(Word(adr), x))
    ensures Covered(t, x)
  {
    InsertReturnsZeroIffHeld(t, adr);
    if Covers(Word(adr), x) {
      var i :| 0 <= i < t.n && Within(Word(adr), t.patn[i]);
      assert Covers(t.patn[i], x);
    }
  }

  // ------------------------------------------------------------------ when a merge is free

  // The number of addresses of all patterns together.
  ghost function TotalSize(patn: seq<Pair>, n: nat): nat
    requires n <= |patn|
  {
    if n == 0 then 0 else TotalSize(patn, n - 1) + |Cube(patn[n - 1])|
  }

  lemma {:induction false} TotalUpdate(patn: seq<Pair>, n: nat, k: nat, p: Pair)
    requires n <= |patn| && k < |patn|
    ensures TotalSize(patn[k := p], n) == TotalSize(patn, n) + (if k < n then |Cube(p)| - |Cube(patn[k])| else 0)
  {
    if n != 0 {
      TotalUpdate(patn, n - 1, k, p);
    }
  }

  lemma ChosenIsCheap(t: Table, idx: nat, j: nat)
    requires t.Valid() && idx < BADRAM_MAXPATNS && RelocateIdx(t, idx) == Some(j) && j != idx
    ensures j < t.n && CombiCost(t.patn[j], t.patn[idx]) <= Addresses(t.patn[idx].mask)
  {
    CheapIndexIsCheapest(Hidden(t, idx), t.patn[idx], 1 + Addresses(t.patn[idx].mask));
    assert Hidden(t, idx).patn[j] == t.patn[j];
  }

  lemma CheapGain(p: Pair, q: Pair)
    requires CombiCost(p, q) <= Addresses(q.mask)
    ensures |Cube(Combine(p, q))| <= |Cube(p)| + |Cube(q)|
  {
    CombiCostIsExact(p, q);
    CubeSize(q);
    AddressesValue(q.mask);
  }

  /** A healthy merge is free of charge: the patterns together do not grow. */
  lemma MergeIsFree(t: Table, idx: nat, j: nat)
    requires t.Valid() && idx < BADRAM_MAXPATNS && RelocateIdx(t, idx) == Some(j) && Healthy(t, idx, j)
    ensures TotalSize(Merge(t, idx, j).patn, t.n - 1) <= TotalSize(t.patn, t.n)
  {
    ChosenIsCheap(t, idx, j);
    CheapGain(t.patn[j], t.patn[idx]);
    MergeTotal(t, idx, j);
  }

  lemma MergeTotal(t: Table, idx: nat, j: nat)
    requires t.Valid() && idx < BADRAM_MAXPATNS && Healthy(t, idx, j)
    ensures TotalSize(Merge(t, idx, j).patn, t.n - 1) == TotalSize(t.patn, t.n)
      + |Cube(Combine(t.patn[j], t.patn[idx]))| - |Cube(t.patn[j])| - |Cube(t.patn[idx])|
  {
    MovedTotal(t.patn, t.n, idx, j, Combine(t.patn[j], t.patn[idx]), Merge(t, idx, j).patn);
  }

  lemma MovedTotal(patn: seq<Pair>, n: nat, idx: nat, j: nat, c: Pair, moved: seq<Pair>)
    requires idx < n <= |patn| && j < n - 1 && j != idx
    requires moved == if idx < n - 1 then patn[j := c][idx := patn[n - 1]] else patn[j := c]
    ensures TotalSize(moved, n - 1) == TotalSize(patn, n) + |Cube(c)| - |Cube(patn[j])| - |Cube(patn[idx])|
  {
    TotalUpdate(patn, n, j, c);
    TotalUpdate(patn[j := c], n - 1, idx, patn[n - 1]);
    assert patn[j := c][n - 1] == patn[n - 1];
  }

  // What the hidden slot itself would cost: its complemented address agrees with the address nowhere, so
  // the two combine to the whole address space.
  function SelfCost(p: Pair): nat {
    if Zeros(p.mask) == WIDTH then 0 else ULONG - Addresses(p.mask)
  }

  lemma HiddenCost(t: Table, idx: nat)
    requires t.Valid() && idx < BADRAM_MAXPATNS
    ensures CombiCost(Hidden(t, idx).patn[idx], t.patn[idx]) == SelfCost(t.patn[idx])
  {
    var p, h := t.patn[idx], Hidden(t, idx).patn[idx];
    forall i | 0 <= i < WIDTH ensures !Combine(h, p).mask[i] {
      CombineBits(h, p, i);
    }
    AllClear(Combine(h, p).mask);
    CombiCostIsExact(h, p);
    CubeSize(h);
    CubeSize(Combine(h, p));
    AddressesValue(p.mask);
    Pow2Of32(32);
  }

  lemma SelfCostBelow(p: Pair)
    ensures SelfCost(p) < 1 + Addresses(p.mask) <==> Zeros(p.mask) >= 31
  {
    AddressesValue(p.mask);
    HalfPower(Zeros(p.mask));
  }

  // No other pattern is cheaper to combine with p than p's own hidden slot, nor, at a higher number, as
  // cheap.
  ghost predicate OthersAreDearer(t: Table, idx: nat, p: Pair)
    requires t.n <= |t.patn|
  {
    forall j :: 0 <= j < t.n && j != idx ==>
      SelfCost(p) <= CombiCost(t.patn[j], p) && (j > idx ==> SelfCost(p) < CombiCost(t.patn[j], p))
  }

  lemma OthersKeepTheirCost(t: Table, idx: nat, p: Pair)
    requires t.Valid() && idx < t.n && CombiCost(Hidden(t, idx).patn[idx], p) == SelfCost(p)
    ensures Cheapest(Costs(Hidden(t, idx).patn, p), t.n, idx) <==> OthersAreDearer(t, idx, p)
  {
    var costs := Costs(Hidden(t, idx).patn, p);
    forall j | 0 <= j < t.n && j != idx ensures costs[j] == CombiCost(t.patn[j], p) {
    }
  }

  /** relocateidx() means never to select the slot it relocates, by hiding it behind its complemented
      address.  It selects it exactly when the slot is in use, its mask has fewer than two bits set, and no
      other pattern is cheaper to combine with, nor, at a higher number, as cheap. */
  lemma SelectsItselfExactly(t: Table, idx: nat)
    requires t.Valid() && idx < BADRAM_MAXPATNS
    ensures RelocateIdx(t, idx) == Some(idx) <==>
      idx < t.n && Zeros(t.patn[idx].mask) >= 31 && OthersAreDearer(t, idx, t.patn[idx])
  {
    var p := t.patn[idx];
    HiddenCost(t, idx);
    SelfCostBelow(p);
    CheapIndexExactly(Hidden(t, idx), p, 1 + Addresses(p.mask), idx);
    if idx < t.n {
      OthersKeepTheirCost(t, idx, p);
    }
  }

  // Among the other slots in use k gains least by taking in slot idx, the last of them on a tie, and no more
  // than the addresses of slot idx itself.
  ghost predicate GainsLeast(t: Table, idx: nat, k: nat)
    requires t.Valid() && idx < BADRAM_MAXPATNS
  {
    var p := t.patn[idx];
    && k < t.n && k != idx && Gain(t.patn[k], p) <= |Cube(p)|
    && forall j :: 0 <= j < t.n && j != idx ==>
         Gain(t.patn[k], p) <= Gain(t.patn[j], p) && (j > k ==> Gain(t.patn[k], p) < Gain(t.patn[j], p))
  }

  // The last of the cheapest slots but idx, and below the bound.
  ghost predicate CheapestBut(costs: seq<nat>, n: nat, idx: nat, bound: nat, k: nat)
    requires n <= |costs|
  {
    && k < n && k != idx && costs[k] < bound
    && forall j :: 0 <= j < n && j != idx ==> costs[k] <= costs[j] && (j > k ==> costs[k] < costs[j])
  }

  // A slot that costs the bound or more is out of the search.
  lemma CheapestOfOthers(costs: seq<nat>, n: nat, idx: nat, bound: nat, k: nat)
    requires n <= |costs| && (idx < n ==> costs[idx] >= bound)
    ensures k < n && costs[k] < bound && Cheapest(costs, n, k) <==> CheapestBut(costs, n, idx, bound, k)
  {
  }

  /** A slot whose mask has two or more bits set relocates to slot k exactly when k gains least by it, and
      never to itself. */
  lemma RelocatesExactly(t: Table, idx: nat, k: nat)
    requires t.Valid() && idx < BADRAM_MAXPATNS && Zeros(t.patn[idx].mask) < 31
    ensures RelocateIdx(t, idx) == Some(k) <==> GainsLeast(t, idx, k)
  {
    var p := t.patn[idx];
    RelocatesToCheapest(t, idx, k);
    CubeSize(p);
    AddressesValue(p.mask);
    CheapestIsGainsLeast(t, idx, k);
  }

  lemma RelocatesToCheapest(t: Table, idx: nat, k: nat)
    requires t.Valid() && idx < BADRAM_MAXPATNS && Zeros(t.patn[idx].mask) < 31
    ensures RelocateIdx(t, idx) == Some(k) <==>
      CheapestBut(Costs(Hidden(t, idx).patn, t.patn[idx]), t.n, idx, 1 + Addresses(t.patn[idx].mask), k)
  {
    var p, hid := t.patn[idx], Hidden(t, idx);
    var costs := Costs(hid.patn, p);
    HiddenCost(t, idx);
    SelfCostBelow(p);
    assert costs[idx] == SelfCost(p);
    CheapIndexExactly(hid, p, 1 + Addresses(p.mask), k);
    CheapestOfOthers(costs, t.n, idx, 1 + Addresses(p.mask), k);
  }

  lemma CheapestIsGainsLeast(t: Table, idx: nat, k: nat)
    requires t.Valid() && idx < BADRAM_MAXPATNS
    ensures CheapestBut(Costs(Hidden(t, idx).patn, t.patn[idx]), t.n, idx, 1 + |Cube(t.patn[idx])|, k) <==> GainsLeast(t, idx, k)
  {
    HiddenGains(t, idx);
  }

  lemma HiddenGains(t: Table, idx: nat)
    requires t.Valid() && idx < BADRAM_MAXPATNS
    ensures forall j :: 0 <= j < t.n && j != idx ==> Costs(Hidden(t, idx).patn, t.patn[idx])[j] == Gain(t.patn[j], t.patn[idx])
  {
    forall j | 0 <= j < t.n && j != idx
      ensures Costs(Hidden(t, idx).patn, t.patn[idx])[j] == Gain(t.patn[j], t.patn[idx])
    {
      CombiCostIsExact(t.patn[j], t.patn[idx]);
    }
  }

  /** In particular the only pattern of a table relocates into itself exactly when its mask has fewer than
      two bits set. */
  lemma OnlyPatternSelectsItself(t: Table)
    requires t.Valid() && t.n == 1
    ensures RelocateIdx(t, 0) == Some(0) <==> Zeros(t.patn[0].mask) >= 31
  {
    SelectsItselfExactly(t, 0);
  }

  /** Merging a slot into itself drops its pattern and nothing else. */
  lemma SelfMergeDrops(t: Table, idx: nat, x: word)
    requires t.Valid() && idx < t.n
    ensures Covered(Merge(t, idx, idx), x) <==> exists i :: 0 <= i < t.n && i != idx && Covers(t.patn[i], x)
  {
    var v := Merge(t, idx, idx);
    if Covered(v, x) {
      var k :| 0 <= k < v.n && Covers(v.patn[k], x);
      var i := if k == idx then t.n - 1 else k;
      assert i != idx && Covers(t.patn[i], x);
    }
    if exists i :: 0 <= i < t.n && i != idx && Covers(t.patn[i], x) {
      var i :| 0 <= i < t.n && i != idx && Covers(t.patn[i], x);
      assert Covers(v.patn[if i == t.n - 1 then idx else i], x);
    }
  }

  lemma {:induction false} AllClear(m: seq<bool>)
    requires forall i :: 0 <= i < |m| ==> !m[i]
    ensures Zeros(m) == |m|
  {
    if m != [] {
      AllClear(m[1..]);
    }
  }

  lemma HalfPower(z: nat)
    ensures z == 31 ==> Pow2(z) == ULONG / 2
    ensures z < 31 ==> Pow2(z) <= ULONG / 4
  {
    var n := 32;
    Pow2Of32(n);
    assert 2 * Pow2(n - 1) == Pow2(n);
    if z < 31 {
      Pow2Monotone(z, n - 1);
    }
  }

  // ------------------------------------------------------------------ what every call keeps

  lemma {:induction false} RelocateKeepsLongwords(t: Table, idx: nat)
    requires t.Valid() && Longwords(t) && idx < BADRAM_MAXPATNS
    ensures Longwords(RelocateIfFree(t, idx))
    decreases t.n
  {
    if RelocateIdx(t, idx).Some? {
      var j := RelocateIdx(t, idx).value;
      RelocateIdxActive(t, idx);
      CombineBits(t.patn[j], t.patn[idx], 0);
      CombineBits(t.patn[j], t.patn[idx], 1);
      RelocateKeepsLongwords(Merge(t, idx, j), j);
    }
  }

  lemma RelocationLongwords(t: Table, adr: word)
    requires t.Valid() && Longwords(t)
    ensures Longwords(Relocation(t, adr).0)
  {
    var (r, idx) := Relocation(t, adr);
    forall i | 0 <= i < r.n ensures Coarse(r.patn[i]) {
      if i == idx && t.n == BADRAM_MAXPATNS {
        assert Coarse(t.patn[i]);
        CombineBits(t.patn[idx], Word(adr), 0);
        CombineBits(t.patn[idx], Word(adr), 1);
      } else if i != idx {
        assert Coarse(t.patn[i]);
      }
    }
  }

  /** Starting from an empty table, insertaddress() can be called for ever. */
  lemma InsertKeepsLongwords(t: Table, adr: word)
    requires t.Valid() && Longwords(t)
    ensures InsertAddress(t, adr).0.Valid() && Longwords(InsertAddress(t, adr).0)
  {
    if InsertAddress(t, adr).1 {
      RelocationLongwords(t, adr);
      RelocateKeepsLongwords(Relocation(t, adr).0, Relocation(t, adr).1);
    }
  }
}
