/**
  What a whole run of relocateiffree() in patn.c of memtest86+ leaves of a table, said of the patterns before
  the run: every pattern that is left joins some of them, and some of them may be in none.
 */
module PatternOrigins {
  import opened Cubes
  import opened BadRam

  // ------------------------------------------------------------------ joins

  // p says nothing of the bit, or has it like x.
  predicate Admits(p: Pair, x: word, bit: nat)
    requires bit < WIDTH
  {
    p.mask[bit] ==> p.adr[bit] == x[bit]
  }

  // At this bit some pattern of the group admits x.
  ghost predicate SomeAdmits(patn: seq<Pair>, group: set<nat>, x: word, bit: nat)
    requires bit < WIDTH
  {
    exists i :: i in group && i < |patn| && Admits(patn[i], x, bit)
  }

  // The least pattern that holds the patterns of the group covers x.
  ghost predicate InJoin(patn: seq<Pair>, group: set<nat>, x: word) {
    forall bit :: 0 <= bit < WIDTH ==> SomeAdmits(patn, group, x, bit)
  }

  // At every bit p admits what some pattern of the group admits.
  ghost predicate Joins(patn: seq<Pair>, group: set<nat>, p: Pair) {
    forall x: word, bit :: 0 <= bit < WIDTH ==> (Admits(p, x, bit) <==> SomeAdmits(patn, group, x, bit))
  }

  lemma JoinCovers(patn: seq<Pair>, group: set<nat>, p: Pair, x: word)
    requires Joins(patn, group, p)
    ensures Covers(p, x) <==> InJoin(patn, group, x)
  {
    if InJoin(patn, group, x) {
      forall bit | 0 <= bit < WIDTH && p.mask[bit] ensures x[bit] == p.adr[bit] {
        assert SomeAdmits(patn, group, x, bit);
        assert Admits(p, x, bit);
      }
    }
    if Covers(p, x) {
      forall bit | 0 <= bit < WIDTH ensures SomeAdmits(patn, group, x, bit) {
        assert Admits(p, x, bit);
      }
    }
  }

  lemma CombineAdmits(p: Pair, q: Pair, x: word, bit: nat)
    requires bit < WIDTH
    ensures Admits(Combine(p, q), x, bit) <==> Admits(p, x, bit) || Admits(q, x, bit)
  {
    CombineBits(p, q, bit);
  }

  lemma CombineJoins(patn: seq<Pair>, g: set<nat>, p: Pair, h: set<nat>, q: Pair)
    requires Joins(patn, g, p) && Joins(patn, h, q)
    ensures Joins(patn, g + h, Combine(p, q))
  {
    forall x: word, bit | 0 <= bit < WIDTH
      ensures Admits(Combine(p, q), x, bit) <==> SomeAdmits(patn, g + h, x, bit)
    {
      CombineAdmits(p, q, x, bit);
      assert Admits(p, x, bit) <==> SomeAdmits(patn, g, x, bit);
      assert Admits(q, x, bit) <==> SomeAdmits(patn, h, x, bit);
    }
  }

  // A pattern lies in the join of every group it belongs to.
  lemma MemberInJoin(patn: seq<Pair>, group: set<nat>, i: nat, x: word)
    requires i in group && i < |patn| && Covers(patn[i], x)
    ensures InJoin(patn, group, x)
  {
    forall bit | 0 <= bit < WIDTH ensures SomeAdmits(patn, group, x, bit) {
      assert Admits(patn[i], x, bit);
    }
  }

  // ------------------------------------------------------------------ where the patterns go

  // For each slot, the slots of the table before the run whose patterns it joins now.
  ghost predicate Groups(gs: seq<set<nat>>) {
    |gs| == BADRAM_MAXPATNS
  }

  // The bookkeeping of one merge.
  ghost function MergeGroups(gs: seq<set<nat>>, n: nat, idx: nat, j: nat): (r: seq<set<nat>>)
    requires Groups(gs) && idx < BADRAM_MAXPATNS && j < n <= BADRAM_MAXPATNS
    ensures Groups(r)
  {
    var hs := gs[j := gs[j] + gs[idx]];
    if idx < n - 1 then hs[idx := hs[n - 1]] else hs
  }

  // The groups of the slots that are left in the end.
  ghost function Left(t: Table, idx: nat, gs: seq<set<nat>>): seq<set<nat>>
    requires t.Valid() && idx < BADRAM_MAXPATNS && Groups(gs)
    decreases t.n
  {
    match RelocateIdx(t, idx)
    case None => gs[..t.n]
    case Some(j) =>
      RelocateIdxActive(t, idx);
      Left(Merge(t, idx, j), j, MergeGroups(gs, t.n, idx, j))
  }

  ghost function Origins(t: Table, idx: nat): seq<set<nat>>
    requires t.Valid() && idx < BADRAM_MAXPATNS
  {
    Left(t, idx, seq(BADRAM_MAXPATNS, i => {i}))
  }

  ghost predicate AllJoin(patn: seq<Pair>, gs: seq<set<nat>>, t: Table)
    requires Groups(gs) && t.Valid()
  {
    forall k :: 0 <= k < BADRAM_MAXPATNS ==> Joins(patn, gs[k], t.patn[k])
  }

  lemma SingletonJoins(patn: seq<Pair>, i: nat)
    requires i < |patn|
    ensures Joins(patn, {i}, patn[i])
  {
  }

  lemma MergeJoins(patn: seq<Pair>, gs: seq<set<nat>>, t: Table, idx: nat, j: nat)
    requires Groups(gs) && t.Valid() && AllJoin(patn, gs, t) && idx < BADRAM_MAXPATNS && j < t.n
    ensures AllJoin(patn, MergeGroups(gs, t.n, idx, j), Merge(t, idx, j))
  {
    CombineJoins(patn, gs[j], t.patn[j], gs[idx], t.patn[idx]);
  }

  ghost predicate InSome(patn: seq<Pair>, gs: seq<set<nat>>, x: word) {
    exists k :: 0 <= k < |gs| && InJoin(patn, gs[k], x)
  }

  lemma {:induction false} LeftCovers(patn: seq<Pair>, t: Table, idx: nat, gs: seq<set<nat>>, x: word)
    requires t.Valid() && idx < BADRAM_MAXPATNS && Groups(gs) && AllJoin(patn, gs, t)
    ensures Covered(RelocateIfFree(t, idx), x) <==> InSome(patn, Left(t, idx, gs), x)
    decreases t.n
  {
    if RelocateIdx(t, idx).Some? {
      var j := RelocateIdx(t, idx).value;
      RelocateIdxActive(t, idx);
      MergeJoins(patn, gs, t, idx, j);
      LeftCovers(patn, Merge(t, idx, j), j, MergeGroups(gs, t.n, idx, j), x);
    } else {
      forall k | 0 <= k < t.n ensures Covers(t.patn[k], x) <==> InJoin(patn, gs[..t.n][k], x) {
        JoinCovers(patn, gs[k], t.patn[k], x);
      }
    }
  }

  /** After the run an address is covered exactly when it lies in the join of one of the groups. */
  lemma RunCovers(t: Table, idx: nat, x: word)
    requires t.Valid() && idx < BADRAM_MAXPATNS
    ensures Covered(RelocateIfFree(t, idx), x) <==> InSome(t.patn, Origins(t, idx), x)
  {
    forall i | 0 <= i < BADRAM_MAXPATNS ensures Joins(t.patn, {i}, t.patn[i]) {
      SingletonJoins(t.patn, i);
    }
    LeftCovers(t.patn, t, idx, seq(BADRAM_MAXPATNS, i => {i}), x);
  }

  // A pattern that no group has.
  ghost predicate Orphan(t: Table, idx: nat, i: nat)
    requires t.Valid() && idx < BADRAM_MAXPATNS
  {
    i < t.n && forall k :: 0 <= k < |Origins(t, idx)| ==> i !in Origins(t, idx)[k]
  }

  // Its addresses lie in the joins of the groups.
  ghost predicate OrphanHeld(t: Table, idx: nat, i: nat)
    requires t.Valid() && idx < BADRAM_MAXPATNS && i < t.n
  {
    forall x :: Covers(t.patn[i], x) ==> InSome(t.patn, Origins(t, idx), x)
  }

  /** Whatever becomes of it on the way, a run keeps everything covered in the end exactly when the joins of
      the groups hold the patterns that are in no group. */
  lemma RunKeepsAllExactly(t: Table, idx: nat)
    requires t.Valid() && idx < BADRAM_MAXPATNS
    ensures CoversAll(RelocateIfFree(t, idx), t)
       <==> forall i :: 0 <= i < t.n && Orphan(t, idx, i) ==> OrphanHeld(t, idx, i)
  {
    var r := RelocateIfFree(t, idx);
    forall x ensures Covered(r, x) <==> InSome(t.patn, Origins(t, idx), x) {
      RunCovers(t, idx, x);
    }
    if CoversAll(r, t) {
      forall i | 0 <= i < t.n && Orphan(t, idx, i) ensures OrphanHeld(t, idx, i) {
        assert forall x :: Covers(t.patn[i], x) ==> Covered(t, x);
      }
    }
    if forall i :: 0 <= i < t.n && Orphan(t, idx, i) ==> OrphanHeld(t, idx, i) {
      forall x | Covered(t, x) ensures Covered(r, x) {
        var i :| 0 <= i < t.n && Covers(t.patn[i], x);
        if !Orphan(t, idx, i) {
          var k :| 0 <= k < |Origins(t, idx)| && i in Origins(t, idx)[k];
          MemberInJoin(t.patn, Origins(t, idx)[k], i, x);
        }
      }
    }
  }

  // ------------------------------------------------------------------ insertaddress

  // Before the run of insertaddress() slot i stands for its own pattern and, when it is the one relocated,
  // for the new longword.
  ghost predicate StandsFor(t: Table, adr: word, i: nat, x: word)
    requires t.Valid() && Longwords(t)
  {
    (i < t.n && Covers(t.patn[i], x)) || (i == Relocation(t, adr).1 && Covers(Word(adr), x))
  }

  lemma StandsForCovered(t: Table, adr: word, i: nat, x: word)
    requires t.Valid() && Longwords(t) && StandsFor(t, adr, i, x)
    ensures i < Relocation(t, adr).0.n && Covers(Relocation(t, adr).0.patn[i], x)
  {
    if t.n == BADRAM_MAXPATNS {
      var idx := Relocation(t, adr).1;
      CombineIsLeast(t.patn[idx], Word(adr), Word(adr));
    }
  }

  ghost predicate InsertOrphanHeld(t: Table, adr: word, i: nat)
    requires t.Valid() && Longwords(t)
  {
    var (r, idx) := Relocation(t, adr);
    forall x :: StandsFor(t, adr, i, x) ==> InSome(r.patn, Origins(r, idx), x)
  }

  ghost predicate InsertOrphansHeld(t: Table, adr: word)
    requires t.Valid() && Longwords(t)
  {
    var (r, idx) := Relocation(t, adr);
    forall i :: 0 <= i < r.n && Orphan(r, idx, i) ==> InsertOrphanHeld(t, adr, i)
  }

  /** insertaddress() keeps everything covered, and covers the new longword, exactly when one pattern held it
      already or the joins of the groups hold what the slots in no group stand for. */
  lemma InsertKeepsAllExactly(t: Table, adr: word)
    requires t.Valid() && Longwords(t)
    ensures (forall x :: Covered(t, x) || Covers(Word(adr), x) ==> Covered(InsertAddress(t, adr).0, x))
       <==> (!InsertAddress(t, adr).1 || InsertOrphansHeld(t, adr))
  {
    var (r, idx) := Relocation(t, adr);
    if !InsertAddress(t, adr).1 {
      forall x | Covered(t, x) || Covers(Word(adr), x) ensures Covered(t, x) {
        HeldIsCovered(t, adr, x);
      }
    } else {
      forall x ensures Covered(RelocateIfFree(r, idx), x) <==> InSome(r.patn, Origins(r, idx), x) {
        RunCovers(r, idx, x);
      }
      if InsertOrphansHeld(t, adr) {
        forall x | Covered(t, x) || Covers(Word(adr), x) ensures InSome(r.patn, Origins(r, idx), x) {
          InsertedIsHeld(t, adr, x);
        }
      }
    }
  }

  lemma InsertedIsHeld(t: Table, adr: word, x: word)
    requires t.Valid() && Longwords(t) && (Covered(t, x) || Covers(Word(adr), x))
    requires InsertOrphansHeld(t, adr)
    ensures InSome(Relocation(t, adr).0.patn, Origins(Relocation(t, adr).0, Relocation(t, adr).1), x)
  {
    var (r, idx) := Relocation(t, adr);
    var i := idx;
    if Covered(t, x) {
      i :| 0 <= i < t.n && Covers(t.patn[i], x);
    }
    assert StandsFor(t, adr, i, x);
    StandsForCovered(t, adr, i, x);
    if Orphan(r, idx, i) {
      assert InsertOrphanHeld(t, adr, i);
    } else {
      var k :| 0 <= k < |Origins(r, idx)| && i in Origins(r, idx)[k];
      MemberInJoin(r.patn, Origins(r, idx)[k], i, x);
    }
  }
}
