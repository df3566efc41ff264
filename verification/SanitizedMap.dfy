/** What the result of sanitize_e820_map means: when it preserves the meaning of a map, and that a
    second run changes nothing. */
module SanitizedMap {
  import opened E820
  import opened Sanitize

  // At address a no empty entry claims more than the entries that cover a.
  ghost predicate Undisturbed(m: seq<Entry>, a: nat) {
    forall i :: 0 <= i < |m| && m[i].size == 0 && m[i].addr <= a ==> m[i].typ <= TypeAt(m, a)
  }

  lemma ReachedIsType(m: seq<Entry>, a: nat)
    ensures ReachedAt(m, a) == TypeAt(m, a) <==> Undisturbed(m, a)
  {
    ReachedAtSpec(m, a);
    TypeAtSpec(m, a);
    assert forall i :: 0 <= i < |m| && Covers(m[i], a) ==> Reaches(m[i], a);
    if Undisturbed(m, a) && ReachedAt(m, a) != 0 {
      var i :| 0 <= i < |m| && Reaches(m[i], a) && m[i].typ == ReachedAt(m, a);
      assert m[i].size != 0 ==> Covers(m[i], a);
    }
    if ReachedAt(m, a) == TypeAt(m, a) {
      forall i | 0 <= i < |m| && m[i].size == 0 && m[i].addr <= a ensures m[i].typ <= TypeAt(m, a) {
        assert Reaches(m[i], a);
      }
    }
  }

  lemma CutIsUnique(m: seq<Entry>, c: nat, d: nat)
    requires IsCut(m, c) && IsCut(m, d)
    ensures c == d
  {
  }

  lemma NothingAbove(m: seq<Entry>, a: nat)
    requires LastPoint(m) <= a
    ensures TypeAt(m, a) == 0
  {
    LastPointSpec(m);
    NoneCovers(m, a);
  }

  lemma SanitizedTypeAt(m: seq<Entry>, out: seq<Entry>, cut: nat, a: nat)
    requires SanitizedBelow(m, out, cut)
    ensures TypeAt(out, a) == if a < cut then ReachedAt(m, a) else 0
  {
    if cut <= a {
      NoneCovers(out, a);
    }
  }

  // Every address has the same type in both maps.
  ghost predicate SameMeaning(m: seq<Entry>, out: seq<Entry>) {
    forall a: nat :: TypeAt(out, a) == TypeAt(m, a)
  }

  // What a caller would check of the old map: below the cut nothing is disturbed, above it nothing is
  // covered.
  ghost predicate Harmless(m: seq<Entry>, cut: nat) {
    forall a: nat :: HarmlessAt(m, cut, a)
  }

  ghost predicate HarmlessAt(m: seq<Entry>, cut: nat, a: nat) {
    if a < cut then Undisturbed(m, a) else TypeAt(m, a) == 0
  }

  lemma HarmlessIsSame(m: seq<Entry>, out: seq<Entry>, cut: nat, a: nat)
    requires SanitizedBelow(m, out, cut)
    ensures TypeAt(out, a) == TypeAt(m, a) <==> HarmlessAt(m, cut, a)
  {
    SanitizedTypeAt(m, out, cut, a);
    ReachedIsType(m, a);
  }

  /** The new map gives every address the type of the old one exactly when no empty entry of the old
      one disturbs an address below the cut and nothing is covered above the cut. */
  lemma MeaningPreservedExactly(m: seq<Entry>, out: seq<Entry>, cut: nat)
    requires Sanitized(m, out) && |out| < E820MAX && IsCut(m, cut)
    ensures SameMeaning(m, out) <==> Harmless(m, cut)
  {
    var c :| IsCut(m, c) && SanitizedBelow(m, out, c);
    CutIsUnique(m, c, cut);
    if SameMeaning(m, out) {
      forall a: nat ensures HarmlessAt(m, cut, a) {
        HarmlessIsSame(m, out, cut, a);
      }
    }
    if Harmless(m, cut) {
      forall a: nat ensures TypeAt(out, a) == TypeAt(m, a) {
        HarmlessIsSame(m, out, cut, a);
      }
    }
  }

  // No entry is empty, unless it has type 0 and says nothing.
  ghost predicate NoEmptyEntry(m: seq<Entry>) {
    forall i :: 0 <= i < |m| ==> m[i].size != 0 || m[i].typ == 0
  }

  /** Without empty entries the meaning is preserved at every address. */
  lemma MeaningPreserved(m: seq<Entry>, out: seq<Entry>)
    requires Sanitized(m, out) && |out| < E820MAX && NoEmptyEntry(m)
    ensures SameMeaning(m, out)
  {
    LeftOverSpec(m);
    var c := LastPoint(m);
    assert IsCut(m, c);
    forall a: nat ensures HarmlessAt(m, c, a) {
      if a >= c {
        NothingAbove(m, a);
      }
    }
    MeaningPreservedExactly(m, out, c);
  }

  /** A map that has become full is still right up to the end of its last entry. */
  lemma FullMapIsRightBelow(m: seq<Entry>, out: seq<Entry>, a: nat)
    requires Sanitized(m, out) && |out| == E820MAX && NoEmptyEntry(m) && a < Last(out).End()
    ensures TypeAt(out, a) == TypeAt(m, a)
  {
    ReachedIsType(m, a);
  }

  /** An empty entry of type 2 behind which type 1 memory continues: that memory is lost. */
  lemma EmptyEntryLosesMemory(out: seq<Entry>)
    requires Sanitized([Entry(0, 100, 1), Entry(50, 0, 2)], out) && |out| < E820MAX
    ensures TypeAt(out, 60) != TypeAt([Entry(0, 100, 1), Entry(50, 0, 2)], 60)
  {
    var m := [Entry(0, 100, 1), Entry(50, 0, 2)];
    assert m[..1] == [Entry(0, 100, 1)];
    assert m[..1][..0] == [];
    var c :| IsCut(m, c) && SanitizedBelow(m, out, c);
    SanitizedTypeAt(m, out, c, 60);
    assert ReachedAt(m, 60) == 2;
    assert TypeAt(m, 60) == 1;
  }

  /** Running the algorithm on its own result changes nothing. */
  lemma SanitizeIsIdempotent(m: seq<Entry>, out: seq<Entry>, again: seq<Entry>)
    requires Sanitized(m, out) && |out| < E820MAX && Sanitized(out, again)
    ensures again == out
  {
    if |again| == E820MAX {
      var top := Last(again).End();
      forall a | 0 <= a < top ensures TypeAt(out, a) == TypeAt(again, a) {
        ReachedIsType(out, a);
      }
      CanonicalAgree(out, again, top, |again| - 1);
      assert false;
    } else {
      MeaningPreserved(out, again);
      CanonicalUnique(out, again);
    }
  }
}
