/**
  block_move over all the segments of a window (payloads/memtest86+/test.c).
 */
module BlockMoveTest {
  import opened Rotation
  import opened BlockMove
  import opened BlockWords

  // The first n segments filled, and moved.
  ghost function FilledAll(m: seq<word>, segs: seq<Segment>, n: nat, carry: nat -> bool): (r: seq<word>)
    requires Layout(segs, |m|) && n <= |segs|
    ensures |r| == |m|
  {
    if n == 0 then m
    else Filled(FilledAll(m, segs, n - 1, carry), segs[n - 1].start, Blocks(segs[n - 1]), carry)
  }

  ghost function MovedAll(m: seq<word>, segs: seq<Segment>, n: nat, iter: nat): (r: seq<word>)
    requires Layout(segs, |m|) && n <= |segs|
    ensures |r| == |m|
  {
    if n == 0 then m
    else Moved(MovedAll(m, segs, n - 1, iter), segs[n - 1].start, Blocks(segs[n - 1]), iter)
  }

  ghost predicate SegmentPairs(m: seq<word>, s: Segment)
    requires Shaped(s) && s.end <= |m|
  {
    Pairs(m, s.start, 8 * Blocks(s))
  }

  // Filling one segment leaves another one's pairs.
  lemma FilledOther(m: seq<word>, s: Segment, t: Segment, carry: nat -> bool)
    requires Shaped(s) && Shaped(t) && s.end <= |m| && t.end <= |m| && Disjoint(s, t) && SegmentPairs(m, s)
    ensures SegmentPairs(Filled(m, t.start, Blocks(t), carry), s)
  {
    var r := Filled(m, t.start, Blocks(t), carry);
    forall a | s.start <= a < s.end ensures r[a] == m[a] {
      FilledElsewhere(m, t.start, Blocks(t), carry, a);
    }
    PairsFrame(m, r, s.start, 8 * Blocks(s));
  }

  lemma MovedOther(m: seq<word>, s: Segment, t: Segment, iter: nat)
    requires Shaped(s) && Shaped(t) && s.end <= |m| && t.end <= |m| && Disjoint(s, t) && SegmentPairs(m, s)
    ensures SegmentPairs(Moved(m, t.start, Blocks(t), iter), s)
  {
    var r := Moved(m, t.start, Blocks(t), iter);
    forall a | s.start <= a < s.end ensures r[a] == m[a] {
      MovedElsewhere(m, t.start, Blocks(t), iter, a);
    }
    PairsFrame(m, r, s.start, 8 * Blocks(s));
  }

  lemma {:induction false} FilledAllPairs(m: seq<word>, segs: seq<Segment>, n: nat, carry: nat -> bool, j: nat)
    requires Layout(segs, |m|) && j < n <= |segs|
    ensures SegmentPairs(FilledAll(m, segs, n, carry), segs[j])
  {
    var before := FilledAll(m, segs, n - 1, carry);
    if j == n - 1 {
      FilledPairs(before, segs[j].start, Blocks(segs[j]), carry);
    } else {
      FilledAllPairs(m, segs, n - 1, carry, j);
      FilledOther(before, segs[j], segs[n - 1], carry);
    }
  }

  lemma {:induction false} MovedAllPairs(m: seq<word>, segs: seq<Segment>, n: nat, iter: nat, j: nat)
    requires Layout(segs, |m|) && n <= |segs| && j < |segs| && SegmentPairs(m, segs[j])
    ensures SegmentPairs(MovedAll(m, segs, n, iter), segs[j])
  {
    if n > 0 {
      var before := MovedAll(m, segs, n - 1, iter);
      MovedAllPairs(m, segs, n - 1, iter, j);
      if j == n - 1 {
        MovedPairs(before, segs[j].start, Blocks(segs[j]), iter);
      } else {
        DisjointBoth(segs, |m|, j, n - 1);
        MovedOther(before, segs[j], segs[n - 1], iter);
      }
    }
  }

  lemma DisjointBoth(segs: seq<Segment>, size: nat, i: nat, j: nat)
    requires Layout(segs, size) && i < |segs| && j < |segs| && i != j
    ensures Disjoint(segs[i], segs[j])
  {
    if j < i {
      assert Disjoint(segs[j], segs[i]);
    }
  }

  /** After filling and moving, every segment still consists of pairs of equal words. */
  lemma PairsSurvive(m: seq<word>, segs: seq<Segment>, iter: nat, carry: nat -> bool, j: nat)
    requires Layout(segs, |m|) && j < |segs|
    ensures SegmentPairs(MovedAll(FilledAll(m, segs, |segs|, carry), segs, |segs|, iter), segs[j])
  {
    FilledAllPairs(m, segs, |segs|, carry, j);
    MovedAllPairs(FilledAll(m, segs, |segs|, carry), segs, |segs|, iter, j);
  }

  // ------------------------------------------------------------------ what memory holds

  ghost predicate InSegment(s: Segment, a: nat) {
    s.start <= a < s.end
  }

  lemma {:induction false} FilledAllAt(m: seq<word>, segs: seq<Segment>, n: nat, carry: nat -> bool, j: nat, a: nat)
    requires Layout(segs, |m|) && j < n <= |segs| && InSegment(segs[j], a)
    ensures FilledAll(m, segs, n, carry)[a] == FilledWord(segs[j].start, Blocks(segs[j]), carry, a)
  {
    var before, s := FilledAll(m, segs, n - 1, carry), segs[n - 1];
    if j == n - 1 {
      FilledAt(before, s.start, Blocks(s), carry, a);
    } else {
      FilledAllAt(m, segs, n - 1, carry, j, a);
      DisjointBoth(segs, |m|, j, n - 1);
      FilledElsewhere(before, s.start, Blocks(s), carry, a);
    }
  }

  lemma SourceInside(s: Segment, iter: nat, a: nat)
    requires Shaped(s) && InSegment(s, a)
    ensures InSegment(s, SourceOf(s.start, Blocks(s), iter, a))
  {
  }

  lemma {:induction false} NotYetMoved(m: seq<word>, segs: seq<Segment>, n: nat, iter: nat, j: nat, a: nat)
    requires Layout(segs, |m|) && n <= j < |segs| && InSegment(segs[j], a)
    ensures MovedAll(m, segs, n, iter)[a] == m[a]
  {
    if n > 0 {
      NotYetMoved(m, segs, n - 1, iter, j, a);
      DisjointBoth(segs, |m|, j, n - 1);
      MovedElsewhere(MovedAll(m, segs, n - 1, iter), segs[n - 1].start, Blocks(segs[n - 1]), iter, a);
    }
  }

  lemma {:induction false} MovedAllAt(m: seq<word>, segs: seq<Segment>, n: nat, iter: nat, j: nat, a: nat)
    requires Layout(segs, |m|) && j < n <= |segs| && InSegment(segs[j], a)
    ensures var b := SourceOf(segs[j].start, Blocks(segs[j]), iter, a);
      InSegment(segs[j], b) && MovedAll(m, segs, n, iter)[a] == m[b]
  {
    var before, s := MovedAll(m, segs, n - 1, iter), segs[n - 1];
    SourceInside(segs[j], iter, a);
    if j == n - 1 {
      MovedAt(before, s.start, Blocks(s), iter, a);
      NotYetMoved(m, segs, n - 1, iter, j, SourceOf(s.start, Blocks(s), iter, a));
    } else {
      MovedAllAt(m, segs, n - 1, iter, j, a);
      DisjointBoth(segs, |m|, j, n - 1);
      MovedElsewhere(before, s.start, Blocks(s), iter, a);
    }
  }

  ghost predicate Outside(segs: seq<Segment>, a: nat) {
    forall j :: 0 <= j < |segs| ==> !InSegment(segs[j], a)
  }

  lemma {:induction false} FilledAllOutside(m: seq<word>, segs: seq<Segment>, n: nat, carry: nat -> bool, a: nat)
    requires Layout(segs, |m|) && n <= |segs| && a < |m| && Outside(segs, a)
    ensures FilledAll(m, segs, n, carry)[a] == m[a]
  {
    if n > 0 {
      FilledAllOutside(m, segs, n - 1, carry, a);
      assert !InSegment(segs[n - 1], a);
      FilledElsewhere(FilledAll(m, segs, n - 1, carry), segs[n - 1].start, Blocks(segs[n - 1]), carry, a);
    }
  }

  lemma {:induction false} MovedAllOutside(m: seq<word>, segs: seq<Segment>, n: nat, iter: nat, a: nat)
    requires Layout(segs, |m|) && n <= |segs| && a < |m| && Outside(segs, a)
    ensures MovedAll(m, segs, n, iter)[a] == m[a]
  {
    if n > 0 {
      MovedAllOutside(m, segs, n - 1, iter, a);
      assert !InSegment(segs[n - 1], a);
      MovedElsewhere(MovedAll(m, segs, n - 1, iter), segs[n - 1].start, Blocks(segs[n - 1]), iter, a);
    }
  }

  // What segment s holds at address a in the end: a word of the running bit, carried along by the moves.
  ghost function FinalWord(s: Segment, carry: nat -> bool, iter: nat, a: nat): int
    requires Shaped(s) && InSegment(s, a)
  {
    FilledWord(s.start, Blocks(s), carry, SourceOf(s.start, Blocks(s), iter, a))
  }

  // Memory r: every word of every segment is its final word, and every other word is as it was in m.
  ghost predicate Finished(m: seq<word>, r: seq<word>, segs: seq<Segment>, iter: nat, carry: nat -> bool)
    requires Layout(segs, |m|)
  {
    && |r| == |m|
    && (forall a, j :: 0 <= a < |r| && 0 <= j < |segs| && InSegment(segs[j], a) ==>
          r[a] == FinalWord(segs[j], carry, iter, a))
    && (forall a :: 0 <= a < |r| && Outside(segs, a) ==> r[a] == m[a])
  }

  lemma FinalAt(m: seq<word>, segs: seq<Segment>, iter: nat, carry: nat -> bool, j: nat, a: nat)
    requires Layout(segs, |m|) && j < |segs| && InSegment(segs[j], a)
    ensures MovedAll(FilledAll(m, segs, |segs|, carry), segs, |segs|, iter)[a] == FinalWord(segs[j], carry, iter, a)
  {
    MovedAllAt(FilledAll(m, segs, |segs|, carry), segs, |segs|, iter, j, a);
    FilledAllAt(m, segs, |segs|, carry, j, SourceOf(segs[j].start, Blocks(segs[j]), iter, a));
  }

  /** Filling and moving leave every word of every segment as the closed form says, and no other word changed. */
  lemma FinalMemory(m: seq<word>, segs: seq<Segment>, iter: nat, carry: nat -> bool)
    requires Layout(segs, |m|)
    ensures Finished(m, MovedAll(FilledAll(m, segs, |segs|, carry), segs, |segs|, iter), segs, iter, carry)
  {
    var f := FilledAll(m, segs, |segs|, carry);
    forall a, j | 0 <= a < |m| && 0 <= j < |segs| && InSegment(segs[j], a)
      ensures MovedAll(f, segs, |segs|, iter)[a] == FinalWord(segs[j], carry, iter, a)
    {
      FinalAt(m, segs, iter, carry, j, a);
    }
    forall a | 0 <= a < |m| && Outside(segs, a) ensures MovedAll(f, segs, |segs|, iter)[a] == m[a] {
      FilledAllOutside(m, segs, |segs|, carry, a);
      MovedAllOutside(f, segs, |segs|, iter, a);
    }
  }

  // The three passes of the test over the segments: fill, move, check.
  method FillAll(t: Mover, segs: seq<Segment>, carry: nat -> bool)
    requires Layout(segs, t.mem.Length)
    modifies t.mem
    ensures t.mem[..] == FilledAll(old(t.mem[..]), segs, |segs|, carry)
  {
    ghost var m := t.mem[..];
    for j := 0 to |segs|
      invariant t.mem[..] == FilledAll(m, segs, j, carry)
    {
      t.FillSegment(segs[j], carry);
    }
  }

  method MoveAll(t: Mover, segs: seq<Segment>, iter: nat)
    requires Layout(segs, t.mem.Length)
    modifies t.mem
    ensures t.mem[..] == MovedAll(old(t.mem[..]), segs, |segs|, iter)
  {
    ghost var f := t.mem[..];
    for j := 0 to |segs|
      invariant t.mem[..] == MovedAll(f, segs, j, iter)
    {
      t.MoveSegment(segs[j], iter);
    }
  }

  // Errors are found exactly when some segment does not consist of pairs.
  method CheckAll(t: Mover, segs: seq<Segment>)
    requires Layout(segs, t.mem.Length)
    modifies t`errors
    ensures t.errors >= old(t.errors)
    ensures t.errors == old(t.errors) <==> forall j :: 0 <= j < |segs| ==> SegmentPairs(t.mem[..], segs[j])
  {
    for j := 0 to |segs|
      invariant t.errors >= old(t.errors)
      invariant t.errors == old(t.errors) <==> forall l :: 0 <= l < j ==> SegmentPairs(t.mem[..], segs[l])
    {
      t.CheckSegment(segs[j]);
    }
  }

  /** Test 7, block_move: no error on fault-free memory, whatever the segments, the iterations and the carries;
      and what every word of memory is in the end. */
  method Test7(t: Mover, segs: seq<Segment>, iter: nat, carry: nat -> bool)
    requires Layout(segs, t.mem.Length)
    modifies t.mem, t`errors
    ensures t.errors == old(t.errors)
    ensures Finished(old(t.mem[..]), t.mem[..], segs, iter, carry)
  {
    ghost var m := t.mem[..];
    FillAll(t, segs, carry);
    MoveAll(t, segs, iter);
    forall j | 0 <= j < |segs| ensures SegmentPairs(t.mem[..], segs[j]) {
      PairsSurvive(m, segs, iter, carry, j);
    }
    CheckAll(t, segs);
    FinalMemory(m, segs, iter, carry);
  }
}
