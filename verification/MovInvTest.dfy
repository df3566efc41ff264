/**
  movinv32 over all the segments of a window, and test 8, which runs it on every pattern
  (payloads/memtest86+/test.c, main.c).
 */
module MovInvTest {
  import opened Powers
  import opened Shifting
  import opened MovInv

  // The phase at which segment s starts with bit off.
  function Phase(s: Segment, off: nat): int {
    off - s.start
  }

  ghost predicate SegmentHolds(t: Tester, s: Segment, sval: nat, off: nat)
    reads t.mem
    requires s.end < t.mem.Length
  {
    t.Holds(sval, Phase(s, off), s.start, s.end)
  }

  ghost predicate SegmentHoldsNot(t: Tester, s: Segment, sval: nat, off: nat)
    reads t.mem
    requires s.end < t.mem.Length
  {
    t.HoldsNot(sval, Phase(s, off), s.start, s.end)
  }

  ghost predicate Covered(segs: seq<Segment>, a: int) {
    exists j :: 0 <= j < |segs| && Within(segs[j], a)
  }

  // Every segment from..to-1 holds the pattern, or its complement.
  ghost predicate AllHold(t: Tester, segs: seq<Segment>, sval: nat, off: nat, from: nat, upto: nat)
    reads t.mem
    requires Layout(segs, t.mem.Length) && upto <= |segs|
  {
    forall j :: from <= j < upto ==> SegmentHolds(t, segs[j], sval, off)
  }

  ghost predicate AllHoldNot(t: Tester, segs: seq<Segment>, sval: nat, off: nat, from: nat, upto: nat)
    reads t.mem
    requires Layout(segs, t.mem.Length) && upto <= |segs|
  {
    forall j :: from <= j < upto ==> SegmentHoldsNot(t, segs[j], sval, off)
  }

  // Every word of the first upto segments was compared with the pattern.
  ghost predicate AllCompared(checks: set<Comparison>, segs: seq<Segment>, sval: nat, off: nat, upto: nat)
    requires upto <= |segs|
  {
    forall j :: 0 <= j < upto ==> SegmentCompared(checks, segs[j], sval, off)
  }

  ghost predicate SegmentCompared(checks: set<Comparison>, s: Segment, sval: nat, off: nat) {
    Compared(checks, sval, Phase(s, off), s.start, s.end)
  }

  // Later comparisons take nothing away.
  lemma StillCompared(checks: set<Comparison>, now: set<Comparison>, segs: seq<Segment>, sval: nat, off: nat, upto: nat)
    requires upto <= |segs| && checks <= now && AllCompared(checks, segs, sval, off, upto)
    ensures AllCompared(now, segs, sval, off, upto)
  {
    forall j | 0 <= j < upto ensures SegmentCompared(now, segs[j], sval, off) {
      assert SegmentCompared(checks, segs[j], sval, off);
    }
  }

  lemma OneMoreCompared(checks: set<Comparison>, now: set<Comparison>, segs: seq<Segment>, sval: nat, off: nat, j: nat)
    requires j < |segs| && checks <= now && AllCompared(checks, segs, sval, off, j)
    requires SegmentCompared(now, segs[j], sval, off)
    ensures AllCompared(now, segs, sval, off, j + 1)
  {
    StillCompared(checks, now, segs, sval, off, j);
  }

  // What the caller passes for the pattern that starts at bit off.
  ghost predicate Arguments(p1: word, lb: word, hb: word, sval: nat, off: nat) {
    sval < 2 && off < 32 && p1 == Pat(sval, off) && lb == Pat(sval, 0) && hb == Pat(sval, 31)
  }

  // Initialize memory with the initial pattern.
  method FillAll(t: Tester, segs: seq<Segment>, p1: word, lb: word, hb: word, sval: nat, off: nat)
    requires Layout(segs, t.mem.Length) && Arguments(p1, lb, hb, sval, off)
    modifies t.mem
    ensures AllHold(t, segs, sval, off, 0, |segs|)
    ensures forall a :: 0 <= a < t.mem.Length && !Covered(segs, a) ==> t.mem[a] == old(t.mem[a])
  {
    for j := 0 to |segs|
      invariant AllHold(t, segs, sval, off, 0, j)
      invariant forall a :: 0 <= a < t.mem.Length && !Covered(segs, a) ==> t.mem[a] == old(t.mem[a])
    {
      FillOne(t, segs, j, p1, lb, hb, sval, off);
    }
  }

  method FillOne(t: Tester, segs: seq<Segment>, j: nat, p1: word, lb: word, hb: word, sval: nat, off: nat)
    requires j < |segs| && Layout(segs, t.mem.Length) && Arguments(p1, lb, hb, sval, off)
    requires AllHold(t, segs, sval, off, 0, j)
    modifies t.mem
    ensures AllHold(t, segs, sval, off, 0, j + 1)
    ensures forall a :: 0 <= a < t.mem.Length && !Covered(segs, a) ==> t.mem[a] == old(t.mem[a])
  {
    t.FillSegment(segs[j], p1, lb, sval, off);
    forall i | 0 <= i < j ensures SegmentHolds(t, segs[i], sval, off) {
      assert Disjoint(segs[i], segs[j]);
      assert old(SegmentHolds(t, segs[i], sval, off));
    }
  }

  // The way up: check the pattern, write the complement.
  method PassUp(t: Tester, segs: seq<Segment>, p1: word, lb: word, hb: word, sval: nat, off: nat, k0: nat)
    returns (k: nat)
    requires Layout(segs, t.mem.Length) && Arguments(p1, lb, hb, sval, off) && k0 <= 32
    modifies t.mem, t`errors, t`checks
    ensures old(t.checks) <= t.checks
    ensures AllHoldNot(t, segs, sval, off, 0, |segs|) && AllCompared(t.checks, segs, sval, off, |segs|)
    ensures k <= 32 && (segs != [] ==> k == (off + Words(segs[|segs| - 1])) % 32)
    ensures t.errors >= old(t.errors)
    ensures old(AllHold(t, segs, sval, off, 0, |segs|)) ==> t.errors == old(t.errors)
    ensures forall a :: 0 <= a < t.mem.Length && !Covered(segs, a) ==> t.mem[a] == old(t.mem[a])
  {
    k := k0;
    for j := 0 to |segs|
      invariant AllHoldNot(t, segs, sval, off, 0, j)
      invariant old(t.checks) <= t.checks && AllCompared(t.checks, segs, sval, off, j)
      invariant k <= 32 && (j > 0 ==> k == (off + Words(segs[j - 1])) % 32)
      invariant t.errors >= old(t.errors)
      invariant old(AllHold(t, segs, sval, off, 0, |segs|))
            ==> t.errors == old(t.errors) && AllHold(t, segs, sval, off, j, |segs|)
      invariant forall a :: 0 <= a < t.mem.Length && !Covered(segs, a) ==> t.mem[a] == old(t.mem[a])
    {
      ghost var before := t.checks;
      k := UpOne(t, segs, j, p1, lb, hb, sval, off);
      OneMoreCompared(before, t.checks, segs, sval, off, j);
    }
  }

  method UpSegment(t: Tester, s: Segment, p1: word, lb: word, hb: word, sval: nat, off: nat) returns (k: nat)
    requires Shaped(s) && s.end < t.mem.Length <= ADDRESSES && Arguments(p1, lb, hb, sval, off)
    modifies t.mem, t`errors, t`checks
    ensures old(t.checks) <= t.checks
    ensures k == (off + Words(s)) % 32
    ensures t.errors >= old(t.errors)
    ensures SegmentHoldsNot(t, s, sval, off) && SegmentCompared(t.checks, s, sval, off)
    ensures old(SegmentHolds(t, s, sval, off)) ==> t.errors == old(t.errors)
    ensures forall a :: 0 <= a < t.mem.Length && !Within(s, a) ==> t.mem[a] == old(t.mem[a])
  {
    var pat;
    k, pat := t.InvertSegmentUp(s, p1, lb, sval, off);
  }

  method UpOne(t: Tester, segs: seq<Segment>, j: nat, p1: word, lb: word, hb: word, sval: nat, off: nat)
    returns (k: nat)
    requires j < |segs| && Layout(segs, t.mem.Length) && Arguments(p1, lb, hb, sval, off)
    requires AllHoldNot(t, segs, sval, off, 0, j)
    modifies t.mem, t`errors, t`checks
    ensures old(t.checks) <= t.checks
    ensures k == (off + Words(segs[j])) % 32
    ensures t.errors >= old(t.errors)
    ensures AllHoldNot(t, segs, sval, off, 0, j + 1) && SegmentCompared(t.checks, segs[j], sval, off)
    ensures old(AllHold(t, segs, sval, off, j, |segs|))
        ==> t.errors == old(t.errors) && AllHold(t, segs, sval, off, j + 1, |segs|)
    ensures forall a :: 0 <= a < t.mem.Length && !Covered(segs, a) ==> t.mem[a] == old(t.mem[a])
  {
    k := UpSegment(t, segs[j], p1, lb, hb, sval, off);
    forall i | 0 <= i < j ensures SegmentHoldsNot(t, segs[i], sval, off) {
      assert Disjoint(segs[i], segs[j]);
      assert old(SegmentHoldsNot(t, segs[i], sval, off));
    }
    if old(AllHold(t, segs, sval, off, j, |segs|)) {
      assert old(SegmentHolds(t, segs[j], sval, off));
      forall i | j < i < |segs| ensures SegmentHolds(t, segs[i], sval, off) {
        assert Disjoint(segs[j], segs[i]);
        assert old(SegmentHolds(t, segs[i], sval, off));
      }
    }
  }

  // Between the passes the count steps back by one, from 0 to 31, the pattern of that bit is built anew, and
  // the count is put forward again.
  method Turn(k0: nat, lb: word, sval: nat) returns (k: nat, pat: word)
    requires sval < 2 && k0 <= 32 && lb == Pat(sval, 0)
    ensures k == (if k0 == 0 then 32 else k0) && pat == Pat(sval, k - 1)
  {
    var b: int := k0 - 1;
    if b < 0 {
      b := 31;
    }
    pat := lb;
    for n := 0 to b
      invariant pat == Pat(sval, n)
    {
      UpIsNext(sval, n);
      pat := Up(pat, sval);
    }
    k := b + 1;
  }

  // The way down: check the complement, write the pattern.
  method PassDown(t: Tester, segs: seq<Segment>, k0: nat, pat0: word, hb: word, sval: nat, off: nat)
    returns (k: nat)
    requires Layout(segs, t.mem.Length) && sval < 2 && hb == Pat(sval, 31)
    requires 0 < k0 <= 32 && pat0 == Pat(sval, k0 - 1)
    requires segs != [] ==> k0 == Count(off + Words(segs[|segs| - 1]) - 1)
    requires AllHoldNot(t, segs, sval, off, 0, |segs|)
    modifies t.mem, t`errors, t`checks
    ensures old(t.checks) <= t.checks
    ensures k <= 32 && t.errors >= old(t.errors)
    ensures t.errors == old(t.errors) <==> Even(segs, 0)
    ensures Even(segs, 0) ==> AllHold(t, segs, sval, off, 0, |segs|)
    ensures forall a :: 0 <= a < t.mem.Length && !Covered(segs, a) ==> t.mem[a] == old(t.mem[a])
  {
    k := k0;
    var pat := pat0;
    for j := |segs| downto 0
      invariant 0 < k <= 32 && pat == Pat(sval, k - 1)
      invariant t.errors >= old(t.errors) && old(t.checks) <= t.checks
      invariant t.errors == old(t.errors) <==> Even(segs, j)
      invariant AllHoldNot(t, segs, sval, off, 0, j)
      invariant Even(segs, j) ==> AllHold(t, segs, sval, off, j, |segs|)
      invariant Even(segs, j) && j > 0 ==> (InStep(segs[j - 1], k, off) <==> Even(segs, j - 1))
      invariant forall a :: 0 <= a < t.mem.Length && !Covered(segs, a) ==> t.mem[a] == old(t.mem[a])
    {
      EvenStep(segs, j);
      k, pat := DownOne(t, segs, j, k, pat, hb, sval, off);
      if j > 0 {
        EvenStep(segs, j - 1);
        InStepBelow(segs[j - 1], off);
      }
    }
  }

  // The count on entering segment s from above is the one for its last word.
  ghost predicate InStep(s: Segment, k: nat, off: nat) {
    k == Count(off + Words(s) - 1)
  }

  method DownOne(t: Tester, segs: seq<Segment>, j: nat, k0: nat, pat0: word, hb: word, sval: nat, off: nat)
    returns (k: nat, pat: word)
    requires j < |segs| && Layout(segs, t.mem.Length) && sval < 2 && hb == Pat(sval, 31)
    requires 0 < k0 <= 32 && pat0 == Pat(sval, k0 - 1)
    requires AllHoldNot(t, segs, sval, off, 0, j + 1)
    modifies t.mem, t`errors, t`checks
    ensures old(t.checks) <= t.checks
    ensures 0 < k <= 32 && pat == Pat(sval, k - 1)
    ensures t.errors >= old(t.errors)
    ensures t.errors == old(t.errors) <==> InStep(segs[j], k0, off)
    ensures AllHoldNot(t, segs, sval, off, 0, j)
    ensures InStep(segs[j], k0, off) && old(AllHold(t, segs, sval, off, j + 1, |segs|))
        ==> AllHold(t, segs, sval, off, j, |segs|)
    ensures InStep(segs[j], k0, off) ==> k == Count(off - 1)
    ensures forall a :: 0 <= a < t.mem.Length && !Covered(segs, a) ==> t.mem[a] == old(t.mem[a])
  {
    k, pat := DownSegment(t, segs[j], k0, pat0, hb, sval, off);
    forall i | 0 <= i < j ensures SegmentHoldsNot(t, segs[i], sval, off) {
      assert Disjoint(segs[i], segs[j]);
      assert old(SegmentHoldsNot(t, segs[i], sval, off));
    }
    if old(AllHold(t, segs, sval, off, j + 1, |segs|)) {
      forall i | j < i < |segs| ensures SegmentHolds(t, segs[i], sval, off) {
        assert Disjoint(segs[j], segs[i]);
        assert old(SegmentHolds(t, segs[i], sval, off));
      }
    }
  }

  method DownSegment(t: Tester, s: Segment, k0: nat, pat0: word, hb: word, sval: nat, off: nat)
    returns (k: nat, pat: word)
    requires Shaped(s) && s.end < t.mem.Length <= ADDRESSES && sval < 2 && hb == Pat(sval, 31)
    requires 0 < k0 <= 32 && pat0 == Pat(sval, k0 - 1)
    requires SegmentHoldsNot(t, s, sval, off)
    modifies t.mem, t`errors, t`checks
    ensures old(t.checks) <= t.checks
    ensures 0 < k <= 32 && pat == Pat(sval, k - 1)
    ensures t.errors >= old(t.errors)
    ensures t.errors == old(t.errors) <==> InStep(s, k0, off)
    ensures InStep(s, k0, off) ==> SegmentHolds(t, s, sval, off) && k == Count(off - 1)
    ensures forall a :: 0 <= a < t.mem.Length && !Within(s, a) ==> t.mem[a] == old(t.mem[a])
  {
    ghost var c: int := k0 - 1 - s.end;
    PhaseInStep(s, k0, off);
    HoldsNotSame(t, sval, Phase(s, off), c, s);
    k, pat := t.InvertSegmentDown(s, k0, pat0, hb, sval, c);
    if InStep(s, k0, off) {
      DownInStep(t, s, k0, sval, off);
    }
  }

  lemma DownInStep(t: Tester, s: Segment, k0: nat, sval: nat, off: nat)
    requires Shaped(s) && s.end < t.mem.Length && InStep(s, k0, off) && 0 < k0 <= 32
    requires t.Holds(sval, k0 - 1 - s.end, s.start, s.end)
    ensures SegmentHolds(t, s, sval, off) && Count(s.start - 1 + (k0 - 1 - s.end)) == Count(off - 1)
  {
    PhaseInStep(s, k0, off);
    HoldsSame(t, sval, Phase(s, off), k0 - 1 - s.end, s);
    CountBelow(s, k0, off);
  }

  lemma CountBelow(s: Segment, k: nat, off: nat)
    requires InStep(s, k, off)
    ensures Count(s.start - 1 + (k - 1 - s.end)) == Count(off - 1)
  {
    var x := off + Words(s) - 1;
    assert s.start - 1 + (k - 1 - s.end) == off - 1 + -(x / 32) * 32;
    ModAddMultiple(off - 1, -(x / 32), 32);
  }

  /** movinv32: on fault-free memory it reports no error exactly when every segment but the last is a
      multiple of 32 words, and then leaves the pattern it started from. */
  method MovInv32(t: Tester, segs: seq<Segment>, iter: nat, p1: word, lb: word, hb: word, sval: nat, off: nat)
    requires Layout(segs, t.mem.Length) && Arguments(p1, lb, hb, sval, off)
    modifies t.mem, t`errors, t`checks
    ensures old(t.checks) <= t.checks
    ensures t.errors >= old(t.errors)
    ensures t.errors == old(t.errors) <==> iter == 0 || Even(segs, 0)
    ensures iter == 0 || Even(segs, 0) ==> AllHold(t, segs, sval, off, 0, |segs|)
    ensures iter > 0 ==> AllCompared(t.checks, segs, sval, off, |segs|)
    ensures forall a :: 0 <= a < t.mem.Length && !Covered(segs, a) ==> t.mem[a] == old(t.mem[a])
  {
    var k := 0;
    FillAll(t, segs, p1, lb, hb, sval, off);
    for i := 0 to iter
      invariant k <= 32 && t.errors >= old(t.errors) && old(t.checks) <= t.checks
      invariant i > 0 ==> AllCompared(t.checks, segs, sval, off, |segs|)
      invariant t.errors == old(t.errors) <==> i == 0 || Even(segs, 0)
      invariant i == 0 || Even(segs, 0) ==> AllHold(t, segs, sval, off, 0, |segs|)
      invariant forall a :: 0 <= a < t.mem.Length && !Covered(segs, a) ==> t.mem[a] == old(t.mem[a])
    {
      k := Inversion(t, segs, p1, lb, hb, sval, off, k);
    }
  }

  // One way up and one way down.
  method Inversion(t: Tester, segs: seq<Segment>, p1: word, lb: word, hb: word, sval: nat, off: nat, k0: nat)
    returns (k: nat)
    requires Layout(segs, t.mem.Length) && Arguments(p1, lb, hb, sval, off) && k0 <= 32
    modifies t.mem, t`errors, t`checks
    ensures old(t.checks) <= t.checks
    ensures k <= 32 && t.errors >= old(t.errors) && AllCompared(t.checks, segs, sval, off, |segs|)
    ensures old(AllHold(t, segs, sval, off, 0, |segs|)) ==> (t.errors == old(t.errors) <==> Even(segs, 0))
    ensures Even(segs, 0) ==> AllHold(t, segs, sval, off, 0, |segs|)
    ensures forall a :: 0 <= a < t.mem.Length && !Covered(segs, a) ==> t.mem[a] == old(t.mem[a])
  {
    k := PassUp(t, segs, p1, lb, hb, sval, off, k0);
    var pat;
    if segs != [] {
      NextBit(off + Words(segs[|segs| - 1]) - 1);
    }
    k, pat := Turn(k, lb, sval);
    k := PassDown(t, segs, k, pat, hb, sval, off);
  }

  // Every word of every segment was compared with each of the 64 patterns: a one, and a zero, at each bit.
  ghost predicate AllPatterns(checks: set<Comparison>, segs: seq<Segment>) {
    forall j, a: nat, b: nat :: 0 <= j < |segs| && Within(segs[j], a) && b < 32 ==>
      (a, Pat(0, b)) in checks && (a, Pat(1, b)) in checks
  }

  ghost predicate BothCompared(checks: set<Comparison>, segs: seq<Segment>, off: nat) {
    AllCompared(checks, segs, 0, off, |segs|) && AllCompared(checks, segs, 1, off, |segs|)
  }

  ghost predicate PatternsUpTo(checks: set<Comparison>, segs: seq<Segment>, i: nat) {
    forall off: nat :: off < i ==> BothCompared(checks, segs, off)
  }

  lemma OneMorePattern(checks: set<Comparison>, now: set<Comparison>, segs: seq<Segment>, i: nat)
    requires PatternsUpTo(checks, segs, i) && checks <= now && BothCompared(now, segs, i)
    ensures PatternsUpTo(now, segs, i + 1)
  {
    forall off: nat | off < i ensures BothCompared(now, segs, off) {
      assert BothCompared(checks, segs, off);
      StillCompared(checks, now, segs, 0, off, |segs|);
      StillCompared(checks, now, segs, 1, off, |segs|);
    }
  }

  // Whatever bit a segment starts from, going through all of them takes every word through all of them.
  lemma AllPatternsSeen(checks: set<Comparison>, segs: seq<Segment>)
    requires PatternsUpTo(checks, segs, 32)
    ensures AllPatterns(checks, segs)
  {
    forall j, a: nat, b: nat | 0 <= j < |segs| && Within(segs[j], a) && b < 32
      ensures (a, Pat(0, b)) in checks && (a, Pat(1, b)) in checks
    {
      var off := StartingBit(segs[j], a, b);
      assert BothCompared(checks, segs, off);
      assert SegmentCompared(checks, segs[j], 0, off) && SegmentCompared(checks, segs[j], 1, off);
      assert Want(0, Phase(segs[j], off), a) == Pat(0, b) && Want(1, Phase(segs[j], off), a) == Pat(1, b);
    }
  }

  lemma StartingBit(s: Segment, a: nat, b: nat) returns (off: nat)
    requires b < 32
    ensures off < 32 && (a + Phase(s, off)) % 32 == b
  {
    var d := a - s.start;
    off := (b - d) % 32;
    ModAddMultiple(b, -((b - d) / 32), 32);
    assert a + Phase(s, off) == b + -((b - d) / 32) * 32;
  }

  /** Test 8: every one of the 64 patterns, each from its own bit.  Every word is compared with each of them,
      and in the end memory holds the last one. */
  method Test8(t: Tester, segs: seq<Segment>, iter: nat)
    requires Layout(segs, t.mem.Length)
    modifies t.mem, t`errors, t`checks
    ensures t.errors >= old(t.errors)
    ensures t.errors == old(t.errors) <==> iter == 0 || Even(segs, 0)
    ensures iter > 0 ==> AllPatterns(t.checks, segs)
    ensures iter == 0 || Even(segs, 0) ==> AllHold(t, segs, 1, 31, 0, |segs|)
    ensures forall a :: 0 <= a < t.mem.Length && !Covered(segs, a) ==> t.mem[a] == old(t.mem[a])
  {
    var p1: nat, i := 1, 0;
    while p1 != 0
      invariant i <= 32 && p1 == BitOf(i)
      invariant t.errors >= old(t.errors)
      invariant t.errors == old(t.errors) <==> i == 0 || iter == 0 || Even(segs, 0)
      invariant iter > 0 ==> PatternsUpTo(t.checks, segs, i)
      invariant i > 0 && (iter == 0 || Even(segs, 0)) ==> AllHold(t, segs, 1, i - 1, 0, |segs|)
      invariant forall a :: 0 <= a < t.mem.Length && !Covered(segs, a) ==> t.mem[a] == old(t.mem[a])
      decreases 32 - i
    {
      BitOfNext(i);
      ghost var before := t.checks;
      BothPatterns(t, segs, iter, p1, i);
      if iter > 0 {
        OneMorePattern(before, t.checks, segs, i);
      }
      p1 := 2 * p1 % WORD;
      i := i + 1;
    }
    BitOfNext(i);
    if iter > 0 {
      AllPatternsSeen(t.checks, segs);
    }
  }

  // The caller's p1 in round i: a bit that is shifted out in the end.
  function BitOf(i: nat): nat {
    if i < 32 then Pow2(i) else 0
  }

  lemma BitOfNext(i: nat)
    ensures BitOf(i) == 0 <==> i >= 32
    ensures i < 32 ==> BitOf(i) == Pat(0, i) && 2 * BitOf(i) % WORD == BitOf(i + 1)
  {
    if i < 32 {
      BitTop(i);
      if i < 31 {
        BitTop(i + 1);
      }
    }
  }

  // The one and the zero at one bit.
  method BothPatterns(t: Tester, segs: seq<Segment>, iter: nat, p1: word, i: nat)
    requires Layout(segs, t.mem.Length) && i < 32 && p1 == Pat(0, i)
    modifies t.mem, t`errors, t`checks
    ensures t.errors >= old(t.errors) && old(t.checks) <= t.checks
    ensures t.errors == old(t.errors) <==> iter == 0 || Even(segs, 0)
    ensures iter > 0 ==> BothCompared(t.checks, segs, i)
    ensures iter == 0 || Even(segs, 0) ==> AllHold(t, segs, 1, i, 0, |segs|)
    ensures forall a :: 0 <= a < t.mem.Length && !Covered(segs, a) ==> t.mem[a] == old(t.mem[a])
  {
    PatEnds(0);
    PatEnds(1);
    MovInv32(t, segs, iter, p1, 1, 0x8000_0000, 0, i);
    MovInv32(t, segs, iter, Not(p1), 0xFFFF_FFFE, 0x7FFF_FFFF, 1, i);
  }

  // ------------------------------------------------------------------ phases

  lemma PhaseInStep(s: Segment, k: nat, off: nat)
    requires 0 < k <= 32
    ensures (k - 1 - s.end - Phase(s, off)) % 32 == 0 <==> InStep(s, k, off)
  {
    var x := off + Words(s) - 1;
    assert k - 1 - s.end - Phase(s, off) == k - 1 - x;
    assert k - 1 - x == (k - 1 - x % 32) - 32 * (x / 32);
  }

  // Below a segment worked through in step, the next one is in step when it is a multiple of 32 words.
  lemma InStepBelow(s: Segment, off: nat)
    ensures InStep(s, Count(off - 1), off) <==> Words(s) % 32 == 0
  {
    var x, y := off - 1, off + Words(s) - 1;
    assert Words(s) == 32 * (y / 32 - x / 32) + (y % 32 - x % 32);
  }

  lemma EvenStep(segs: seq<Segment>, j: nat)
    requires j < |segs|
    ensures Even(segs, j) <==> Even(segs, j + 1) && (j < |segs| - 1 ==> Words(segs[j]) % 32 == 0)
  {
  }

  lemma HoldsNotSame(t: Tester, sval: nat, d: int, c: int, s: Segment)
    requires s.start <= s.end < t.mem.Length && t.HoldsNot(sval, d, s.start, s.end)
    ensures t.HoldsNot(sval, c, s.start, s.end) <==> (c - d) % 32 == 0
  {
    forall a ensures Want(sval, c, a) == Want(sval, d, a) <==> (c - d) % 32 == 0 {
      SamePhase(sval, c, d, a);
    }
    if t.HoldsNot(sval, c, s.start, s.end) {
      assert t.mem[s.start] == Not(Want(sval, c, s.start)) == Not(Want(sval, d, s.start));
    }
  }

  lemma HoldsSame(t: Tester, sval: nat, d: int, c: int, s: Segment)
    requires s.end < t.mem.Length && t.Holds(sval, c, s.start, s.end) && (c - d) % 32 == 0
    ensures t.Holds(sval, d, s.start, s.end)
  {
    forall a ensures Want(sval, c, a) == Want(sval, d, a) {
      SamePhase(sval, c, d, a);
    }
  }
}
