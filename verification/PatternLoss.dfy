/** Runs of insertaddress() in patn.c of memtest86+ that lose patterns, and a table that reaches one. */
module PatternLoss {
  import opened Powers
  import opened Wrappers
  import opened Cubes
  import opened BadRam

  // ------------------------------------------------------------------ a merge into the last slot

  // The address has the given bits 2 and 3 and no others.
  predicate Low(w: word, b2: bool, b3: bool) {
    forall i :: 0 <= i < WIDTH ==> w[i] == ((i == 2 && b2) || (i == 3 && b3))
  }

  // The mask whose lowest k bits are clear, all others being set.
  function HighMask(k: nat): (m: word)
    ensures forall i :: 0 <= i < WIDTH ==> m[i] == (i >= k)
  {
    seq(WIDTH, i => i >= k)
  }

  lemma {:induction false} ZerosThenOnes(m: seq<bool>, k: nat)
    requires k <= |m| && forall i :: 0 <= i < |m| ==> m[i] == (i >= k)
    ensures Zeros(m) == k
  {
    if m != [] {
      if k == 0 {
        AllSet(m);
      } else {
        ZerosThenOnes(m[1..], k - 1);
      }
    }
  }

  lemma {:induction false} AllSet(m: seq<bool>)
    requires forall i :: 0 <= i < |m| ==> m[i]
    ensures Zeros(m) == 0
  {
    if m != [] {
      AllSet(m[1..]);
    }
  }

  lemma MaskSize(p: Pair, k: nat)
    requires k <= 4 && p.mask == HighMask(k)
    ensures |Cube(p)| == Pow2(k) && Addresses(p.mask) == Pow2(k)
  {
    ZerosThenOnes(p.mask, k);
    CubeSize(p);
    AddressesValue(p.mask);
  }

  lemma CombineLow(p: Pair, q: Pair, k: nat)
    requires k <= 4
    requires forall i :: 0 <= i < WIDTH ==> (i >= k <==> p.mask[i] && q.mask[i] && p.adr[i] == q.adr[i])
    ensures Combine(p, q).mask == HighMask(k)
  {
    forall i | 0 <= i < WIDTH ensures Combine(p, q).mask[i] == HighMask(k)[i] {
      CombineBits(p, q, i);
    }
    assert Combine(p, q).mask == HighMask(k);
  }

  // The cost of taking q into p, both and their combination having such masks.
  lemma LowCost(p: Pair, q: Pair, kp: nat, k: nat)
    requires kp <= k <= 4 && p.mask == HighMask(kp)
    requires forall i :: 0 <= i < WIDTH ==> (i >= k <==> p.mask[i] && q.mask[i] && p.adr[i] == q.adr[i])
    ensures CombiCost(p, q) == Pow2(k) - Pow2(kp)
  {
    CombineLow(p, q, k);
    CombiCostIsExact(p, q);
    MaskSize(p, kp);
    MaskSize(Combine(p, q), k);
  }

  // The hidden slot is never cheap here.
  lemma HiddenIsDear(t: Table, idx: nat, k: nat)
    requires t.Valid() && idx < BADRAM_MAXPATNS && t.patn[idx].mask == HighMask(k) && k <= 4
    ensures CombiCost(Hidden(t, idx).patn[idx], t.patn[idx]) >= 1 + Addresses(t.patn[idx].mask)
  {
    ZerosThenOnes(HighMask(k), k);
    HiddenCost(t, idx);
    SelfCostBelow(t.patn[idx]);
  }

  /** Two patterns {0, 4} and {8, c}: relocateiffree(0) finds the last slot, merges into it, moves it
      into slot 0 and goes on with the slot number it no longer owns.  Both patterns are lost. */
  lemma LastSlotIsLost(t: Table)
    requires t.Valid() && t.n == 2
    requires t.patn[0].mask == HighMask(3) && t.patn[1].mask == HighMask(3)
    requires Low(t.patn[0].adr, false, false) && Low(t.patn[1].adr, false, true)
    ensures RelocateIdx(t, 0) == Some(1)
    ensures RelocateIfFree(t, 0).n == 0
  {
    MaskSize(t.patn[0], 3);
    HiddenIsDear(t, 0, 3);
    LowCost(t.patn[1], t.patn[0], 3, 4);
    assert Pow2(3) == 8 && Pow2(4) == 16;
    CheapIndexIsCheapest(Hidden(t, 0), t.patn[0], 9);
    assert RelocateIdx(t, 0) == Some(1);
    var u := Merge(t, 0, 1);
    CombineLow(t.patn[1], t.patn[0], 4);
    assert u.n == 1 && u.patn[0] == u.patn[1] == Combine(t.patn[1], t.patn[0]);
    StaleSlotDrops(u);
  }

  lemma StaleSlotDrops(u: Table)
    requires u.Valid() && u.n == 1 && u.patn[0] == u.patn[1] && u.patn[0].mask == HighMask(4)
    ensures RelocateIfFree(u, 1).n == 0
  {
    LowCost(u.patn[0], u.patn[1], 4, 4);
    MaskSize(u.patn[1], 4);
    CheapIndexIsCheapest(Hidden(u, 1), u.patn[1], 1 + Addresses(u.patn[1].mask));
    assert RelocateIdx(u, 1) == Some(0);
    assert Merge(u, 1, 0).n == 0;
  }

  // {0}, {8, c} and the new longword {4}.
  ghost predicate Example(zero: Pair, eight: Pair, four: Pair) {
    && zero.mask == HighMask(2) && Low(zero.adr, false, false)
    && eight.mask == HighMask(3) && Low(eight.adr, false, true)
    && four.mask == HighMask(2) && Low(four.adr, true, false)
  }

  lemma ExampleCosts(zero: Pair, eight: Pair, four: Pair)
    requires Example(zero, eight, four)
    ensures CombiCost(zero, four) == 4 && CombiCost(eight, four) == 8 && Addresses(four.mask) == 4
  {
    assert Pow2(2) == 4 && Pow2(3) == 8 && Pow2(4) == 16;
    LowCost(zero, four, 2, 3);
    LowCost(eight, four, 3, 4);
    MaskSize(four, 2);
  }

  lemma FirstChoice(r: Table)
    requires r.Valid() && r.n == 3
    requires CombiCost(r.patn[0], r.patn[2]) == 4 && CombiCost(r.patn[1], r.patn[2]) == 8
    requires CombiCost(Hidden(r, 2).patn[2], r.patn[2]) >= 5 && Addresses(r.patn[2].mask) == 4
    ensures RelocateIdx(r, 2) == Some(0)
  {
    CheapestIs(Hidden(r, 2), r.patn[2], 5, 0);
  }

  // The first merge: 4 goes into the pattern of 0.
  lemma FirstMerge(r: Table)
    requires r.Valid() && r.n == 3 && Example(r.patn[0], r.patn[1], r.patn[2])
    ensures RelocateIfFree(r, 2).n == 0
  {
    ExampleCosts(r.patn[0], r.patn[1], r.patn[2]);
    HiddenIsDear(r, 2, 2);
    FirstChoice(r);
    var u := Merge(r, 2, 0);
    CombineLow(r.patn[0], r.patn[2], 3);
    forall i | 0 <= i < WIDTH ensures u.patn[0].adr[i] == r.patn[0].adr[i] {
      CombineBits(r.patn[0], r.patn[2], i);
    }
    LastSlotIsLost(u);
  }

  lemma NotHeld(t: Table, adr: word)
    requires t.Valid() && Longwords(t) && t.n == 2
    requires CombiCost(t.patn[0], Word(adr)) == 4 && CombiCost(t.patn[1], Word(adr)) == 8
    ensures CheapIndex(t, Word(adr), 1) == None
    ensures Relocation(t, adr) == (Table(t.patn[2 := Word(adr)], 3), 2)
  {
    CheapIndexIsCheapest(t, Word(adr), 1);
  }

  /** So a single insertaddress() can empty the table: {0} and {8, c} are known, 4 is inserted. */
  lemma InsertCanLoseEverything(t: Table, adr: word)
    requires t.Valid() && Longwords(t) && t.n == 2 && Example(t.patn[0], t.patn[1], Word(adr))
    ensures InsertAddress(t, adr).0.n == 0
    ensures Covered(t, t.patn[0].adr) && !Covered(InsertAddress(t, adr).0, t.patn[0].adr)
  {
    ExampleCosts(t.patn[0], t.patn[1], Word(adr));
    NotHeld(t, adr);
    FirstMerge(Table(t.patn[2 := Word(adr)], 3));
    assert Covers(t.patn[0], t.patn[0].adr);
  }

  // ------------------------------------------------------------------ a merge of a slot into itself

  // All bits of the longword's address are set but bit b.
  ghost predicate AllBut(w: word, b: nat) {
    2 <= b < WIDTH && forall i :: 2 <= i < WIDTH ==> w[i] == (i != b)
  }

  // Ten longwords at most, each with another bit clear.
  ghost predicate FarApart(t: Table, bits: seq<nat>) {
    && t.Valid() && t.n == |bits|
    && (forall j :: 0 <= j < t.n ==> t.patn[j].mask == DefaultMask() && AllBut(t.patn[j].adr, bits[j]))
    && (forall i, j :: 0 <= i < j < |bits| ==> bits[i] != bits[j])
  }

  lemma {:induction false} ZerosClear(m: seq<bool>, i: nat)
    requires i < |m| && m[i]
    ensures Zeros(m[i := false]) == Zeros(m) + 1
  {
    if i == 0 {
      assert m[0 := false][1..] == m[1..];
    } else {
      assert m[i := false][1..] == m[1..][i - 1 := false];
      ZerosClear(m[1..], i - 1);
    }
  }

  lemma ZerosButOne(m: word, b: nat)
    requires b < WIDTH && forall i :: 0 <= i < WIDTH ==> m[i] == (i == b)
    ensures Zeros(m) == 31
  {
    ZerosClear(m, b);
    AllClear(m[b := false]);
  }

  lemma ZerosAtLeastFour(m: word, b: nat, c: nat)
    requires 2 <= b < WIDTH && 2 <= c < WIDTH && b != c
    requires !m[0] && !m[1] && !m[b] && !m[c]
    ensures Zeros(m) >= 4
  {
    var d := FourClear(b, c);
    FourClearZeros(b, c);
    forall i | 0 <= i < WIDTH && m[i] ensures d[i] {
    }
    ZerosMonotone(m, d);
  }

  function FourClear(b: nat, c: nat): (m: seq<bool>)
    ensures |m| == WIDTH && forall i :: 0 <= i < WIDTH ==> m[i] == (i >= 2 && i != b && i != c)
  {
    seq(WIDTH, i => i >= 2 && i != b && i != c)
  }

  lemma FourClearZeros(b: nat, c: nat)
    requires 2 <= b < WIDTH && 2 <= c < WIDTH && b != c
    ensures Zeros(FourClear(b, c)) == 4
  {
    var d: seq<bool> := DefaultMask();
    ZerosThenOnes(d, 2);
    ZerosClear(d, b);
    ZerosClear(d[b := false], c);
    TwoCleared(d, b, c);
  }

  lemma TwoCleared(d: seq<bool>, b: nat, c: nat)
    requires |d| == WIDTH && b < WIDTH && c < WIDTH && forall i :: 0 <= i < WIDTH ==> d[i] == (i >= 2)
    ensures d[b := false][c := false] == FourClear(b, c)
  {
  }

  // Two such longwords are far apart.
  lemma FarCost(p: Pair, q: Pair, b: nat, c: nat)
    requires p.mask == DefaultMask() && q.mask == DefaultMask() && AllBut(p.adr, b) && AllBut(q.adr, c) && b != c
    ensures CombiCost(p, q) >= 12
  {
    var m := Combine(p, q).mask;
    CombineBits(p, q, 0);
    CombineBits(p, q, 1);
    CombineBits(p, q, b);
    CombineBits(p, q, c);
    ZerosAtLeastFour(m, b, c);
    ZerosThenOnes(p.mask, 2);
    var two, four := 2, 4;
    Pow2Monotone(four, Zeros(m));
    CombiCostIsExact(p, q);
    CubeSize(p);
    CubeSize(Combine(p, q));
    assert Pow2(two) == 4 && Pow2(four) == 16;
  }

  lemma LongwordSize(p: Pair)
    requires p.mask == DefaultMask()
    ensures Zeros(p.mask) == 2 && Addresses(p.mask) == 4
  {
    ZerosThenOnes(p.mask, 2);
    AddressesValue(p.mask);
    var two := 2;
    assert Pow2(two) == 4;
  }

  // A longword is just added when all patterns are dear to it.
  lemma DearIsAdded(t: Table, adr: word)
    requires t.Valid() && Longwords(t) && t.n < BADRAM_MAXPATNS
    requires forall j :: 0 <= j < t.n ==> CombiCost(t.patn[j], Word(adr)) >= 5
    ensures InsertAddress(t, adr).0 == Table(t.patn[t.n := Word(adr)], t.n + 1)
  {
    CheapIndexIsCheapest(t, Word(adr), 1);
    FarStays(Table(t.patn[t.n := Word(adr)], t.n + 1), t.n);
  }

  // While there is room, another such longword is just added.
  lemma FarIsAdded(t: Table, bits: seq<nat>, adr: word, b: nat)
    requires FarApart(t, bits) && t.n < BADRAM_MAXPATNS && Longwords(t) && AllBut(adr, b) && b !in bits
    ensures InsertAddress(t, adr).0 == Table(t.patn[t.n := Word(adr)], t.n + 1)
    ensures FarApart(InsertAddress(t, adr).0, bits + [b])
  {
    FarFromAll(t, bits, adr, b);
    DearIsAdded(t, adr);
    FarExtends(t, bits, adr, b);
  }

  lemma FarFromAll(t: Table, bits: seq<nat>, adr: word, b: nat)
    requires FarApart(t, bits) && AllBut(adr, b) && b !in bits
    ensures forall j :: 0 <= j < t.n ==> CombiCost(t.patn[j], Word(adr)) >= 12
  {
    forall j | 0 <= j < t.n ensures CombiCost(t.patn[j], Word(adr)) >= 12 {
      assert bits[j] in bits;
      FarCost(t.patn[j], Word(adr), bits[j], b);
    }
  }

  lemma FarExtends(t: Table, bits: seq<nat>, adr: word, b: nat)
    requires FarApart(t, bits) && t.n < BADRAM_MAXPATNS && AllBut(adr, b) && b !in bits
    ensures FarApart(Table(t.patn[t.n := Word(adr)], t.n + 1), bits + [b])
  {
  }

  // Far from all others, a new longword does not move.
  lemma FarStays(r: Table, idx: nat)
    requires r.Valid() && idx < r.n && r.patn[idx].mask == DefaultMask()
    requires forall j :: 0 <= j < r.n && j != idx ==> CombiCost(r.patn[j], r.patn[idx]) >= 5
    ensures RelocateIfFree(r, idx) == r
  {
    LongwordSize(r.patn[idx]);
    HiddenCost(r, idx);
    SelfCostBelow(r.patn[idx]);
    NoneCheapEnough(r, idx, 5);
  }

  // Where relocation finds nothing.
  lemma NoneCheapEnough(t: Table, idx: nat, bound: nat)
    requires t.Valid() && idx < BADRAM_MAXPATNS && bound == 1 + Addresses(t.patn[idx].mask)
    requires forall j :: 0 <= j < t.n && j != idx ==> CombiCost(t.patn[j], t.patn[idx]) >= bound
    requires idx < t.n ==> CombiCost(Hidden(t, idx).patn[idx], t.patn[idx]) >= bound
    ensures RelocateIdx(t, idx) == None
  {
    var hid := Hidden(t, idx);
    forall k | 0 <= k < t.n ensures CombiCost(hid.patn[k], t.patn[idx]) >= bound {
      assert k != idx ==> hid.patn[k] == t.patn[k];
    }
    CheapIndexIsCheapest(hid, t.patn[idx], bound);
  }

  // The longword at address 0 has only bit b in common with the one that has only b clear.
  lemma ZeroCombines(p: Pair, zero: word, b: nat)
    requires p.mask == DefaultMask() && AllBut(p.adr, b) && forall i :: 2 <= i < WIDTH ==> !zero[i]
    ensures var c := Combine(p, Word(zero));
      (forall i :: 0 <= i < WIDTH ==> c.mask[i] == (i == b)) && !c.adr[b]
  {
    var c := Combine(p, Word(zero));
    forall i | 0 <= i < WIDTH ensures c.mask[i] == (i == b) {
      CombineBits(p, Word(zero), i);
    }
    CombineBits(p, Word(zero), b);
  }

  lemma ZeroCost(p: Pair, zero: word, b: nat)
    requires p.mask == DefaultMask() && AllBut(p.adr, b) && forall i :: 2 <= i < WIDTH ==> !zero[i]
    ensures CombiCost(p, Word(zero)) == 0x8000_0000 - 4
  {
    var c := Combine(p, Word(zero));
    ZeroCombines(p, zero, b);
    ZerosButOne(c.mask, b);
    HalfCost(p, Word(zero));
  }

  lemma HalfCost(p: Pair, q: Pair)
    requires p.mask == DefaultMask() && Zeros(Combine(p, q).mask) == 31
    ensures CombiCost(p, q) == 0x8000_0000 - 4
  {
    CombiCostIsExact(p, q);
    CubeSize(p);
    CubeSize(Combine(p, q));
    ZerosThenOnes(p.mask, 2);
    Pow2Of31(31);
    var two := 2;
    assert Pow2(two) == 4;
  }

  // A pattern with the single mask bit b, clear, and a longword in which b is set have nothing in common.
  lemma NothingInCommon(p: Pair, q: Pair, b: nat)
    requires p.mask == DefaultMask() && b < WIDTH && p.adr[b]
    requires (forall i :: 0 <= i < WIDTH ==> q.mask[i] == (i == b)) && !q.adr[b]
    ensures CombiCost(p, q) == ULONG - 4
  {
    var c := Combine(p, q);
    forall i | 0 <= i < WIDTH ensures !c.mask[i] {
      CombineBits(p, q, i);
    }
    AllClear(c.mask);
    CombiCostIsExact(p, q);
    CubeSize(p);
    CubeSize(c);
    ZerosThenOnes(p.mask, 2);
    Pow2Of32(32);
    var two := 2;
    assert Pow2(two) == 4;
  }

  // The full table takes the longword at address 0 into its last slot, which then holds half of memory.
  lemma ZeroGoesLast(t: Table, bits: seq<nat>, zero: word)
    requires FarApart(t, bits) && t.n == BADRAM_MAXPATNS && Longwords(t) && forall i :: 2 <= i < WIDTH ==> !zero[i]
    ensures CheapIndex(t, Word(zero), 1) == None
    ensures Relocation(t, zero) == (t.(patn := t.patn[9 := Combine(t.patn[9], Word(zero))]), 9)
  {
    var costs := Costs(t.patn, Word(zero));
    forall j | 0 <= j < t.n ensures costs[j] == 0x8000_0000 - 4 {
      ZeroCost(t.patn[j], zero, bits[j]);
    }
    forall j | 0 <= j < t.n ensures CombiCost(t.patn[j], Word(zero)) >= 1 {
      assert costs[j] == CombiCost(t.patn[j], Word(zero));
    }
    CheapIndexIsCheapest(t, Word(zero), 1);
    assert costs[9] == CombiCost(t.patn[9], Word(zero));
    CheapIndexExactly(t, Word(zero), ULONG - 1, 9);
  }

  // A slot whose pattern is half of memory, among longwords in the other half.
  ghost predicate HalfAmong(r: Table, n: nat, p: Pair, b: nat)
    requires n <= |r.patn|
  {
    && b < WIDTH && (forall i :: 0 <= i < WIDTH ==> p.mask[i] == (i == b)) && !p.adr[b]
    && forall j :: 0 <= j < n ==> r.patn[j].mask == DefaultMask() && r.patn[j].adr[b]
  }

  lemma HalfCosts(r: Table, n: nat, p: Pair, b: nat)
    requires n <= |r.patn| && HalfAmong(r, n, p, b)
    ensures Zeros(p.mask) == 31 && Addresses(p.mask) == SelfCost(p) == 0x8000_0000
    ensures forall j :: 0 <= j < n ==> CombiCost(r.patn[j], p) == ULONG - 4
  {
    ZerosButOne(p.mask, b);
    AddressesValue(p.mask);
    Pow2Of31(31);
    forall j | 0 <= j < n ensures CombiCost(r.patn[j], p) == ULONG - 4 {
      NothingInCommon(r.patn[j], p, b);
    }
  }

  // That slot relocates into itself and is dropped, and nothing more happens.
  lemma LastRelocatesIntoItself(r: Table, b: nat)
    requires r.Valid() && r.n == BADRAM_MAXPATNS && HalfAmong(r, 9, r.patn[9], b)
    ensures RelocateIdx(r, 9) == Some(9) && RelocateIdx(Merge(r, 9, 9), 9) == None
    ensures RelocateIfFree(r, 9) == Merge(r, 9, 9)
  {
    var p, u := r.patn[9], Merge(r, 9, 9);
    HalfCosts(r, 9, p, b);
    SelectsItselfExactly(r, 9);
    forall i | 0 <= i < WIDTH ensures u.patn[9].mask[i] == (i == b) {
      CombineBits(p, p, i);
    }
    CombineBits(p, p, b);
    HalfCosts(u, 9, u.patn[9], b);
    NoneCheapEnough(u, 9, 1 + Addresses(u.patn[9].mask));
  }

  /** So inserting address 0 into a full table of ten such longwords covers it not at all, and loses the
      last of the ten as well. */
  lemma SelfMergeLosesNewWord(t: Table, bits: seq<nat>, zero: word)
    requires FarApart(t, bits) && t.n == BADRAM_MAXPATNS && Longwords(t) && forall i :: 2 <= i < WIDTH ==> !zero[i]
    ensures InsertAddress(t, zero).1 && !Covered(InsertAddress(t, zero).0, zero)
    ensures Covered(t, t.patn[9].adr) && !Covered(InsertAddress(t, zero).0, t.patn[9].adr)
  {
    ZeroGoesLast(t, bits, zero);
    ZeroCombines(t.patn[9], zero, bits[9]);
    var r := Relocation(t, zero).0;
    forall j | 0 <= j < 9 ensures r.patn[j].mask == DefaultMask() && r.patn[j].adr[bits[9]] {
      assert bits[j] != bits[9];
    }
    LastRelocatesIntoItself(r, bits[9]);
    var s := InsertAddress(t, zero).0;
    assert s == RelocateIfFree(r, 9);
    NotCovered(s, bits[9], zero);
    NotCovered(s, bits[9], t.patn[9].adr);
    assert Covers(t.patn[9], t.patn[9].adr);
  }

  lemma NotCovered(s: Table, b: nat, x: word)
    requires s.Valid() && 2 <= b < WIDTH && !x[b]
    requires forall j :: 0 <= j < s.n ==> s.patn[j].mask == DefaultMask() && s.patn[j].adr[b]
    ensures !Covered(s, x)
  {
    forall j | 0 <= j < s.n ensures !Covers(s.patn[j], x) {
      assert s.patn[j].mask[b];
    }
  }

  // ------------------------------------------------------------------ and it can be reached

  // Combining with any slot in use but idx itself costs more than its own addresses.
  ghost predicate Dear(t: Table, idx: nat)
    requires t.Valid() && idx < BADRAM_MAXPATNS
  {
    forall j :: 0 <= j < t.n && j != idx ==> CombiCost(t.patn[j], t.patn[idx]) >= 1 + Addresses(t.patn[idx].mask)
  }

  // A pattern of such a mask stays where it is when all others are dear.
  lemma LowStays(t: Table, idx: nat, k: nat)
    requires t.Valid() && idx < t.n && k <= 4 && t.patn[idx].mask == HighMask(k) && Dear(t, idx)
    ensures RelocateIfFree(t, idx) == t
  {
    HiddenIsDear(t, idx, k);
    NoneCheapEnough(t, idx, 1 + Addresses(t.patn[idx].mask));
  }

  // A longword that no pattern holds is added and then relocated.
  lemma LowIsAdded(t: Table, adr: word)
    requires t.Valid() && Longwords(t) && t.n < BADRAM_MAXPATNS
    requires forall j :: 0 <= j < t.n ==> CombiCost(t.patn[j], Word(adr)) >= 1
    ensures InsertAddress(t, adr).0 == RelocateIfFree(Table(t.patn[t.n := Word(adr)], t.n + 1), t.n)
  {
    CheapIndexIsCheapest(t, Word(adr), 1);
  }

  lemma LowWords(adr: word)
    ensures DefaultMask() == HighMask(2) && Word(adr).mask == HighMask(2)
  {
  }

  lemma TwoBitsCost(zero: word, twelve: word)
    requires Low(zero, false, false) && Low(twelve, true, true)
    ensures CombiCost(Word(zero), Word(twelve)) == 12
  {
    LowWords(zero);
    LowWords(twelve);
    TwelveCost(Word(zero), Word(twelve));
  }

  // Two longwords that differ in one bit.
  lemma OneBitCost(a: word, b: word, bit: nat)
    requires 2 <= bit < WIDTH && forall i :: 0 <= i < WIDTH ==> (a[i] != b[i] <==> i == bit)
    ensures CombiCost(Word(a), Word(b)) == 4
  {
    var c, d: seq<bool> := Combine(Word(a), Word(b)), DefaultMask();
    forall i | 0 <= i < WIDTH ensures c.mask[i] == d[bit := false][i] {
      CombineBits(Word(a), Word(b), i);
    }
    assert c.mask == d[bit := false];
    ZerosThenOnes(d, 2);
    ZerosClear(d, bit);
    assert Pow2(2) == 4 && Pow2(3) == 8;
    CombiCostIsExact(Word(a), Word(b));
    CubeSize(Word(a));
    CubeSize(c);
  }

  // A longword goes into the second of two patterns, and what they make stays.
  lemma GoesIntoSecond(t: Table, adr: word)
    requires t.Valid() && Longwords(t) && t.n == 2
    requires forall j :: 0 <= j < t.n ==> CombiCost(t.patn[j], Word(adr)) == 4
    requires Combine(t.patn[1], Word(adr)).mask == HighMask(3)
    requires CombiCost(t.patn[0], Combine(t.patn[1], Word(adr))) == 12
    ensures InsertAddress(t, adr).0 == Table(t.patn[2 := Word(adr)][1 := Combine(t.patn[1], Word(adr))], 2)
  {
    var s := Table(t.patn[2 := Word(adr)], 3);
    LowWords(adr);
    LongwordSize(Word(adr));
    LowIsAdded(t, adr);
    EightChoosesTwelve(s);
    EightStays(Merge(s, 2, 1));
  }

  lemma EightStays(u: Table)
    requires u.Valid() && u.n == 2 && u.patn[1].mask == HighMask(3) && CombiCost(u.patn[0], u.patn[1]) == 12
    ensures RelocateIfFree(u, 1) == u
  {
    MaskSize(u.patn[1], 3);
    assert Pow2(3) == 8;
    LowStays(u, 1, 3);
  }

  // What 8 and c make.
  lemma EightPattern(twelve: word, eight: word)
    requires Low(twelve, true, true) && Low(eight, false, true)
    ensures var p := Combine(Word(twelve), Word(eight)); p.mask == HighMask(3) && Low(p.adr, false, true)
  {
    var p := Combine(Word(twelve), Word(eight));
    CombineLow(Word(twelve), Word(eight), 3);
    forall i | 0 <= i < WIDTH ensures p.adr[i] == (i == 3) {
      CombineBits(Word(twelve), Word(eight), i);
    }
  }

  // How far 0 is from it, and from c.
  lemma TwelveCost(p: Pair, q: Pair)
    requires p.mask == HighMask(2)
    requires forall i :: 0 <= i < WIDTH ==> (i >= 4 <==> p.mask[i] && q.mask[i] && p.adr[i] == q.adr[i])
    ensures CombiCost(p, q) == 12
  {
    LowCost(p, q, 2, 4);
    assert Pow2(2) == 4 && Pow2(4) == 16;
  }

  lemma EightIsFar(zero: word, p: Pair)
    requires Low(zero, false, false) && p.mask == HighMask(3) && Low(p.adr, false, true)
    ensures CombiCost(Word(zero), p) == 12
  {
    LowWords(zero);
    TwelveCost(Word(zero), p);
  }

  lemma EightChoosesTwelve(s: Table)
    requires s.Valid() && s.n == 3 && s.patn[2].mask == HighMask(2)
    requires CombiCost(s.patn[0], s.patn[2]) == 4 && CombiCost(s.patn[1], s.patn[2]) == 4
    requires Addresses(s.patn[2].mask) == 4
    ensures RelocateIdx(s, 2) == Some(1)
  {
    HiddenIsDear(s, 2, 2);
    var hid := Hidden(s, 2);
    CheapIndexExactly(hid, s.patn[2], 5, 1);
  }

  // insertaddress() for each address in turn.
  ghost function InsertAll(t: Table, adrs: seq<word>): (r: Table)
    requires t.Valid() && Longwords(t)
    ensures r.Valid() && Longwords(r)
  {
    if adrs == [] then t
    else
      var before := InsertAll(t, adrs[..|adrs| - 1]);
      InsertKeepsLongwords(before, adrs[|adrs| - 1]);
      InsertAddress(before, adrs[|adrs| - 1]).0
  }

  lemma {:induction false} FarAreAdded(t: Table, adrs: seq<word>, bits: seq<nat>)
    requires t.Valid() && t.n == 0 && |adrs| == |bits| <= BADRAM_MAXPATNS
    requires forall j :: 0 <= j < |bits| ==> AllBut(adrs[j], bits[j])
    requires forall i, j :: 0 <= i < j < |bits| ==> bits[i] != bits[j]
    ensures FarApart(InsertAll(t, adrs), bits)
  {
    if adrs != [] {
      var n := |bits| - 1;
      FarAreAdded(t, adrs[..n], bits[..n]);
      FarIsAdded(InsertAll(t, adrs[..n]), bits[..n], adrs[n], bits[n]);
      assert bits[..n] + [bits[n]] == bits;
    }
  }

  /** From an empty table, ten insertions and an eleventh: the eleventh address is not covered afterwards. */
  lemma ReachableLoss(t: Table, adrs: seq<word>, bits: seq<nat>, zero: word)
    requires t.Valid() && t.n == 0 && |adrs| == |bits| == BADRAM_MAXPATNS
    requires forall j :: 0 <= j < |bits| ==> AllBut(adrs[j], bits[j])
    requires forall i, j :: 0 <= i < j < |bits| ==> bits[i] != bits[j]
    requires forall i :: 2 <= i < WIDTH ==> !zero[i]
    ensures !Covered(InsertAll(t, adrs + [zero]), zero)
  {
    FarAreAdded(t, adrs, bits);
    assert (adrs + [zero])[..|adrs|] == adrs;
    SelfMergeLosesNewWord(InsertAll(t, adrs), bits, zero);
  }

  // The first two of the insertions below.
  lemma ReachTwo(t: Table, zero: word, twelve: word)
    requires t.Valid() && t.n == 0 && CombiCost(Word(zero), Word(twelve)) == 12
    ensures var r := InsertAll(t, [zero] + [twelve]); r.n == 2 && r.patn[0] == Word(zero) && r.patn[1] == Word(twelve)
  {
    InsertOneMore(t, [], zero);
    assert [] + [zero] == [zero];
    DearIsAdded(t, zero);
    InsertOneMore(t, [zero], twelve);
    DearIsAdded(InsertAll(t, [zero]), twelve);
  }

  // What the third does, once its costs are known.
  lemma ReachThree(t: Table, zero: Pair, twelve: Pair, eight: word)
    requires t.Valid() && Longwords(t) && t.n == 2 && t.patn[0] == zero && t.patn[1] == twelve
    requires CombiCost(zero, Word(eight)) == 4 && CombiCost(twelve, Word(eight)) == 4
    requires Combine(twelve, Word(eight)).mask == HighMask(3) && CombiCost(zero, Combine(twelve, Word(eight))) == 12
    ensures var r := InsertAddress(t, eight).0;
      r.n == 2 && r.patn[0] == zero && r.patn[1] == Combine(twelve, Word(eight))
  {
    GoesIntoSecond(t, eight);
  }

  lemma EightCosts(zero: word, twelve: word, eight: word)
    requires Low(zero, false, false) && Low(twelve, true, true) && Low(eight, false, true)
    ensures CombiCost(Word(zero), Word(eight)) == 4 && CombiCost(Word(twelve), Word(eight)) == 4
  {
    OneBitCost(zero, eight, 3);
    OneBitCost(twelve, eight, 2);
  }

  lemma InsertOneMore(t: Table, adrs: seq<word>, adr: word)
    requires t.Valid() && Longwords(t)
    ensures InsertAll(t, adrs + [adr]) == InsertAddress(InsertAll(t, adrs), adr).0
  {
    assert (adrs + [adr])[..|adrs|] == adrs;
  }

  lemma ReachExample(t: Table, zero: word, twelve: word, eight: word)
    requires t.Valid() && t.n == 0 && CombiCost(Word(zero), Word(twelve)) == 12
    requires CombiCost(Word(zero), Word(eight)) == 4 && CombiCost(Word(twelve), Word(eight)) == 4
    requires Combine(Word(twelve), Word(eight)).mask == HighMask(3)
    requires CombiCost(Word(zero), Combine(Word(twelve), Word(eight))) == 12
    ensures var r := InsertAll(t, [zero] + [twelve] + [eight]);
      r.n == 2 && r.patn[0] == Word(zero) && r.patn[1] == Combine(Word(twelve), Word(eight))
  {
    ReachTwo(t, zero, twelve);
    ReachThree(InsertAll(t, [zero] + [twelve]), Word(zero), Word(twelve), eight);
    InsertOneMore(t, [zero] + [twelve], eight);
  }

  lemma MakesExample(zero: word, twelve: word, eight: word, four: word)
    requires Low(zero, false, false) && Low(twelve, true, true) && Low(eight, false, true) && Low(four, true, false)
    ensures Example(Word(zero), Combine(Word(twelve), Word(eight)), Word(four))
  {
    LowWords(zero);
    LowWords(four);
    EightPattern(twelve, eight);
  }

  /** The table that one insertion empties is reached as well: 0, c, 8 and 4 into an empty table leave no
      pattern at all. */
  lemma ReachableEmpty(t: Table, zero: word, twelve: word, eight: word, four: word)
    requires t.Valid() && t.n == 0
    requires Low(zero, false, false) && Low(twelve, true, true) && Low(eight, false, true) && Low(four, true, false)
    ensures InsertAll(t, [zero] + [twelve] + [eight] + [four]).n == 0
  {
    TwoBitsCost(zero, twelve);
    EightCosts(zero, twelve, eight);
    EightPattern(twelve, eight);
    EightIsFar(zero, Combine(Word(twelve), Word(eight)));
    MakesExample(zero, twelve, eight, four);
    EmptiedByFour(t, zero, twelve, eight, four);
  }

  lemma EmptiedByFour(t: Table, zero: word, twelve: word, eight: word, four: word)
    requires t.Valid() && t.n == 0 && CombiCost(Word(zero), Word(twelve)) == 12
    requires CombiCost(Word(zero), Word(eight)) == 4 && CombiCost(Word(twelve), Word(eight)) == 4
    requires Combine(Word(twelve), Word(eight)).mask == HighMask(3)
    requires CombiCost(Word(zero), Combine(Word(twelve), Word(eight))) == 12
    requires Example(Word(zero), Combine(Word(twelve), Word(eight)), Word(four))
    ensures InsertAll(t, [zero] + [twelve] + [eight] + [four]).n == 0
  {
    ReachExample(t, zero, twelve, eight);
    LastOne(t, [zero] + [twelve] + [eight], four);
  }

  lemma LastOne(t: Table, adrs: seq<word>, four: word)
    requires t.Valid() && Longwords(t) && InsertAll(t, adrs).n == 2
    requires Example(InsertAll(t, adrs).patn[0], InsertAll(t, adrs).patn[1], Word(four))
    ensures InsertAll(t, adrs + [four]).n == 0
  {
    InsertOneMore(t, adrs, four);
    InsertCanLoseEverything(InsertAll(t, adrs), four);
  }
}
