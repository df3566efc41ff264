/**
  The block move test of memtest86+ (block_move, payloads/memtest86+/test.c) on memory that returns what
  was written to it: fill with pairs of equal words, move blocks around, check that the pairs are still
  equal.  Memory is an array of 32-bit words indexed by word address; a segment runs up to its end and
  is worked through in pieces of SPINSZ words.  error() counts.
 */
module BlockMove {
  import opened Rotation

  const SPINSZ: nat := 0x400_0000

  // end is one past the last word, as the code has it after end = end + 1; the end of the address space
  // is ADDRESSES here and a pointer of 0 there.
  datatype Segment = Segment(start: nat, end: nat)

  // Whole blocks of 64 bytes, at least one, and not the whole address space.
  ghost predicate Shaped(s: Segment) {
    s.start < s.end <= ADDRESSES && (s.end - s.start) % 16 == 0 && s.end - s.start < ADDRESSES
  }

  ghost function Blocks(s: Segment): (k: nat)
    requires Shaped(s)
    ensures k > 0 && s.end == s.start + 16 * k
  {
    (s.end - s.start) / 16
  }

  ghost predicate Disjoint(s: Segment, t: Segment) {
    s.end <= t.start || t.end <= s.start
  }

  ghost predicate Layout(segs: seq<Segment>, size: nat) {
    && (forall j :: 0 <= j < |segs| ==> Shaped(segs[j]) && segs[j].end <= size)
    && (forall i, j :: 0 <= i < j < |segs| ==> Disjoint(segs[i], segs[j]))
  }

  // ------------------------------------------------------------------ what filling does

  // A 64-byte block of x, with its complement in three of the eight pairs.
  function SetBlock(m: seq<word>, p: nat, x: word): (r: seq<word>)
    requires p + 16 <= |m|
    ensures |r| == |m|
  {
    seq(|m|, a requires 0 <= a < |m| =>
      if !(p <= a < p + 16) then m[a]
      else if a - p in {4, 5, 10, 11, 14, 15} then 0xFFFF_FFFF - x
      else x)
  }

  // Rotate left by one through the carry.
  function Rcl(x: word, carry: bool): word {
    2 * x % 0x1_0000_0000 + if carry then 1 else 0
  }

  // The register and the carry after n blocks, the carry at first being whatever it was.
  function Pattern(n: nat, carry: bool): (word, bool) {
    if n == 0 then (1, carry)
    else
      var (x, c) := Pattern(n - 1, carry);
      (Rcl(x, c), x >= 0x8000_0000)
  }

  // n blocks from p on.
  ghost function FilledPiece(m: seq<word>, p: nat, n: nat, carry: bool): (r: seq<word>)
    requires p + 16 * n <= |m|
    ensures |r| == |m|
  {
    if n == 0 then m
    else SetBlock(FilledPiece(m, p, n - 1, carry), p + 16 * (n - 1), Pattern(n - 1, carry).0)
  }

  // k blocks from p on, a piece at a time; carry says what the carry happens to be at each piece.
  ghost function Filled(m: seq<word>, p: nat, k: nat, carry: nat -> bool): (r: seq<word>)
    requires p + 16 * k <= |m|
    ensures |r| == |m|
    decreases k
  {
    if k == 0 then m
    else
      var j := PieceBlocks(p, k);
      Filled(FilledPiece(m, p, j, carry(p)), p + 16 * j, k - j, carry)
  }

  lemma SetBlockPairs(m: seq<word>, p: nat, x: word)
    requires p + 16 <= |m|
    ensures Pairs(SetBlock(m, p, x), p, 8)
  {
    for i := 0 to 8
      invariant Pairs(SetBlock(m, p, x), p, i)
    {
    }
  }

  lemma {:induction false} FilledPieceElsewhere(m: seq<word>, p: nat, n: nat, carry: bool, a: nat)
    requires p + 16 * n <= |m| && a < |m| && !(p <= a < p + 16 * n)
    ensures FilledPiece(m, p, n, carry)[a] == m[a]
  {
    if n > 0 {
      FilledPieceElsewhere(m, p, n - 1, carry, a);
    }
  }

  lemma {:induction false} FilledElsewhere(m: seq<word>, p: nat, k: nat, carry: nat -> bool, a: nat)
    requires p + 16 * k <= |m| && a < |m| && !(p <= a < p + 16 * k)
    ensures Filled(m, p, k, carry)[a] == m[a]
    decreases k
  {
    if k > 0 {
      var j := PieceBlocks(p, k);
      FilledPieceElsewhere(m, p, j, carry(p), a);
      FilledElsewhere(FilledPiece(m, p, j, carry(p)), p + 16 * j, k - j, carry, a);
    }
  }

  lemma {:induction false} FilledPiecePairs(m: seq<word>, p: nat, n: nat, carry: bool)
    requires p + 16 * n <= |m|
    ensures Pairs(FilledPiece(m, p, n, carry), p, 8 * n)
  {
    if n > 0 {
      var t := FilledPiece(m, p, n - 1, carry);
      var x := Pattern(n - 1, carry).0;
      FilledPiecePairs(m, p, n - 1, carry);
      PairsFrame(t, SetBlock(t, p + 16 * (n - 1), x), p, 8 * (n - 1));
      SetBlockPairs(t, p + 16 * (n - 1), x);
      PairsJoin(SetBlock(t, p + 16 * (n - 1), x), p, 8 * (n - 1), 8 * n);
    }
  }

  /** Filling leaves pairs of equal words, however a segment falls into pieces. */
  lemma {:induction false} FilledPairs(m: seq<word>, p: nat, k: nat, carry: nat -> bool)
    requires p + 16 * k <= |m|
    ensures Pairs(Filled(m, p, k, carry), p, 8 * k)
    decreases k
  {
    if k > 0 {
      var j := PieceBlocks(p, k);
      FilledPiecePairs(m, p, j, carry(p));
      FilledPairs(FilledPiece(m, p, j, carry(p)), p + 16 * j, k - j, carry);
      FilledJoin(FilledPiece(m, p, j, carry(p)), p, j, k, carry);
    }
  }

  lemma FilledJoin(t: seq<word>, p: nat, j: nat, k: nat, carry: nat -> bool)
    requires 0 < j <= k && p + 16 * k <= |t| && Pairs(t, p, 8 * j)
    requires Pairs(Filled(t, p + 16 * j, k - j, carry), p + 16 * j, 8 * (k - j))
    ensures Pairs(Filled(t, p + 16 * j, k - j, carry), p, 8 * k)
  {
    var r := Filled(t, p + 16 * j, k - j, carry);
    forall a | p <= a < p + 16 * j ensures r[a] == t[a] {
      FilledElsewhere(t, p + 16 * j, k - j, carry, a);
    }
    PairsFrame(t, r, p, 8 * j);
    PairsJoin(r, p, 8 * j, 8 * k);
  }

  // ------------------------------------------------------------------ what moving does

  // ecx words copied from esi to edi.
  function Copied(m: seq<word>, esi: nat, edi: nat, ecx: nat): (r: seq<word>)
    requires esi + ecx <= |m| && edi + ecx <= |m|
    ensures |r| == |m|
  {
    seq(|m|, a requires 0 <= a < |m| => if edi <= a < edi + ecx then m[esi + (a - edi)] else m[a])
  }

  /** The first half up, the second half less 8 words back 8 words further on, and the 8 words left over
      to the front, are one step. */
  lemma CopiesAreStep(m: seq<word>, p: nat, pp: nat, len: nat)
    requires pp == p + len && len >= 8 && p + 2 * len <= |m|
    ensures Copied(Copied(Copied(m, p, pp, len), pp, p + 8, len - 8), pp + len - 8, p, 8) == Step(m, p, len)
  {
    var m1 := Copied(m, p, pp, len);
    var m2 := Copied(m1, pp, p + 8, len - 8);
    var m3 := Copied(m2, pp + len - 8, p, 8);
    forall a | 0 <= a < |m| ensures m3[a] == Step(m, p, len)[a] {
      if p <= a < p + 8 {
        assert m3[a] == m2[a + 2 * len - 8] == m1[a + 2 * len - 8] == m[a + len - 8];
      } else if p + 8 <= a < pp {
        assert m3[a] == m2[a] == m1[a + len - 8] == m[a - 8];
      }
    }
  }

  // ------------------------------------------------------------------ the loops

  class Mover {
    const mem: array<word>
    var errors: nat

    // Check for overflow, and for the end.
    method NextUp(pe0: nat, end: nat) returns (pe: nat, done: nat)
      requires pe0 < end <= ADDRESSES && end - pe0 < ADDRESSES
      ensures pe == if pe0 == 0 || end == ADDRESSES || end - pe0 <= SPINSZ then end else pe0 + SPINSZ
      ensures done == 0 <==> pe < end
    {
      var last := end % ADDRESSES;
      done := 0;
      if (pe0 + SPINSZ) % ADDRESSES > pe0 && pe0 != 0 {
        pe := pe0 + SPINSZ;
      } else {
        pe := last;
      }
      if pe >= last {
        pe := last;
        done := done + 1;
      }
      // As a bound the pointer 0 is the end of the address space: lengths are differences modulo 2^32.
      if pe == 0 {
        pe := ADDRESSES;
      }
    }

    method StoreFour(p: nat, a: word, b: word, c: word, d: word)
      requires p + 4 <= mem.Length
      modifies mem
      ensures mem[p] == a && mem[p + 1] == b && mem[p + 2] == c && mem[p + 3] == d
      ensures forall i :: 0 <= i < mem.Length && !(p <= i < p + 4) ==> mem[i] == old(mem[i])
    {
      mem[p], mem[p + 1], mem[p + 2], mem[p + 3] := a, b, c, d;
    }

    method StoreBlock(p: nat, eax: word)
      requires p + 16 <= mem.Length
      modifies mem
      ensures mem[..] == SetBlock(old(mem[..]), p, eax)
    {
      var edx := 0xFFFF_FFFF - eax;
      StoreFour(p, eax, eax, eax, eax);
      StoreFour(p + 4, edx, edx, eax, eax);
      StoreFour(p + 8, eax, eax, edx, edx);
      StoreFour(p + 12, eax, eax, edx, edx);
    }

    // k blocks from p0 to pe.
    method FillPiece(p0: nat, pe: nat, carry: bool, ghost k: nat) returns (p: nat)
      requires k > 0 && pe == p0 + 16 * k <= mem.Length
      modifies mem
      ensures p == pe && mem[..] == FilledPiece(old(mem[..]), p0, k, carry)
    {
      var len: nat := (pe - p0) / 16;
      var eax: word, cf := 1, carry;
      p := p0;
      ghost var n, m := 0, mem[..];
      while len != 0
        invariant n + len == k && p == p0 + 16 * n
        invariant (eax, cf) == Pattern(n, carry) && mem[..] == FilledPiece(m, p0, n, carry)
        decreases len
      {
        StoreBlock(p, eax);
        eax, cf := Rcl(eax, cf), eax >= 0x8000_0000;
        p := p + 16;
        len := len - 1;
        n := n + 1;
      }
    }

    method FillSegment(s: Segment, carry: nat -> bool)
      requires Shaped(s) && s.end <= mem.Length
      modifies mem
      ensures mem[..] == Filled(old(mem[..]), s.start, Blocks(s), carry)
    {
      var p, pe, done := s.start, s.start, 0;
      ghost var k, whole := Blocks(s), Filled(mem[..], s.start, Blocks(s), carry);
      while done == 0
        invariant p == pe && p + 16 * k == s.end && (done == 0 <==> k > 0)
        invariant Filled(mem[..], p, k, carry) == whole
        decreases k
      {
        ghost var j := PieceBlocks(pe, k);
        pe, done := NextUp(pe, s.end);
        if p == pe {
          break;
        }
        p := FillPiece(p, pe, carry(p), j);
        k := k - j;
      }
    }

    // rep movsl with the direction flag clear.
    method Movsl(esi: nat, edi: nat, ecx: nat)
      requires esi + ecx <= mem.Length && edi + ecx <= mem.Length
      requires esi + ecx <= edi || edi + ecx <= esi
      modifies mem
      ensures mem[..] == Copied(old(mem[..]), esi, edi, ecx)
    {
      for i := 0 to ecx
        invariant forall a :: edi <= a < edi + i ==> mem[a] == old(mem[esi + (a - edi)])
        invariant forall a :: 0 <= a < mem.Length && !(edi <= a < edi + i) ==> mem[a] == old(mem[a])
      {
        mem[edi + i] := mem[esi + i];
      }
    }

    // The three copies, on the block of 2 * len words at p with its middle at pp.
    method MoveBlock(p: nat, pp: nat, len: nat)
      requires pp == p + len && len >= 8 && p + 2 * len <= mem.Length
      modifies mem
      ensures mem[..] == Step(old(mem[..]), p, len)
    {
      CopiesAreStep(mem[..], p, pp, len);
      Movsl(p, pp, len);
      Movsl(pp, p + 8, len - 8);
      Movsl(pp + len - 8, p, 8);
    }

    // iter moves of the piece from p to pe, of k blocks.
    method MovePiece(p: nat, pe: nat, iter: nat, ghost k: nat)
      requires k > 0 && pe == p + 16 * k <= mem.Length
      modifies mem
      ensures mem[..] == Steps(old(mem[..]), p, 8 * k, iter)
    {
      ghost var m := mem[..];
      var pp := p + (pe - p) / 2;
      var len := (pe - p) / 2;
      assert len == 8 * k;
      for i := 0 to iter
        invariant mem[..] == Steps(m, p, len, i)
      {
        MoveBlock(p, pp, len);
      }
    }

    method MoveSegment(s: Segment, iter: nat)
      requires Shaped(s) && s.end <= mem.Length
      modifies mem
      ensures mem[..] == Moved(old(mem[..]), s.start, Blocks(s), iter)
    {
      var p, pe, done := s.start, s.start, 0;
      ghost var k, whole := Blocks(s), Moved(mem[..], s.start, Blocks(s), iter);
      while done == 0
        invariant p == pe && p + 16 * k == s.end && (done == 0 <==> k > 0)
        invariant Moved(mem[..], p, k, iter) == whole
        decreases k
      {
        ghost var j := PieceBlocks(pe, k);
        pe, done := NextUp(pe, s.end);
        if p == pe {
          break;
        }
        MovePiece(p, pe, iter, j);
        p := pe;
        k := k - j;
      }
    }

    // Compare adjacent words up to and including those at pe; there are n pairs before them.
    method CheckPiece(p0: nat, pe: nat, ghost n: nat) returns (p: nat)
      requires pe == p0 + 2 * n && pe + 2 <= mem.Length
      modifies `errors
      ensures p == pe && errors >= old(errors)
      ensures errors == old(errors) <==> Pairs(mem[..], p0, n + 1)
    {
      p := p0;
      ghost var i, m := 0, mem[..];
      while true
        invariant 0 <= i <= n && p == p0 + 2 * i && errors >= old(errors)
        invariant errors == old(errors) <==> Pairs(m, p0, i)
        decreases n - i
      {
        assert Pairs(m, p0, i + 1) <==> Pairs(m, p0, i) && m[p] == m[p + 1];
        if mem[p] != mem[p + 1] {
          errors := errors + 1;
        }
        if p >= pe {
          break;
        }
        p := p + 2;
        i := i + 1;
      }
    }

    // Each piece starts at the last pair of the one before, because p and pe are left there.
    method CheckSegment(s: Segment)
      requires Shaped(s) && s.end <= mem.Length
      modifies `errors
      ensures errors >= old(errors)
      ensures errors == old(errors) <==> Pairs(mem[..], s.start, 8 * Blocks(s))
    {
      var p, pe, done := s.start, s.start, 0;
      ghost var m, half, i, u := mem[..], 8 * Blocks(s), 0, 0;
      while done == 0
        invariant p == pe == s.start + 2 * i && errors >= old(errors)
        invariant 0 <= i <= u <= i + 1 && u <= half && (done == 0 ==> i < half) && (done != 0 ==> u == half)
        invariant errors == old(errors) <==> Pairs(m, s.start, u)
        decreases if done == 0 then half - i else 0
      {
        pe, done := NextUp(pe, s.end);
        if p == pe {
          break;
        }
        pe := pe - 2;
        ghost var v := if done != 0 then half else i + SPINSZ / 2;
        p := CheckPiece(p, pe, v - 1 - i);
        PairsOverlap(m, s.start, i, u, v);
        u, i := v, v - 1;
      }
    }
  }

  lemma PairsOverlap(m: seq<word>, start: nat, i: nat, u: nat, v: nat)
    requires i <= u <= v && start + 2 * v <= |m|
    ensures Pairs(m, start, v) <==> Pairs(m, start, u) && Pairs(m, start + 2 * i, v - i)
  {
    if Pairs(m, start, v) {
      PairsPrefix(m, start, v, u);
      PairsSuffix(m, start, v, i);
    } else if Pairs(m, start, u) && Pairs(m, start + 2 * i, v - i) {
      PairsPrefix(m, start, u, i);
      PairsJoin(m, start, i, v);
    }
  }
}
