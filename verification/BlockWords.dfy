/**
  What every word is that block_move (payloads/memtest86+/test.c) writes, and where the moves leave it: the
  pattern is a bit that runs through the 32 bits of a register and the carry, so it repeats after 33 blocks.
 */
module BlockWords {
  import opened Powers
  import opened Rotation
  import opened BlockMove

  // ------------------------------------------------------------------ the running bit

  function Bit(b: bool): nat {
    if b then 1 else 0
  }

  // The register at block n of a piece that began with carry c.
  function Running(n: nat, c: bool): nat
    requires n < 33
  {
    if n == 0 then 1
    else if n == 32 then Bit(c) * Pow2(31)
    else Pow2(n) + Bit(c) * Pow2(n - 1)
  }

  function Complement(x: nat): int {
    0xFFFF_FFFF - x
  }

  // Word i of a block of x.
  function BlockWord(x: nat, i: nat): int {
    if i in {4, 5, 10, 11, 14, 15} then Complement(x) else x
  }

  // Word w of a piece that began with carry c.
  function PieceWord(w: nat, c: bool): int {
    BlockWord(Running(w / 16 % 33, c), w % 16)
  }

  lemma PowerStep(n: nat)
    requires 0 < n < 31
    ensures Pow2(n + 1) == 2 * Pow2(n) == 4 * Pow2(n - 1) && Pow2(n) + Pow2(n - 1) < 0x8000_0000
  {
    var top := 31;
    Pow2Of31(top);
    Pow2Monotone(n + 1, top);
  }

  // The carry with it.
  function RunningCarry(n: nat, c: bool): bool
    requires n < 33
  {
    if n == 0 then c else n == 32
  }

  lemma RunningStep(n: nat, c: bool)
    requires n < 33
    ensures Running(n, c) < 0x1_0000_0000
    ensures var m := if n == 32 then 0 else n + 1;
      && Rcl(Running(n, c), RunningCarry(n, c)) == Running(m, c)
      && (Running(n, c) >= 0x8000_0000 <==> RunningCarry(m, c))
  {
    if 0 < n < 31 {
      PowerStep(n);
      RclSmall(Running(n, c));
    } else {
      var top := 31;
      Pow2Of31(top);
    }
  }

  lemma RclSmall(x: nat)
    requires x < 0x8000_0000
    ensures Rcl(x, false) == 2 * x
  {
  }

  /** The register and the carry repeat after 33 blocks. */
  lemma {:induction false} PatternRuns(n: nat, c: bool)
    ensures Pattern(n, c).0 == Running(n % 33, c) && Pattern(n, c).1 == RunningCarry(n % 33, c)
  {
    if n > 0 {
      PatternRuns(n - 1, c);
      NextOf33(n - 1);
      RunningStep((n - 1) % 33, c);
    }
  }

  lemma NextOf33(n: nat)
    ensures (n + 1) % 33 == if n % 33 == 32 then 0 else n % 33 + 1
  {
  }

  // ------------------------------------------------------------------ filling

  lemma SetBlockAt(m: seq<word>, p: nat, x: word, i: nat)
    requires p + 16 <= |m| && i < 16
    ensures SetBlock(m, p, x)[p + i] == BlockWord(x, i)
  {
  }

  /** A piece of n blocks is filled with the words of the running bit. */
  lemma {:induction false} FilledPieceAt(m: seq<word>, p: nat, n: nat, c: bool, w: nat)
    requires p + 16 * n <= |m| && w < 16 * n
    ensures FilledPiece(m, p, n, c)[p + w] == PieceWord(w, c)
  {
    var t := FilledPiece(m, p, n - 1, c);
    var q := p + 16 * (n - 1);
    if w < 16 * (n - 1) {
      FilledPieceAt(m, p, n - 1, c, w);
    } else {
      DivUnique(w, n - 1, 16, w - 16 * (n - 1));
      PatternRuns(n - 1, c);
      SetBlockAt(t, q, Pattern(n - 1, c).0, w - 16 * (n - 1));
    }
  }

  // ------------------------------------------------------------------ the pieces

  // n blocks from q on.
  datatype Piece = Piece(q: nat, n: nat)

  // The piece that address a of the k blocks from p on is in, found by going through the pieces.
  function PieceFor(p: nat, k: nat, a: nat): (r: Piece)
    requires p <= a < p + 16 * k
    ensures p <= r.q <= a < r.q + 16 * r.n <= p + 16 * k
    decreases k
  {
    var j := PieceBlocks(p, k);
    if a < p + 16 * j then Piece(p, j) else PieceFor(p + 16 * j, k - j, a)
  }

  // The k blocks from p on are one piece: they begin at address 0, end at the end of the address space, or
  // are not too many.
  predicate OnePiece(p: nat, k: nat) {
    p == 0 || p + 16 * k == ADDRESSES || k <= PIECE
  }

  /** The pieces are of 4194304 blocks each but for the last, unless all is one piece. */
  lemma {:induction false} PieceForExactly(p: nat, k: nat, a: nat)
    requires p <= a < p + 16 * k
    ensures OnePiece(p, k) ==> PieceFor(p, k, a) == Piece(p, k)
    ensures !OnePiece(p, k) ==>
      var i := (a - p) / (16 * PIECE);
      PieceFor(p, k, a) == Piece(p + 16 * PIECE * i, if k - PIECE * i < PIECE then k - PIECE * i else PIECE)
    decreases k
  {
    if !OnePiece(p, k) {
      var x := a - p;
      if x >= 16 * PIECE {
        PieceForExactly(p + 16 * PIECE, k - PIECE, a);
        DivUnique(x - 16 * PIECE, x / (16 * PIECE) - 1, 16 * PIECE, x % (16 * PIECE));
      }
    }
  }

  // ------------------------------------------------------------------ whole segments

  // Memory when filling comes to the piece of address a.
  ghost function Reached(m: seq<word>, p: nat, k: nat, carry: nat -> bool, a: nat): (u: seq<word>)
    requires p <= a < p + 16 * k <= |m|
    ensures |u| == |m|
    decreases k
  {
    var j := PieceBlocks(p, k);
    if a < p + 16 * j then m else Reached(FilledPiece(m, p, j, carry(p)), p + 16 * j, k - j, carry, a)
  }

  // The first piece stays as it is filled.
  lemma FilledFirst(m: seq<word>, p: nat, k: nat, carry: nat -> bool, a: nat)
    requires 0 < k && p + 16 * k <= |m| && p <= a < p + 16 * PieceBlocks(p, k)
    ensures Filled(m, p, k, carry)[a] == FilledPiece(m, p, PieceBlocks(p, k), carry(p))[a]
  {
    var j := PieceBlocks(p, k);
    FilledElsewhere(FilledPiece(m, p, j, carry(p)), p + 16 * j, k - j, carry, a);
  }

  lemma {:induction false} FilledReached(m: seq<word>, p: nat, k: nat, carry: nat -> bool, a: nat)
    requires p <= a < p + 16 * k <= |m|
    ensures var r := PieceFor(p, k, a);
      Filled(m, p, k, carry)[a] == FilledPiece(Reached(m, p, k, carry, a), r.q, r.n, carry(r.q))[a]
    decreases k
  {
    var j := PieceBlocks(p, k);
    if a < p + 16 * j {
      FilledFirst(m, p, k, carry, a);
    } else {
      FilledReached(FilledPiece(m, p, j, carry(p)), p + 16 * j, k - j, carry, a);
    }
  }

  // What filling leaves at address a of the k blocks from p on.
  function FilledWord(p: nat, k: nat, carry: nat -> bool, a: nat): int
    requires p <= a < p + 16 * k
  {
    var r := PieceFor(p, k, a);
    PieceWord(a - r.q, carry(r.q))
  }

  /** However a segment falls into pieces, filling writes these words. */
  lemma FilledAt(m: seq<word>, p: nat, k: nat, carry: nat -> bool, a: nat)
    requires p <= a < p + 16 * k <= |m|
    ensures Filled(m, p, k, carry)[a] == FilledWord(p, k, carry, a)
  {
    var r := PieceFor(p, k, a);
    FilledReached(m, p, k, carry, a);
    FilledPieceAt(Reached(m, p, k, carry, a), r.q, r.n, carry(r.q), a - r.q);
  }

  // Where the word at offset o of a piece of two halves of len words was one move before.
  function Previous(o: nat, len: nat): (r: nat)
    requires len >= 8 && o < 2 * len
    ensures r < len
  {
    if o < 8 then o + len - 8 else if o < len then o - 8 else o - len
  }

  // And n moves before.
  function Source(o: nat, len: nat, n: nat): (r: nat)
    requires len >= 8 && o < 2 * len
    ensures r < 2 * len
    decreases n
  {
    if n == 0 then o else Source(Previous(o, len), len, n - 1)
  }

  /** n moves have turned the first half right by 8n words, and the second half is the first one turned by
      8(n - 1). */
  lemma SourceIsTurned(o: nat, len: nat, n: nat)
    requires len >= 8 && o < 2 * len && n >= 1
    ensures Source(o, len, n) == if o < len then (o - 8 * n) % len else (o - len - 8 * (n - 1)) % len
  {
    TurnedFirst(Previous(o, len), len, n - 1);
    if o < len {
      PreviousIsLeft(o, len);
      LeftTwice(o, 8, 8 * (n - 1), len);
    }
  }

  lemma PreviousIsLeft(o: nat, len: nat)
    requires len >= 8 && o < len
    ensures Previous(o, len) == Left(o, 8, len)
  {
    if o < 8 {
      DivUnique(o - 8, -1, len, len + o - 8);
    } else {
      DivUnique(o - 8, 0, len, o - 8);
    }
  }

  lemma {:induction false} TurnedFirst(o: nat, len: nat, n: nat)
    requires len >= 8 && o < len
    ensures Source(o, len, n) == Left(o, 8 * n, len)
    decreases n
  {
    if n == 0 {
      LeftNone(o, len);
    } else {
      TurnedFirst(Previous(o, len), len, n - 1);
      PreviousIsLeft(o, len);
      LeftTwice(o, 8, 8 * (n - 1), len);
      assert 8 + 8 * (n - 1) == 8 * n;
    }
  }

  // The same for address a of the k blocks from p on.
  function SourceOf(p: nat, k: nat, n: nat, a: nat): (b: nat)
    requires p <= a < p + 16 * k
    ensures p <= b < p + 16 * k && PieceFor(p, k, a).q <= b
  {
    var r := PieceFor(p, k, a);
    r.q + Source(a - r.q, 8 * r.n, n)
  }

  lemma {:induction false} PieceMoved(m: seq<word>, q: nat, len: nat, n: nat, o: nat)
    requires len >= 8 && q + 2 * len <= |m| && o < 2 * len
    ensures Steps(m, q, len, n)[q + o] == m[q + Source(o, len, n)]
    decreases n
  {
    if n > 0 {
      StepFrom(Steps(m, q, len, n - 1), q, len, o);
      PieceMoved(m, q, len, n - 1, Previous(o, len));
    }
  }

  lemma StepFrom(m: seq<word>, q: nat, len: nat, o: nat)
    requires len >= 8 && q + 2 * len <= |m| && o < 2 * len
    ensures Step(m, q, len)[q + o] == m[q + Previous(o, len)]
  {
  }

  // Memory when the moves come to the piece of address a.
  ghost function Before(m: seq<word>, p: nat, k: nat, n: nat, a: nat): (u: seq<word>)
    requires p <= a < p + 16 * k <= |m|
    ensures |u| == |m|
    decreases k
  {
    var j := PieceBlocks(p, k);
    if a < p + 16 * j then m else Before(Steps(m, p, 8 * j, n), p + 16 * j, k - j, n, a)
  }

  // That piece is as it was.
  lemma {:induction false} BeforeSame(m: seq<word>, p: nat, k: nat, n: nat, a: nat, b: nat)
    requires p <= a < p + 16 * k <= |m| && PieceFor(p, k, a).q <= b < |m|
    ensures Before(m, p, k, n, a)[b] == m[b]
    decreases k
  {
    var j := PieceBlocks(p, k);
    if a >= p + 16 * j {
      StepsElsewhere(m, p, 8 * j, n, b);
      BeforeSame(Steps(m, p, 8 * j, n), p + 16 * j, k - j, n, a, b);
    }
  }

  lemma {:induction false} MovedBefore(m: seq<word>, p: nat, k: nat, n: nat, a: nat)
    requires p <= a < p + 16 * k <= |m|
    ensures var r := PieceFor(p, k, a);
      Moved(m, p, k, n)[a] == Steps(Before(m, p, k, n, a), r.q, 8 * r.n, n)[a]
    decreases k
  {
    var j := PieceBlocks(p, k);
    var t := Steps(m, p, 8 * j, n);
    if a < p + 16 * j {
      MovedElsewhere(t, p + 16 * j, k - j, n, a);
    } else {
      MovedBefore(t, p + 16 * j, k - j, n, a);
    }
  }

  /** And moving takes every word from its source. */
  lemma MovedAt(m: seq<word>, p: nat, k: nat, n: nat, a: nat)
    requires p <= a < p + 16 * k <= |m|
    ensures Moved(m, p, k, n)[a] == m[SourceOf(p, k, n, a)]
  {
    var r := PieceFor(p, k, a);
    MovedBefore(m, p, k, n, a);
    PieceMoved(Before(m, p, k, n, a), r.q, 8 * r.n, n, a - r.q);
    BeforeSame(m, p, k, n, a, SourceOf(p, k, n, a));
  }
}
