/**
  What the block move of memtest86+'s test 7 (payloads/memtest86+/test.c) does to memory: each move copies
  the first half of a block to its second half and puts it back turned right by 8 words.
 */
module Rotation {
  import opened Powers

  type word = x: nat | x < 0x1_0000_0000

  // One move of the block of two halves of len words at p, word by word.
  function Step(m: seq<word>, p: nat, len: nat): (r: seq<word>)
    requires len >= 8 && p + 2 * len <= |m|
    ensures |r| == |m|
  {
    seq(|m|, a requires 0 <= a < |m| =>
      if p <= a < p + 8 then m[a + (len - 8)]
      else if p + 8 <= a < p + len then m[a - 8]
      else if p + len <= a < p + 2 * len then m[a - len]
      else m[a])
  }

  ghost function Steps(m: seq<word>, p: nat, len: nat, n: nat): (r: seq<word>)
    requires len >= 8 && p + 2 * len <= |m|
    ensures |r| == |m|
  {
    if n == 0 then m else Step(Steps(m, p, len, n - 1), p, len)
  }

  lemma {:induction false} StepsElsewhere(m: seq<word>, p: nat, len: nat, n: nat, a: nat)
    requires len >= 8 && p + 2 * len <= |m| && a < |m| && !(p <= a < p + 2 * len)
    ensures Steps(m, p, len, n)[a] == m[a]
  {
    if n > 0 {
      StepsElsewhere(m, p, len, n - 1, a);
    }
  }

  // ------------------------------------------------------------------ where each word goes

  // d places left of i, around the start of n words.
  function Left(i: nat, d: nat, n: nat): (r: nat)
    requires n > 0
    ensures r < n
  {
    (i - d) % n
  }

  lemma LeftTwice(i: nat, d: nat, e: nat, n: nat)
    requires n > 0
    ensures Left(Left(i, d, n), e, n) == Left(i, d + e, n)
  {
    var x := i - d;
    var k := x / n;
    assert x == k * n + x % n;
    ModAddMultiple(x % n - e, k, n);
  }

  lemma LeftNone(i: nat, n: nat)
    requires i < n
    ensures Left(i, 0, n) == i
  {
    DivUnique(i, 0, n, i);
  }

  lemma StepAt(m: seq<word>, p: nat, len: nat, i: nat)
    requires len >= 8 && p + 2 * len <= |m| && i < len
    ensures Step(m, p, len)[p + i] == m[p + Left(i, 8, len)] && Step(m, p, len)[p + len + i] == m[p + i]
  {
    if i < 8 {
      DivUnique(i - 8, -1, len, len + i - 8);
    } else {
      DivUnique(i - 8, 0, len, i - 8);
    }
  }

  // One step more than d places.
  lemma FirstHalfStep(m: seq<word>, t: seq<word>, p: nat, len: nat, d: nat, i: nat)
    requires len >= 8 && p + 2 * len <= |m| == |t| && i < len
    requires t[p + Left(i, 8, len)] == m[p + Left(Left(i, 8, len), d, len)]
    ensures Step(t, p, len)[p + i] == m[p + Left(i, 8 + d, len)]
  {
    StepAt(t, p, len, i);
    LeftTwice(i, 8, d, len);
  }

  lemma {:induction false} FirstHalf(m: seq<word>, p: nat, len: nat, n: nat, i: nat)
    requires len >= 8 && p + 2 * len <= |m| && i < len
    ensures Steps(m, p, len, n)[p + i] == m[p + Left(i, 8 * n, len)]
  {
    if n == 0 {
      LeftNone(i, len);
    } else {
      FirstHalf(m, p, len, n - 1, Left(i, 8, len));
      FirstHalfStep(m, Steps(m, p, len, n - 1), p, len, 8 * (n - 1), i);
      assert 8 + 8 * (n - 1) == 8 * n;
    }
  }

  /** After n >= 1 moves a block's first half is the first half it began with turned right by 8n words, and
      its second half the same turned by 8(n - 1); the second half it began with is gone. */
  lemma MovedBlock(m: seq<word>, p: nat, len: nat, n: nat, i: nat)
    requires len >= 8 && p + 2 * len <= |m| && i < len && n >= 1
    ensures Steps(m, p, len, n)[p + i] == m[p + Left(i, 8 * n, len)]
    ensures Steps(m, p, len, n)[p + len + i] == m[p + Left(i, 8 * (n - 1), len)]
  {
    FirstHalf(m, p, len, n, i);
    FirstHalf(m, p, len, n - 1, i);
    StepAt(Steps(m, p, len, n - 1), p, len, i);
  }

  // ------------------------------------------------------------------ pairs

  // n pairs of equal words from start on.
  predicate Pairs(m: seq<word>, start: nat, n: nat)
    requires start + 2 * n <= |m|
  {
    n > 0 ==> Pairs(m, start, n - 1) && m[start + 2 * n - 2] == m[start + 2 * n - 1]
  }

  lemma {:induction false} PairsAt(m: seq<word>, start: nat, n: nat, i: nat)
    requires start + 2 * n <= |m| && Pairs(m, start, n) && i < n
    ensures m[start + 2 * i] == m[start + 2 * i + 1]
  {
    if i < n - 1 {
      PairsAt(m, start, n - 1, i);
    }
  }

  // Two memories that agree on n pairs.
  lemma {:induction false} PairsFrame(m: seq<word>, m': seq<word>, start: nat, n: nat)
    requires start + 2 * n <= |m| == |m'| && Pairs(m, start, n)
    requires forall a :: start <= a < start + 2 * n ==> m'[a] == m[a]
    ensures Pairs(m', start, n)
  {
    if n > 0 {
      PairsFrame(m, m', start, n - 1);
    }
  }

  lemma {:induction false} PairsPrefix(m: seq<word>, start: nat, n: nat, i: nat)
    requires start + 2 * n <= |m| && i <= n && Pairs(m, start, n)
    ensures Pairs(m, start, i)
  {
    if i < n {
      PairsPrefix(m, start, n - 1, i);
    }
  }

  lemma {:induction false} PairsSuffix(m: seq<word>, start: nat, n: nat, i: nat)
    requires start + 2 * n <= |m| && i <= n && Pairs(m, start, n)
    ensures Pairs(m, start + 2 * i, n - i)
  {
    if i < n {
      PairsSuffix(m, start, n - 1, i);
    }
  }

  lemma {:induction false} PairsJoin(m: seq<word>, start: nat, i: nat, n: nat)
    requires i <= n && start + 2 * n <= |m| && Pairs(m, start, i) && Pairs(m, start + 2 * i, n - i)
    ensures Pairs(m, start, n)
  {
    if i < n {
      PairsJoin(m, start, i, n - 1);
    }
  }

  // A move of a block of 2h pairs keeps the pairs, since it moves words by even distances.
  lemma StepPairs(m: seq<word>, p: nat, h: nat)
    requires h >= 4 && p + 4 * h <= |m| && Pairs(m, p, 2 * h)
    ensures Pairs(Step(m, p, 2 * h), p, 2 * h)
  {
    for i := 0 to 2 * h
      invariant Pairs(Step(m, p, 2 * h), p, i)
    {
      StepPair(m, p, h, i);
    }
  }

  lemma StepPair(m: seq<word>, p: nat, h: nat, i: nat)
    requires h >= 4 && p + 4 * h <= |m| && Pairs(m, p, 2 * h) && i < 2 * h
    ensures Step(m, p, 2 * h)[p + 2 * i] == Step(m, p, 2 * h)[p + 2 * i + 1]
  {
    var j := if i < 4 then i + (h - 4) else if i < h then i - 4 else i - h;
    PairsAt(m, p, 2 * h, j);
    assert Step(m, p, 2 * h)[p + 2 * i] == m[p + 2 * j] && Step(m, p, 2 * h)[p + 2 * i + 1] == m[p + 2 * j + 1];
  }

  lemma {:induction false} StepsPairs(m: seq<word>, p: nat, h: nat, n: nat)
    requires h >= 4 && p + 4 * h <= |m| && Pairs(m, p, 2 * h)
    ensures Pairs(Steps(m, p, 2 * h, n), p, 2 * h)
  {
    if n > 0 {
      StepsPairs(m, p, h, n - 1);
      StepPairs(Steps(m, p, 2 * h, n - 1), p, h);
    }
  }

  // ------------------------------------------------------------------ pieces

  // A piece in blocks of 64 bytes.
  const PIECE: nat := 0x40_0000

  // Word addresses of a 32-bit address space.
  const ADDRESSES: nat := 0x4000_0000

  // How many of the k blocks from p on the next piece takes: all of them from address 0, where the
  // overflow check fails, and all of them up to the end of the address space, which is a pointer of 0.
  function PieceBlocks(p: nat, k: nat): (j: nat)
    requires k > 0
    ensures 0 < j <= k
  {
    if p == 0 || p + 16 * k == ADDRESSES || k <= PIECE then k else PIECE
  }

  // Memory after n moves of each piece of the k blocks from p on.
  ghost function Moved(m: seq<word>, p: nat, k: nat, n: nat): (r: seq<word>)
    requires p + 16 * k <= |m|
    ensures |r| == |m|
    decreases k
  {
    if k == 0 then m
    else
      var j := PieceBlocks(p, k);
      Moved(Steps(m, p, 8 * j, n), p + 16 * j, k - j, n)
  }

  lemma {:induction false} MovedElsewhere(m: seq<word>, p: nat, k: nat, n: nat, a: nat)
    requires p + 16 * k <= |m| && a < |m| && !(p <= a < p + 16 * k)
    ensures Moved(m, p, k, n)[a] == m[a]
    decreases k
  {
    if k > 0 {
      var j := PieceBlocks(p, k);
      StepsElsewhere(m, p, 8 * j, n, a);
      MovedElsewhere(Steps(m, p, 8 * j, n), p + 16 * j, k - j, n, a);
    }
  }

  // After the first piece, of j blocks: its pairs, and those behind it.
  lemma PiecePairs(m: seq<word>, p: nat, j: nat, k: nat, n: nat)
    requires 0 < j <= k && p + 16 * k <= |m| && Pairs(m, p, 8 * k)
    ensures Pairs(Steps(m, p, 8 * j, n), p, 8 * j)
    ensures Pairs(Steps(m, p, 8 * j, n), p + 16 * j, 8 * (k - j))
  {
    PairsPrefix(m, p, 8 * k, 8 * j);
    PairsSuffix(m, p, 8 * k, 8 * j);
    StepsPairs(m, p, 4 * j, n);
    forall a | p + 16 * j <= a < p + 16 * k ensures Steps(m, p, 8 * j, n)[a] == m[a] {
      StepsElsewhere(m, p, 8 * j, n, a);
    }
    PairsFrame(m, Steps(m, p, 8 * j, n), p + 16 * j, 8 * (k - j));
  }

  // The pieces behind leave the first one's pairs.
  lemma PiecesJoin(t: seq<word>, p: nat, j: nat, k: nat, n: nat)
    requires 0 < j <= k && p + 16 * k <= |t| && Pairs(t, p, 8 * j)
    requires Pairs(Moved(t, p + 16 * j, k - j, n), p + 16 * j, 8 * (k - j))
    ensures Pairs(Moved(t, p + 16 * j, k - j, n), p, 8 * k)
  {
    var r := Moved(t, p + 16 * j, k - j, n);
    forall a | p <= a < p + 16 * j ensures r[a] == t[a] {
      MovedElsewhere(t, p + 16 * j, k - j, n, a);
    }
    PairsFrame(t, r, p, 8 * j);
    PairsJoin(r, p, 8 * j, 8 * k);
  }

  /** However a segment falls into pieces, moving keeps its adjacent words the same. */
  lemma {:induction false} MovedPairs(m: seq<word>, p: nat, k: nat, n: nat)
    requires p + 16 * k <= |m| && Pairs(m, p, 8 * k)
    ensures Pairs(Moved(m, p, k, n), p, 8 * k)
    decreases k
  {
    if k > 0 {
      var j := PieceBlocks(p, k);
      PiecePairs(m, p, j, k, n);
      MovedPairs(Steps(m, p, 8 * j, n), p + 16 * j, k - j, n);
      PiecesJoin(Steps(m, p, 8 * j, n), p, j, k, n);
    }
  }
}
