/**
  The shifting patterns of memtest86+'s test 8 (payloads/memtest86+/test.c, main.c): a walking one,
  or a walking zero, in a 32-bit word.
 */
module Shifting {
  import opened Powers

  const WORD: nat := 0x1_0000_0000

  type word = x: nat | x < WORD

  lemma BitTop(k: nat)
    requires k <= 31
    ensures 1 <= Pow2(k) <= 0x8000_0000
    ensures k == 31 ==> Pow2(k) == 0x8000_0000
  {
    Pow2Of31(31);
    Pow2Monotone(k, 31);
  }

  // ~x
  function Not(x: word): word
  {
    WORD - 1 - x
  }

  // The pattern for bit k: a one that walks when sval is 0, a zero when it is 1.
  function Pat(sval: nat, k: nat): word
    requires k < 32
  {
    BitTop(k);
    if sval == 0 then Pow2(k) else Not(Pow2(k))
  }

  lemma PatInjective(sval: nat, j: nat, k: nat)
    requires j < 32 && k < 32 && Pat(sval, j) == Pat(sval, k)
    ensures j == k
  {
    if j < k {
      Pow2Monotone(j, k);
    }
    if k < j {
      Pow2Monotone(k, j);
    }
  }

  // The next pattern: shifted up by one bit, sval shifted in at the bottom.
  function Up(pat: word, sval: nat): word
    requires sval < 2
  {
    2 * pat % WORD + sval
  }

  // The one before: shifted down by one bit, sval shifted in at the top.
  function Down(pat: word, sval: nat): word
    requires sval < 2
  {
    pat / 2 + 0x8000_0000 * sval
  }

  lemma UpIsNext(sval: nat, k: nat)
    requires sval < 2 && k < 31
    ensures Up(Pat(sval, k), sval) == Pat(sval, k + 1)
  {
    BitTop(k);
    BitTop(k + 1);
  }

  lemma DownIsPrevious(sval: nat, k: nat)
    requires sval < 2 && 0 < k < 32
    ensures Down(Pat(sval, k), sval) == Pat(sval, k - 1)
  {
    BitTop(k);
    BitTop(k - 1);
  }

  // The ends of the walk as the caller writes them.
  lemma PatEnds(sval: nat)
    requires sval < 2
    ensures Pat(sval, 0) == if sval == 0 then 1 else 0xFFFF_FFFE
    ensures Pat(sval, 31) == if sval == 0 then 0x8000_0000 else 0x7FFF_FFFF
  {
    BitTop(31);
  }

  // What address a holds at phase c.
  function Want(sval: nat, c: int, a: nat): word {
    Pat(sval, (a + c) % 32)
  }

  // The bit number of the next and of the previous address.
  lemma NextBit(x: int)
    ensures (x + 1) % 32 == if x % 32 == 31 then 0 else x % 32 + 1
    ensures (x - 1) % 32 == if x % 32 == 0 then 31 else x % 32 - 1
  {
  }

  // Phases that agree modulo 32 want the same everywhere, and others differ everywhere.
  lemma SamePhase(sval: nat, c: int, d: int, a: nat)
    ensures Want(sval, c, a) == Want(sval, d, a) <==> (c - d) % 32 == 0
  {
    var x, y := a + c, a + d;
    assert c - d == 32 * (x / 32 - y / 32) + (x % 32 - y % 32);
    if Want(sval, c, a) == Want(sval, d, a) {
      PatInjective(sval, x % 32, y % 32);
    }
  }
}
