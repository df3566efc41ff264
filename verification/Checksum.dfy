/**
  The two Internet checksum routines of the repository (section 2 of RFC 1071): the bytewise one of
  coreboot (compute_ip_checksum.c), with the combination of partial checksums, and the word-at-a-time
  one of memtest86+ (linuxbios.c).  The host is little-endian.
 */
module Checksum {
  import opened Powers

  const MAX16: nat := 0xFFFF

  type byte = x: nat | x < 256
  type word16 = x: nat | x <= MAX16

  // What the byte v at position i adds to a sum of little-endian 16-bit words.
  function Weigh(i: nat, v: nat): nat {
    if i % 2 == 0 then v else 256 * v
  }

  // The sum of the little-endian 16-bit words of s, the last one padded with a zero byte.
  function Sum(s: seq<byte>): nat {
    if s == [] then 0
    else Sum(s[..|s| - 1]) + Weigh(|s| - 1, s[|s| - 1])
  }

  // The ones' complement representative of x: 0 only for 0.
  function Fold(x: nat): word16 {
    if x == 0 then 0 else (x - 1) % MAX16 + 1
  }

  // The checksum of a byte string: the complement of its ones' complement sum.
  function Csum(s: seq<byte>): word16 {
    MAX16 - Fold(Sum(s))
  }

  // ------------------------------------------------------------------ ones' complement arithmetic

  // x and y have the same representative.
  ghost predicate Same(x: nat, y: nat) {
    x % MAX16 == y % MAX16 && (x == 0 <==> y == 0)
  }

  // Being the same, by the number of times the modulus goes in between.
  lemma SameBy(x: nat, y: nat, k: int)
    requires x == y + MAX16 * k && (x == 0 <==> y == 0)
    ensures Same(x, y)
  {
  }

  lemma SameApart(x: nat, y: nat) returns (k: int)
    requires Same(x, y)
    ensures x == y + MAX16 * k
  {
    k := x / MAX16 - y / MAX16;
  }

  lemma FoldSame(x: nat, y: nat)
    ensures Fold(x) == Fold(y) <==> Same(x, y)
  {
    FoldValue(x);
    FoldValue(y);
  }

  lemma FoldValue(x: nat)
    ensures Fold(x) == if x % MAX16 == 0 then if x == 0 then 0 else MAX16 else x % MAX16
  {
    var q, r := x / MAX16, x % MAX16;
    if x > 0 {
      DivUnique(x - 1, if r == 0 then q - 1 else q, MAX16, if r == 0 then MAX16 - 1 else r - 1);
    }
  }

  lemma FoldRange(x: nat)
    ensures x <= MAX16 ==> Fold(x) == x
    ensures MAX16 < x <= 2 * MAX16 ==> Fold(x) == x - MAX16
  {
  }

  lemma FoldIsSame(x: nat)
    ensures Same(Fold(x), x)
  {
  }

  lemma FoldAdd(x: nat, y: nat)
    ensures Fold(Fold(x) + y) == Fold(x + y)
  {
    FoldIsSame(x);
    var k := SameApart(Fold(x), x);
    SameBy(Fold(x) + y, x + y, k);
    FoldSame(Fold(x) + y, x + y);
  }

  // Addition with end-around carry.
  function AddCarry(a: word16, b: word16): word16 {
    if a + b > MAX16 then a + b - MAX16 else a + b
  }

  lemma AddCarryFolds(x: nat, y: nat)
    ensures AddCarry(Fold(x), Fold(y)) == Fold(x + y)
  {
    FoldAdd(x, Fold(y));
    FoldAdd(y, x);
    FoldRange(Fold(x) + Fold(y));
  }

  function Swap(x: word16): word16 {
    x / 256 + x % 256 * 256
  }

  lemma SwapValue(h: nat, l: nat)
    requires h < 256 && l < 256
    ensures 256 * h + l <= MAX16
    ensures Swap(256 * h + l) == h + 256 * l
  {
    DivUnique(256 * h + l, h, 256, l);
  }

  /** Swapping the bytes of a representative is multiplication by 256. */
  lemma SwapIsShift(x: nat)
    ensures Swap(Fold(x)) == Fold(256 * x)
  {
    var w: nat := Fold(x);
    var h, l := w / 256, w % 256;
    SwapValue(h, l);
    FoldIsSame(x);
    var k := SameApart(w, x);
    assert 256 * (256 * h + l) == (h + 256 * l) + MAX16 * h;
    SameBy(h + 256 * l, 256 * x, 256 * k - h);
    FoldSame(h + 256 * l, 256 * x);
    FoldRange(h + 256 * l);
  }

  // ------------------------------------------------------------------ concatenation

  // Prefixing a string shifts its words by the parity of the prefix's length; 65536 counts as 1.
  lemma {:induction false} SumConcat(a: seq<byte>, b: seq<byte>)
    ensures Same(Sum(a + b), Sum(a) + Weigh(|a|, Sum(b)))
    decreases |b|
  {
    if b == [] {
      assert a + b == a;
    } else {
      var b', v: nat := b[..|b| - 1], b[|b| - 1];
      assert (a + b)[..|a + b| - 1] == a + b';
      SumConcat(a, b');
      OneMore(Sum(a + b'), Sum(a), Sum(b'), |a|, |b| - 1, v);
    }
  }

  lemma OneMore(x: nat, y: nat, z: nat, m: nat, n: nat, v: nat)
    requires Same(x, y + Weigh(m, z))
    ensures Same(x + Weigh(m + n, v), y + Weigh(m, z + Weigh(n, v)))
  {
    var k := SameApart(x, y + Weigh(m, z));
    if m % 2 == 1 && n % 2 == 1 {
      assert (m + n) % 2 == 0;
      SameBy(x + v, y + 256 * (z + 256 * v), k - v);
    } else {
      assert Weigh(m + n, v) == Weigh(m, Weigh(n, v)) by { WeighAdds(m, n, v); }
      SameBy(x + Weigh(m + n, v), y + Weigh(m, z + Weigh(n, v)), k);
    }
  }

  lemma WeighAdds(m: nat, n: nat, v: nat)
    requires m % 2 == 0 || n % 2 == 0
    ensures Weigh(m + n, v) == Weigh(m, Weigh(n, v))
  {
  }

  // ------------------------------------------------------------------ coreboot

  // Adding with the carry wrapped around.
  lemma CarryFolds(sum: nat, v: nat, total: nat)
    requires sum == Fold(total) && v <= MAX16
    ensures var next := sum + v;
      Fold(total + v) == if next > 0xFFFF then (next + next / 0x10000) % 0x10000 else next
  {
    FoldAdd(total, v);
    FoldRange(sum + v);
  }

  /** compute_ip_checksum() on the bytes s. */
  method ComputeIpChecksum(s: seq<byte>) returns (r: nat)
    ensures r == Csum(s)
  {
    var sum := 0;
    var i := 0;
    while i < |s|
      invariant 0 <= i <= |s| && sum == Fold(Sum(s[..i]))
    {
      var v: nat := s[i];
      if i % 2 == 1 {
        v := v * 256;
      }
      assert s[..i + 1][..i] == s[..i];
      CarryFolds(sum, v, Sum(s[..i]));
      sum := sum + v;
      if sum > 0xFFFF {
        sum := (sum + sum / 0x10000) % 0x10000;
      }
      i := i + 1;
    }
    assert s[..|s|] == s;
    r := 0xFFFF - sum;
  }

  /** add_ip_checksums() */
  function AddIpChecksums(offset: nat, sum: word16, new_: word16): word16 {
    var a, b := MAX16 - sum, MAX16 - new_;
    MAX16 - AddCarry(a, if offset % 2 == 1 then Swap(b) else b)
  }

  // The two bytes of a checksum that stands at an even offset, and at an odd one.
  function Stored(offset: nat, c: word16): seq<byte> {
    if offset % 2 == 0 then [c % 256] + [c / 256] else [c / 256] + [c % 256]
  }

  lemma StoredSum(offset: nat, c: word16)
    ensures Sum(Stored(offset, c)) == if offset % 2 == 0 then c else Swap(c)
  {
    var b := Stored(offset, c);
    assert b[..1] == [b[0]] && b[..1][..0] == [];
    assert Sum(b[..1]) == b[0];
  }

  // Wherever it stands, it weighs what it is.
  lemma StoredWeighs(offset: nat, c: word16)
    ensures Fold(Weigh(offset, Sum(Stored(offset, c)))) == c
  {
    StoredSum(offset, c);
    FoldRange(c);
    if offset % 2 == 1 {
      SwapTwice(c);
      SwapIsShift(Swap(c));
      FoldRange(Swap(c));
    }
  }

  /** A byte string with its checksum behind it has checksum 0: a receiver can check it in one sum. */
  lemma ChecksumVerifies(s: seq<byte>)
    ensures Csum(s + Stored(|s|, Csum(s))) == 0
  {
    var b := Stored(|s|, Csum(s));
    SumConcat(s, b);
    StoredWeighs(|s|, Csum(s));
    FoldSame(Sum(s + b), Sum(s) + Weigh(|s|, Sum(b)));
    AddCarryFolds(Sum(s), Weigh(|s|, Sum(b)));
  }

  lemma SwapTwice(c: word16)
    ensures Swap(Swap(c)) == c
  {
    SwapValue(c / 256, c % 256);
    SwapValue(c % 256, c / 256);
  }

  /** The checksum of a concatenation is the combination of the checksums, whatever the lengths. */
  lemma ChecksumOfConcatenation(a: seq<byte>, b: seq<byte>)
    ensures AddIpChecksums(|a|, Csum(a), Csum(b)) == Csum(a + b)
  {
    SumConcat(a, b);
    if |a| % 2 == 1 {
      SwapIsShift(Sum(b));
      AddCarryFolds(Sum(a), 256 * Sum(b));
      FoldSame(Sum(a + b), Sum(a) + 256 * Sum(b));
    } else {
      AddCarryFolds(Sum(a), Sum(b));
      FoldSame(Sum(a + b), Sum(a) + Sum(b));
    }
  }

  // ------------------------------------------------------------------ memtest86+

  // The sum that ip_compute_csum() computes: from an odd address on, the first byte counts once and
  // the rest is summed as if it started a word.
  function WordSum(addr: nat, s: seq<byte>): nat
    requires addr % 2 == 1 ==> s != []
  {
    if addr % 2 == 1 then s[0] + Sum(s[1..]) else Sum(s)
  }

  // Add a word, and take 65535 off when the sum no longer fits into 16 bits.
  method AddWord(sum: nat, w: nat, ghost total: nat) returns (r: nat)
    requires w <= MAX16 && sum == Fold(total)
    ensures r == Fold(total + w)
  {
    r := sum + w;
    if r > 0xFFFF {
      r := r - 0xFFFF;
    }
    FoldAdd(total, w);
    FoldRange(sum + w);
  }

  // One more little-endian word.
  lemma SumWord(s: seq<byte>, i: nat)
    requires 2 * i + 2 <= |s|
    ensures var lo: nat, hi: nat := s[2 * i], s[2 * i + 1];
      Sum(s[..2 * i + 2]) == Sum(s[..2 * i]) + (lo + 256 * hi)
  {
    assert s[..2 * i + 2][..2 * i + 1] == s[..2 * i + 1];
    assert s[..2 * i + 1][..2 * i] == s[..2 * i];
  }

  method AddTwo(from: nat, s: seq<byte>, i: nat, ghost first: nat) returns (sum: nat)
    requires 2 * i + 2 <= |s| && from == Fold(first + Sum(s[..2 * i]))
    ensures sum == Fold(first + Sum(s[..2 * i + 2]))
  {
    var lo: nat, hi: nat := s[2 * i], s[2 * i + 1];
    SumWord(s, i);
    sum := AddWord(from, lo + 256 * hi, first + Sum(s[..2 * i]));
  }

  // From an even address on: the whole words, then the odd byte.
  method AddWords(from: nat, s: seq<byte>, ghost first: nat) returns (sum: nat)
    requires from == Fold(first)
    ensures sum == Fold(first + Sum(s))
  {
    sum := from;
    var i, len := 0, |s| / 2;
    while i < len
      invariant 0 <= i <= len && sum == Fold(first + Sum(s[..2 * i]))
    {
      sum := AddTwo(sum, s, i, first);
      i := i + 1;
    }
    assert i == len && 2 * len == |s| - |s| % 2;
    if |s| % 2 == 1 {
      assert s[..2 * len] == s[..|s| - 1];
      sum := AddWord(sum, s[|s| - 1], first + Sum(s[..|s| - 1]));
    } else {
      assert s[..2 * len] == s;
    }
  }

  /** ip_compute_csum(): a word at a time from an even address on. */
  method IpComputeCsum(addr: nat, s: seq<byte>) returns (r: nat)
    requires addr % 2 == 1 ==> s != []
    ensures r == MAX16 - Fold(WordSum(addr, s))
  {
    var sum := 0;
    if addr % 2 == 1 {
      sum := AddWord(sum, s[0], 0);
      sum := AddWords(sum, s[1..], s[0]);
    } else {
      sum := AddWords(sum, s, 0);
    }
    r := 0xFFFF - sum;
  }

  /** From an even address the two routines agree on every string; from an odd one they agree exactly
      when the words after the first byte add up to a multiple of 257. */
  lemma RoutinesAgree(addr: nat, s: seq<byte>)
    requires addr % 2 == 1 ==> s != []
    ensures MAX16 - Fold(WordSum(addr, s)) == Csum(s) <==> addr % 2 == 0 || Sum(s[1..]) % 257 == 0
  {
    if addr % 2 == 1 {
      var x, t := s[..1], s[1..];
      assert s == x + t;
      assert x[..0] == [] && Sum(x) == s[0];
      SumConcat(x, t);
      FoldSame(Sum(s), s[0] + 256 * Sum(t));
      FoldSame(s[0] + Sum(t), s[0] + 256 * Sum(t));
      Multiple257(s[0], Sum(t));
    }
  }

  lemma Multiple257(v: nat, t: nat)
    ensures Same(v + t, v + 256 * t) <==> t % 257 == 0
  {
    var x, y := v + t, v + 256 * t;
    if t % 257 == 0 {
      SameBy(x, y, -(t / 257));
    } else if Same(x, y) {
      var k := SameApart(x, y);
      DivUnique(t, -k, 257, 0);
    }
  }
}
