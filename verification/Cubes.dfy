/** Address/mask pairs of the BadRAM patterns (patn.c of memtest86+) as sets of addresses. */
module Cubes {
  import opened Powers

  // The bits of an unsigned long, lowest bit first.
  const WIDTH: nat := 32
  type word = s: seq<bool> | |s| == WIDTH witness seq(WIDTH, _ => false)

  // A pattern: the addresses that agree with `adr` on the bits set in `mask`.
  datatype Pair = Pair(adr: word, mask: word)

  function And(a: seq<bool>, b: seq<bool>): (r: seq<bool>)
    requires |a| == |b|
    ensures |r| == |a|
  {
    seq(|a|, i requires 0 <= i < |a| => a[i] && b[i])
  }

  function Or(a: seq<bool>, b: seq<bool>): (r: seq<bool>)
    requires |a| == |b|
    ensures |r| == |a|
  {
    seq(|a|, i requires 0 <= i < |a| => a[i] || b[i])
  }

  function Not(a: seq<bool>): (r: seq<bool>)
    ensures |r| == |a|
  {
    seq(|a|, i requires 0 <= i < |a| => !a[i])
  }

  predicate Covers(p: Pair, x: word) {
    forall i :: 0 <= i < WIDTH && p.mask[i] ==> x[i] == p.adr[i]
  }

  // Every address of q is one of p.
  ghost predicate Within(q: Pair, p: Pair) {
    forall x: word :: Covers(q, x) ==> Covers(p, x)
  }

  // COMBINE_MASK(a, b, c, d)
  function CombineMask(a: word, b: word, c: word, d: word): word {
    Or(And(And(And(a, b), c), d), And(And(And(Not(a), b), Not(c)), d))
  }

  function Combine(p: Pair, q: Pair): Pair {
    Pair(And(Or(p.adr, q.adr), CombineMask(p.adr, p.mask, q.adr, q.mask)), CombineMask(p.adr, p.mask, q.adr, q.mask))
  }

  // ------------------------------------------------------------------ combine is the least cube

  // q lies in p exactly when p's mask bits are mask bits of q with the same address bits.
  lemma WithinBits(q: Pair, p: Pair)
    ensures Within(q, p) <==> forall i :: 0 <= i < WIDTH && p.mask[i] ==> q.mask[i] && q.adr[i] == p.adr[i]
  {
    if Within(q, p) {
      assert Covers(q, q.adr);
      forall i | 0 <= i < WIDTH && p.mask[i] ensures q.mask[i] && q.adr[i] == p.adr[i] {
        assert Covers(p, q.adr);
        if !q.mask[i] {
          var x: word := q.adr[i := !q.adr[i]];
          assert Covers(q, x);
        }
      }
    }
  }

  lemma CombineBits(p: Pair, q: Pair, i: nat)
    requires i < WIDTH
    ensures Combine(p, q).mask[i] <==> p.mask[i] && q.mask[i] && p.adr[i] == q.adr[i]
    ensures Combine(p, q).mask[i] ==> Combine(p, q).adr[i] == p.adr[i]
  {
  }

  /** combine() gives the least pattern that covers both arguments. */
  lemma CombineIsLeast(p: Pair, q: Pair, r: Pair)
    ensures Within(p, Combine(p, q)) && Within(q, Combine(p, q))
    ensures Within(p, r) && Within(q, r) ==> Within(Combine(p, q), r)
  {
    var c := Combine(p, q);
    forall i | 0 <= i < WIDTH
      ensures c.mask[i] <==> p.mask[i] && q.mask[i] && p.adr[i] == q.adr[i]
      ensures c.mask[i] ==> c.adr[i] == p.adr[i]
    {
      CombineBits(p, q, i);
    }
    WithinBits(p, c);
    WithinBits(q, c);
    WithinBits(p, r);
    WithinBits(q, r);
    WithinBits(c, r);
  }

  // Combining adds nothing to the mask exactly when the second pattern lies in the first.
  lemma CombineAbsorbs(p: Pair, q: Pair)
    ensures Combine(p, q).mask == p.mask <==> Within(q, p)
  {
    forall i | 0 <= i < WIDTH
      ensures Combine(p, q).mask[i] <==> p.mask[i] && q.mask[i] && p.adr[i] == q.adr[i]
    {
      CombineBits(p, q, i);
    }
    WithinBits(q, p);
    if Within(q, p) {
      assert Combine(p, q).mask == p.mask;
    }
  }

  // ------------------------------------------------------------------ how many addresses

  function Zeros(m: seq<bool>): (z: nat)
    ensures z <= |m|
  {
    if m == [] then 0 else (if m[0] then 0 else 1) + Zeros(m[1..])
  }

  ghost function Prefixed(b: bool, s: set<seq<bool>>): set<seq<bool>> {
    set x | x in s :: [b] + x
  }

  lemma {:induction false} PrefixedSize(b: bool, s: set<seq<bool>>)
    ensures |Prefixed(b, s)| == |s|
    decreases |s|
  {
    if s != {} {
      var x :| x in s;
      PrefixedSize(b, s - {x});
      assert forall y :: y in s && [b] + y == [b] + x ==> y == x by {
        forall y | y in s && [b] + y == [b] + x ensures y == x {
          assert y == ([b] + y)[1..] && x == ([b] + x)[1..];
        }
      }
      assert Prefixed(b, s) == Prefixed(b, s - {x}) + {[b] + x};
    }
  }

  // The bit strings that agree with `adr` on the bits of `mask`.
  ghost function Members(adr: seq<bool>, mask: seq<bool>): set<seq<bool>>
    requires |adr| == |mask|
    decreases |mask|
  {
    if mask == [] then {[]}
    else if mask[0] then Prefixed(adr[0], Members(adr[1..], mask[1..]))
    else Prefixed(false, Members(adr[1..], mask[1..])) + Prefixed(true, Members(adr[1..], mask[1..]))
  }

  ghost predicate Agrees(x: seq<bool>, adr: seq<bool>, mask: seq<bool>)
    requires |adr| == |mask|
  {
    |x| == |mask| && forall i :: 0 <= i < |mask| && mask[i] ==> x[i] == adr[i]
  }

  lemma {:induction false} MembersAgree(adr: seq<bool>, mask: seq<bool>, x: seq<bool>)
    requires |adr| == |mask|
    ensures x in Members(adr, mask) <==> Agrees(x, adr, mask)
    decreases |mask|
  {
    if mask != [] {
      var rest := Members(adr[1..], mask[1..]);
      if |x| == |mask| {
        MembersAgree(adr[1..], mask[1..], x[1..]);
        assert x == [x[0]] + x[1..];
        assert x[1..] in rest ==> x in Prefixed(x[0], rest);
      }
      if x in Prefixed(true, rest) || x in Prefixed(false, rest) {
        var y :| y in rest && (x == [true] + y || x == [false] + y);
        assert x[1..] == y;
        MembersAgree(adr[1..], mask[1..], y);
      }
      assert Agrees(x, adr, mask) ==> Agrees(x[1..], adr[1..], mask[1..]);
    }
  }

  lemma PrefixedBoth(s: set<seq<bool>>)
    ensures |Prefixed(false, s) + Prefixed(true, s)| == 2 * |s|
  {
    PrefixedSize(true, s);
    PrefixedSize(false, s);
    forall x | x in Prefixed(false, s) ensures x !in Prefixed(true, s) {
      assert x[0] == false;
    }
    assert Prefixed(false, s) !! Prefixed(true, s);
  }

  lemma {:induction false} MembersSize(adr: seq<bool>, mask: seq<bool>)
    requires |adr| == |mask|
    ensures |Members(adr, mask)| == Pow2(Zeros(mask))
    decreases |mask|
  {
    if mask != [] {
      var rest := Members(adr[1..], mask[1..]);
      MembersSize(adr[1..], mask[1..]);
      PrefixedSize(adr[0], rest);
      PrefixedBoth(rest);
    } else {
      assert Members(adr, mask) == {[]};
    }
  }

  // The addresses of a pattern.
  ghost function Cube(p: Pair): set<seq<bool>> {
    Members(p.adr, p.mask)
  }

  /** A pattern covers 2^k addresses, k being the number of clear bits of its mask. */
  lemma CubeSize(p: Pair)
    ensures |Cube(p)| == Pow2(Zeros(p.mask))
    ensures forall x: word :: x in Cube(p) <==> Covers(p, x)
  {
    MembersSize(p.adr, p.mask);
    forall x: word ensures x in Cube(p) <==> Covers(p, x) {
      MembersAgree(p.adr, p.mask, x);
    }
  }

  // ------------------------------------------------------------------ addresses() and combicost()

  const ULONG: nat := 0x1_0000_0000

  // The count that addresses() computes: the number of addresses, modulo 2^32.
  function Addresses(mask: word): nat {
    Pow2(Zeros(mask)) % ULONG
  }

  /** addresses(): 32 rounds over the mask, doubling a 32-bit counter for every clear bit. */
  method CountAddresses(mask: word) returns (ctr: nat)
    ensures ctr == Addresses(mask)
  {
    ctr := 1;
    var m: seq<bool> := mask;
    var i := 32;
    while i > 0
      invariant 0 <= i <= 32 && m == mask[32 - i..] + seq(32 - i, _ => false)
      invariant ctr < ULONG
      invariant (ctr * Pow2(Zeros(mask[32 - i..]))) % ULONG == Addresses(mask)
    {
      assert mask[32 - i..] == [m[0]] + mask[32 - i + 1..];
      if !m[0] {
        DoubleMod(ctr, Pow2(Zeros(mask[32 - i + 1..])));
        ctr := (ctr + ctr) % ULONG;
      }
      m := m[1..] + [false];
      i := i - 1;
    }
  }

  // Doubling the counter modulo 2^32 is doubling what is still to come.
  lemma DoubleMod(c: nat, x: nat)
    ensures (((c + c) % ULONG) * x) % ULONG == (c * (2 * x)) % ULONG
  {
    var q, r := (c + c) / ULONG, (c + c) % ULONG;
    assert c + c == q * ULONG + r;
    Distribute(q * ULONG, r, x);
    Exchange(q, ULONG, x);
    Exchange(2, x, c);
    ModAddMultiple(r * x, q * x, ULONG);
  }

  lemma Exchange(a: nat, b: nat, c: nat)
    ensures a * b * c == a * c * b
  {
    assert b * c == c * b;
    assert a * (b * c) == a * b * c && a * (c * b) == a * c * b;
  }

  // combicost(): how many addresses the first pattern gains by taking in the second.
  function CombiCost(p: Pair, q: Pair): nat {
    (Addresses(Combine(p, q).mask) - Addresses(p.mask)) % ULONG
  }

  // ------------------------------------------------------------------ what the cost means

  lemma {:induction false} ZerosMonotone(a: seq<bool>, b: seq<bool>)
    requires |a| == |b| && forall i :: 0 <= i < |a| && a[i] ==> b[i]
    ensures Zeros(b) <= Zeros(a) && (Zeros(a) == Zeros(b) ==> a == b)
  {
    if a != [] {
      assert forall i :: 0 <= i < |a[1..]| && a[1..][i] ==> b[i + 1];
      ZerosMonotone(a[1..], b[1..]);
      assert a == [a[0]] + a[1..] && b == [b[0]] + b[1..];
    }
  }

  // addresses() wraps to 0 for the mask without set bits only.
  lemma AddressesValue(mask: word)
    ensures Zeros(mask) < 32 ==> Addresses(mask) == Pow2(Zeros(mask)) <= ULONG / 2
    ensures Zeros(mask) == 32 ==> Addresses(mask) == 0
  {
    var n := 32;
    Pow2Of32(n);
    if Zeros(mask) < 32 {
      Pow2Monotone(Zeros(mask), n);
    }
  }

  lemma CombineZeros(p: Pair, q: Pair)
    ensures Zeros(p.mask) <= Zeros(Combine(p, q).mask) <= 32
    ensures Zeros(p.mask) == Zeros(Combine(p, q).mask) <==> Combine(p, q).mask == p.mask
    ensures Zeros(q.mask) <= Zeros(Combine(p, q).mask)
  {
    forall i | 0 <= i < WIDTH && Combine(p, q).mask[i] ensures p.mask[i] && q.mask[i] {
      CombineBits(p, q, i);
    }
    ZerosMonotone(Combine(p, q).mask, p.mask);
    ZerosMonotone(Combine(p, q).mask, q.mask);
  }

  /** combicost() is exact although addresses() wraps: it is the number of addresses gained. */
  lemma CombiCostIsExact(p: Pair, q: Pair)
    ensures CombiCost(p, q) == |Cube(Combine(p, q))| - |Cube(p)|
  {
    CubeSize(p);
    CubeSize(Combine(p, q));
    CombineZeros(p, q);
    CostArithmetic(Zeros(p.mask), Zeros(Combine(p, q).mask));
  }

  lemma CostArithmetic(zp: nat, zc: nat)
    requires zp <= zc <= 32
    ensures (Pow2(zc) % ULONG - Pow2(zp) % ULONG) % ULONG == Pow2(zc) - Pow2(zp)
  {
    PowerRange(zp, zc);
    ModDifference(Pow2(zp), Pow2(zc));
  }

  lemma PowerRange(zp: nat, zc: nat)
    requires zp <= zc <= 32
    ensures Pow2(zp) <= Pow2(zc) <= ULONG
  {
    var n := 32;
    Pow2Of32(n);
    Pow2Monotone(zp, zc);
    Pow2Monotone(zc, n);
  }

  lemma ModDifference(a: nat, c: nat)
    requires 0 < a <= c <= ULONG
    ensures (c % ULONG - a % ULONG) % ULONG == c - a
  {
    if c < ULONG {
      assert c % ULONG == c && a % ULONG == a;
    } else if a < ULONG {
      assert c % ULONG == 0 && a % ULONG == a;
    }
  }

  /** It costs nothing exactly when the second pattern lies in the first. */
  lemma FreeMeansWithin(p: Pair, q: Pair)
    ensures CombiCost(p, q) == 0 <==> Within(q, p)
  {
    CombiCostIsExact(p, q);
    CubeSize(p);
    CubeSize(Combine(p, q));
    CombineZeros(p, q);
    CombineAbsorbs(p, q);
    Pow2Monotone(Zeros(p.mask), Zeros(Combine(p, q).mask));
  }
}
