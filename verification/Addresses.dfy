/** 64-bit resource addresses and the rounding helpers of device.c and device_util.c. */
module Addresses {
  import opened Powers

  const WORD: nat := 0x1_0000_0000_0000_0000

  // A resource_t.
  type address = x: nat | x < WORD
  // A shift count that is legal on a 64-bit value.
  type shift = x: nat | x < 64

  // val & ~((1 << pow) - 1), bit by bit.
  function ClearLow(val: nat, pow: nat): (r: nat)
    ensures r <= val
  {
    if pow == 0 then val else 2 * ClearLow(val / 2, pow - 1)
  }

  // round() and align_up(): the addition wraps at 64 bits.
  function Round(val: address, pow: shift): (r: address) {
    ClearLow((val + Pow2(pow) - 1) % WORD, pow)
  }

  function Add(a: address, b: address): address {
    (a + b) % WORD
  }

  function Sub(a: address, b: address): address {
    (a - b) % WORD
  }

  // The low pow bits of x are zero.
  predicate Multiple(x: nat, pow: nat) {
    pow == 0 || (x % 2 == 0 && Multiple(x / 2, pow - 1))
  }

  // The least multiple of 2^pow that is at least val, on unbounded numbers.
  ghost function RoundUp(val: nat, pow: nat): nat {
    if pow == 0 then val else 2 * RoundUp((val + 1) / 2, pow - 1)
  }

  lemma {:induction false} ClearLowBounds(val: nat, pow: nat)
    ensures Multiple(ClearLow(val, pow), pow)
    ensures val < ClearLow(val, pow) + Pow2(pow)
  {
    if pow != 0 {
      ClearLowBounds(val / 2, pow - 1);
    }
  }

  lemma {:induction false} ClearLowGreatest(val: nat, pow: nat, m: nat)
    requires Multiple(m, pow) && m <= val
    ensures m <= ClearLow(val, pow)
  {
    if pow != 0 {
      ClearLowGreatest(val / 2, pow - 1, m / 2);
    }
  }

  /** RoundUp is a multiple of the power, at or above its argument, and less than one power above. */
  lemma {:induction false} RoundUpBounds(val: nat, pow: nat)
    ensures Multiple(RoundUp(val, pow), pow)
    ensures val <= RoundUp(val, pow) < val + Pow2(pow)
  {
    if pow != 0 {
      RoundUpBounds((val + 1) / 2, pow - 1);
    }
  }

  /** It is the least such multiple. */
  lemma {:induction false} RoundUpLeast(val: nat, pow: nat, m: nat)
    requires Multiple(m, pow) && val <= m
    ensures RoundUp(val, pow) <= m
  {
    if pow != 0 {
      RoundUpLeast((val + 1) / 2, pow - 1, m / 2);
    }
  }

  lemma {:induction false} RoundUpShift(b: nat, val: nat, pow: nat)
    requires Multiple(b, pow)
    ensures RoundUp(b + val, pow) == b + RoundUp(val, pow)
  {
    if pow != 0 {
      RoundUpShift(b / 2, (val + 1) / 2, pow - 1);
    }
  }

  lemma {:induction false} MultipleSum(a: nat, b: nat, pow: nat)
    requires Multiple(a, pow) && Multiple(b, pow)
    ensures Multiple(a + b, pow)
  {
    if pow != 0 {
      MultipleSum(a / 2, b / 2, pow - 1);
      assert (a + b) / 2 == a / 2 + b / 2;
    }
  }

  lemma {:induction false} MultipleDiff(a: nat, b: nat, pow: nat)
    requires Multiple(a, pow) && Multiple(b, pow) && b <= a
    ensures Multiple(a - b, pow)
  {
    if pow != 0 {
      MultipleDiff(a / 2, b / 2, pow - 1);
      assert (a - b) / 2 == a / 2 - b / 2;
    }
  }

  lemma {:induction false} MultiplesApart(a: nat, b: nat, pow: nat)
    requires Multiple(a, pow) && Multiple(b, pow) && a < b
    ensures a + Pow2(pow) <= b
  {
    if pow != 0 {
      MultiplesApart(a / 2, b / 2, pow - 1);
    }
  }

  lemma {:induction false} MultipleWeaken(x: nat, lo: nat, hi: nat)
    requires lo <= hi && Multiple(x, hi)
    ensures Multiple(x, lo)
  {
    if lo != 0 {
      MultipleWeaken(x / 2, lo - 1, hi - 1);
    }
  }

  lemma {:induction false} MultipleFactor(x: nat, pow: nat) returns (m: nat)
    requires Multiple(x, pow)
    ensures x == m * Pow2(pow)
  {
    if pow == 0 {
      m := x;
    } else {
      m := MultipleFactor(x / 2, pow - 1);
      assert x == 2 * (m * Pow2(pow - 1)) == m * (2 * Pow2(pow - 1));
    }
  }

  lemma RoundUpFixed(val: nat, pow: nat)
    requires Multiple(val, pow)
    ensures RoundUp(val, pow) == val
  {
    RoundUpLeast(val, pow, val);
    RoundUpBounds(val, pow);
  }

  lemma RoundUpMonotone(a: nat, b: nat, pow: nat)
    requires a <= b
    ensures RoundUp(a, pow) <= RoundUp(b, pow)
  {
    RoundUpBounds(b, pow);
    RoundUpLeast(a, pow, RoundUp(b, pow));
  }

  // Rounding to a weaker power first changes nothing.
  lemma RoundUpTwice(val: nat, lo: nat, hi: nat)
    requires lo <= hi
    ensures RoundUp(RoundUp(val, lo), hi) == RoundUp(val, hi)
  {
    RoundUpBounds(val, lo);
    RoundUpBounds(val, hi);
    MultipleWeaken(RoundUp(val, hi), lo, hi);
    RoundUpLeast(val, lo, RoundUp(val, hi));
    RoundUpLeast(RoundUp(val, lo), hi, RoundUp(val, hi));
    RoundUpMonotone(val, RoundUp(val, lo), hi);
  }

  lemma {:induction false} RoundUpAsClear(val: nat, pow: nat)
    ensures RoundUp(val, pow) == ClearLow(val + Pow2(pow) - 1, pow)
  {
    if pow != 0 {
      RoundUpAsClear((val + 1) / 2, pow - 1);
      assert (val + Pow2(pow) - 1) / 2 == (val + 1) / 2 + Pow2(pow - 1) - 1;
    }
  }

  lemma {:induction false} Pow2Multiple(n: nat, pow: nat)
    requires pow <= n
    ensures Multiple(Pow2(n), pow)
  {
    if pow != 0 {
      Pow2Multiple(n - 1, pow - 1);
    }
  }

  // Rounding up inside an n-bit word does not carry out of it.
  lemma RoundInWord(val: nat, pow: nat, n: nat)
    requires pow <= n && RoundUp(val, pow) < Pow2(n)
    ensures val + Pow2(pow) - 1 < Pow2(n)
  {
    Pow2Multiple(n, pow);
    RoundUpBounds(val, pow);
    MultiplesApart(RoundUp(val, pow), Pow2(n), pow);
  }

  lemma {:induction false} ProductMultiple(m: nat, n: nat, pow: nat)
    requires pow <= n
    ensures Multiple(m * Pow2(n), pow)
  {
    if pow != 0 {
      assert m * Pow2(n) == 2 * (m * Pow2(n - 1));
      ProductMultiple(m, n - 1, pow - 1);
    }
  }

  lemma Pow2Ten(n: nat)
    requires n == 10
    ensures Pow2(n) == 0x400
  {
    assert Pow2(n - 8) == 4;
    assert Pow2(n - 6) == 16;
    assert Pow2(n - 4) == 64;
    assert Pow2(n - 2) == 256;
  }

  // 1 KiB boundaries, the period of the legacy I/O aliases.
  lemma KibFromMultiple(x: nat, pow: nat)
    requires pow >= 10 && Multiple(x, pow)
    ensures x % 0x400 == 0
  {
    var ten := 10;
    MultipleWeaken(x, ten, pow);
    var m := MultipleFactor(x, ten);
    Pow2Ten(ten);
  }

  lemma MultipleFromKib(x: nat, pow: nat)
    requires pow <= 10 && x % 0x400 == 0
    ensures Multiple(x, pow)
  {
    var ten := 10;
    Pow2Ten(ten);
    ProductMultiple(x / 0x400, ten, pow);
  }

  lemma WordIsPower()
    ensures Pow2(64) == WORD
  {
    Pow2Of32(32);
    Pow2Square(32, 0x1_0000_0000);
  }

  lemma SmallMod(x: nat, m: nat)
    requires x < m
    ensures x % m == x
  {
  }

  /** The 64-bit round() is exact whenever the rounded value is a 64-bit number. */
  lemma RoundExact(val: address, pow: shift)
    requires RoundUp(val, pow) < WORD
    ensures Round(val, pow) == RoundUp(val, pow)
  {
    WordIsPower();
    RoundInWord(val, pow, 64);
    SmallMod(val + Pow2(pow) - 1, WORD);
    RoundUpAsClear(val, pow);
  }
}
