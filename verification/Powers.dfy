/** Powers of two, and the division facts that their users share. */
module Powers {
  function Pow2(n: nat): (r: nat)
    ensures r >= 1
  {
    if n == 0 then 1 else 2 * Pow2(n - 1)
  }

  lemma {:induction false} Pow2Sum(a: nat, b: nat)
    ensures Pow2(a + b) == Pow2(a) * Pow2(b)
  {
    if a != 0 {
      Pow2Sum(a - 1, b);
      assert 2 * (Pow2(a - 1) * Pow2(b)) == (2 * Pow2(a - 1)) * Pow2(b);
    }
  }

  lemma {:induction false} Pow2Monotone(a: nat, b: nat)
    requires a <= b
    ensures Pow2(a) <= Pow2(b) && (a < b ==> 2 * Pow2(a) <= Pow2(b))
  {
    if a < b {
      Pow2Monotone(a, b - 1);
    }
  }

  lemma Pow2Square(n: nat, x: nat)
    requires Pow2(n) == x
    ensures Pow2(2 * n) == x * x
  {
    Pow2Sum(n, n);
  }

  lemma Pow2Of32(n: nat)
    requires n == 32
    ensures Pow2(n) == 0x1_0000_0000
  {
    assert Pow2(2) == 4;
    Pow2Square(2, 4);
    Pow2Square(4, 0x10);
    Pow2Square(8, 0x100);
    Pow2Square(16, 0x1_0000);
  }

  lemma Pow2Of31(n: nat)
    requires n == 31
    ensures Pow2(n) == 0x8000_0000
  {
    Pow2Of32(n + 1);
  }

  // ------------------------------------------------------------------ products and quotients

  lemma AtLeastOnce(k: nat, n: nat)
    requires k >= 1
    ensures k * n >= n
  {
    assert k * n == (k - 1) * n + n;
  }

  lemma Distribute(a: int, b: int, n: int)
    ensures (a + b) * n == a * n + b * n
  {
  }

  // Quotient and remainder are the only ones.
  lemma DivUnique(x: int, q: int, n: nat, r: nat)
    requires r < n && x == q * n + r
    ensures x % n == r && x / n == q
  {
    var d, s := x / n, x % n;
    assert x == d * n + s;
    if q > d {
      Distribute(q - d, d, n);
      AtLeastOnce(q - d, n);
    } else if q < d {
      Distribute(d - q, q, n);
      AtLeastOnce(d - q, n);
    }
  }

  // Whole multiples of n do not show in the remainder.
  lemma ModAddMultiple(x: int, k: int, n: nat)
    requires n > 0
    ensures (x + k * n) % n == x % n
  {
    Distribute(x / n, k, n);
    DivUnique(x + k * n, x / n + k, n, x % n);
  }
}
