/** The limits of a 64-bit machine, and powers of two. */
module Machine {
  const SIZE_MAX := 0xFFFF_FFFF_FFFF_FFFF
  const SSIZE_MAX := 0x7FFF_FFFF_FFFF_FFFF

  function Pow2(n: nat): nat {
    if n == 0 then 1 else 2 * Pow2(n - 1)
  }

  lemma {:induction false} Pow2Monotone(m: nat, n: nat)
    requires m <= n
    ensures 0 < Pow2(m) <= Pow2(n)
    decreases n
  {
    if m < n {
      Pow2Monotone(m, n - 1);
    } else if n != 0 {
      Pow2Monotone(m - 1, n - 1);
    }
  }

  lemma {:induction false} Pow2Sum(m: nat, n: nat)
    ensures Pow2(m) * Pow2(n) == Pow2(m + n)
  {
    if m > 0 {
      Pow2Sum(m - 1, n);
      assert Pow2(m) * Pow2(n) == 2 * (Pow2(m - 1) * Pow2(n));
    }
  }

  lemma Pow2Double(n: nat)
    ensures Pow2(2 * n) == Pow2(n) * Pow2(n)
  {
    Pow2Sum(n, n);
  }

  lemma {:induction false} Square(b: nat, c: nat)
    requires b <= c
    ensures b * b <= c * c
  {
    if b < c {
      Square(b, c - 1);
      assert (c - 1) * (c - 1) == c * c - 2 * c + 1;
    }
  }

  lemma Pow2Of128()
    ensures Pow2(128) == (SIZE_MAX + 1) * (SIZE_MAX + 1)
  {
    Pow2Of64();
    Pow2Double(64);
  }

  /** A power of two from half the exponent. */
  lemma Pow2Square(n: nat, p: nat, q: nat)
    requires Pow2(n) == p && q == p * p
    ensures Pow2(2 * n) == q
  {
    Pow2Double(n);
  }

  lemma Pow2Of64()
    ensures Pow2(64) == SIZE_MAX + 1
  {
    Pow2Square(1, 2, 4);
    Pow2Square(2, 4, 0x10);
    Pow2Square(4, 0x10, 0x100);
    Pow2Square(8, 0x100, 0x1_0000);
    Pow2Square(16, 0x1_0000, 0x1_0000_0000);
    Pow2Square(32, 0x1_0000_0000, SIZE_MAX + 1);
  }
}
