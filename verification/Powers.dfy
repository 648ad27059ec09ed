/** Powers modulo p, and the exponents reached by the square-and-multiply chains. */
module Powers {
  import opened Words
  import opened ModArith
  import opened Limbs
  import opened Field

  function Pow(x: int, n: nat): int
  {
    if n == 0 then 1 else x * Pow(x, n - 1)
  }

  lemma {:induction false} PowAdd(x: int, m: nat, n: nat)
    ensures Pow(x, m + n) == Pow(x, m) * Pow(x, n)
    decreases m
  {
    if m > 0 {
      PowAdd(x, m - 1, n);
      assert x * (Pow(x, m - 1) * Pow(x, n)) == (x * Pow(x, m - 1)) * Pow(x, n);
    }
  }

  lemma PowOne(x: int)
    ensures Pow(x, 1) == x
  {
    assert Pow(x, 0) == 1;
  }

  /** Congruent bases have congruent powers. */
  lemma {:induction false} PowEq(x: int, y: int, n: nat)
    requires Eq(x, y)
    ensures Eq(Pow(x, n), Pow(y, n))
  {
    if n > 0 {
      PowEq(x, y, n - 1);
      CongMul(x, y, Pow(x, n - 1), Pow(y, n - 1), P);
    }
  }

  lemma {:induction false} Pow2Add(a: nat, b: nat)
    ensures Pow2(a + b) == Pow2(a) * Pow2(b)
    decreases a
  {
    if a > 0 {
      assert Pow2(a) == 2 * Pow2(a - 1) && Pow2(a + b) == 2 * Pow2(a - 1 + b);
      hide Pow2;
      Pow2Add(a - 1, b);
      DoubleProduct(Pow2(a - 1), Pow2(b));
    }
  }

  lemma DoubleProduct(x: int, y: int)
    ensures 2 * (x * y) == (2 * x) * y
  {
  }

  /** The exponent of all ones over `n` bits. */
  function Ones(n: nat): nat
  {
    Pow2(n) - 1
  }

  lemma OneLess(x: int, y: int)
    ensures (x - 1) * y == x * y - y
  {
  }

  /** Shifting a run of ones up by `b` bits and filling in a run of `b` gives a longer run. */
  lemma OnesJoin(a: nat, b: nat)
    ensures Ones(a) * Pow2(b) + Ones(b) == Ones(a + b)
  {
    hide Pow2;
    Pow2Add(a, b);
    OneLess(Pow2(a), Pow2(b));
  }

  lemma {:induction false} Pow256IsPow2(n: nat)
    ensures Pow2(8 * n) == Pow256(n)
  {
    if n > 0 {
      Pow256IsPow2(n - 1);
      Pow2Add(8, 8 * (n - 1));
      assert Pow2(8) == 256;
    }
  }

  lemma TopBitIsPow2()
    ensures Pow2(255) == TOP_BIT
  {
    Weights();
    Pow256IsPow2(31);
    Pow2Add(7, 248);
    assert Pow2(7) == 128;
    hide Pow2, Pow256;
  }

  /** The last steps of `recip`: shift 250 ones up by five bits and add 11. */
  lemma InverseExponent()
    ensures Ones(250) * Pow2(5) + 11 == P - 2
  {
    TopBitIsPow2();
    Pow2Add(250, 5);
    assert Pow2(5) == 32;
    hide Pow2;
    assert (Pow2(250) - 1) * 32 == Pow2(250) * 32 - 32;
  }

  /** The last steps of `fe25519_pow2523`: shift 250 ones up by two bits and add 1. */
  lemma SquareRootExponent()
    ensures 8 * (Ones(250) * Pow2(2) + 1) == P - 5
  {
    TopBitIsPow2();
    Pow2Add(250, 5);
    assert Pow2(5) == 32 && Pow2(2) == 4;
    hide Pow2;
    assert (Pow2(250) - 1) * 4 == Pow2(250) * 4 - 4;
  }
}
