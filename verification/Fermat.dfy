/** Fermat's little theorem, from the absence of zero divisors. */
module Fermat {
  import opened ModArith
  import opened Powers

  ghost predicate Cancels(a: int, b: int, m: int)
    requires m > 0
  {
    Cong(a * b, 0, m) ==> Cong(a, 0, m) || Cong(b, 0, m)
  }

  /** No zero divisors: what being prime means for a modulus. */
  ghost predicate Domain(m: int)
  {
    m > 1 && forall a: int, b: int :: Cancels(a, b, m)
  }

  lemma CancelIn(a: int, b: int, m: int)
    requires Domain(m) && Cong(a * b, 0, m)
    ensures Cong(a, 0, m) || Cong(b, 0, m)
  {
    assert Cancels(a, b, m);
  }

  /** Binomial coefficients. */
  function Choose(n: nat, k: nat): nat
  {
    if k == 0 then 1 else if n == 0 then 0 else Choose(n - 1, k - 1) + Choose(n - 1, k)
  }

  lemma {:induction false} ChooseBeyond(n: nat, k: nat)
    requires k > n
    ensures Choose(n, k) == 0
  {
    if n > 0 {
      ChooseBeyond(n - 1, k - 1);
      ChooseBeyond(n - 1, k);
    }
  }

  lemma {:induction false} ChooseAll(n: nat)
    ensures Choose(n, n) == 1
  {
    if n > 0 {
      ChooseAll(n - 1);
      ChooseBeyond(n - 1, n);
    }
  }

  lemma {:induction false} Absorb(n: nat, k: nat)
    requires n > 0 && k > 0
    ensures k * Choose(n, k) == n * Choose(n - 1, k - 1)
  {
    if n == 1 {
      if k > 1 {
        ChooseBeyond(1, k);
        ChooseBeyond(0, k - 1);
      }
    } else {
      Absorb(n - 1, k);
      if k > 1 {
        Absorb(n - 1, k - 1);
        AbsorbArith(n, k, Choose(n - 1, k - 1), Choose(n - 1, k), Choose(n - 2, k - 2), Choose(n - 2, k - 1));
      }
    }
  }

  lemma AbsorbArith(n: int, k: int, a: int, b: int, c: int, d: int)
    requires k * b == (n - 1) * d && (k - 1) * a == (n - 1) * c && a == c + d
    ensures k * (a + b) == n * a
  {
    assert k * (a + b) == a + (k - 1) * a + k * b;
    assert (n - 1) * c + (n - 1) * d == (n - 1) * (c + d);
  }

  /** The first `m` terms of the expansion of (x + 1)^n. */
  function Terms(n: nat, m: nat, x: int): int
    decreases m
  {
    if m == 0 then 0 else Terms(n, m - 1, x) + Choose(n, m - 1) * Pow(x, m - 1)
  }

  lemma {:induction false} TermsStep(n: nat, m: nat, x: int)
    ensures Terms(n + 1, m + 1, x) == Terms(n, m + 1, x) + x * Terms(n, m, x)
    decreases m
  {
    if m > 0 {
      TermsStep(n, m - 1, x);
      TermArith(Choose(n, m - 1), Choose(n, m), x, Pow(x, m - 1), Terms(n, m - 1, x));
    } else {
      assert Terms(n + 1, 1, x) == Terms(n + 1, 0, x) + Choose(n + 1, 0) * Pow(x, 0);
      assert Terms(n, 1, x) == Terms(n, 0, x) + Choose(n, 0) * Pow(x, 0);
    }
  }

  lemma TermArith(c: int, c': int, x: int, p: int, t: int)
    ensures (c + c') * (x * p) == c' * (x * p) + x * (t + c * p) - x * t
  {
  }

  /** Multiplying the expansion by x + 1. */
  lemma TermsNext(n: nat, x: int)
    ensures Terms(n + 1, n + 2, x) == (x + 1) * Terms(n, n + 1, x)
  {
    assert Terms(n, n + 2, x) == Terms(n, n + 1, x) + Choose(n, n + 1) * Pow(x, n + 1);
    hide Terms, Pow, Choose;
    TermsStep(n, n + 1, x);
    ChooseBeyond(n, n + 1);
    NextArith(x, Terms(n, n + 1, x), Pow(x, n + 1));
  }

  lemma NextArith(x: int, t: int, p: int)
    ensures (x + 1) * t == t + 0 * p + x * t
  {
  }

  lemma {:induction false} Binomial(n: nat, x: int)
    ensures Pow(x + 1, n) == Terms(n, n + 1, x)
  {
    if n == 0 {
      assert Terms(0, 1, x) == Terms(0, 0, x) + Choose(0, 0) * Pow(x, 0);
    } else {
      Binomial(n - 1, x);
      assert Pow(x + 1, n) == (x + 1) * Pow(x + 1, n - 1);
      hide Terms, Pow;
      TermsNext(n - 1, x);
    }
  }

  lemma ChooseVanishes(p: nat, k: nat)
    requires Domain(p) && 0 < k < p
    ensures Cong(Choose(p, k), 0, p)
  {
    hide Choose, Domain;
    Absorb(p, k);
    CongByMultiple(k * Choose(p, k), 0, Choose(p - 1, k - 1), p);
    CancelIn(k, Choose(p, k), p);
    DivModUnique(k, p, 0, k);
    DivModUnique(0, p, 0, 0);
  }

  lemma {:induction false} MiddleVanishes(p: nat, m: nat, x: int)
    requires Domain(p) && 1 <= m <= p
    ensures Cong(Terms(p, m, x), 1, p)
    decreases m
  {
    if m == 1 {
      assert Terms(p, 1, x) == Terms(p, 0, x) + Choose(p, 0) * Pow(x, 0);
    } else {
      MiddleVanishes(p, m - 1, x);
      ChooseVanishes(p, m - 1);
      CongMul(Choose(p, m - 1), 0, Pow(x, m - 1), Pow(x, m - 1), p);
      CongAdd(Terms(p, m - 1, x), 1, Choose(p, m - 1) * Pow(x, m - 1), 0, p);
    }
  }

  lemma {:induction false} PowerOfSelf(p: nat, x: nat)
    requires Domain(p)
    ensures Cong(Pow(x, p), x, p)
    decreases x
  {
    if x == 0 {
      assert Pow(0, p) == 0 * Pow(0, p - 1);
    } else {
      PowerOfSelf(p, x - 1);
      Binomial(p, x - 1);
      MiddleVanishes(p, p, x - 1);
      ChooseAll(p);
      assert Terms(p, p + 1, x - 1) == Terms(p, p, x - 1) + Choose(p, p) * Pow(x - 1, p);
      CongAdd(Terms(p, p, x - 1), 1, Pow(x - 1, p), x - 1, p);
    }
  }

  lemma {:induction false} PowCong(x: int, y: int, n: nat, m: nat)
    requires m > 0 && Cong(x, y, m)
    ensures Cong(Pow(x, n), Pow(y, n), m)
    decreases n
  {
    if n > 0 {
      PowCong(x, y, n - 1, m);
      CongMul(x, y, Pow(x, n - 1), Pow(y, n - 1), m);
    }
  }

  /** x^(p-1) is 1 for every x that p does not divide. */
  lemma LittleTheorem(p: nat, x: int)
    requires Domain(p) && !Cong(x, 0, p)
    ensures Cong(Pow(x, p - 1), 1, p)
  {
    CongMod(x, p);
    PowCong(x % p, x, p, p);
    PowerOfSelf(p, x % p);
    assert Pow(x, p) == x * Pow(x, p - 1);
    hide Pow, Domain;
    CongSub(Pow(x, p), x, x, x, p);
    assert x * (Pow(x, p - 1) - 1) == Pow(x, p) - x;
    CancelIn(x, Pow(x, p - 1) - 1, p);
    CongAdd(Pow(x, p - 1) - 1, 0, 1, 1, p);
  }
}
