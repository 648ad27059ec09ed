/** The square root of a fraction as the point decoder computes it, on integers modulo p. */
module SquareRoot {
  import opened ModArith
  import opened Field
  import opened Powers
  import opened Fermat
  import opened Edwards
  import opened CurveConstants
  import opened Fe25519Powers

  /** The exponent of `fe25519_pow2523`. */
  const E: nat := ROOT_EXPONENT

  lemma {:induction false} PowMul(a: int, b: int, n: nat)
    ensures Pow(a * b, n) == Pow(a, n) * Pow(b, n)
    decreases n
  {
    if n > 0 {
      PowMul(a, b, n - 1);
      ProductArith(a, b, Pow(a, n - 1), Pow(b, n - 1));
    }
  }

  lemma ProductArith(a: int, b: int, u: int, v: int)
    ensures (a * b) * (u * v) == (a * u) * (b * v)
  {
  }

  lemma {:induction false} PowPow(a: int, m: nat, n: nat)
    ensures Pow(Pow(a, m), n) == Pow(a, m * n)
    decreases n
  {
    if n > 0 {
      PowPow(a, m, n - 1);
      PowAdd(a, m, m * (n - 1));
      assert m + m * (n - 1) == m * n;
    } else {
      assert m * 0 == 0;
    }
  }

  lemma Cancel(a: int, b: int, u: int)
    requires Prime() && !Eq(u, 0) && Eq(Prod(a, u), Prod(b, u))
    ensures Eq(a, b)
  {
    hide Prime, Prod;
    EqSub(Prod(a, u), Prod(b, u), Prod(b, u), Prod(b, u));
    Distribute(a, b, u);
    CancelPrime(a - b, u);
    EqAdd(a - b, 0, b, b);
  }

  /** Equal squares have equal or opposite roots. */
  lemma RootsOfSquare(a: int, b: int)
    requires Prime() && Eq(Prod(a, a), Prod(b, b))
    ensures Eq(a, b) || Eq(a, -b)
  {
    hide Prime, Prod;
    EqSub(Prod(a, a), Prod(b, b), Prod(b, b), Prod(b, b));
    DifferenceOfSquares(a, b);
    CancelPrime(a - b, a + b);
    if Eq(a - b, 0) {
      EqAdd(a - b, 0, b, b);
    } else {
      EqSub(a + b, 0, b, b);
    }
  }

  lemma DifferenceOfSquares(a: int, b: int)
    ensures Prod(a - b, a + b) == Prod(a, a) - Prod(b, b)
  {
    hide Prod;
    Distribute(a, b, a + b);
    Distribute(a, b, a);
    Distribute(a, b, b);
    Commute(a, b);
  }

  /** Inversion by the power p - 2. */
  lemma InverseByPower(z: int)
    requires Prime() && Unit(z)
    ensures Eq(Prod(z, Pow(z, P - 2)), 1)
  {
    hide Pow, Prod;
    LittleTheorem(P, z);
    PowSuccessor(z, P - 1);
    Products();
  }

  lemma PowSuccessor(z: int, n: nat)
    requires n > 0
    ensures Pow(z, n) == z * Pow(z, n - 1)
  {
  }

  /** num den^7 */
  function Seventh(u: int, v: int): int
  {
    var v2 := Prod(v, v);
    Prod(Prod(Prod(Prod(v2, v2), v2), u), v)
  }

  /** The candidate root of num / den: num den^3 (num den^7)^((p-5)/8). */
  function Candidate(u: int, v: int): int
  {
    Prod(Prod(Prod(Prod(Pow(Seventh(u, v), E), u), v), v), v)
  }

  lemma CandidateProducts(u: int, v: int)
    ensures Seventh(u, v) == v * v * (v * v) * (v * v) * u * v
    ensures Candidate(u, v) == Pow(Seventh(u, v), E) * u * v * v * v
  {
    hide Prod, Pow;
    Products();
  }

  /** For num = x^2 den the candidate collapses to a power of x. */
  lemma CandidatePower(u: int, v: int, x: int)
    requires Prime() && !Eq(v, 0) && Eq(u, Prod(Prod(x, x), v))
    ensures Eq(Candidate(u, v), Pow(x, 2 * E + 2))
  {
    hide Pow, Prime, Prod, Candidate, Seventh;
    CandidateProducts(u, v);
    ProdIs(x, x);
    ProdIs(x * x, v);
    var w := v * v * (v * v) * (v * v) * u * v;
    var w' := x * x * Pow(v, 8);
    EighthPower(v);
    EqMul(v * v * (v * v) * (v * v) * v, v * v * (v * v) * (v * v) * v, u, x * x * v);
    EighthArith(v, u, x * x);
    PowEq(w, w', E);
    PowMul(x * x, Pow(v, 8), E);
    PowPow(v, 8, E);
    SquarePow(x, E);
    var rest := u * v * v * v;
    var rest' := x * x * Pow(v, 4);
    FourthPower(v);
    EqMul(u, x * x * v, v * v * v, v * v * v);
    assert u * (v * v * v) == rest && (x * x * v) * (v * v * v) == rest' by {
      FourthArith(u, v, x * x);
    }
    EqMul(Pow(w, E), Pow(w', E), rest, rest');
    CollapsePower(v, x);
    CandidateArith(Pow(w, E), u, v);
  }

  lemma CandidateArith(p: int, u: int, v: int)
    ensures p * u * v * v * v == p * (u * v * v * v)
  {
    assert p * u * v == p * (u * v);
    assert p * (u * v) * v == p * (u * v * v);
    assert p * (u * v * v) * v == p * (u * v * v * v);
  }

  lemma EighthArith(v: int, u: int, s: int)
    ensures v * v * (v * v) * (v * v) * u * v == (v * v * (v * v) * (v * v) * v) * u
    ensures (v * v * (v * v) * (v * v) * v) * (s * v) == s * (v * v * (v * v) * (v * v) * (v * v))
  {
    var a := v * v * (v * v) * (v * v);
    assert a * u * v == a * v * u;
    assert (a * v) * (s * v) == s * (a * (v * v));
  }

  lemma EighthPower(v: int)
    ensures Pow(v, 8) == v * v * (v * v) * (v * v) * (v * v)
  {
    PowAdd(v, 2, 2);
    PowAdd(v, 4, 2);
    PowAdd(v, 6, 2);
    assert Pow(v, 2) == v * v by {
      PowOne(v);
      assert Pow(v, 2) == v * Pow(v, 1);
    }
  }

  lemma FourthPower(v: int)
    ensures Pow(v, 4) == v * v * (v * v)
  {
    PowAdd(v, 2, 2);
    assert Pow(v, 2) == v * v by {
      PowOne(v);
      assert Pow(v, 2) == v * Pow(v, 1);
    }
  }

  lemma FourthArith(u: int, v: int, s: int)
    ensures u * (v * v * v) == u * v * v * v
    ensures (s * v) * (v * v * v) == s * (v * v * (v * v))
  {
    assert u * v * v == u * (v * v) && u * (v * v) * v == u * (v * v * v);
    assert (s * v) * (v * v * v) == s * (v * (v * v * v)) && v * (v * v * v) == v * v * (v * v);
  }

  lemma SquarePow(x: int, n: nat)
    ensures Pow(x * x, n) == Pow(x, 2 * n)
  {
    PowMul(x, x, n);
    PowAdd(x, n, n);
    assert n + n == 2 * n;
  }

  /** (x^2)^e v^(8e) x^2 v^4 is x^(2e+2), because v^(p-1) is 1. */
  lemma CollapsePower(v: int, x: int)
    requires Prime() && !Eq(v, 0)
    ensures Eq(Pow(x * x, E) * Pow(v, 8 * E) * (x * x * Pow(v, 4)), Pow(x, 2 * E + 2))
  {
    hide Pow;
    SquarePow(x, E);
    PowAdd(v, 8 * E, 4);
    PowAdd(x, 2 * E, 2);
    SquareIsPow(x);
    LittleTheorem(P, v);
    assert 8 * E + 4 == P - 1;
    var a, b, c, d := Pow(x, 2 * E), Pow(v, 8 * E), x * x, Pow(v, 4);
    assert a * b * (c * d) == (a * c) * (b * d) by {
      ProductArith(a, b, c, d);
    }
    EqMul(a * c, a * c, b * d, 1);
  }

  lemma SquareIsPow(x: int)
    ensures Pow(x, 2) == x * x
  {
    PowOne(x);
    assert Pow(x, 2) == x * Pow(x, 1);
  }

  /** x^(4e+4) is x^2 or its negative. */
  lemma PowerSquare(x: int, q: int)
    requires Prime() && q == Pow(x, 2 * E + 2)
    ensures Eq(Prod(q, q), Prod(x, x)) || Eq(Prod(q, q), -Prod(x, x))
  {
    hide Pow, Prime, Prod;
    if Eq(x, 0) {
      PowSuccessor(x, 2 * E + 2);
      EqMul(x, 0, Pow(x, 2 * E + 1), Pow(x, 2 * E + 1));
      EqProd(q, 0, q, 0);
      EqProd(x, 0, x, 0);
    } else {
      HalfPower(x);
      var s := Pow(x, (P - 1) / 2);
      QuarterPower(x, q, s);
      if Eq(s, 1) {
        EqProd(s, 1, Prod(x, x), Prod(x, x));
      } else {
        EqProd(s, -1, Prod(x, x), Prod(x, x));
      }
      ProdIs(1, Prod(x, x));
      ProdIs(-1, Prod(x, x));
    }
  }

  lemma QuarterPower(x: int, q: int, s: int)
    requires q == Pow(x, 2 * E + 2) && s == Pow(x, (P - 1) / 2)
    ensures Prod(q, q) == Prod(s, Prod(x, x))
  {
    hide Pow, Prod;
    PowAdd(x, 2 * E + 2, 2 * E + 2);
    PowAdd(x, (P - 1) / 2, 2);
    SquareIsPow(x);
    assert 2 * E + 2 + (2 * E + 2) == (P - 1) / 2 + 2;
    Products();
  }

  lemma ScaleSquare(a: int, v: int, t: int, u: int)
    requires Eq(t, a) && Eq(u, Prod(a, v))
    ensures Eq(Prod(t, v), u)
  {
    hide Prod;
    EqProd(t, a, v, v);
  }

  /** The square of the candidate times den is plus or minus num. */
  lemma CandidateSquare(u: int, v: int, x: int)
    requires Prime() && !Eq(v, 0) && Eq(u, Prod(Prod(x, x), v))
    ensures var t := Candidate(u, v); Eq(Prod(Prod(t, t), v), u) || Eq(Prod(Prod(t, t), v), -u)
  {
    hide Pow, Candidate, Prime, Prod;
    var t := Candidate(u, v);
    CandidatePower(u, v, x);
    var q := Pow(x, 2 * E + 2);
    PowerSquare(x, q);
    EqProd(t, q, t, q);
    if Eq(Prod(q, q), Prod(x, x)) {
      ScaleSquare(Prod(x, x), v, Prod(t, t), u);
    } else {
      EqSub(0, 0, u, Prod(Prod(x, x), v));
      NegatedProduct(Prod(x, x), v);
      ScaleSquare(-Prod(x, x), v, Prod(t, t), -u);
    }
  }

  lemma NegatedProduct(a: int, v: int)
    ensures Prod(-a, v) == -Prod(a, v)
  {
    hide Prod;
    Products();
    assert -a * v == -(a * v);
  }

  lemma HalfPower(x: int)
    requires Prime() && !Eq(x, 0)
    ensures Eq(Pow(x, (P - 1) / 2), 1) || Eq(Pow(x, (P - 1) / 2), -1)
  {
    hide Pow, Prod;
    LittleTheorem(P, x);
    PowAdd(x, (P - 1) / 2, (P - 1) / 2);
    var s := Pow(x, (P - 1) / 2);
    ProdIs(s, s);
    TimesOne(1);
    RootsOfSquare(s, 1);
  }

  /** Two roots of the same fraction are equal up to sign. */
  lemma RootIsX(r: int, u: int, v: int, x: int)
    requires Prime() && !Eq(v, 0) && Eq(u, Prod(Prod(x, x), v)) && Eq(Prod(Prod(r, r), v), u)
    ensures Eq(r, x) || Eq(r, -x)
  {
    hide Prime, Prod;
    Cancel(Prod(r, r), Prod(x, x), v);
    RootsOfSquare(r, x);
  }

  // ------------------------------------------------------------------------
  // The curve equation solved for x

  /** Moving terms across the curve equation, k being its cross term. */
  lemma SolveForSquare(a: int, b: int, k: int)
    ensures Eq(b - a, 1 + k) <==> Eq(b - 1, k + a)
  {
    if Eq(b - a, 1 + k) {
      EqAdd(b - a, 1 + k, a - 1, a - 1);
    }
    if Eq(b - 1, k + a) {
      EqAdd(b - 1, k + a, 1 - a, 1 - a);
    }
  }

  lemma CrossTerm(d: int, a: int, b: int)
    ensures Prod(a, Prod(b, d) + 1) == Prod(d, Prod(a, b)) + a
  {
    hide Prod;
    Distribute(Prod(b, d), 1, a);
    TimesOne(a);
    Associate(a, b, d);
    Commute(Prod(a, b), d);
  }

  /** The denominator never vanishes on the curve. */
  lemma DenominatorNonZero(a: int, b: int)
    requires OnSquares(D, a, b)
    ensures !Eq(Prod(b, D) + 1, 0)
  {
    hide Prod;
    SolveForSquare(a, b, Prod(D, Prod(a, b)));
    CrossTerm(D, a, b);
    if Eq(Prod(b, D) + 1, 0) {
      EqProd(a, a, Prod(b, D) + 1, 0);
      ProdIs(a, 0);
      EqAdd(b - 1, 0, 1, 1);
      EqProd(b, 1, D, D);
      ProdIs(1, D);
      EqAdd(Prod(b, D), D, 1, 1);
      assert false;
    }
  }
}
