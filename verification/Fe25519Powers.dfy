/** `fe25519_invert` and `fe25519_pow2523`: the limbs their chains of multiplications compute, and
    the exponent tracked through every step. */
module Fe25519Powers {
  import opened Words
  import opened ModArith
  import opened Limbs
  import opened Field
  import opened Powers
  import opened Fe25519
  import opened Fe25519Values

  // ------------------------------------------------------------------------
  // The limbs

  /** `fe25519_square` is a multiplication by itself. */
  function Squarings(x: Fe, k: nat): Fe
    decreases k, x
  {
    if k == 0 then x else
      var y := Squarings(x, k - 1);
      FeProduct(y, y)
  }

  /** Squares `k` times and multiplies. */
  function Joined(x: Fe, k: nat, y: Fe): Fe
  {
    FeProduct(Squarings(x, k), y)
  }

  function Ninth(x: Fe): Fe
  {
    Joined(x, 3, x)
  }

  function Eleventh(x: Fe): Fe
  {
    FeProduct(Ninth(x), Squarings(x, 1))
  }

  /** The exponent 2^5 - 1. */
  function FiveOnes(x: Fe): Fe
  {
    Joined(Eleventh(x), 1, Ninth(x))
  }

  /** From a run of 5 ones in the exponent to a run of 250. */
  function LongRun(z5: Fe): Fe
  {
    var z10 := Joined(z5, 5, z5);
    var z20 := Joined(z10, 10, z10);
    var z40 := Joined(z20, 20, z20);
    var z50 := Joined(z40, 10, z10);
    var z100 := Joined(z50, 50, z50);
    var z200 := Joined(z100, 100, z100);
    Joined(z200, 50, z50)
  }

  function Inverted(x: Fe): Fe
  {
    Joined(LongRun(FiveOnes(x)), 5, Eleventh(x))
  }

  function Raised(x: Fe): Fe
  {
    Joined(LongRun(FiveOnes(x)), 2, x)
  }

  // ------------------------------------------------------------------------
  // The exponents

  /** The limbs are loose and hold the n-th power of `z`. */
  ghost predicate Holds(a: Fe, z: int, n: nat)
  {
    Loose(a) && Eq(Val(a), Pow(z, n))
  }

  lemma PowerProduct(a: Fe, b: Fe, z: int, m: nat, n: nat)
    requires Holds(a, z, m) && Holds(b, z, n)
    ensures Holds(FeProduct(a, b), z, m + n) && 0 <= Val(FeProduct(a, b)) < TOP_BIT + SLACK
  {
    hide Val, FeProduct, Pow;
    FeProductValue(a, b);
    EqMul(Val(a), Pow(z, m), Val(b), Pow(z, n));
    PowAdd(z, m, n);
  }

  lemma {:induction false} PowerSquarings(x: Fe, k: nat, z: int, n: nat, e: nat)
    requires Holds(x, z, n) && e == n * Pow2(k)
    ensures Holds(Squarings(x, k), z, e)
    decreases k
  {
    hide Holds, FeProduct;
    if k > 0 {
      ScaleExponent(n, k - 1);
      PowerSquarings(x, k - 1, z, n, n * Pow2(k - 1));
      PowerProduct(Squarings(x, k - 1), Squarings(x, k - 1), z, n * Pow2(k - 1), n * Pow2(k - 1));
    } else {
      assert n * 1 == n;
    }
  }

  lemma ScaleExponent(n: nat, i: nat)
    ensures n * Pow2(i) >= 0
    ensures n * Pow2(i) + n * Pow2(i) == n * Pow2(i + 1)
  {
    assert Pow2(i + 1) == 2 * Pow2(i);
    MulMonotone(0, n, Pow2(i));
  }

  lemma PowerJoined(x: Fe, k: nat, y: Fe, z: int, m: nat, n: nat, e: nat)
    requires Holds(x, z, m) && Holds(y, z, n) && e == m * Pow2(k)
    ensures Holds(Joined(x, k, y), z, e + n) && 0 <= Val(Joined(x, k, y)) < TOP_BIT + SLACK
  {
    hide Holds, FeProduct, Squarings, Pow2, Val;
    PowerSquarings(x, k, z, m, e);
    PowerProduct(Squarings(x, k), y, z, e, n);
  }

  /** Squares a run of `a` ones `b` times and multiplies a run of `b` ones in. */
  lemma RunJoined(x: Fe, y: Fe, z: int, a: nat, b: nat)
    requires Holds(x, z, Ones(a)) && Holds(y, z, Ones(b))
    ensures Holds(Joined(x, b, y), z, Ones(a + b))
  {
    hide Holds, Joined, Ones, Pow2;
    OnesJoin(a, b);
    ScaleExponent(Ones(a), b);
    PowerJoined(x, b, y, z, Ones(a), Ones(b), Ones(a) * Pow2(b));
  }

  lemma FirstPowers(x: Fe, z: int)
    requires Holds(x, z, 1)
    ensures Holds(Eleventh(x), z, 11) && Holds(FiveOnes(x), z, Ones(5))
  {
    hide Holds, FeProduct, Squarings;
    assert Pow2(3) == 8 && Pow2(1) == 2 && Ones(5) == 31;
    PowerJoined(x, 3, x, z, 1, 1, 8);
    PowerSquarings(x, 1, z, 1, 2);
    PowerProduct(Ninth(x), Squarings(x, 1), z, 9, 2);
    PowerJoined(Eleventh(x), 1, Ninth(x), z, 11, 9, 22);
  }

  lemma LongRunHolds(z5: Fe, z: int)
    requires Holds(z5, z, Ones(5))
    ensures Holds(LongRun(z5), z, Ones(250))
  {
    hide Holds, Joined, Ones;
    var z10 := Joined(z5, 5, z5);
    RunJoined(z5, z5, z, 5, 5);
    var z20 := Joined(z10, 10, z10);
    RunJoined(z10, z10, z, 10, 10);
    var z40 := Joined(z20, 20, z20);
    RunJoined(z20, z20, z, 20, 20);
    var z50 := Joined(z40, 10, z10);
    RunJoined(z40, z10, z, 40, 10);
    var z100 := Joined(z50, 50, z50);
    RunJoined(z50, z50, z, 50, 50);
    var z200 := Joined(z100, 100, z100);
    RunJoined(z100, z100, z, 100, 100);
    RunJoined(z200, z50, z, 200, 50);
  }

  lemma StartPower(x: Fe)
    requires Loose(x)
    ensures Holds(x, Val(x), 1)
  {
    PowOne(Val(x));
  }

  /** The inversion chain raises to p - 2. */
  lemma InvertedValue(x: Fe)
    requires Loose(x)
    ensures Loose(Inverted(x)) && Eq(Val(Inverted(x)), Pow(Val(x), P - 2)) && 0 <= Val(Inverted(x)) < TOP_BIT + SLACK
  {
    hide Joined, LongRun, FiveOnes, Eleventh, Ones, Pow2, Loose, Val, Pow;
    var z := Val(x);
    StartPower(x);
    FirstPowers(x, z);
    LongRunHolds(FiveOnes(x), z);
    InverseExponent();
    PowerJoined(LongRun(FiveOnes(x)), 5, Eleventh(x), z, Ones(250), 11, P - 13);
  }

  const ROOT_EXPONENT: nat := (P - 5) / 8

  /** The other chain raises to (p - 5) / 8, the exponent for square roots modulo p. */
  lemma RaisedValue(x: Fe)
    requires Loose(x)
    ensures Loose(Raised(x)) && Eq(Val(Raised(x)), Pow(Val(x), ROOT_EXPONENT))
  {
    hide Joined, LongRun, FiveOnes, Eleventh, Ones, Pow2, Loose, Val, Pow;
    var z := Val(x);
    StartPower(x);
    FirstPowers(x, z);
    LongRunHolds(FiveOnes(x), z);
    SquareRootExponent();
    PowerJoined(LongRun(FiveOnes(x)), 2, x, z, Ones(250), 1, ROOT_EXPONENT - 1);
  }

  // ------------------------------------------------------------------------
  // The code

  lemma SquaringsNext(x: Fe, k: nat)
    ensures Squarings(x, 0) == x
    ensures Squarings(x, k + 1) == FeProduct(Squarings(x, k), Squarings(x, k))
  {
  }

  /** The squaring loops of `fe25519_invert`, alternating between two temporaries. */
  method SquareTimes(t1: array<u32>, t0: array<u32>, x: array<u32>, k: nat)
    requires t0.Length == t1.Length == x.Length == 32 && t0 != t1 && k >= 2 && k % 2 == 0
    modifies t0, t1
    ensures t1[..] == Squarings(old(x[..]), k)
  {
    hide FeProduct, Squarings;
    ghost var s: Fe := x[..];
    SquaringsNext(s, 0);
    SquaringsNext(s, 1);
    FeMul(t0, x, x);
    FeMul(t1, t0, t0);
    var i := 2;
    while i < k
      invariant 2 <= i <= k && i % 2 == 0
      invariant t1[..] == Squarings(s, i)
    {
      SquaringsNext(s, i);
      SquaringsNext(s, i + 1);
      FeMul(t0, t1, t1);
      FeMul(t1, t0, t0);
      i := i + 2;
    }
  }

  /** The squaring loops of `fe25519_pow2523`, in place. */
  method SquareInPlace(t: array<u32>, x: array<u32>, k: nat)
    requires t.Length == x.Length == 32 && k >= 1
    modifies t
    ensures t[..] == Squarings(old(x[..]), k)
  {
    hide FeProduct, Squarings;
    ghost var s: Fe := x[..];
    SquaringsNext(s, 0);
    FeMul(t, x, x);
    var i := 1;
    while i < k
      invariant 1 <= i <= k
      invariant t[..] == Squarings(s, i)
    {
      SquaringsNext(s, i);
      FeMul(t, t, t);
      i := i + 1;
    }
  }

  method StartChain(z11: array<u32>, z2_5_0: array<u32>, x: array<u32>)
    requires z11.Length == z2_5_0.Length == x.Length == 32 && z11 != z2_5_0 && x != z11 && x != z2_5_0
    modifies z11, z2_5_0
    ensures z11[..] == Eleventh(x[..]) && z2_5_0[..] == FiveOnes(x[..])
  {
    hide FeProduct, Squarings;
    ghost var s: Fe := x[..];
    SquaringsNext(s, 0);
    SquaringsNext(s, 1);
    SquaringsNext(s, 2);
    var z2, z9, t0, t1 := new u32[32], new u32[32], new u32[32], new u32[32];
    FeMul(z2, x, x);
    FeMul(t1, z2, z2);
    FeMul(t0, t1, t1);
    FeMul(z9, t0, x);
    FeMul(z11, z9, z2);
    SquaringsNext(z11[..], 0);
    FeMul(t0, z11, z11);
    FeMul(z2_5_0, t0, z9);
  }

  method SquareFive(t1: array<u32>, t0: array<u32>, x: array<u32>)
    requires t0.Length == t1.Length == x.Length == 32 && t0 != t1
    modifies t0, t1
    ensures t1[..] == Squarings(old(x[..]), 5)
  {
    hide FeProduct, Squarings;
    ghost var s: Fe := x[..];
    SquaringsNext(s, 0);
    SquaringsNext(s, 1);
    SquaringsNext(s, 2);
    SquaringsNext(s, 3);
    SquaringsNext(s, 4);
    FeMul(t1, x, x);
    FeMul(t0, t1, t1);
    FeMul(t1, t0, t0);
    FeMul(t0, t1, t1);
    FeMul(t1, t0, t0);
  }

  method Join(r: array<u32>, t1: array<u32>, t0: array<u32>, x: array<u32>, y: array<u32>, b: nat)
    requires r.Length == t0.Length == t1.Length == x.Length == y.Length == 32
    requires t0 != t1 && y != t0 && y != t1 && b >= 2 && b % 2 == 0
    modifies r, t0, t1
    ensures r[..] == Joined(old(x[..]), b, old(y[..]))
  {
    hide FeProduct, Squarings;
    SquareTimes(t1, t0, x, b);
    FeMul(r, t1, y);
  }

  method JoinInPlace(r: array<u32>, t: array<u32>, x: array<u32>, y: array<u32>, b: nat)
    requires r.Length == t.Length == x.Length == y.Length == 32 && y != t && b >= 1
    modifies r, t
    ensures r[..] == Joined(old(x[..]), b, old(y[..]))
  {
    hide FeProduct, Squarings;
    SquareInPlace(t, x, b);
    FeMul(r, t, y);
  }

  method RunOnes(t0: array<u32>, t1: array<u32>, z2_5_0: array<u32>)
    requires t0.Length == t1.Length == z2_5_0.Length == 32 && t0 != t1 && t0 != z2_5_0 && t1 != z2_5_0
    modifies t0, t1
    ensures t0[..] == LongRun(z2_5_0[..])
  {
    hide FeProduct, Squarings;
    var z2_10_0, z2_20_0, z2_50_0, z2_100_0 := new u32[32], new u32[32], new u32[32], new u32[32];
    SquareFive(t0, t1, z2_5_0);
    FeMul(z2_10_0, t0, z2_5_0);
    assert z2_10_0[..] == Joined(z2_5_0[..], 5, z2_5_0[..]);
    hide Joined;
    Join(z2_20_0, t1, t0, z2_10_0, z2_10_0, 10);
    Join(t0, t1, t0, z2_20_0, z2_20_0, 20);
    Join(z2_50_0, t0, t1, t0, z2_10_0, 10);
    Join(z2_100_0, t1, t0, z2_50_0, z2_50_0, 50);
    Join(t1, t0, t1, z2_100_0, z2_100_0, 100);
    Join(t0, t1, t0, t1, z2_50_0, 50);
  }

  method FeInvert(r: array<u32>, x: array<u32>)
    requires r.Length == x.Length == 32
    modifies r
    ensures r[..] == Inverted(old(x[..]))
  {
    hide FeProduct, Squarings, LongRun, FiveOnes, Eleventh;
    var z11, z2_5_0, t0, t1 := new u32[32], new u32[32], new u32[32], new u32[32];
    StartChain(z11, z2_5_0, x);
    RunOnes(t0, t1, z2_5_0);
    SquareFive(t1, t0, t0);
    FeMul(r, t1, z11);
  }

  method RunOnesInPlace(t: array<u32>, z2_5_0: array<u32>)
    requires t.Length == z2_5_0.Length == 32 && t != z2_5_0
    modifies t
    ensures t[..] == LongRun(z2_5_0[..])
  {
    hide Joined;
    var z2_10_0, z2_20_0, z2_50_0, z2_100_0 := new u32[32], new u32[32], new u32[32], new u32[32];
    JoinInPlace(z2_10_0, t, z2_5_0, z2_5_0, 5);
    JoinInPlace(z2_20_0, t, z2_10_0, z2_10_0, 10);
    JoinInPlace(t, t, z2_20_0, z2_20_0, 20);
    JoinInPlace(z2_50_0, t, t, z2_10_0, 10);
    JoinInPlace(z2_100_0, t, z2_50_0, z2_50_0, 50);
    JoinInPlace(t, t, z2_100_0, z2_100_0, 100);
    JoinInPlace(t, t, t, z2_50_0, 50);
  }

  /** `r` may be `x` itself. */
  method FePow2523(r: array<u32>, x: array<u32>)
    requires r.Length == x.Length == 32
    modifies r
    ensures r[..] == Raised(old(x[..]))
  {
    hide FeProduct, Squarings, LongRun, FiveOnes, Eleventh;
    var z11, z2_5_0, t := new u32[32], new u32[32], new u32[32];
    StartChain(z11, z2_5_0, x);
    RunOnesInPlace(t, z2_5_0);
    SquareInPlace(t, t, 2);
    FeMul(r, t, x);
  }
}
