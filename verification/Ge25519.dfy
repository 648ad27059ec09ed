/** Points as the signature code holds them: four field elements of 32 limbs each, passed and
    copied as values, with the straight-line point formulas. */
module Ge25519 {
  import opened Words
  import opened ModArith
  import opened Limbs
  import opened Field
  import opened Fe25519
  import opened Fe25519Values
  import opened Group
  import opened Edwards
  import opened CurveConstants

  /** `ge25519_p3`; read through `ge25519_p2` its `t` is ignored. */
  datatype Ge = Ge(x: Fe, y: Fe, z: Fe, t: Fe)

  /** `ge25519_p1p1` */
  datatype P1p1 = P1p1(x: Fe, z: Fe, y: Fe, t: Fe)

  /** `ge25519_aff` */
  datatype Aff = Aff(x: Fe, y: Fe)

  function FeZero(): Fe
  {
    seq(32, _ => 0)
  }

  function FeOne(): Fe
  {
    [1] + seq(31, _ => 0)
  }

  function FeNegated(x: Fe): Fe
  {
    FeDifference(FeZero(), x)
  }

  // ------------------------------------------------------------------------
  // The formulas

  function AddP1p1(p: Ge, q: Ge): P1p1
  {
    var a := FeProduct(FeDifference(p.y, p.x), FeDifference(q.y, q.x));
    var b := FeProduct(FeSum(p.x, p.y), FeSum(q.x, q.y));
    var c := FeProduct(FeProduct(p.t, q.t), Ec2d());
    var zz := FeProduct(p.z, q.z);
    var d := FeSum(zz, zz);
    P1p1(FeDifference(b, a), FeSum(d, c), FeSum(b, a), FeDifference(d, c))
  }

  function DblP1p1(p: Ge): P1p1
  {
    var a := FeProduct(p.x, p.x);
    var b := FeProduct(p.y, p.y);
    var zz := FeProduct(p.z, p.z);
    var c := FeSum(zz, zz);
    var d := FeNegated(a);
    var s := FeSum(p.x, p.y);
    var z := FeSum(d, b);
    P1p1(FeDifference(FeDifference(FeProduct(s, s), a), b), z, FeDifference(d, b), FeDifference(z, c))
  }

  /** `p1p1_to_p2` on a p3: the old `t` stays behind. */
  function ToP2(r: Ge, p: P1p1): Ge
  {
    Ge(FeProduct(p.x, p.t), FeProduct(p.y, p.z), FeProduct(p.z, p.t), r.t)
  }

  function ToP3(p: P1p1): Ge
  {
    Ge(FeProduct(p.x, p.t), FeProduct(p.y, p.z), FeProduct(p.z, p.t), FeProduct(p.x, p.y))
  }

  function MixAdd2(r: Ge, q: Aff): Ge
  {
    var qt := FeProduct(q.x, q.y);
    var a := FeProduct(FeDifference(r.y, r.x), FeDifference(q.y, q.x));
    var b := FeProduct(FeSum(r.y, r.x), FeSum(q.y, q.x));
    var e := FeDifference(b, a);
    var h := FeSum(b, a);
    var c := FeProduct(FeProduct(r.t, qt), Ec2d());
    var d := FeSum(r.z, r.z);
    var f := FeDifference(d, c);
    var g := FeSum(d, c);
    Ge(FeProduct(e, f), FeProduct(h, g), FeProduct(g, f), FeProduct(e, h))
  }

  function Neutral(): Ge
  {
    Ge(FeZero(), FeOne(), FeOne(), FeZero())
  }

  // ------------------------------------------------------------------------
  // Limbs that stand for a field element

  ghost predicate Stands(s: seq<u32>, v: int)
  {
    Loose(s) && Eq(Val(s), v)
  }

  lemma StandsSum(a: Fe, b: Fe, u: int, v: int)
    requires Stands(a, u) && Stands(b, v)
    ensures Stands(FeSum(a, b), u + v)
  {
    hide Val, FeSum, Prod;
    FeSumValue(a, b);
    EqAdd(Val(a), u, Val(b), v);
  }

  lemma StandsDifference(a: Fe, b: Fe, u: int, v: int)
    requires Stands(a, u) && Stands(b, v)
    ensures Stands(FeDifference(a, b), u - v)
  {
    hide Val, FeDifference, Prod;
    FeDifferenceValue(a, b);
    EqSub(Val(a), u, Val(b), v);
  }

  lemma StandsProduct(a: Fe, b: Fe, u: int, v: int)
    requires Stands(a, u) && Stands(b, v)
    ensures Stands(FeProduct(a, b), Prod(u, v))
  {
    hide Val, FeProduct, Prod;
    FeProductValue(a, b);
    Products();
    EqMul(Val(a), u, Val(b), v);
  }

  lemma StandsZero()
    ensures Stands(FeZero(), 0)
  {
    ValZeros(FeZero());
  }

  lemma StandsOne()
    ensures Stands(FeOne(), 1)
  {
    var one := FeOne();
    ValZeros(one[1..]);
    assert Val(one) == one[0] + 256 * Val(one[1..]);
    hide Val, Prod;
    assert Loose(one);
  }

  lemma StandsTwoD()
    ensures Stands(Ec2d(), 2 * D)
  {
    hide Ec2d, Val, Prod;
    TwoDValue();
    CurveConstant();
  }

  lemma StandsSelf(a: Fe)
    requires Loose(a)
    ensures Stands(a, Val(a))
  {
  }

  lemma StandsEq(s: Fe, u: int, v: int)
    requires Stands(s, u) && Eq(v, u)
    ensures Stands(s, v)
  {
  }

  lemma StandsNegated(a: Fe, u: int)
    requires Stands(a, u)
    ensures Stands(FeNegated(a), -u)
  {
    hide Stands, FeDifference, FeZero, Prod;
    StandsZero();
    StandsDifference(FeZero(), a, 0, u);
  }

  // ------------------------------------------------------------------------
  // Limbs that represent a point

  ghost predicate Represents<G(!new)>(c: Curve<G>, e: Ge, g: G)
  {
    && Loose(e.x) && Loose(e.y) && Loose(e.z) && Loose(e.t)
    && Extended(Val(e.x), Val(e.y), Val(e.z), Val(e.t), c.x(g), c.y(g))
  }

  /** The point behind the first three coordinates. */
  ghost predicate RepresentsP2<G(!new)>(c: Curve<G>, e: Ge, g: G)
  {
    && Loose(e.x) && Loose(e.y) && Loose(e.z)
    && Projective(Val(e.x), Val(e.y), Val(e.z), c.x(g), c.y(g))
  }

  ghost predicate RepresentsP1p1<G(!new)>(c: Curve<G>, e: P1p1, g: G)
  {
    && Loose(e.x) && Loose(e.z) && Loose(e.y) && Loose(e.t)
    && Completed(Val(e.x), Val(e.z), Val(e.y), Val(e.t), c.x(g), c.y(g))
  }

  ghost predicate RepresentsAff<G(!new)>(c: Curve<G>, e: Aff, g: G)
  {
    Stands(e.x, c.x(g)) && Stands(e.y, c.y(g))
  }

  lemma CompletedFromStands(e: P1p1, X: int, Z: int, Y: int, T: int, x: int, y: int)
    requires Stands(e.x, X) && Stands(e.z, Z) && Stands(e.y, Y) && Stands(e.t, T)
    requires Completed(X, Z, Y, T, x, y)
    ensures Completed(Val(e.x), Val(e.z), Val(e.y), Val(e.t), x, y)
  {
    hide Val, Scaled, Prod;
    ScaledTo(X, x, Z, Val(e.x), Val(e.z));
    ScaledTo(Y, y, T, Val(e.y), Val(e.t));
  }

  lemma ExtendedFromStands(e: Ge, X: int, Y: int, Z: int, T: int, x: int, y: int)
    requires Stands(e.x, X) && Stands(e.y, Y) && Stands(e.z, Z) && Stands(e.t, T)
    requires Extended(X, Y, Z, T, x, y)
    ensures Extended(Val(e.x), Val(e.y), Val(e.z), Val(e.t), x, y)
  {
    hide Val, Scaled, Prod;
    ScaledTo(X, x, Z, Val(e.x), Val(e.z));
    ScaledTo(Y, y, Z, Val(e.y), Val(e.z));
    ScaledTo(T, Prod(x, y), Z, Val(e.t), Val(e.z));
  }

  lemma LawAt<G(!new)>(c: Curve<G>, a: G, b: G)
    requires c.Law()
    ensures c.PointAt(a) && c.SumAt(a, b) && c.group.Abelian() && Prime()
  {
  }

  /** The limbs of the unified addition stand for the integer formula. */
  lemma AddLimbs(p: Ge, q: Ge, X1: int, Y1: int, Z1: int, T1: int, X2: int, Y2: int, Z2: int, T2: int,
                 u: int, v: int, k: int, w: int)
    requires Stands(p.x, X1) && Stands(p.y, Y1) && Stands(p.z, Z1) && Stands(p.t, T1)
    requires Stands(q.x, X2) && Stands(q.y, Y2) && Stands(q.z, Z2) && Stands(q.t, T2)
    requires u == Prod(Y1 - X1, Y2 - X2) && v == Prod(X1 + Y1, X2 + Y2)
    requires k == Prod(Prod(T1, T2), 2 * D) && w == Prod(Z1, Z2)
    ensures var r := AddP1p1(p, q);
            && Stands(r.x, v - u) && Stands(r.z, 2 * w + k) && Stands(r.y, v + u) && Stands(r.t, 2 * w - k)
  {
    hide Stands, FeSum, FeDifference, FeProduct, Ec2d, Prod;
    StandsProductOfDifferences(p.y, p.x, q.y, q.x, Y1, X1, Y2, X2);
    StandsProductOfSums(p.x, p.y, q.x, q.y, X1, Y1, X2, Y2);
    StandsCross(p.t, q.t, T1, T2);
    StandsTwice(p.z, q.z, Z1, Z2);
    var a := FeProduct(FeDifference(p.y, p.x), FeDifference(q.y, q.x));
    var b := FeProduct(FeSum(p.x, p.y), FeSum(q.x, q.y));
    CombineAll(a, b, FeProduct(FeProduct(p.t, q.t), Ec2d()), FeSum(FeProduct(p.z, q.z), FeProduct(p.z, q.z)),
               u, v, k, 2 * w);
  }

  lemma StandsCross(a: Fe, b: Fe, u: int, v: int)
    requires Stands(a, u) && Stands(b, v)
    ensures Stands(FeProduct(FeProduct(a, b), Ec2d()), Prod(Prod(u, v), 2 * D))
  {
    hide Stands, FeProduct, Ec2d, Prod;
    StandsTwoD();
    StandsProduct(a, b, u, v);
    StandsProduct(FeProduct(a, b), Ec2d(), Prod(u, v), 2 * D);
  }

  lemma StandsTwice(a: Fe, b: Fe, u: int, v: int)
    requires Stands(a, u) && Stands(b, v)
    ensures Stands(FeSum(FeProduct(a, b), FeProduct(a, b)), 2 * Prod(u, v))
  {
    hide Stands, FeProduct, FeSum, Prod;
    StandsProduct(a, b, u, v);
    StandsSum(FeProduct(a, b), FeProduct(a, b), Prod(u, v), Prod(u, v));
  }

  lemma StandsPoint(p: Ge)
    requires Loose(p.x) && Loose(p.y) && Loose(p.z) && Loose(p.t)
    ensures Stands(p.x, Val(p.x)) && Stands(p.y, Val(p.y)) && Stands(p.z, Val(p.z)) && Stands(p.t, Val(p.t))
  {
  }

  lemma StandsProductOfDifferences(a: Fe, b: Fe, c: Fe, d: Fe, A: int, B: int, C: int, E: int)
    requires Stands(a, A) && Stands(b, B) && Stands(c, C) && Stands(d, E)
    ensures Stands(FeProduct(FeDifference(a, b), FeDifference(c, d)), Prod(A - B, C - E))
  {
    hide Stands, FeDifference, FeProduct, Prod;
    StandsDifference(a, b, A, B);
    StandsDifference(c, d, C, E);
    StandsProduct(FeDifference(a, b), FeDifference(c, d), A - B, C - E);
  }

  lemma StandsProductOfSums(a: Fe, b: Fe, c: Fe, d: Fe, A: int, B: int, C: int, E: int)
    requires Stands(a, A) && Stands(b, B) && Stands(c, C) && Stands(d, E)
    ensures Stands(FeProduct(FeSum(a, b), FeSum(c, d)), Prod(A + B, C + E))
  {
    hide Stands, FeSum, FeProduct, Prod;
    StandsSum(a, b, A, B);
    StandsSum(c, d, C, E);
    StandsProduct(FeSum(a, b), FeSum(c, d), A + B, C + E);
  }

  lemma CombineAll(a: Fe, b: Fe, c: Fe, d: Fe, u: int, v: int, k: int, w: int)
    requires Stands(a, u) && Stands(b, v) && Stands(c, k) && Stands(d, w)
    ensures Stands(FeDifference(b, a), v - u) && Stands(FeSum(d, c), w + k)
    ensures Stands(FeSum(b, a), v + u) && Stands(FeDifference(d, c), w - k)
  {
    hide Stands, FeSum, FeDifference, Prod;
    StandsDifference(b, a, v, u);
    StandsSum(d, c, w, k);
    StandsSum(b, a, v, u);
    StandsDifference(d, c, w, k);
  }

  /** `add_p1p1` computes the completed form of the group sum. */
  lemma AddRepresents<G(!new)>(c: Curve<G>, p: Ge, q: Ge, a: G, b: G)
    requires c.Law() && Represents(c, p, a) && Represents(c, q, b)
    ensures RepresentsP1p1(c, AddP1p1(p, q), c.group.add(a, b))
  {
    hide Val, AddP1p1, Loose, Extended, AffineSum, Completed, Edwards.Cross, c.Law, Prime, Prod;
    LawAt(c, a, b);
    StandsPoint(p);
    StandsPoint(q);
    hide Stands, Prod;
    var s := c.group.add(a, b);
    var X1, Y1, Z1, T1 := Val(p.x), Val(p.y), Val(p.z), Val(p.t);
    var X2, Y2, Z2, T2 := Val(q.x), Val(q.y), Val(q.z), Val(q.t);
    AddCompleted(X1, Y1, Z1, T1, X2, Y2, Z2, T2, 2 * D, c.x(a), c.y(a), c.x(b), c.y(b), c.x(s), c.y(s),
                 Edwards.Cross(c.x(a), c.y(a), c.x(b), c.y(b)));
    var u, v := Prod(Y1 - X1, Y2 - X2), Prod(Y1 + X1, Y2 + X2);
    var k, w := Prod(Prod(T1, T2), 2 * D), Prod(Z1, Z2);
    AddLimbs(p, q, X1, Y1, Z1, T1, X2, Y2, Z2, T2, u, v, k, w);
    FinishCompleted(c, AddP1p1(p, q), v - u, 2 * w + k, v + u, 2 * w - k, s);
  }

  lemma FinishCompleted<G(!new)>(c: Curve<G>, e: P1p1, X: int, Z: int, Y: int, T: int, g: G)
    requires Stands(e.x, X) && Stands(e.z, Z) && Stands(e.y, Y) && Stands(e.t, T)
    requires Completed(X, Z, Y, T, c.x(g), c.y(g))
    ensures RepresentsP1p1(c, e, g)
  {
    hide Completed, Val, Prod;
    CompletedFromStands(e, X, Z, Y, T, c.x(g), c.y(g));
  }

  lemma DoubleLimbs(p: Ge, X: int, Y: int, Z: int, a: int, b: int, w: int)
    requires Stands(p.x, X) && Stands(p.y, Y) && Stands(p.z, Z)
    requires a == Prod(X, X) && b == Prod(Y, Y) && w == Prod(Z, Z)
    ensures var r := DblP1p1(p);
            && Stands(r.x, Prod(X + Y, X + Y) - a - b) && Stands(r.z, b - a)
            && Stands(r.y, -a - b) && Stands(r.t, b - a - 2 * w)
  {
    hide Stands, FeSum, FeDifference, FeProduct, FeNegated, Prod;
    var fa, fb := FeProduct(p.x, p.x), FeProduct(p.y, p.y);
    StandsProduct(p.x, p.x, X, X);
    StandsProduct(p.y, p.y, Y, Y);
    StandsTwice(p.z, p.z, Z, Z);
    StandsSquareOfSum(p.x, p.y, fa, fb, X, Y);
    StandsNegated(fa, a);
    var d := FeNegated(fa);
    StandsSum(d, fb, -a, b);
    StandsDifference(d, fb, -a, b);
    StandsDifference(FeSum(d, fb), FeSum(FeProduct(p.z, p.z), FeProduct(p.z, p.z)), -a + b, 2 * w);
  }

  lemma StandsSquareOfSum(x: Fe, y: Fe, a: Fe, b: Fe, X: int, Y: int)
    requires Stands(x, X) && Stands(y, Y) && Stands(a, Prod(X, X)) && Stands(b, Prod(Y, Y))
    ensures var s := FeSum(x, y);
            Stands(FeDifference(FeDifference(FeProduct(s, s), a), b), Prod(X + Y, X + Y) - Prod(X, X) - Prod(Y, Y))
  {
    hide Stands, FeSum, FeDifference, FeProduct, Prod;
    var s := FeSum(x, y);
    StandsSum(x, y, X, Y);
    StandsProduct(s, s, X + Y, X + Y);
    StandsDifference(FeProduct(s, s), a, Prod(X + Y, X + Y), Prod(X, X));
    StandsDifference(FeDifference(FeProduct(s, s), a), b, Prod(X + Y, X + Y) - Prod(X, X), Prod(Y, Y));
  }

  /** `dbl_p1p1` computes the completed form of the double, from three coordinates. */
  lemma DoubleRepresents<G(!new)>(c: Curve<G>, p: Ge, a: G)
    requires c.Law() && RepresentsP2(c, p, a)
    ensures RepresentsP1p1(c, DblP1p1(p), c.group.add(a, a))
  {
    hide Val, DblP1p1, Loose, AffineSum, Completed, Projective, c.Law, Edwards.Cross, Prime, Prod;
    LawAt(c, a, a);
    StandsSelf(p.x);
    StandsSelf(p.y);
    StandsSelf(p.z);
    hide Stands, Prod;
    var s := c.group.add(a, a);
    var X, Y, Z := Val(p.x), Val(p.y), Val(p.z);
    var a2, b2, w := Prod(X, X), Prod(Y, Y), Prod(Z, Z);
    DoubleLimbs(p, X, Y, Z, a2, b2, w);
    CrossSquare(c.x(a), c.y(a));
    DoubleCompleted(X, Y, Z, c.x(a), c.y(a), c.x(s), c.y(s), Edwards.Cross(c.x(a), c.y(a), c.x(a), c.y(a)));
    FinishCompleted(c, DblP1p1(p), Prod(X + Y, X + Y) - a2 - b2, b2 - a2, -a2 - b2, b2 - a2 - 2 * w, s);
  }

  lemma ProductLimbs(p: P1p1)
    requires Loose(p.x) && Loose(p.y) && Loose(p.z) && Loose(p.t)
    ensures var r := ToP3(p);
            && Stands(r.x, Prod(Val(p.x), Val(p.t))) && Stands(r.y, Prod(Val(p.y), Val(p.z)))
            && Stands(r.z, Prod(Val(p.z), Val(p.t))) && Stands(r.t, Prod(Val(p.x), Val(p.y)))
  {
    hide Val, FeProduct, Prod;
    StandsProduct(p.x, p.t, Val(p.x), Val(p.t));
    StandsProduct(p.y, p.z, Val(p.y), Val(p.z));
    StandsProduct(p.z, p.t, Val(p.z), Val(p.t));
    StandsProduct(p.x, p.y, Val(p.x), Val(p.y));
  }

  /** `p1p1_to_p3` keeps the point and makes the product coordinate fresh;
      `p1p1_to_p2` keeps the point and leaves the product coordinate stale. */
  lemma ConversionRepresents<G(!new)>(c: Curve<G>, p: P1p1, r: Ge, a: G)
    requires Prime() && RepresentsP1p1(c, p, a)
    ensures Represents(c, ToP3(p), a)
    ensures RepresentsP2(c, ToP2(r, p), a) && ToP2(r, p).t == r.t
  {
    hide Prime, Prod;
    ProductLimbs(p);
    CompletedToExtended(Val(p.x), Val(p.z), Val(p.y), Val(p.t), c.x(a), c.y(a));
    hide Val, Loose, FeProduct, Scaled, Unit, Prod;
    ExtendedFromStands(ToP3(p), Prod(Val(p.x), Val(p.t)), Prod(Val(p.y), Val(p.z)), Prod(Val(p.z), Val(p.t)),
                       Prod(Val(p.x), Val(p.y)), c.x(a), c.y(a));
    assert Loose(ToP3(p).x) && Loose(ToP3(p).y) && Loose(ToP3(p).z) && Loose(ToP3(p).t);
  }

  lemma NeutralRepresents<G(!new)>(c: Curve<G>)
    requires c.Law()
    ensures Represents(c, Neutral(), c.group.zero)
  {
    StandsZero();
    StandsOne();
    hide Val, FeZero, FeOne, Prod;
    var x, y := c.x(c.group.zero), c.y(c.group.zero);
    UnitTwo();
    EqProd(x, 0, y, 1);
    TimesOne(x);
    TimesOne(y);
    TimesOne(Prod(x, y));
    TimesOne(0);
    ExtendedFromStands(Neutral(), 0, 1, 1, 0, x, y);
  }

  /** The affine table entry seen as an extended point with Z = 1. */
  lemma AffExtended(x: int, y: int)
    ensures Extended(x, y, 1, Prod(x, y), x, y)
  {
    UnitTwo();
    ScaledOne(x);
    ScaledOne(y);
    ScaledOne(Prod(x, y));
  }

  /** The four factors of the mixed addition. */
  lemma MixAddFactors(r: Ge, q: Aff, x: int, y: int, X: int, Y: int, Z: int, T: int)
    requires Stands(r.x, X) && Stands(r.y, Y) && Stands(r.z, Z) && Stands(r.t, T)
    requires Stands(q.x, x) && Stands(q.y, y)
    ensures var u, v, k := Prod(Y - X, y - x), Prod(Y + X, y + x), Prod(Prod(T, Prod(x, y)), 2 * D);
            var a := FeProduct(FeDifference(r.y, r.x), FeDifference(q.y, q.x));
            var b := FeProduct(FeSum(r.y, r.x), FeSum(q.y, q.x));
            var c, d := FeProduct(FeProduct(r.t, FeProduct(q.x, q.y)), Ec2d()), FeSum(r.z, r.z);
            && Stands(FeDifference(b, a), v - u) && Stands(FeSum(d, c), 2 * Z + k)
            && Stands(FeSum(b, a), v + u) && Stands(FeDifference(d, c), 2 * Z - k)
  {
    hide Stands, FeSum, FeDifference, FeProduct, Ec2d, Prod;
    StandsProduct(q.x, q.y, x, y);
    StandsCross(r.t, FeProduct(q.x, q.y), T, Prod(x, y));
    StandsSum(r.z, r.z, Z, Z);
    StandsDifference(r.y, r.x, Y, X);
    StandsSum(r.y, r.x, Y, X);
    StandsDifference(q.y, q.x, y, x);
    StandsSum(q.y, q.x, y, x);
    StandsProduct(FeDifference(r.y, r.x), FeDifference(q.y, q.x), Y - X, y - x);
    StandsProduct(FeSum(r.y, r.x), FeSum(q.y, q.x), Y + X, y + x);
    CombineAll(FeProduct(FeDifference(r.y, r.x), FeDifference(q.y, q.x)),
               FeProduct(FeSum(r.y, r.x), FeSum(q.y, q.x)),
               FeProduct(FeProduct(r.t, FeProduct(q.x, q.y)), Ec2d()), FeSum(r.z, r.z),
               Prod(Y - X, y - x), Prod(Y + X, y + x), Prod(Prod(T, Prod(x, y)), 2 * D), 2 * Z);
  }

  lemma MixAddLimbs(r: Ge, q: Aff, x: int, y: int, X: int, Y: int, Z: int, T: int, E: int, F: int, G: int, H: int)
    requires Stands(r.x, X) && Stands(r.y, Y) && Stands(r.z, Z) && Stands(r.t, T)
    requires Stands(q.x, x) && Stands(q.y, y)
    requires E == Prod(Y + X, y + x) - Prod(Y - X, y - x) && H == Prod(Y + X, y + x) + Prod(Y - X, y - x)
    requires G == 2 * Z + Prod(Prod(T, Prod(x, y)), 2 * D) && F == 2 * Z - Prod(Prod(T, Prod(x, y)), 2 * D)
    ensures var m := MixAdd2(r, q);
            Stands(m.x, Prod(E, F)) && Stands(m.y, Prod(H, G)) && Stands(m.z, Prod(G, F)) && Stands(m.t, Prod(E, H))
  {
    hide Stands, FeSum, FeDifference, FeProduct, Ec2d, Prod;
    MixAddFactors(r, q, x, y, X, Y, Z, T);
    var a := FeProduct(FeDifference(r.y, r.x), FeDifference(q.y, q.x));
    var b := FeProduct(FeSum(r.y, r.x), FeSum(q.y, q.x));
    var c, d := FeProduct(FeProduct(r.t, FeProduct(q.x, q.y)), Ec2d()), FeSum(r.z, r.z);
    LastProducts(FeDifference(b, a), FeDifference(d, c), FeSum(d, c), FeSum(b, a), E, F, G, H);
  }

  lemma LastProducts(e: Fe, f: Fe, g: Fe, h: Fe, E: int, F: int, G: int, H: int)
    requires Stands(e, E) && Stands(f, F) && Stands(g, G) && Stands(h, H)
    ensures Stands(FeProduct(e, f), Prod(E, F)) && Stands(FeProduct(h, g), Prod(H, G))
    ensures Stands(FeProduct(g, f), Prod(G, F)) && Stands(FeProduct(e, h), Prod(E, H))
  {
    hide Stands, FeProduct, Prod;
    StandsProduct(e, f, E, F);
    StandsProduct(h, g, H, G);
    StandsProduct(g, f, G, F);
    StandsProduct(e, h, E, H);
  }

  /** `ge25519_mixadd2` adds an affine table entry to an extended point. */
  lemma MixAddRepresents<G(!new)>(c: Curve<G>, r: Ge, q: Aff, a: G, b: G)
    requires c.Law() && Represents(c, r, a) && RepresentsAff(c, q, b)
    ensures Represents(c, MixAdd2(r, q), c.group.add(a, b))
  {
    hide Val, MixAdd2, Loose, Extended, AffineSum, Completed, c.Law, Prime, Prod;
    LawAt(c, a, b);
    var s := c.group.add(a, b);
    var x, y := c.x(b), c.y(b);
    AffExtended(x, y);
    StandsPoint(r);
    var X, Y, Z, T := Val(r.x), Val(r.y), Val(r.z), Val(r.t);
    var u, v, k := Prod(Y - X, y - x), Prod(Y + X, y + x), Prod(Prod(T, Prod(x, y)), 2 * D);
    hide Stands, Prod;
    MixAddLimbs(r, q, x, y, X, Y, Z, T, v - u, 2 * Z - k, 2 * Z + k, v + u);
    AddCompleted(X, Y, Z, T, x, y, 1, Prod(x, y), 2 * D, c.x(a), c.y(a), x, y, c.x(s), c.y(s),
                 Edwards.Cross(c.x(a), c.y(a), x, y));
    TimesOne(Z);
    CompletedToExtended(v - u, 2 * Z + k, v + u, 2 * Z - k, c.x(s), c.y(s));
    FinishPoint(c, MixAdd2(r, q), Prod(v - u, 2 * Z - k), Prod(v + u, 2 * Z + k), Prod(2 * Z + k, 2 * Z - k),
                Prod(v - u, v + u), s);
  }

  lemma FinishPoint<G(!new)>(c: Curve<G>, e: Ge, X: int, Y: int, Z: int, T: int, g: G)
    requires Stands(e.x, X) && Stands(e.y, Y) && Stands(e.z, Z) && Stands(e.t, T)
    requires Extended(X, Y, Z, T, c.x(g), c.y(g))
    ensures Represents(c, e, g)
  {
    hide Extended, Val, Prod;
    ExtendedFromStands(e, X, Y, Z, T, c.x(g), c.y(g));
  }
}
