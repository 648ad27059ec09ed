/** The twisted Edwards curve of Ed25519 on integers modulo p: coordinates that carry a common
    scale, and the two point formulas of the code read as statements about such coordinates. */
module Edwards {
  import opened ModArith
  import opened Field
  import opened Group
  import opened Fermat

  // ------------------------------------------------------------------------
  // Units and scaled values

  /** p has no zero divisors. */
  ghost predicate Prime()
  {
    Domain(P)
  }

  lemma CancelPrime(a: int, b: int)
    requires Prime() && Eq(Prod(a, b), 0)
    ensures Eq(a, 0) || Eq(b, 0)
  {
    hide Prod;
    Products();
    CancelIn(a, b, P);
  }

  /** What can be divided by. */
  ghost predicate Unit(a: int)
  {
    !Eq(a, 0)
  }

  lemma UnitMul(a: int, b: int)
    requires Prime() && Unit(a) && Unit(b)
    ensures Unit(Prod(a, b))
  {
    hide Prime, Prod;
    if Eq(Prod(a, b), 0) {
      CancelPrime(a, b);
      assert false;
    }
  }

  lemma UnitTwo()
    ensures Unit(1) && Unit(2) && Unit(-1)
  {
  }

  lemma UnitDouble(a: int)
    requires Prime() && Unit(a)
    ensures Unit(2 * a) && Unit(-a)
  {
    hide Prime, Prod;
    UnitTwo();
    UnitMul(2, a);
    UnitMul(-1, a);
    Products();
  }

  /** Congruence is kept by products. */
  lemma EqProd(a: int, a': int, b: int, b': int)
    requires Eq(a, a') && Eq(b, b')
    ensures Eq(Prod(a, b), Prod(a', b'))
  {
    hide Prod;
    Products();
    EqMul(a, a', b, b');
  }

  /** `a` is the value `v` at scale `w`: the fraction a / w is v. */
  ghost predicate Scaled(a: int, v: int, w: int)
  {
    Eq(a, Prod(v, w))
  }

  lemma ScaledAdd(a: int, b: int, u: int, v: int, w: int)
    requires Scaled(a, u, w) && Scaled(b, v, w)
    ensures Scaled(a + b, u + v, w) && Scaled(a - b, u - v, w)
  {
    hide Prod;
    EqAdd(a, Prod(u, w), b, Prod(v, w));
    EqSub(a, Prod(u, w), b, Prod(v, w));
    Distribute(u, v, w);
  }

  lemma Distribute(u: int, v: int, w: int)
    ensures Prod(u + v, w) == Prod(u, w) + Prod(v, w) && Prod(u - v, w) == Prod(u, w) - Prod(v, w)
    ensures Prod(w, u + v) == Prod(w, u) + Prod(w, v) && Prod(w, u - v) == Prod(w, u) - Prod(w, v)
  {
    hide Prod;
    Products();
    assert (u + v) * w == u * w + v * w && (u - v) * w == u * w - v * w;
    assert w * (u + v) == w * u + w * v && w * (u - v) == w * u - w * v;
  }

  /** Products of two pairs may be paired the other way. */
  lemma Regroup(u: int, w: int, v: int, w': int)
    ensures Prod(Prod(u, w), Prod(v, w')) == Prod(Prod(u, v), Prod(w, w'))
  {
    hide Prod;
    Products();
    var a, b := u * w, v * w';
    assert a * b == u * (w * (v * w')) && w * (v * w') == v * (w * w');
    assert u * (v * (w * w')) == (u * v) * (w * w');
  }

  lemma Commute(a: int, b: int)
    ensures Prod(a, b) == Prod(b, a)
  {
    hide Prod;
    Products();
  }

  lemma Associate(a: int, b: int, c: int)
    ensures Prod(a, Prod(b, c)) == Prod(Prod(a, b), c)
  {
    hide Prod;
    Products();
    assert a * (b * c) == (a * b) * c;
  }

  lemma ScaledMul(a: int, b: int, u: int, v: int, w: int, w': int)
    requires Scaled(a, u, w) && Scaled(b, v, w')
    ensures Scaled(Prod(a, b), Prod(u, v), Prod(w, w'))
  {
    hide Prod;
    EqProd(a, Prod(u, w), b, Prod(v, w'));
    Regroup(u, w, v, w');
  }

  lemma ScaledValue(a: int, u: int, v: int, w: int)
    requires Scaled(a, u, w) && Eq(u, v)
    ensures Scaled(a, v, w)
  {
    hide Prod;
    EqProd(u, v, w, w);
  }

  /** Replacing the value and the scale by congruent ones. */
  lemma ScaledTo(a: int, v: int, w: int, a': int, w': int)
    requires Scaled(a, v, w) && Eq(a', a) && Eq(w', w)
    ensures Scaled(a', v, w')
  {
    hide Prod;
    EqProd(v, v, w', w);
  }

  lemma ScaledUnit(a: int, v: int, w: int)
    requires Prime() && Scaled(a, v, w) && Unit(v) && Unit(w)
    ensures Unit(a)
  {
    hide Prime, Prod;
    UnitMul(v, w);
  }

  /** A quotient of values at one scale: if c·v is u then c at the scale of v is u. */
  lemma Rescale(a: int, b: int, u: int, v: int, c: int, w: int)
    requires Scaled(a, u, w) && Scaled(b, v, w) && Eq(Prod(c, v), u)
    ensures Scaled(a, c, b)
  {
    hide Prod;
    EqProd(c, c, b, Prod(v, w));
    EqProd(Prod(c, v), u, w, w);
    Associate(c, v, w);
  }

  lemma ScaledTwice(w: int)
    ensures Scaled(2 * w, 2, w)
  {
    hide Prod;
    Products();
  }

  lemma ScaledOne(w: int)
    ensures Scaled(w, 1, w) && Scaled(w, w, 1) && Scaled(0, 0, w)
  {
    hide Prod;
    Products();
  }

  // ------------------------------------------------------------------------
  // The curve

  /** The curve constant, -121665/121666 modulo p. */
  const D: int := 0x52036cee_2b6ffe73_8cc74079_7779e898_00700a4d_4141d8ab_75eb4dca_135978a3

  /** The code's precomputed double of it. */
  const TWO_D: int := 0x2406d9dc_56dffce7_198e80f2_eef3d130_00e0149a_8283b156_ebd69b94_26b2f159

  lemma CurveConstant()
    ensures Eq(121666 * D, -121665) && Eq(TWO_D, 2 * D)
  {
    CongByMultiple(121666 * D, -121665, 77955, P);
    CongByMultiple(TWO_D, 2 * D, -1, P);
  }

  /** The curve equation in terms of the squares of x and y: b - a is 1 + d a b. */
  ghost predicate OnSquares(d: int, a: int, b: int)
  {
    Eq(b - a, 1 + Prod(d, Prod(a, b)))
  }

  ghost predicate OnCurve(x: int, y: int)
  {
    OnSquares(D, Prod(x, x), Prod(y, y))
  }

  /** The product d x1 x2 y1 y2 of the addition law. */
  function Cross(x1: int, y1: int, x2: int, y2: int): int
  {
    Prod(D, Prod(Prod(x1, y1), Prod(x2, y2)))
  }

  /** The complete addition law with cross term k: both denominators are invertible. */
  ghost predicate AffineSum(k: int, x1: int, y1: int, x2: int, y2: int, x3: int, y3: int)
  {
    && Unit(1 + k) && Unit(1 - k)
    && Eq(Prod(x3, 1 + k), Prod(x1, y2) + Prod(x2, y1))
    && Eq(Prod(y3, 1 - k), Prod(y1, y2) + Prod(x1, x2))
  }

  /** An abelian group of points with affine coordinates obeying the Edwards addition law. */
  datatype Curve<!G(!new)> = Curve(group: Group<G>, x: G -> int, y: G -> int, at: (int, int) -> G)
  {
    ghost predicate Law()
    {
      && group.Abelian() && Prime()
      && (forall a: G :: PointAt(a))
      && (forall a: G, b: G :: SumAt(a, b))
      && Eq(x(group.zero), 0) && Eq(y(group.zero), 1)
      && (forall a: G :: Eq(x(group.neg(a)), -x(a)) && Eq(y(group.neg(a)), y(a)))
    }

    ghost predicate PointAt(a: G)
    {
      OnCurve(x(a), y(a))
    }

    ghost predicate SumAt(a: G, b: G)
    {
      AffineSum(Cross(x(a), y(a), x(b), y(b)), x(a), y(a), x(b), y(b), x(group.add(a, b)), y(group.add(a, b)))
    }

    /** Every solution of the curve equation is a point of the group. */
    ghost predicate Full()
    {
      forall u: int, v: int :: OnCurve(u, v) ==> Eq(x(at(u, v)), u) && Eq(y(at(u, v)), v)
    }
  }

  // ------------------------------------------------------------------------
  // Coordinate forms

  /** (X : Y : Z) without the product coordinate. */
  ghost predicate Projective(X: int, Y: int, Z: int, x: int, y: int)
  {
    Unit(Z) && Scaled(X, x, Z) && Scaled(Y, y, Z)
  }

  /** Extended coordinates: T is the product at the same scale. */
  ghost predicate Extended(X: int, Y: int, Z: int, T: int, x: int, y: int)
  {
    Projective(X, Y, Z, x, y) && Scaled(T, Prod(x, y), Z)
  }

  /** The completed form: X over Z and Y over T. */
  ghost predicate Completed(X: int, Z: int, Y: int, T: int, x: int, y: int)
  {
    Unit(Z) && Unit(T) && Scaled(X, x, Z) && Scaled(Y, y, T)
  }

  lemma CompletedToExtended(X: int, Z: int, Y: int, T: int, x: int, y: int)
    requires Prime() && Completed(X, Z, Y, T, x, y)
    ensures Extended(Prod(X, T), Prod(Y, Z), Prod(Z, T), Prod(X, Y), x, y)
  {
    hide Scaled, Unit, Prime, Prod;
    UnitMul(Z, T);
    ScaledOne(T);
    ScaledOne(Z);
    ScaledMul(X, T, x, 1, Z, T);
    ScaledMul(Y, Z, y, 1, T, Z);
    ScaledMul(X, Y, x, y, Z, T);
    Commute(T, Z);
    TimesOne(x);
    TimesOne(y);
  }

  lemma TimesOne(x: int)
    ensures Prod(x, 1) == x
  {
    hide Prod;
    Products();
  }

  /** Two of the four outputs of the unified addition, over twice the product of the scales. */
  lemma AddNumerators(X1: int, Y1: int, Z1: int, X2: int, Y2: int, Z2: int, x1: int, y1: int, x2: int, y2: int)
    requires Scaled(X1, x1, Z1) && Scaled(Y1, y1, Z1) && Scaled(X2, x2, Z2) && Scaled(Y2, y2, Z2)
    ensures var w := Prod(Z1, Z2);
            var a, b := Prod(Y1 - X1, Y2 - X2), Prod(Y1 + X1, Y2 + X2);
            && Scaled(b - a, 2 * (Prod(x1, y2) + Prod(x2, y1)), w)
            && Scaled(b + a, 2 * (Prod(y1, y2) + Prod(x1, x2)), w)
  {
    hide Scaled, Prod;
    var w := Prod(Z1, Z2);
    ScaledAdd(Y1, X1, y1, x1, Z1);
    ScaledAdd(Y2, X2, y2, x2, Z2);
    ScaledMul(Y1 - X1, Y2 - X2, y1 - x1, y2 - x2, Z1, Z2);
    ScaledMul(Y1 + X1, Y2 + X2, y1 + x1, y2 + x2, Z1, Z2);
    ScaledAdd(Prod(Y1 + X1, Y2 + X2), Prod(Y1 - X1, Y2 - X2), Prod(y1 + x1, y2 + x2), Prod(y1 - x1, y2 - x2), w);
    SumOfProducts(x1, y1, x2, y2);
  }

  lemma SumOfProducts(x1: int, y1: int, x2: int, y2: int)
    ensures Prod(y1 + x1, y2 + x2) - Prod(y1 - x1, y2 - x2) == 2 * (Prod(x1, y2) + Prod(x2, y1))
    ensures Prod(y1 + x1, y2 + x2) + Prod(y1 - x1, y2 - x2) == 2 * (Prod(y1, y2) + Prod(x1, x2))
  {
    hide Prod;
    Distribute(y1, x1, y2 + x2);
    Distribute(y1, x1, y2 - x2);
    Distribute(y2, x2, y1);
    Distribute(y2, x2, x1);
    Commute(x2, y1);
  }

  lemma AddDenominators(Z1: int, T1: int, Z2: int, T2: int, p: int, q: int, d: int, k: int)
    requires Scaled(T1, p, Z1) && Scaled(T2, q, Z2) && Eq(d, 2 * D) && k == Prod(D, Prod(p, q))
    ensures var w, c := Prod(Z1, Z2), Prod(Prod(T1, T2), d);
            Scaled(2 * w - c, 2 * (1 - k), w) && Scaled(2 * w + c, 2 * (1 + k), w)
  {
    hide Scaled, Prod;
    var w := Prod(Z1, Z2);
    ScaledMul(T1, T2, p, q, Z1, Z2);
    ScaledConstant(Prod(T1, T2), Prod(p, q), w, d, 2 * D);
    TwiceCross(Prod(p, q));
    ScaledTwice(w);
    ScaledAdd(2 * w, Prod(Prod(T1, T2), d), 2, 2 * k, w);
  }

  lemma TwiceCross(m: int)
    ensures Prod(m, 2 * D) == 2 * Prod(D, m)
  {
    hide Prod;
    Products();
  }

  lemma ScaledConstant(a: int, v: int, w: int, d: int, e: int)
    requires Scaled(a, v, w) && Eq(d, e)
    ensures Scaled(Prod(a, d), Prod(v, e), w)
  {
    hide Prod;
    EqProd(a, Prod(v, w), d, e);
    Associate(v, w, e);
    Associate(v, e, w);
    Commute(w, e);
  }

  /** Dividing both halves of a completed point by the same scale. */
  lemma CompletedFrom(X: int, Z: int, Y: int, T: int, u: int, g: int, v: int, f: int, w: int, x: int, y: int)
    requires Prime() && Unit(w) && Unit(g) && Unit(f)
    requires Scaled(X, u, w) && Scaled(Z, g, w) && Scaled(Y, v, w) && Scaled(T, f, w)
    requires Eq(Prod(x, g), u) && Eq(Prod(y, f), v)
    ensures Completed(X, Z, Y, T, x, y)
  {
    hide Scaled, Unit, Prime, Prod;
    ScaledUnit(Z, g, w);
    ScaledUnit(T, f, w);
    Rescale(X, Z, u, g, x, w);
    Rescale(Y, T, v, f, y, w);
  }

  lemma Doubled(x: int, k: int, u: int)
    requires Eq(Prod(x, k), u)
    ensures Eq(Prod(x, 2 * k), 2 * u) && Eq(Prod(x, -k), -u)
  {
    hide Prod;
    EqAdd(Prod(x, k), u, Prod(x, k), u);
    EqSub(0, 0, Prod(x, k), u);
    Products();
    assert x * (2 * k) == x * k + x * k && x * -k == 0 - x * k;
  }

  /** The unified addition formula yields the completed form of the affine sum. */
  lemma AddCompleted(X1: int, Y1: int, Z1: int, T1: int, X2: int, Y2: int, Z2: int, T2: int, d: int,
                     x1: int, y1: int, x2: int, y2: int, x3: int, y3: int, k: int)
    requires Extended(X1, Y1, Z1, T1, x1, y1) && Extended(X2, Y2, Z2, T2, x2, y2) && Eq(d, 2 * D) && Prime()
    requires k == Cross(x1, y1, x2, y2) && AffineSum(k, x1, y1, x2, y2, x3, y3)
    ensures var w, c := Prod(Z1, Z2), Prod(Prod(T1, T2), d);
            var a, b := Prod(Y1 - X1, Y2 - X2), Prod(Y1 + X1, Y2 + X2);
            Completed(b - a, 2 * w + c, b + a, 2 * w - c, x3, y3)
  {
    hide Scaled, Unit, Prime, Prod;
    AddNumerators(X1, Y1, Z1, X2, Y2, Z2, x1, y1, x2, y2);
    AddDenominators(Z1, T1, Z2, T2, Prod(x1, y1), Prod(x2, y2), d, k);
    UnitMul(Z1, Z2);
    var w, c := Prod(Z1, Z2), Prod(Prod(T1, T2), d);
    var a, b := Prod(Y1 - X1, Y2 - X2), Prod(Y1 + X1, Y2 + X2);
    UnitDouble(1 + k);
    UnitDouble(1 - k);
    Doubled(x3, 1 + k, Prod(x1, y2) + Prod(x2, y1));
    Doubled(y3, 1 - k, Prod(y1, y2) + Prod(x1, x2));
    CompletedFrom(b - a, 2 * w + c, b + a, 2 * w - c, 2 * (Prod(x1, y2) + Prod(x2, y1)), 2 * (1 + k),
                  2 * (Prod(y1, y2) + Prod(x1, x2)), 2 * (1 - k), w, x3, y3);
  }

  /** The doubling formula needs no product coordinate, and the curve equation instead. */
  lemma DoubleCompleted(X: int, Y: int, Z: int, x: int, y: int, x3: int, y3: int, k: int)
    requires Prime() && Projective(X, Y, Z, x, y)
    requires Eq(Prod(y, y) - Prod(x, x), 1 + k) && AffineSum(k, x, y, x, y, x3, y3)
    ensures var a, b, w := Prod(X, X), Prod(Y, Y), Prod(Z, Z);
            Completed(Prod(X + Y, X + Y) - a - b, b - a, -a - b, b - a - 2 * w, x3, y3)
  {
    hide Scaled, Unit, Prime, Prod;
    var a, b, w := Prod(X, X), Prod(Y, Y), Prod(Z, Z);
    DoubleScaled(X, Y, Z, x, y);
    ScaledValue(b - a, Prod(y, y) - Prod(x, x), 1 + k, w);
    ScaledTwice(w);
    ScaledAdd(b - a, 2 * w, 1 + k, 2, w);
    UnitMul(Z, Z);
    UnitDouble(1 - k);
    assert -(1 - k) == k - 1 == 1 + k - 2;
    Doubled(y3, 1 - k, Prod(y, y) + Prod(x, x));
    Commute(x, y);
    CompletedFrom(Prod(X + Y, X + Y) - a - b, b - a, -a - b, b - a - 2 * w,
                  2 * Prod(x, y), 1 + k, -Prod(x, x) - Prod(y, y), k - 1, w, x3, y3);
  }

  /** The cross term of a point with itself is the one in the curve equation. */
  lemma CrossSquare(x: int, y: int)
    ensures Prod(D, Prod(Prod(x, x), Prod(y, y))) == Cross(x, y, x, y)
  {
    hide Prod;
    Regroup(x, x, y, y);
  }

  lemma DoubleScaled(X: int, Y: int, Z: int, x: int, y: int)
    requires Scaled(X, x, Z) && Scaled(Y, y, Z)
    ensures var a, b, w := Prod(X, X), Prod(Y, Y), Prod(Z, Z);
            && Scaled(b - a, Prod(y, y) - Prod(x, x), w)
            && Scaled(-a - b, -Prod(x, x) - Prod(y, y), w)
            && Scaled(Prod(X + Y, X + Y) - a - b, 2 * Prod(x, y), w)
  {
    hide Scaled, Prod;
    var a, b, w := Prod(X, X), Prod(Y, Y), Prod(Z, Z);
    ScaledMul(X, X, x, x, Z, Z);
    ScaledMul(Y, Y, y, y, Z, Z);
    ScaledMul(X, Y, x, y, Z, Z);
    ScaledAdd(b, a, Prod(y, y), Prod(x, x), w);
    ScaledOne(w);
    ScaledAdd(0, a, 0, Prod(x, x), w);
    ScaledAdd(0 - a, b, 0 - Prod(x, x), Prod(y, y), w);
    ScaledAdd(Prod(X, Y), Prod(X, Y), Prod(x, y), Prod(x, y), w);
    SquareOfSum(X, Y);
  }

  lemma SquareOfSum(X: int, Y: int)
    ensures Prod(X + Y, X + Y) - Prod(X, X) - Prod(Y, Y) == Prod(X, Y) + Prod(X, Y)
  {
    hide Prod;
    Distribute(X, Y, X + Y);
    Distribute(X, Y, X);
    Distribute(X, Y, Y);
    Commute(X, Y);
  }
}
