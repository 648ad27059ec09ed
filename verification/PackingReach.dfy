/** A point that `ge25519_pack` does not encode: its affine y is 19, and the quotient limbs the code
    divides out for it hold 2^255. */
module PackingReach {
  import opened Words
  import opened ModArith
  import opened Limbs
  import opened Field
  import opened Powers
  import opened Fe25519
  import opened Fe25519Values
  import opened Fe25519Powers
  import opened ProductReach
  import opened Edwards
  import opened Ge25519
  import opened SquareRoot
  import opened PointCodec

  /** 19/18 modulo p, the inverse of the Z coordinate. */
  const INVERSE: int := 0x238e38e3_8e38e38e_38e38e38_e38e38e3_8e38e38e_38e38e38_e38e38e3_8e38e38a

  /** The affine point with y = 19, scaled by Z = 18/19. */
  lemma Witness() returns (x: int, y: int, X: nat, Z: nat, T: nat)
    ensures y == 19 && OnCurve(x, y)
    ensures X < TOP_BIT && Z < TOP_BIT && T < TOP_BIT && Unit(Z)
    ensures Scaled(X, x, Z) && Scaled(TOP_BIT - 1, y, Z) && Scaled(T, Prod(x, y), Z)
    ensures Eq(Prod(INVERSE, Z), 1)
  {
    hide Prod;
    x, y := 0x5a0ae42d_c53b7340_ae6b57e9_3a12261a_80a8c5a9_e9fcc523_5233d09e_6a9952e8, 19;
    X := 0x262543f5_777bb08e_1e80a420_51f63f0b_a24f0c1a_3bfcf0a8_32edb82a_4a0a8477;
    Z := 0x50d79435_e50d7943_5e50d794_35e50d79_435e50d7_9435e50d_79435e50_d79435da;
    T := 0x54c40b37_de2e1a8c_438c2e66_1546addd_0bdde5f2_73c5dc7b_c7a4ab23_7ec7d534;
    var a, b := x * x, y * y;
    var high := 0x0000001c_9d80f947_ef7bf9b5_736b0fbb_150a50f1_2b8a8c00_61dd1246_5b53f118_187cdc19;
    var low := 0x5e51088d_2fb151ac_d18f1f89_a63721ca_d4615251_62532408_73b43155_4a9d80f8;
    CongByMultiple(b - a, 1 + D * (a * b), -(high * (2 * TOP_BIT) + low), P);
    CongByMultiple(X, x * Z, -25722568215964676792861012674637995497191776312044531841899065630620526064733, P);
    CongByMultiple(TOP_BIT - 1, y * Z, -11, P);
    CongByMultiple(T, (x * y) * Z, -488728796103328859064359240818121914446643749928846104996082246981789995229932, P);
    CongByMultiple(INVERSE * Z, 1, 10157200810290894335400963597253325250286840760143909126268209123501151722799, P);
    Products();
  }

  /** The inversion chain has no choice but to leave the canonical limbs of the inverse. */
  lemma InverseLimbs(z: Fe)
    requires Prime() && Loose(z) && Unit(Val(z)) && Eq(Prod(INVERSE, Val(z)), 1)
    ensures Below(Inverted(z)) && Val(Inverted(z)) == INVERSE && Inverted(z)[31] == 35
  {
    hide Val, Pow, Prime, Prod, Inverted, Pow256, Below, Tight;
    var Z := Val(z);
    InvertedValue(z);
    InverseByPower(Z);
    EqProd(Z, Z, Val(Inverted(z)), Pow(Z, P - 2));
    Commute(Z, Val(Inverted(z)));
    Cancel(Val(Inverted(z)), INVERSE, Z);
    TightInverted(z);
    CanonicalLimbs(Inverted(z), INVERSE);
    TopBytes();
  }

  lemma TightInverted(z: Fe)
    requires Loose(z)
    ensures Tight(Inverted(z))
  {
    hide Inverted, Val, Pow;
    InvertedValue(z);
  }

  /** A product whose residue is outside the window has no choice but to be the canonical limbs. */
  lemma CanonicalLimbs(s: Fe, m: nat)
    requires Tight(s) && Eq(Val(s), m) && 19 + SLACK <= m < P
    ensures Below(s) && Val(s) == m && s[31] == m / Pow256(31)
  {
    hide Val, Pow256, BytesOf;
    OnlyResidue(Val(s), m);
    var n := 32;
    var t := BytesOf(m, n);
    FieldBytes(m, t);
    SameBytes(s, t);
  }

  lemma OnlyResidue(v: int, m: int)
    requires 0 <= v < TOP_BIT + SLACK && Eq(v, m) && 19 + SLACK <= m < P
    ensures v == m
  {
    var k := CongMultiple(v, m, P);
  }

  lemma SameBytes(s: Fe, t: seq<u32>)
    requires Loose(s) && Below(t) && Val(s) == Val(t)
    ensures s == t
  {
    hide Val;
    DigitsUnique(s, t);
  }

  /** Dividing 2^255 - 1 by such a Z leaves 2^255. */
  lemma QuotientBeyond(p: Ge)
    requires Prime() && Loose(p.z) && Unit(Val(p.z)) && Eq(Prod(INVERSE, Val(p.z)), 1)
    requires Below(p.y) && Val(p.y) == TOP_BIT - 1 && p.y[31] == 127
    ensures !Packs(p)
  {
    hide Val, Prod, Inverted, FeProduct, Prime, Unit;
    InverseLimbs(p.z);
    DivModUnique((TOP_BIT - 1) * INVERSE, P, INVERSE + 5, 19);
    ProductAtTopBit(p.y, Inverted(p.z));
  }

  /** The limbs of four coordinates below 2^255. */
  lemma PointOf(X: nat, Y: nat, Z: nat, T: nat) returns (p: Ge)
    requires X < TOP_BIT && Y < TOP_BIT && Z < TOP_BIT && T < TOP_BIT
    ensures Below(p.x) && Below(p.y) && Below(p.z) && Below(p.t)
    ensures Val(p.x) == X && Val(p.y) == Y && Val(p.z) == Z && Val(p.t) == T && p.y[31] == Y / Pow256(31)
  {
    hide Val, Pow256, BytesOf;
    var n := 32;
    p := Ge(BytesOf(X, n), BytesOf(Y, n), BytesOf(Z, n), BytesOf(T, n));
    FieldBytes(X, p.x);
    FieldBytes(Y, p.y);
    FieldBytes(Z, p.z);
    FieldBytes(T, p.t);
  }

  lemma FullPoint<G(!new)>(c: Curve<G>, x: int, y: int)
    requires c.Law() && c.Full() && OnCurve(x, y)
    ensures Eq(c.x(c.at(x, y)), x) && Eq(c.y(c.at(x, y)), y) && Prime()
  {
    hide OnSquares, Prod;
  }

  /** On every curve there is a point, with limbs that represent it, whose packed bytes are not its
      encoding. */
  lemma PackingFails<G(!new)>(c: Curve<G>)
    requires c.Law() && c.Full()
    ensures exists p: Ge, g: G :: Represents(c, p, g) && !Packs(p)
  {
    hide c.Law, c.Full, Val, Prod, Pow256, OnCurve, Prime, Unit, Packs, Scaled;
    var x, y, X, Z, T := Witness();
    FullPoint(c, x, y);
    var g := c.at(x, y);
    var p := PointOf(X, TOP_BIT - 1, Z, T);
    RescaledPoint(X, TOP_BIT - 1, Z, T, x, y, c.x(g), c.y(g));
    assert Represents(c, p, g);
    TopBytes();
    QuotientBeyond(p);
  }

  lemma RescaledPoint(X: int, Y: int, Z: int, T: int, x: int, y: int, x': int, y': int)
    requires Unit(Z) && Scaled(X, x, Z) && Scaled(Y, y, Z) && Scaled(T, Prod(x, y), Z) && Eq(x', x) && Eq(y', y)
    ensures Extended(X, Y, Z, T, x', y')
  {
    hide Prod, Scaled;
    ScaledValue(X, x, x', Z);
    ScaledValue(Y, y, y', Z);
    EqProd(x, x', y, y');
    ScaledValue(T, Prod(x, y), Prod(x', y'), Z);
  }
}
