/** Keys that `ge25519_unpackneg_vartime` gets wrong: 32 bytes that encode a point of the curve and
    are rejected, and others that decode to the point instead of its negative. */
module DecodingReach {
  import opened Words
  import opened ModArith
  import opened Limbs
  import opened Field
  import opened Powers
  import opened Fermat
  import opened Fe25519
  import opened Fe25519Values
  import opened Fe25519Powers
  import opened ProductReach
  import opened Edwards
  import opened CurveConstants
  import opened Ge25519
  import opened SquareRoot
  import opened PointCodec
  import opened PackingReach

  /** The bytes are the encoding of a curve point. */
  ghost predicate Encodes(p: seq<byte>, x: int, y: int)
  {
    |p| == 32 && OnCurve(x, y) && Val(p) == Encoding(x, y)
  }

  /** The curve equation from the residues of the squares. */
  lemma OnCurveBy(x: int, y: int, a: int, b: int)
    requires Eq(Prod(x, x), a) && Eq(Prod(y, y), b) && Eq(b - a, 1 + D * (a * b))
    ensures OnCurve(x, y)
  {
    hide Prod;
    EqSub(Prod(y, y), b, Prod(x, x), a);
    EqProd(Prod(x, x), a, Prod(y, y), b);
    EqProd(D, D, Prod(Prod(x, x), Prod(y, y)), Prod(a, b));
    EqAdd(1, 1, Prod(D, Prod(Prod(x, x), Prod(y, y))), Prod(D, Prod(a, b)));
    Products();
  }

  /** The bytes of a number below 2^255. */
  lemma KeyOf(y: nat) returns (p: seq<byte>)
    requires y < TOP_BIT
    ensures |p| == 32 && Val(p) == y
  {
    hide Val, BytesOf;
    var n := 32;
    p := BytesOf(y, n);
    FieldBytes(y, p);
  }

  lemma TopLimb(m: nat, t: nat)
    requires t <= 127 && t * TOP_BIT <= 128 * m < (t + 1) * TOP_BIT
    ensures m / Pow256(31) == t
  {
    Weights();
    hide Pow256;
    var w := Pow256(31);
    assert t * (128 * w) == 128 * (t * w) && (t + 1) * (128 * w) == 128 * ((t + 1) * w);
    assert (t + 1) * w == t * w + w;
    DivModUnique(m, w, t, m - t * w);
  }

  // ------------------------------------------------------------------------
  // A key that is rejected

  /** The square of x for the point with y^2 = 20, and 20 d + 1. */
  const SQUARE: nat := 0x46501406_ade03a03_216984c2_fca09d15_44d41fec_e279b299_d454b6c7_446e6725
  const DENOMINATOR: nat := 0x6844829b_64bfe106_ff91097d_55862be0_08c0ce09_1924ed65_366213c9_82fd6da1

  lemma RejectedPoint() returns (x: nat, y: nat)
    ensures x % 2 == 0 && x < P && y < P
    ensures Eq(Prod(x, x), SQUARE) && Eq(Prod(y, y), 20) && OnCurve(x, y)
  {
    hide Prod;
    x := 0x0d0c5096_255cf998_b2f1a436_48dc381e_28517240_ce7c52fe_7336995f_6993ffee;
    y := 0x2cc9763d_945ce3e1_d6a36cc7_055ad781_55e94bee_e144008e_0a6966d9_450b3119;
    CongByMultiple(x * x, SQUARE, 0x0154818d_ce7a42f5_a5ca8410_3e40dba8_3b3c6dda_fd8a74da_1581a8fb_0f0348bb, P);
    CongByMultiple(y * y, 20, 0x0fabbe60_1c9f7792_4d7f1d6b_c3c0ef40_93ef6e91_8504d9c7_d3ef76aa_97cff831, P);
    ProdIs(x, x);
    ProdIs(y, y);
    CongByMultiple(20 - SQUARE, 1 + D * (SQUARE * 20),
                   -407547368595423723171237088167251018000644783865941024783913657618509859559286, P);
    OnCurveBy(x, y, SQUARE, 20);
  }

  lemma RejectedProduct()
    ensures (SQUARE * DENOMINATOR) % P == 19
    ensures SQUARE / Pow256(31) == 70 && DENOMINATOR / Pow256(31) == 104
  {
    hide Pow256;
    TopLimb(SQUARE, 70);
    TopLimb(DENOMINATOR, 104);
    DivModUnique(SQUARE * DENOMINATOR, P,
                 0x3946b28e_c1798daf_5a676d56_5d449942_252e3939_0ac3a996_559dd4a1_bfbdc1ba, 19);
  }

  lemma DenominatorStands(y: Fe, v: int)
    requires Stands(y, v) && Eq(Prod(v, v), 20)
    ensures Tight(Denominator(y)) && Eq(Val(Denominator(y)), DENOMINATOR)
  {
    hide Val, Prod, Denominator, Numerator;
    FractionStands(y, v);
    DenominatorTight(y);
    EqProd(Prod(v, v), 20, D, D);
    ProdIs(20, D);
    EqAdd(Prod(Prod(v, v), D), 20 * D, 1, 1);
    CongByMultiple(20 * D + 1, DENOMINATOR, 12, P);
  }

  lemma DenominatorTight(y: Fe)
    requires Loose(y)
    ensures Tight(Denominator(y))
  {
    hide Val, FeSum, FeProduct, FeOne, Ecd;
    TightProduct(y, y);
    StandsD();
    TightProduct(FeProduct(y, y), Ecd());
    StandsOne();
    FeSumValue(FeOne(), FeProduct(FeProduct(y, y), Ecd()));
    BelowIffValue(Denominator(y));
  }

  /** The square of either root, times the denominator, ends at 2^255. */
  lemma CheckBeyond(r: Fe, den: Fe, x: int)
    requires Tight(r) && (Eq(Val(r), x) || Eq(Val(r), -x)) && Eq(Prod(x, x), SQUARE)
    requires Tight(den) && Eq(Val(den), DENOMINATOR)
    ensures !Below(Check(r, den))
  {
    hide Val, Prod, FeProduct, Pow256, Below;
    NegatedSquare(x);
    if Eq(Val(r), x) {
      EqProd(Val(r), x, Val(r), x);
    } else {
      EqProd(Val(r), -x, Val(r), -x);
    }
    StandsSelf(r);
    StandsProduct(r, r, Val(r), Val(r));
    TightProduct(r, r);
    RejectedProduct();
    CanonicalLimbs(FeProduct(r, r), SQUARE);
    CanonicalLimbs(den, DENOMINATOR);
    ProductAtTopBit(FeProduct(r, r), den);
  }

  /** Some 32 bytes encode a point of the curve and are rejected. */
  lemma DecodingFails()
    requires Prime()
    ensures exists p: seq<byte>, x: int, y: int :: Encodes(p, x, y) && !KeyFound(p)
  {
    hide Val, Prod, OnCurve, Prime, Check, Denominator, KeyRoot, KeyFound, Decoded, Unpack, Tight;
    var x, y := RejectedPoint();
    var p := KeyOf(y);
    assert Encodes(p, x, y);
    EncodingDecodes(p, x, y);
    DenominatorStands(Unpack(p), y);
    CheckBeyond(KeyRoot(p), Denominator(Unpack(p)), x);
  }

  // ------------------------------------------------------------------------
  // A key that decodes to its own point

  /** y^2 for the point with x = 24, and the candidate root -24 sqrt(-1). */
  const Y_SQUARE: nat := 0x7e05c627_04aa46ae_471ac57b_8113be06_1cc93921_68f619ae_5fec8a54_08d71244
  const CANDIDATE: nat := 0x6bb493f8_85d316f3_f0c7f1a2_3063c853_91b5bf5f_c38294ad_89ad7451_0ea0eed5

  lemma TurnedPoint() returns (x: int, y: nat)
    ensures x == 24 && y < P && Eq(Prod(y, y), Y_SQUARE) && OnCurve(x, y)
  {
    hide Prod;
    x := 24;
    y := 0x1e2592b8_28453446_dbdae1b6_7177cb1a_77f683dc_70660826_6517b351_19078919;
    CongByMultiple(y * y, Y_SQUARE, 0x0719a7cd_cd84dd55_22e90bb2_26026ebe_7b4df892_74f6ad94_aa2198eb_ea00b341, P);
    ProdIs(x, x);
    ProdIs(y, y);
    CongByMultiple(Y_SQUARE - 576, 1 + D * (576 * Y_SQUARE),
                   -21037030355639023925717681787865802688942765951818597253865852558659951678276945, P);
    OnCurveBy(x, y, 576, Y_SQUARE);
  }

  /** 24 is a fourth power times the square root of -1. */
  lemma FourthRoot() returns (w: int)
    ensures !Eq(w, 0) && Eq(24, SQRT_M1 * Pow(w, 4))
  {
    w := 0x2787fb66_3240a85d_38d0f89c_b728cf2a_fa0ded80_edc7eba9_ec9d8a09_33d9f637;
    var w2 := 0x62024409_7d3491e9_3905f60f_d09be069_8b1666a3_80c11097_83a2a5ad_53835d5e;
    hide Pow;
    FourthPower(w);
    CongByMultiple(w * w, w2, 0x0c356da8_7ff485a9_b257c3e4_15531ca7_65da8929_b86d592e_56adc2f4_51dddfdf, P);
    EqMul(w * w, w2, w * w, w2);
    CongByMultiple(w2 * w2, CANDIDATE, 0x4b0b7838_cc2e7ecd_9f7ffcec_f966a3f1_99833f13_2fd89d1a_84b6b7db_dd2d728b, P);
    EqMul(SQRT_M1, SQRT_M1, Pow(w, 4), CANDIDATE);
    TurnedProduct();
  }

  lemma TurnedProduct()
    ensures Eq(SQRT_M1 * CANDIDATE, 24) && (CANDIDATE * SQRT_M1) % P == 24 && CANDIDATE / Pow256(31) == 107
  {
    hide Pow256;
    TopLimb(CANDIDATE, 107);
    var k := 0x249d033b_ae9c5331_21285d42_ab29f81d_54259d30_bfd0fedb_fdaa96f0_6820e0b8;
    CongByMultiple(SQRT_M1 * CANDIDATE, 24, k, P);
    DivModUnique(CANDIDATE * SQRT_M1, P, k, 24);
  }

  lemma {:induction false} PowOfOne(n: nat)
    ensures Pow(1, n) == 1
    decreases n
  {
    if n > 0 {
      PowOfOne(n - 1);
    }
  }

  /** i^(4k+3) = -i */
  lemma PowI(i: int, k: nat, n: nat)
    requires Eq(i * i, -1) && n == 4 * k + 3
    ensures Eq(Pow(i, n), -i)
  {
    hide Pow;
    FourthPower(i);
    EqMul(i * i, -1, i * i, -1);
    PowPow(i, 4, k);
    PowEq(Pow(i, 4), 1, k);
    PowOfOne(k);
    PowAdd(i, 4 * k, 3);
    PowSuccessor(i, 3);
    SquareIsPow(i);
    EqMul(i, i, i * i, -1);
    EqMul(Pow(i, 4 * k), 1, Pow(i, 3), -i);
  }

  /** (i w^4)^((p-1)/4) = -i */
  lemma PowQuarter(x: int, w: int, n: nat)
    requires Prime() && !Eq(w, 0) && Eq(x, SQRT_M1 * Pow(w, 4)) && 4 * n == P - 1
    ensures Eq(Pow(x, n), -SQRT_M1)
  {
    hide Pow;
    var i := SQRT_M1;
    PowEq(x, i * Pow(w, 4), n);
    PowMul(i, Pow(w, 4), n);
    PowPow(w, 4, n);
    LittleTheorem(P, w);
    SqrtM1Squares();
    PowI(i, n / 4, n);
    EqMul(Pow(i, n), -i, Pow(w, 4 * n), 1);
  }

  /** The candidate of the fraction 24^2 is -24 sqrt(-1). */
  lemma CandidateOf(u: int, v: int, x: int)
    requires Prime() && x == 24 && !Eq(v, 0) && Eq(u, Prod(Prod(x, x), v))
    ensures Eq(Candidate(u, v), CANDIDATE)
  {
    hide Pow, Prod, Candidate, Prime, Eq;
    CandidatePower(u, v, x);
    var w := FourthRoot();
    var n := 2 * E + 1;
    PowQuarter(x, w, n);
    PowSuccessor(x, n + 1);
    TimesMinusI(x, Pow(x, n));
    EqChain(Candidate(u, v), Pow(x, n + 1), CANDIDATE);
  }

  lemma EqChain(a: int, b: int, c: int)
    requires Eq(a, b) && Eq(b, c)
    ensures Eq(a, c)
  {
  }

  lemma TimesMinusI(x: int, q: int)
    requires x == 24 && Eq(q, -SQRT_M1)
    ensures Eq(x * q, CANDIDATE)
  {
    EqMul(x, x, q, -SQRT_M1);
    CongByMultiple(24 * -SQRT_M1, CANDIDATE, -9, P);
  }

  /** So the code turns it, and the turned root ends at 2^255. */
  lemma RootBeyond(num: Fe, den: Fe, u: int, v: int, x: int)
    requires Prime() && x == 24 && !Eq(v, 0) && Eq(u, Prod(Prod(x, x), v))
    requires Stands(num, u) && Stands(den, v)
    ensures !Below(TrueRoot(num, den))
  {
    hide Val, Prod, Candidate, CandidateLimbs, Prime, FeProduct, Pow256, SqrtM1, IsRoot, Below;
    var c := CandidateLimbs(num, den);
    CandidateStands(num, den, u, v);
    CandidateOf(u, v, x);
    TurnedProduct();
    CanonicalLimbs(c, CANDIDATE);
    if IsRoot(c, num, den) {
      RootIsEither(c, num, den, u, v, x);
      assert false;
    }
    SqrtM1Top();
    ProductAtTopBit(c, SqrtM1());
  }

  lemma SqrtM1Top()
    ensures Loose(SqrtM1()) && Val(SqrtM1()) == SQRT_M1 && SqrtM1()[31] == 43
  {
    SqrtM1Value();
    hide Val;
  }

  lemma TurnedKey(p: seq<byte>, x: int, y: int)
    requires Prime() && Encodes(p, x, y) && x == 24 && Eq(Prod(y, y), Y_SQUARE)
    ensures KeyFound(p) && Stands(Decoded(p).x, x)
  {
    hide Val, Prod, OnCurve, Prime, Check, Denominator, Numerator, TrueRoot, IsRoot, Unpack, Below, Decoded, Safe,
         Encoding, Tight, Stands;
    EncodingDecodes(p, x, y);
    var num, den, b := Numerator(Unpack(p)), Denominator(Unpack(p)), Prod(y, y);
    CurveFraction(x, y);
    FractionStands(Unpack(p), y);
    StandsLoose(num, b - 1);
    StandsLoose(den, Prod(b, D) + 1);
    RootBeyond(num, den, b - 1, Prod(b, D) + 1, x);
    RootExists(num, den, b - 1, Prod(b, D) + 1, x);
    TurnedSafe(b);
    CheckSafe(KeyRoot(p), num, den, b - 1);
  }

  /** Some 32 bytes encode a point of the curve and decode to it, where its negative is due. */
  lemma DecodingTurns()
    requires Prime()
    ensures exists p: seq<byte>, x: int, y: int ::
              Encodes(p, x, y) && KeyFound(p) && Stands(Decoded(p).x, x) && !Stands(Decoded(p).x, -x)
  {
    hide Val, Prod, OnCurve, Prime, KeyFound, Decoded;
    var x, y := TurnedPoint();
    var p := KeyOf(y);
    assert Encodes(p, x, y);
    TurnedKey(p, x, y);
    assert !Stands(Decoded(p).x, -x);
  }

  lemma CurveFraction(x: int, y: int)
    requires OnCurve(x, y)
    ensures var b := Prod(y, y); !Eq(Prod(b, D) + 1, 0) && Eq(b - 1, Prod(Prod(x, x), Prod(b, D) + 1))
  {
    hide Prod;
    FractionOf(Prod(x, x), Prod(y, y));
  }

  lemma TurnedSafe(b: int)
    requires Eq(b, Y_SQUARE)
    ensures Safe(b - 1)
  {
    EqSub(b, Y_SQUARE, 1, 1);
    EqValues(b - 1, Y_SQUARE - 1);
  }
}
