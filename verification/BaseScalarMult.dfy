/** `choose_t` and `ge25519_scalarmult_base`: [s]B from a table of affine multiples. */
module BaseScalarMult {
  import opened Words
  import opened ModArith
  import opened Limbs
  import opened Field
  import opened Powers
  import opened Fe25519
  import opened Group
  import opened Edwards
  import opened Ge25519
  import opened Digits
  import opened ScalarOps
  import DoubleScalarMult

  /** A signed char read as unsigned. */
  function Unsigned(b: int8): (u: byte)
  {
    if b < 0 then b + 256 else b
  }

  /** `equal` on signed chars. */
  function Equal8(b: int8, c: int8): u32
  {
    WSub(Xor(Unsigned(b), Unsigned(c)), 1) / 0x8000_0000
  }

  /** `negative`: the sign bit of the value extended to 64 bits. */
  function Negative(b: int8): u32
  {
    (if b < 0 then 0x1_0000_0000_0000_0000 + b else b) / 0x8000_0000_0000_0000
  }

  lemma Equal8Decides(b: int8, c: int8)
    ensures Equal8(b, c) == if b == c then 1 else 0
  {
    Pow2Word();
    XorZeroIff(Unsigned(b), Unsigned(c));
    XorBound(Unsigned(b), Unsigned(c), 8);
  }

  /** One limb of `fe25519_cmov`, with its all-zero or all-one mask. */
  function CmovLimb(r: u32, x: u32, b: u32): u32
  {
    W32(Xor(r, And(WSub(0, b), Xor(x, r))))
  }

  lemma CmovLimbSelects(r: u32, x: u32, b: u32)
    requires b <= 1
    ensures CmovLimb(r, x, b) == if b == 1 then x else r
  {
    hide And, Xor;
    MaskedSelect(WSub(0, b), r, x);
  }

  function FeCmov(r: Fe, x: Fe, b: u32): Fe
  {
    seq(32, i requires 0 <= i < 32 => CmovLimb(r[i], x[i], b))
  }

  lemma FeCmovSelects(r: Fe, x: Fe, b: u32)
    requires b <= 1
    ensures FeCmov(r, x, b) == if b == 1 then x else r
  {
    hide CmovLimb;
    forall i | 0 <= i < 32
      ensures CmovLimb(r[i], x[i], b) == if b == 1 then x[i] else r[i]
    {
      CmovLimbSelects(r[i], x[i], b);
    }
  }

  function AffCmov(r: Aff, p: Aff, b: u32): Aff
  {
    Aff(FeCmov(r.x, p.x, b), FeCmov(r.y, p.y, b))
  }

  /** Or of two disjoint one-bit answers. */
  function EitherSign(b: int8, k: int8): u32
    requires k == 1 || k == 2 || k == 3
  {
    if Equal8(b, k) == 1 then 1 else Equal8(b, -k)
  }

  function ChooseT(table: seq<Aff>, pos: nat, b: int8): Aff
    requires 5 * pos + 5 <= |table|
  {
    var t0 := table[5 * pos];
    var t1 := AffCmov(t0, table[5 * pos + 1], EitherSign(b, 1));
    var t2 := AffCmov(t1, table[5 * pos + 2], EitherSign(b, 2));
    var t3 := AffCmov(t2, table[5 * pos + 3], EitherSign(b, 3));
    var t := AffCmov(t3, table[5 * pos + 4], Equal8(b, -4));
    Aff(FeCmov(t.x, FeNegated(t.x), Negative(b)), t.y)
  }

  /** The table column used for a digit: its magnitude, and column 0 for a digit out of range. */
  function Column(b: int8): (k: nat)
    ensures k <= 4
  {
    if -4 <= b < 0 then -b else if 0 <= b <= 3 then b else 0
  }

  /** `choose_t` picks the column of the digit's magnitude and flips x for a negative digit;
      it answers every digit correctly exactly on -4..3. */
  lemma ChooseTSelects(table: seq<Aff>, pos: nat, b: int8)
    requires 5 * pos + 5 <= |table|
    ensures var e := table[5 * pos + Column(b)];
            ChooseT(table, pos, b) == if b < 0 then Aff(FeNegated(e.x), e.y) else e
  {
    hide FeCmov, Equal8, FeNegated;
    var t0 := table[5 * pos];
    Signs(b);
    var t1 := AffCmov(t0, table[5 * pos + 1], EitherSign(b, 1));
    AffCmovSelects(t0, table[5 * pos + 1], EitherSign(b, 1));
    var t2 := AffCmov(t1, table[5 * pos + 2], EitherSign(b, 2));
    AffCmovSelects(t1, table[5 * pos + 2], EitherSign(b, 2));
    var t3 := AffCmov(t2, table[5 * pos + 3], EitherSign(b, 3));
    AffCmovSelects(t2, table[5 * pos + 3], EitherSign(b, 3));
    var t := AffCmov(t3, table[5 * pos + 4], Equal8(b, -4));
    AffCmovSelects(t3, table[5 * pos + 4], Equal8(b, -4));
    assert t == table[5 * pos + Column(b)];
    FeCmovSelects(t.x, FeNegated(t.x), Negative(b));
  }

  lemma Signs(b: int8)
    ensures EitherSign(b, 1) == if b == 1 || b == -1 then 1 else 0
    ensures EitherSign(b, 2) == if b == 2 || b == -2 then 1 else 0
    ensures EitherSign(b, 3) == if b == 3 || b == -3 then 1 else 0
    ensures Equal8(b, -4) == if b == -4 then 1 else 0
    ensures Negative(b) == if b < 0 then 1 else 0
  {
    hide Equal8;
    Equal8Decides(b, 1);
    Equal8Decides(b, -1);
    Equal8Decides(b, 2);
    Equal8Decides(b, -2);
    Equal8Decides(b, 3);
    Equal8Decides(b, -3);
    Equal8Decides(b, -4);
  }

  lemma AffCmovSelects(r: Aff, p: Aff, b: u32)
    requires b <= 1
    ensures AffCmov(r, p, b) == if b == 1 then p else r
  {
    hide FeCmov;
    FeCmovSelects(r.x, p.x, b);
    FeCmovSelects(r.y, p.y, b);
  }

  // ------------------------------------------------------------------------
  // The table and the scalar multiplication

  /** Entry 5 i + k of the table is [k 8^i]B. */
  ghost predicate BaseTable<G(!new)>(c: Curve<G>, table: seq<Aff>, base: G)
  {
    |table| == 425 && forall i, k | 0 <= i < 85 && 0 <= k < 5 :: BaseEntry(c, table, i, k, base)
  }

  ghost predicate BaseEntry<G(!new)>(c: Curve<G>, table: seq<Aff>, i: nat, k: nat, base: G)
    requires 5 * i + k < |table|
  {
    RepresentsAff(c, table[5 * i + k], c.group.Mul(k * Pow(8, i), base))
  }

  lemma NegatedAff<G(!new)>(c: Curve<G>, e: Aff, g: G)
    requires c.Law() && RepresentsAff(c, e, g)
    ensures RepresentsAff(c, Aff(FeNegated(e.x), e.y), c.group.neg(g))
  {
    StandsNegated(e.x, c.x(g));
    assert Eq(c.x(c.group.neg(g)), -c.x(g)) && Eq(c.y(c.group.neg(g)), c.y(g));
    hide Stands, FeNegated;
    StandsEq(FeNegated(e.x), -c.x(g), c.x(c.group.neg(g)));
    StandsEq(e.y, c.y(g), c.y(c.group.neg(g)));
  }

  /** A digit in range looks up its own multiple. */
  lemma ChooseTRepresents<G(!new)>(c: Curve<G>, table: seq<Aff>, i: nat, b: int8, base: G)
    requires c.Law() && BaseTable(c, table, base) && i < 85 && -4 <= b <= 3
    ensures RepresentsAff(c, ChooseT(table, i, b), c.group.Mul(b * Pow(8, i), base))
  {
    hide c.Law, RepresentsAff, ChooseT, Pow, c.group.Mul, FeNegated;
    ChooseTSelects(table, i, b);
    var k := Column(b);
    assert BaseEntry(c, table, i, k, base);
    if b < 0 {
      NegatedAff(c, table[5 * i + k], c.group.Mul(k * Pow(8, i), base));
      DoubleScalarMult.LawAbelian(c);
      MulNeg(c.group, k * Pow(8, i), base);
      assert b * Pow(8, i) == -(k * Pow(8, i));
    }
  }

  /** The first table entry, completed with Z = 1 and its product. */
  lemma StartRepresents<G(!new)>(c: Curve<G>, e: Aff, g: G)
    requires RepresentsAff(c, e, g)
    ensures Represents(c, Ge(e.x, e.y, FeOne(), FeProduct(e.x, e.y)), g)
  {
    hide Stands, FeOne, FeProduct, Extended, Prod;
    StandsOne();
    StandsProduct(e.x, e.y, c.x(g), c.y(g));
    AffExtended(c.x(g), c.y(g));
    FinishPoint(c, Ge(e.x, e.y, FeOne(), FeProduct(e.x, e.y)), c.x(g), c.y(g), 1, Prod(c.x(g), c.y(g)), g);
  }

  lemma NextMultiple<G(!new)>(c: Curve<G>, r: Ge, t: Aff, d: seq<int>, i: nat, base: G)
    requires c.Law() && i < |d| && Represents(c, r, c.group.Mul(Radix(8, d[..i]), base))
    requires RepresentsAff(c, t, c.group.Mul(d[i] * Pow(8, i), base))
    ensures Represents(c, MixAdd2(r, t), c.group.Mul(Radix(8, d[..i + 1]), base))
  {
    hide c.Law, Represents, RepresentsAff, Radix, Pow, c.group.Mul, MixAdd2, c.group.Abelian;
    DoubleScalarMult.LawAbelian(c);
    RadixAppend(8, d[..i], [d[i]]);
    RadixDigit(d[i]);
    assert d[..i + 1] == d[..i] + [d[i]];
    MulAdd(c.group, Radix(8, d[..i]), d[i] * Pow(8, i), base);
    MixAddRepresents(c, r, t, c.group.Mul(Radix(8, d[..i]), base), c.group.Mul(d[i] * Pow(8, i), base));
    assert Pow(8, i) * d[i] == d[i] * Pow(8, i);
  }

  lemma FirstMultiple(d: seq<int>)
    requires |d| > 0
    ensures Radix(8, d[..1]) == d[0] * Pow(8, 0)
  {
    RadixDigit(d[0]);
    assert d[..1] == [d[0]];
  }

  /** The limbs after the first `i` digits. */
  function BaseSum(table: seq<Aff>, d: seq<int8>, i: nat): Ge
    requires 0 < i <= |d| && 5 * |d| <= |table|
    decreases i, d
  {
    var t := ChooseT(table, i - 1, d[i - 1]);
    if i == 1 then Ge(t.x, t.y, FeOne(), FeProduct(t.x, t.y)) else MixAdd2(BaseSum(table, d, i - 1), t)
  }

  /** The limbs of [v]B as the code computes them. */
  function BaseLimbs(table: seq<Aff>, v: int): Ge
    requires |table| == 425
  {
    BaseSum(table, Signed8(v, 85), 85)
  }

  lemma BaseSumNext(table: seq<Aff>, d: seq<int8>, i: nat)
    requires i < |d| && 5 * |d| <= |table|
    ensures var t := ChooseT(table, i, d[i]);
            BaseSum(table, d, i + 1)
            == if i == 0 then Ge(t.x, t.y, FeOne(), FeProduct(t.x, t.y)) else MixAdd2(BaseSum(table, d, i), t)
  {
    hide ChooseT, MixAdd2, FeOne, FeProduct;
  }

  /** [s]B for every scalar below the group order. */
  method ScalarmultBase<G(!new)>(s: array<u32>, table: seq<Aff>, ghost c: Curve<G>, ghost base: G) returns (r: Ge)
    requires s.Length == 32 && Scalar(s[..])
    requires c.Law() && BaseTable(c, table, base)
    ensures |table| == 425 && r == BaseLimbs(table, Val(s[..]))
    ensures Represents(c, r, c.group.Mul(Val(s[..]), base))
  {
    hide c.Law, Represents, RepresentsAff, Radix, ChooseT, MixAdd2, BaseTable, Val, Pow, c.group.Mul, FeOne, FeProduct,
         BaseSum, Signed8;
    TableLength(c, table, base);
    var b := new int8[85];
    ScalarTop(s[..]);
    Window3(b, s);
    ghost var d: seq<int> := b[..];
    InWindow(d);
    ChooseTRepresents(c, table, 0, b[0], base);
    var t := ChooseT(table, 0, b[0]);
    FirstMultiple(d);
    Signed8Unique(b[..], d);
    BaseSumNext(table, b[..], 0);
    r := Ge(t.x, t.y, FeOne(), FeProduct(t.x, t.y));
    StartRepresents(c, t, c.group.Mul(Radix(8, d[..1]), base));
    var i := 1;
    while i < 85
      invariant 1 <= i <= 85 && b[..] == d && r == BaseSum(table, b[..], i)
      invariant Represents(c, r, c.group.Mul(Radix(8, d[..i]), base))
    {
      ChooseTRepresents(c, table, i, b[i], base);
      t := ChooseT(table, i, b[i]);
      NextMultiple(c, r, t, d, i, base);
      BaseSumNext(table, b[..], i);
      r := MixAdd2(r, t);
      i := i + 1;
    }
    assert d[..85] == d;
  }

  lemma TableLength<G(!new)>(c: Curve<G>, table: seq<Aff>, base: G)
    requires BaseTable(c, table, base)
    ensures |table| == 425
  {
  }

  /** Below the order the top limb is at most 16, so the last digit stays in range. */
  lemma ScalarTop(s: seq<int>)
    requires Scalar(s)
    ensures s[31] <= 16
  {
    Weights();
    ValTop(s);
    ValDigits(s[..31]);
    hide Val, Pow256;
    assert |s| - 1 == 31;
    if s[31] >= 17 {
      MulMonotone(17, s[31], Pow256(31));
      assert false;
    }
  }

  lemma InWindow(d: seq<int>)
    requires |d| == 85 && Window(d) && 0 <= d[84] <= 2
    ensures forall k | 0 <= k < 85 :: -4 <= d[k] <= 3
  {
  }
}
