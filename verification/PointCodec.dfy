/** `ge25519_pack` and `ge25519_unpackneg_vartime`: points as 32 bytes, and back negated. */
module PointCodec {
  import opened Words
  import opened Options
  import opened ModArith
  import opened Limbs
  import opened Field
  import opened Powers
  import opened Fe25519
  import opened Fe25519Values
  import opened Fe25519Freeze
  import opened Fe25519Powers
  import opened Edwards
  import opened CurveConstants
  import opened Ge25519
  import opened SquareRoot

  // ------------------------------------------------------------------------
  // Products and freezing

  /** What two reduction passes leave. */
  predicate Tight(a: Fe)
  {
    Loose(a) && 0 <= Val(a) < TOP_BIT + SLACK
  }

  lemma TightProduct(a: Fe, b: Fe)
    requires Loose(a) && Loose(b)
    ensures Tight(FeProduct(a, b))
  {
    hide Val, FeProduct;
    FeProductValue(a, b);
  }

  /** From 2^255 on, a product holds p more than its residue, and the residue is at least 19. */
  lemma BeyondValue(r: Fe, v: int)
    requires Tight(r) && Stands(r, v) && !Below(r)
    ensures Val(r) == v % P + P && 19 <= v % P < 19 + SLACK
  {
    hide Val;
    BelowIffValue(r);
    DivModUnique(Val(r), P, 1, Val(r) - P);
  }

  /** Residues whose products always end below 2^255, the range `fe25519_freeze` assumes. */
  predicate Safe(v: int)
  {
    !(19 <= v % P < 19 + SLACK)
  }

  /** A product standing for a safe residue is below 2^255, so freezing makes it canonical. */
  lemma SafeBelow(r: Fe, v: int)
    requires Tight(r) && Stands(r, v) && Safe(v)
    ensures Below(r)
  {
    hide Val, Below, Tight;
    if !Below(r) {
      BeyondValue(r, v);
      assert false;
    }
  }

  function FeParity(x: Fe): u32
  {
    FrozenLimbs(x)[0] % 2
  }

  /** The parity read is that of the residue exactly below 2^255; beyond, it is the other one. */
  lemma ParityValue(x: Fe, v: int)
    requires Tight(x) && Stands(x, v)
    ensures FeParity(x) == if Below(x) then (v % P) % 2 else 1 - (v % P) % 2
  {
    hide Val, FrozenLimbs, Below;
    FrozenLimbsValue(x);
    LowDigit(FrozenLimbs(x));
    if !Below(x) {
      BeyondValue(x, v);
    }
  }

  lemma LowDigit(s: seq<int>)
    requires |s| > 0
    ensures Val(s) % 2 == s[0] % 2
  {
    var v := Val(s[1..]);
    assert Val(s) == s[0] + 256 * v;
    hide Val;
    ModShift(s[0], 128 * v, 2);
  }

  // ------------------------------------------------------------------------
  // Field methods on values

  method Invert(x: Fe) returns (r: Fe)
    ensures r == Inverted(x)
  {
    hide Inverted;
    var a, b := new u32[32](i requires 0 <= i < 32 => x[i]), new u32[32];
    assert a[..] == x;
    FeInvert(b, a);
    r := b[..];
  }

  method Pow2523(x: Fe) returns (r: Fe)
    ensures r == Raised(x)
  {
    hide Raised;
    var a, b := new u32[32](i requires 0 <= i < 32 => x[i]), new u32[32];
    assert a[..] == x;
    FePow2523(b, a);
    r := b[..];
  }

  // ------------------------------------------------------------------------
  // Packing

  /** The 256-bit number a point is encoded as, section 5.1.2 of RFC 8032: y below the parity of x. */
  function Encoding(x: int, y: int): int
  {
    y % P + TOP_BIT * ((x % P) % 2)
  }

  /** The limbs of the affine coordinates as the code divides them out. */
  function AffineX(p: Ge): Fe
  {
    FeProduct(p.x, Inverted(p.z))
  }

  function AffineY(p: Ge): Fe
  {
    FeProduct(p.y, Inverted(p.z))
  }

  /** Both quotients end below 2^255. */
  predicate Packs(p: Ge)
  {
    Below(AffineX(p)) && Below(AffineY(p))
  }

  /** The number written for x and y, given which of their quotients end below 2^255: a y beyond
      loses 19 and turns the top bit, an x beyond turns it too. */
  function Written(x: int, y: int, xBelow: bool, yBelow: bool): int
  {
    var turns := (if xBelow then 0 else 1) + (if yBelow then 0 else 1);
    (if yBelow then y % P else y % P - 19) + TOP_BIT * (((x % P) % 2 + turns) % 2)
  }

  lemma WrittenIffEncoding(x: int, y: int, xBelow: bool, yBelow: bool)
    ensures Written(x, y, xBelow, yBelow) == Encoding(x, y) <==> xBelow && yBelow
  {
  }

  /** The number written tells which quotients ended below 2^255. */
  lemma WrittenInjective(x: int, y: int, s: bool, t: bool, s': bool, t': bool)
    ensures Written(x, y, s, t) == Written(x, y, s', t') <==> s == s' && t == t'
  {
  }

  /** Dividing a coordinate by Z through the inverse power. */
  lemma DividedBy(X: int, x: int, Z: int, i: int)
    requires Scaled(X, x, Z) && Eq(Prod(Z, i), 1)
    ensures Eq(Prod(X, i), x)
  {
    hide Prod;
    EqProd(X, Prod(x, Z), i, i);
    Associate(x, Z, i);
    EqProd(x, x, Prod(Z, i), 1);
    TimesOne(x);
  }

  lemma AffineCoordinate(a: Fe, z: Fe, x: int)
    requires Prime() && Loose(a) && Loose(z) && Unit(Val(z)) && Scaled(Val(a), x, Val(z))
    ensures Stands(FeProduct(a, Inverted(z)), x) && Tight(FeProduct(a, Inverted(z)))
  {
    hide Val, Pow, Prime, FeProduct, Unit, Prod, Inverted;
    InvertedValue(z);
    InverseByPower(Val(z));
    DividedBy(Val(a), x, Val(z), Pow(Val(z), P - 2));
    StandsProduct(a, Inverted(z), Val(a), Pow(Val(z), P - 2));
    TightProduct(a, Inverted(z));
  }

  lemma AffineCoordinates<G(!new)>(c: Curve<G>, p: Ge, g: G)
    requires Prime() && Represents(c, p, g)
    ensures Stands(AffineX(p), c.x(g)) && Tight(AffineX(p)) && Stands(AffineY(p), c.y(g)) && Tight(AffineY(p))
  {
    hide Val, Prime, FeProduct, Unit, Scaled, Inverted, Tight, Stands;
    AffineCoordinate(p.x, p.z, c.x(g));
    AffineCoordinate(p.y, p.z, c.y(g));
  }

  /** Points whose coordinates are safe residues pack, whatever their limbs. */
  lemma SafePacks<G(!new)>(c: Curve<G>, p: Ge, g: G)
    requires Prime() && Represents(c, p, g) && Safe(c.x(g)) && Safe(c.y(g))
    ensures Packs(p)
  {
    hide Prime, Represents, Safe, Stands, Tight, Below, AffineX, AffineY;
    AffineCoordinates(c, p, g);
    SafeBelow(AffineX(p), c.x(g));
    SafeBelow(AffineY(p), c.y(g));
  }

  /** `b ^ (p << 7)` on a byte below 128. */
  lemma SetTopBit(b: u32, p: u32)
    requires b <= 127 && p <= 1
    ensures Xor(b, 128 * p) == b + 128 * p
  {
    if p == 0 {
      assert Xor(b, 0) == b;
    } else {
      AddHighBit(b, 7);
      assert Pow2(7) == 128;
    }
  }

  lemma {:induction false} AddHighBit(b: nat, n: nat)
    requires b < Pow2(n)
    ensures Xor(b, Pow2(n)) == b + Pow2(n)
    decreases n
  {
    if b > 0 {
      AddHighBit(b / 2, n - 1);
    }
  }

  lemma {:induction false} XorSelf(b: nat)
    ensures Xor(b, b) == 0
  {
    if b > 0 {
      XorSelf(b / 2);
    }
  }

  /** The same on the byte 128, the top limb of a number from 2^255 on. */
  lemma TurnTopBit(p: u32)
    requires p <= 1
    ensures Xor(128, 128 * p) == 128 * (1 - p)
  {
    if p == 0 {
      assert Xor(128, 0) == 128;
    } else {
      XorSelf(128);
    }
  }

  /** `fe25519_pack` on a value. */
  method PackFe(x: Fe) returns (r: array<byte>)
    requires Loose(x)
    ensures fresh(r) && r.Length == 32 && r[..] == FrozenLimbs(x)
  {
    hide FrozenLimbs, Val;
    var a := new u32[32](i requires 0 <= i < 32 => x[i]);
    assert a[..] == x;
    r := new byte[32];
    FePack(r, a);
    FrozenLimbsValue(x);
    assert r[..] == FrozenLimbs(x);
  }

  /** The bytes of the frozen y with the parity bit turned into the top bit. */
  lemma WrittenBytes(ty: Fe, y: seq<byte>, r: seq<byte>, p: u32, v: int)
    requires Tight(ty) && Stands(ty, v) && |r| == 32 && p <= 1
    requires y == FrozenLimbs(ty) && r == y[31 := Xor(y[31], 128 * p) % 256]
    ensures Val(r) == if Below(ty) then v % P + TOP_BIT * p else v % P - 19 + TOP_BIT * (1 - p)
  {
    hide Val, Xor, FrozenLimbs, Below;
    FrozenLimbsValue(ty);
    if Below(ty) {
      hide Tight, Stands;
      CanonicalTop(y, v);
      SetTopBit(y[31], p);
      TopByte(y, r, p);
    } else {
      BeyondValue(ty, v);
      BeyondTop(ty);
      hide Tight, Stands;
      TurnTopBit(p);
      TopByte(y, r, 0 - (p as int));
    }
  }

  /** Changing the top byte by 128 d changes the number by d 2^255. */
  lemma TopByte(y: seq<byte>, r: seq<byte>, d: int)
    requires |y| == 32 && 0 <= y[31] + 128 * d <= 255 && r == y[31 := y[31] + 128 * d]
    ensures Val(r) == Val(y) + TOP_BIT * d
  {
    hide Val;
    ValUpdate(y, 31, r[31]);
    Weights();
    hide Pow256;
    TopBitArith(d, Pow256(31));
  }

  lemma BeyondTop(s: Fe)
    requires Loose(s) && !Below(s)
    ensures s[31] == 128
  {
  }

  lemma CanonicalTop(y: seq<u32>, v: int)
    requires Loose(y) && Val(y) == v % P
    ensures y[31] <= 127
  {
    hide Val;
    BelowIffValue(y);
    ResidueBelow(v);
  }

  lemma TopBitArith(p: int, w: int)
    requires 128 * w == TOP_BIT
    ensures (128 * p) * w == TOP_BIT * p
  {
  }

  /** Packing writes the encoding of the represented point exactly when both quotients end below
      2^255, and otherwise a number that is off by what they exceed. */
  method PackPoint<G(!new)>(p: Ge, ghost c: Curve<G>, ghost g: G) returns (r: array<byte>)
    requires Prime() && Represents(c, p, g)
    ensures fresh(r) && r.Length == 32
    ensures Val(r[..]) == Written(c.x(g), c.y(g), Below(AffineX(p)), Below(AffineY(p)))
    ensures Val(r[..]) == Encoding(c.x(g), c.y(g)) <==> Packs(p)
  {
    hide Val, Prime, Represents, FeProduct, Inverted, FeParity, Xor, FrozenLimbs, Tight, Stands, Below;
    AffineCoordinates(c, p, g);
    var zi := Invert(p.z);
    var tx, ty := FeProduct(p.x, zi), FeProduct(p.y, zi);
    TightIsLoose(ty);
    r := PackFe(ty);
    ghost var s := r[..];
    r[31] := Xor(r[31], 128 * FeParity(tx)) % 256;
    assert r[..] == s[31 := r[31]];
    ParityValue(tx, c.x(g));
    WrittenBytes(ty, s, r[..], FeParity(tx), c.y(g));
    WrittenIffEncoding(c.x(g), c.y(g), Below(tx), Below(ty));
  }

  lemma TightIsLoose(a: Fe)
    requires Tight(a)
    ensures Loose(a)
  {
  }

  // ------------------------------------------------------------------------
  // Unpacking

  /** `fe25519_unpack` */
  function Unpack(p: seq<byte>): Fe
    requires |p| == 32
  {
    p[31 := p[31] % 128]
  }

  lemma UnpackValue(p: seq<byte>)
    requires |p| == 32
    ensures Below(Unpack(p)) && 0 <= Val(Unpack(p)) < TOP_BIT
    ensures Val(p) == Val(Unpack(p)) + TOP_BIT * (p[31] / 128)
  {
    hide Val, Pow256;
    var u := Unpack(p);
    ValUpdate(p, 31, p[31] % 128);
    BelowIffValue(u);
    Weights();
    hide Unpack;
    UnpackArith(p[31], Pow256(31));
  }

  lemma UnpackArith(b: int, w: int)
    requires 128 * w == TOP_BIT
    ensures (b % 128 - b) * w == -(TOP_BIT * (b / 128))
  {
    assert b == 128 * (b / 128) + b % 128;
    assert (128 * (b / 128)) * w == (b / 128) * (128 * w);
  }

  /** An encoding splits into y and the parity of x in one way. */
  lemma EncodingParts(x: int, y: int, low: int, p: int)
    requires 0 <= low < TOP_BIT && 0 <= p <= 1 && Encoding(x, y) == low + TOP_BIT * p
    ensures low == y % P && p == (x % P) % 2
  {
  }

  /** Numerator and denominator of x^2 on the curve. */
  function Numerator(y: Fe): Fe
  {
    FeDifference(FeProduct(y, y), FeOne())
  }

  function Denominator(y: Fe): Fe
  {
    FeSum(FeOne(), FeProduct(FeProduct(y, y), Ecd()))
  }

  lemma FractionStands(y: Fe, v: int)
    requires Stands(y, v)
    ensures Stands(Numerator(y), Prod(v, v) - 1) && Below(Numerator(y))
    ensures Stands(Denominator(y), Prod(Prod(v, v), D) + 1)
  {
    hide Stands, FeProduct, FeDifference, FeSum, FeOne, Ecd, Prod, Below;
    StandsOne();
    StandsD();
    var y2 := FeProduct(y, y);
    StandsProduct(y, y, v, v);
    StandsProduct(y2, Ecd(), Prod(v, v), D);
    StandsDifference(y2, FeOne(), Prod(v, v), 1);
    DifferenceBelow(y2, FeOne(), Prod(v, v), 1);
    StandsSum(FeOne(), FeProduct(y2, Ecd()), 1, Prod(Prod(v, v), D));
  }

  lemma StandsD()
    ensures Stands(Ecd(), D)
  {
    hide Ecd, Val;
    DValue();
  }

  lemma DifferenceBelow(a: Fe, b: Fe, u: int, v: int)
    requires Stands(a, u) && Stands(b, v)
    ensures Below(FeDifference(a, b))
  {
    hide Val, FeDifference;
    FeDifferenceValue(a, b);
  }

  /** The limbs of num den^7. */
  function SeventhLimbs(num: Fe, den: Fe): Fe
  {
    var den2 := FeProduct(den, den);
    var den6 := FeProduct(FeProduct(den2, den2), den2);
    FeProduct(FeProduct(den6, num), den)
  }

  /** The limbs of the candidate root. */
  function CandidateLimbs(num: Fe, den: Fe): Fe
  {
    var s := FeProduct(FeProduct(Raised(SeventhLimbs(num, den)), num), den);
    FeProduct(FeProduct(s, den), den)
  }

  lemma SeventhStands(num: Fe, den: Fe, u: int, v: int)
    requires Stands(num, u) && Stands(den, v)
    ensures Stands(SeventhLimbs(num, den), Seventh(u, v))
  {
    hide Stands, FeProduct, Prod;
    var den2, v2 := FeProduct(den, den), Prod(v, v);
    StandsProduct(den, den, v, v);
    StandsProduct(den2, den2, v2, v2);
    var den4, v4 := FeProduct(den2, den2), Prod(v2, v2);
    StandsProduct(den4, den2, v4, v2);
    var den6, v6 := FeProduct(den4, den2), Prod(v4, v2);
    StandsProduct(den6, num, v6, u);
    StandsProduct(FeProduct(den6, num), den, Prod(v6, u), v);
  }

  lemma CandidateStands(num: Fe, den: Fe, u: int, v: int)
    requires Stands(num, u) && Stands(den, v)
    ensures Stands(CandidateLimbs(num, den), Candidate(u, v)) && Tight(CandidateLimbs(num, den))
  {
    hide Stands, FeProduct, Pow, Tight, Raised, Prod, SeventhLimbs, Seventh;
    var w, t := Seventh(u, v), SeventhLimbs(num, den);
    SeventhStands(num, den, u, v);
    RaisedStands(t, w);
    var q, s := Pow(w, E), Raised(t);
    StandsProduct(s, num, q, u);
    var s1, q1 := FeProduct(s, num), Prod(q, u);
    StandsProduct(s1, den, q1, v);
    var s2, q2 := FeProduct(s1, den), Prod(q1, v);
    StandsProduct(s2, den, q2, v);
    var s3, q3 := FeProduct(s2, den), Prod(q2, v);
    StandsProduct(s3, den, q3, v);
    StandsLoose(s3, q3);
    StandsLoose(den, v);
    TightProduct(s3, den);
  }

  lemma RaisedStands(t: Fe, w: int)
    requires Stands(t, w)
    ensures Stands(Raised(t), Pow(w, E))
  {
    hide Raised, Pow, Val;
    RaisedValue(t);
    PowEq(Val(t), w, E);
  }

  lemma StandsLoose(s: Fe, v: int)
    requires Stands(s, v)
    ensures Loose(s) && Eq(Val(s), v)
  {
  }

  /** `chk`: the square of the root times the denominator. */
  function Check(x: Fe, den: Fe): Fe
  {
    FeProduct(FeProduct(x, x), den)
  }

  /** The limbs square to the fraction. */
  ghost predicate IsRoot(x: Fe, num: Fe, den: Fe)
  {
    Eq(Prod(Prod(Val(x), Val(x)), Val(den)), Val(num))
  }

  lemma CheckStands(x: Fe, den: Fe)
    requires Loose(x) && Loose(den)
    ensures Stands(Check(x, den), Prod(Prod(Val(x), Val(x)), Val(den))) && Tight(Check(x, den))
  {
    hide Val, FeProduct, Prod;
    StandsProduct(x, x, Val(x), Val(x));
    StandsProduct(FeProduct(x, x), den, Prod(Val(x), Val(x)), Val(den));
    TightProduct(FeProduct(x, x), den);
  }

  /** The comparison finds a root exactly when the product compared ends below 2^255. */
  lemma CheckDecides(x: Fe, num: Fe, den: Fe)
    requires Loose(x) && Loose(den) && Below(num)
    ensures FrozenLimbs(Check(x, den)) == FrozenLimbs(num) <==> IsRoot(x, num, den) && Below(Check(x, den))
  {
    hide Val, FrozenLimbs, Prod, Check;
    CheckStands(x, den);
    FrozenDecides(Check(x, den), num);
  }

  /** The other candidate, multiplied by the square root of -1. */
  function Turned(x: Fe): Fe
  {
    FeProduct(x, SqrtM1())
  }

  /** Whichever of the two candidates squares to the fraction, if one does. */
  ghost function TrueRoot(num: Fe, den: Fe): Fe
  {
    var r := CandidateLimbs(num, den);
    if IsRoot(r, num, den) then r else Turned(r)
  }

  /** Both candidates are roots only of zero, whose check ends below 2^255. */
  lemma BothRoots(r: Fe, num: Fe, den: Fe)
    requires Loose(r) && Loose(num) && Loose(den) && IsRoot(r, num, den) && IsRoot(Turned(r), num, den)
    ensures Below(Check(r, den))
  {
    hide Val, Prod, Below, Tight, Check, Safe, Turned, Stands;
    var t, s, v := Val(r), Val(Turned(r)), Val(den);
    TurnedSquare(r, v);
    ZeroSafe(Prod(Prod(t, t), v), Prod(Prod(s, s), v), Val(num));
    CheckStands(r, den);
    SafeBelow(Check(r, den), Prod(Prod(t, t), v));
  }

  lemma ZeroSafe(a: int, b: int, u: int)
    requires Eq(a, u) && Eq(b, u) && Eq(b, -a)
    ensures Safe(a)
  {
    OnlyZero(a);
  }

  lemma OnlyZero(u: int)
    requires Eq(u, -u)
    ensures u % P == 0
  {
    var k := CongMultiple(u, -u, P);
    assert 2 * u == k * P;
    assert u == (k / 2) * P by {
      assert k == 2 * (k / 2) + k % 2;
    }
    DivModUnique(u, P, k / 2, 0);
  }

  /** The square of the turned candidate is the negated square. */
  lemma TurnedSquare(r: Fe, v: int)
    requires Loose(r)
    ensures var s, t := Val(Turned(r)), Val(r);
            Loose(Turned(r)) && Eq(Prod(Prod(s, s), v), -Prod(Prod(t, t), v))
  {
    hide Val, FeProduct, Prod, SqrtM1;
    var s, t, i := Val(Turned(r)), Val(r), SQRT_M1;
    StandsSqrtM1();
    StandsProduct(r, SqrtM1(), t, i);
    EqProd(s, Prod(t, i), s, Prod(t, i));
    Regroup(t, i, t, i);
    SqrtM1Squares();
    ProdIs(i, i);
    EqProd(Prod(s, s), Prod(Prod(t, t), Prod(i, i)), v, v);
    SignOfSquare(Prod(t, t), Prod(i, i), v);
  }

  lemma SignOfSquare(a: int, j: int, v: int)
    requires Eq(j, -1)
    ensures Eq(Prod(Prod(a, j), v), -Prod(a, v))
  {
    hide Prod;
    EqProd(j, -1, Prod(a, v), Prod(a, v));
    ProdIs(-1, Prod(a, v));
    Associate(j, a, v);
    Commute(j, a);
  }

  /** A square root of num / den: the true one, found exactly when its check ends below 2^255. */
  method Root(num: Fe, den: Fe) returns (x: Option<Fe>)
    requires Below(num) && Loose(den)
    ensures var r := TrueRoot(num, den);
            x == if IsRoot(r, num, den) && Below(Check(r, den)) then Some(r) else None
  {
    hide FrozenLimbs, FeProduct, Val, Pow, Loose, SqrtM1, Below, Check, Prod, IsRoot, Raised;
    NumeratorLoose(num);
    CandidateLoose(num, den);
    var r := CandidateRoot(num, den);
    CheckDecides(r, num, den);
    if FrozenLimbs(Check(r, den)) != FrozenLimbs(num) {
      TurnedSquare(r, 0);
      CheckDecides(Turned(r), num, den);
      if IsRoot(r, num, den) && IsRoot(Turned(r), num, den) {
        BothRoots(r, num, den);
      }
      r := Turned(r);
    }
    if FrozenLimbs(Check(r, den)) != FrozenLimbs(num) {
      return None;
    }
    return Some(r);
  }

  lemma NumeratorLoose(num: Fe)
    requires Below(num)
    ensures Loose(num)
  {
  }

  lemma CandidateLoose(num: Fe, den: Fe)
    requires Loose(num) && Loose(den)
    ensures Loose(CandidateLimbs(num, den)) && Tight(CandidateLimbs(num, den))
            && Tight(Turned(CandidateLimbs(num, den)))
  {
    hide CandidateLimbs, Candidate, Val, FeProduct, SqrtM1;
    StandsSelf(num);
    StandsSelf(den);
    CandidateStands(num, den, Val(num), Val(den));
    StandsSqrtM1();
    TightProduct(CandidateLimbs(num, den), SqrtM1());
  }

  method CandidateRoot(num: Fe, den: Fe) returns (x: Fe)
    ensures x == CandidateLimbs(num, den)
  {
    hide FeProduct, Raised;
    var den2 := FeProduct(den, den);
    var den4 := FeProduct(den2, den2);
    var den6 := FeProduct(den4, den2);
    x := FeProduct(den6, num);
    x := FeProduct(x, den);
    x := Pow2523(x);
    x := FeProduct(x, num);
    x := FeProduct(x, den);
    x := FeProduct(x, den);
    x := FeProduct(x, den);
  }

  /** The true root is a root whenever there is one. */
  lemma RootExists(num: Fe, den: Fe, u: int, v: int, x0: int)
    requires Prime() && Stands(num, u) && Stands(den, v) && !Eq(v, 0) && Eq(u, Prod(Prod(x0, x0), v))
    ensures IsRoot(TrueRoot(num, den), num, den)
  {
    hide FeProduct, Val, Prime, SqrtM1, Prod, CandidateLimbs, Candidate;
    var r := CandidateLimbs(num, den);
    CandidateStands(num, den, u, v);
    CandidateSquare(u, v, x0);
    SquareOver(r, Candidate(u, v), den, v);
    TurnedSquare(r, Val(den));
    if !IsRoot(r, num, den) {
      EqSub(0, 0, Prod(Prod(Val(r), Val(r)), Val(den)), -u);
    }
  }

  lemma SquareOver(r: Fe, t: int, den: Fe, v: int)
    requires Stands(r, t) && Stands(den, v)
    ensures Eq(Prod(Prod(Val(r), Val(r)), Val(den)), Prod(Prod(t, t), v))
  {
    hide Val, Prod;
    EqProd(Val(r), t, Val(r), t);
    EqProd(Prod(Val(r), Val(r)), Prod(t, t), Val(den), v);
  }

  lemma StandsSqrtM1()
    ensures Stands(SqrtM1(), SQRT_M1)
  {
    hide SqrtM1, Val;
    SqrtM1Value();
  }

  /** The sign choice turns either root of x^2 into -x, unless the parity read is the wrong one. */
  lemma ChosenRoot(r: Fe, x: int, par: int)
    requires Tight(r) && (Eq(Val(r), x) || Eq(Val(r), -x)) && par == (x % P) % 2
    ensures Stands(Chosen(r, par), if Below(r) then -x else x)
  {
    hide Val, FeParity, FeNegated, Below;
    var v := if Eq(Val(r), x) then x else -x;
    ParityValue(r, v);
    StandsNegated(r, v);
    OppositeParity(x);
    if !Below(r) {
      BeyondValue(r, v);
    }
  }

  function Chosen(r: Fe, par: int): Fe
  {
    if FeParity(r) != 1 - par then FeNegated(r) else r
  }

  lemma OppositeParity(x: int)
    ensures x % P == 0 || ((-x) % P) % 2 == 1 - (x % P) % 2
    ensures x % P == 0 ==> (-x) % P == 0
  {
    var m := x % P;
    var q := x / P;
    assert -x == -q * P - m;
    if m == 0 {
      DivModUnique(-x, P, -q, 0);
    } else {
      DivModUnique(-x, P, -q - 1, P - m);
    }
  }

  // ------------------------------------------------------------------------
  // Decoding

  /** The root behind 32 bytes. */
  ghost function KeyRoot(p: seq<byte>): Fe
    requires |p| == 32
  {
    TrueRoot(Numerator(Unpack(p)), Denominator(Unpack(p)))
  }

  /** There is a root, and its check ends below 2^255. */
  ghost predicate KeyFound(p: seq<byte>)
    requires |p| == 32
  {
    var num, den := Numerator(Unpack(p)), Denominator(Unpack(p));
    IsRoot(KeyRoot(p), num, den) && Below(Check(KeyRoot(p), den))
  }

  /** The limbs decoding yields. */
  ghost function Decoded(p: seq<byte>): Ge
    requires |p| == 32
  {
    var x := Chosen(KeyRoot(p), p[31] / 128);
    Ge(x, Unpack(p), FeOne(), FeProduct(x, Unpack(p)))
  }

  /** What makes every comparison and parity test come out right, whatever the limbs: x, -x and
      y^2 - 1 are safe residues. */
  predicate SafePoint(x: int, y: int)
  {
    Safe(x) && Safe(-x) && Safe(Prod(y, y) - 1)
  }

  /** Decoding succeeds exactly when the root is found, and yields a point of the curve with the
      encoded y. */
  method UnpackNeg(p: seq<byte>) returns (r: Option<Ge>)
    requires |p| == 32
    ensures r == if KeyFound(p) then Some(Decoded(p)) else None
    ensures KeyFound(p) ==> Loose(Decoded(p).x) && OnCurve(Val(Decoded(p).x), Val(Unpack(p)))
  {
    hide Val, FeProduct, FeDifference, FeSum, OnSquares, Unpack, FeOne, Ecd, Below, FeParity, FeNegated, Tight,
         TrueRoot, IsRoot, Check, Prod, Loose, Stands;
    var par := p[31] / 128;
    var y := Unpack(p);
    UnpackValue(p);
    BelowStands(y);
    FractionStands(y, Val(y));
    StandsLoose(Denominator(y), Prod(Prod(Val(y), Val(y)), D) + 1);
    var num := FeProduct(y, y);
    var den := FeProduct(num, Ecd());
    num := FeDifference(num, FeOne());
    den := FeSum(FeOne(), den);
    var root := Root(num, den);
    if root == None {
      return None;
    }
    var x := root.value;
    RootTight(num, den);
    RootOnCurve(x, y, num, den);
    ChosenOnCurve(x, par, Val(y));
    if FeParity(x) != 1 - par {
      x := FeNegated(x);
    }
    return Some(Ge(x, y, FeOne(), FeProduct(x, y)));
  }

  lemma RootTight(num: Fe, den: Fe)
    requires Below(num) && Loose(den)
    ensures Tight(TrueRoot(num, den))
  {
    hide IsRoot, CandidateLimbs, Turned, Tight, Loose;
    NumeratorLoose(num);
    CandidateLoose(num, den);
  }

  lemma BelowStands(y: Fe)
    requires Below(y)
    ensures Stands(y, Val(y))
  {
  }

  /** A root of the fraction is a point of the curve. */
  lemma RootOnCurve(x: Fe, y: Fe, num: Fe, den: Fe)
    requires IsRoot(x, num, den)
    requires Stands(num, Prod(Val(y), Val(y)) - 1) && Stands(den, Prod(Prod(Val(y), Val(y)), D) + 1)
    ensures OnCurve(Val(x), Val(y))
  {
    hide Val, Prod;
    var a, b := Prod(Val(x), Val(x)), Prod(Val(y), Val(y));
    EqProd(a, a, Val(den), Prod(b, D) + 1);
    CrossTerm(D, a, b);
    SolveForSquare(a, b, Prod(D, Prod(a, b)));
  }

  /** From the encoding of a curve point decoding yields the negated point, and the point itself
      when the root ends from 2^255 on; it fails exactly when the check of the root does. */
  lemma EncodingDecodes(p: seq<byte>, x0: int, y0: int)
    requires |p| == 32 && Prime() && OnCurve(x0, y0) && Val(p) == Encoding(x0, y0)
    ensures KeyFound(p) <==> Below(Check(KeyRoot(p), Denominator(Unpack(p))))
    ensures Stands(Unpack(p), y0)
    ensures Tight(KeyRoot(p)) && (Eq(Val(KeyRoot(p)), x0) || Eq(Val(KeyRoot(p)), -x0))
    ensures Stands(Decoded(p).x, if Below(KeyRoot(p)) then -x0 else x0)
    ensures SafePoint(x0, y0) ==> KeyFound(p) && Below(KeyRoot(p))
  {
    hide Val, Prime, OnSquares, Unpack, Below, Encoding, FeParity, FeNegated, Tight, TrueRoot, Prod, Numerator,
         Denominator, Check, Chosen, Safe, Loose, Stands;
    var y, par := Unpack(p), p[31] / 128;
    var num, den := Numerator(y), Denominator(y);
    UnpackValue(p);
    EncodingParts(x0, y0, Val(y), par);
    EqMod(y0);
    BelowStands(y);
    StandsEq(y, Val(y), y0);
    FractionStands(y, y0);
    var b := Prod(y0, y0);
    FractionOf(Prod(x0, x0), b);
    RootExists(num, den, b - 1, Prod(b, D) + 1, x0);
    StandsLoose(den, Prod(b, D) + 1);
    RootTight(num, den);
    var r := TrueRoot(num, den);
    StandsLoose(num, b - 1);
    RootIsEither(r, num, den, b - 1, Prod(b, D) + 1, x0);
    ChosenRoot(r, x0, par);
    if SafePoint(x0, y0) {
      CheckSafe(r, num, den, b - 1);
      EitherSafe(r, x0);
    }
  }

  lemma RootIsEither(r: Fe, num: Fe, den: Fe, u: int, v: int, x0: int)
    requires Prime() && !Eq(v, 0) && Eq(u, Prod(Prod(x0, x0), v))
    requires IsRoot(r, num, den) && Eq(Val(num), u) && Eq(Val(den), v)
    ensures Eq(Val(r), x0) || Eq(Val(r), -x0)
  {
    hide Val, Prime, Prod;
    var s := Prod(Val(r), Val(r));
    EqProd(s, s, Val(den), v);
    RootIsX(Val(r), u, v, x0);
  }

  lemma CheckSafe(r: Fe, num: Fe, den: Fe, u: int)
    requires Tight(r) && Loose(den) && IsRoot(r, num, den) && Eq(Val(num), u) && Safe(u)
    ensures Below(Check(r, den))
  {
    hide Val, Prod, Below, Check;
    CheckStands(r, den);
    SafeBelow(Check(r, den), u);
  }

  lemma EitherSafe(r: Fe, x0: int)
    requires Tight(r) && Safe(x0) && Safe(-x0) && (Eq(Val(r), x0) || Eq(Val(r), -x0))
    ensures Below(r)
  {
    hide Val, Below;
    SafeBelow(r, if Eq(Val(r), x0) then x0 else -x0);
  }

  /** The fraction of a curve point. */
  lemma FractionOf(a: int, b: int)
    requires OnSquares(D, a, b)
    ensures !Eq(Prod(b, D) + 1, 0) && Eq(b - 1, Prod(a, Prod(b, D) + 1))
  {
    hide Prod;
    SolveForSquare(a, b, Prod(D, Prod(a, b)));
    CrossTerm(D, a, b);
    DenominatorNonZero(a, b);
  }

  /** Changing the sign of x stays on the curve. */
  lemma ChosenOnCurve(x: Fe, par: int, v: int)
    requires Tight(x) && OnCurve(Val(x), v)
    ensures Loose(Chosen(x, par)) && OnCurve(Val(Chosen(x, par)), v)
  {
    hide Val, FeParity, FeNegated, OnSquares, Prod;
    StandsNegated(x, Val(x));
    var m := Val(FeNegated(x));
    EqProd(m, -Val(x), m, -Val(x));
    NegatedSquare(Val(x));
    SquareOnCurve(D, Prod(Val(x), Val(x)), Prod(m, m), Prod(v, v));
  }

  lemma NegatedSquare(x: int)
    ensures Prod(-x, -x) == Prod(x, x)
  {
    hide Prod;
    Products();
    assert -x * -x == x * x;
  }

  lemma SquareOnCurve(d: int, a: int, a': int, b: int)
    requires OnSquares(d, a, b) && Eq(a', a)
    ensures OnSquares(d, a', b)
  {
    hide Prod;
    EqSub(b, b, a', a);
    EqProd(a', a, b, b);
    EqProd(d, d, Prod(a', b), Prod(a, b));
    EqAdd(1, 1, Prod(d, Prod(a', b)), Prod(d, Prod(a, b)));
  }
}
