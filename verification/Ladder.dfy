/** The Montgomery ladder of section 5 of RFC 7748 over integers modulo p, and the limb-level
    loop that simulates it. */
module Ladder {
  import opened Words
  import opened ModArith
  import opened Limbs
  import opened Field
  import opened X25519
  import opened X25519Values
  import opened Powers

  // ------------------------------------------------------------------------
  // The reference ladder

  datatype Rung = Rung(x2: int, z2: int, x3: int, z3: int)

  function Swapped(b: int, r: Rung): Rung
  {
    if b == 0 then r else Rung(r.x3, r.z3, r.x2, r.z2)
  }

  /** The polynomials of one step, before reduction. */
  function Polynomials(x1: int, r: Rung): Rung
  {
    var a, b := r.x2 + r.z2, r.x2 - r.z2;
    var aa, bb := a * a, b * b;
    var e := aa - bb;
    var c, d := r.x3 + r.z3, r.x3 - r.z3;
    var da, cb := d * a, c * b;
    Rung(aa * bb, e * (aa + 121665 * e), (da + cb) * (da + cb), x1 * ((da - cb) * (da - cb)))
  }

  /** One differential addition and doubling. */
  function Step(x1: int, r: Rung): Rung
  {
    var s := Polynomials(x1, r);
    Rung(s.x2 % P, s.z2 % P, s.x3 % P, s.z3 % P)
  }

  function ScalarBit(k: nat, t: nat): int
  {
    (k / Pow2(t)) % 2
  }

  lemma ScalarBitRange(k: nat, t: nat)
    ensures 0 <= ScalarBit(k, t) <= 1
  {
  }

  /** The RFC's loop over bits t-1 .. 0 of the scalar, swaps delayed to the next round. */
  function RfcLadder(x1: int, k: nat, t: nat, r: Rung, swap: int): Rung
    decreases t
  {
    if t == 0 then Swapped(swap, r)
    else
      var bit := ScalarBit(k, t - 1);
      RfcLadder(x1, k, t - 1, Step(x1, Swapped((swap + bit) % 2, r)), bit)
  }

  /** A pending swap may be carried out at once. */
  lemma SettleSwap(x1: int, k: nat, t: nat, r: Rung, swap: int)
    requires swap == 0 || swap == 1
    ensures RfcLadder(x1, k, t, r, swap) == RfcLadder(x1, k, t, Swapped(swap, r), 0)
  {
    hide Step, ScalarBit;
    if t > 0 {
      var bit := ScalarBit(k, t - 1);
      ScalarBitRange(k, t - 1);
      assert Swapped((swap + bit) % 2, r) == Swapped(bit, Swapped(swap, r));
    }
  }

  /** One round with the swap undone straight away, as `mainloop` does it. */
  lemma RfcRound(x1: int, k: nat, t: nat, r: Rung)
    requires t > 0
    ensures var bit := ScalarBit(k, t - 1);
            RfcLadder(x1, k, t, r, 0) == RfcLadder(x1, k, t - 1, Swapped(bit, Step(x1, Swapped(bit, r))), 0)
  {
    hide Step, ScalarBit;
    var bit := ScalarBit(k, t - 1);
    ScalarBitRange(k, t - 1);
    SettleSwap(x1, k, t - 1, Step(x1, Swapped(bit, r)), bit);
  }

  // ------------------------------------------------------------------------
  // One step on limbs

  datatype LimbRung = LimbRung(x2: seq<u32>, z2: seq<u32>, x3: seq<u32>, z3: seq<u32>)
  {
    ghost predicate Valid()
    {
      Bytes(x2) && Reduced(z2) && Bytes(x3) && Reduced(z3)
    }

    ghost function Values(): Rung
    {
      Rung(Val(x2) % P, Val(z2) % P, Val(x3) % P, Val(z3) % P)
    }

    function Swap(b: int): LimbRung
    {
      if b == 0 then this else LimbRung(x3, z3, x2, z2)
    }
  }

  function LimbStep(x1: seq<u32>, r: LimbRung): (n: LimbRung)
    requires |x1| == 32 && |r.x2| == |r.z2| == |r.x3| == |r.z3| == 32
    ensures |n.x2| == |n.z2| == |n.x3| == |n.z3| == 32
  {
    var a, b := Sum(r.x2, r.z2), Difference(r.x2, r.z2);
    var c, d := Sum(r.x3, r.z3), Difference(r.x3, r.z3);
    var aa, bb := Product(a, a), Product(b, b);
    var cb, da := Product(c, b), Product(d, a);
    var sum, diff := Sum(cb, da), Difference(cb, da);
    var e := Difference(aa, bb);
    var u := Sum(Times121665(e), aa);
    LimbRung(Product(aa, bb), Product(e, u), Product(sum, sum), Product(Product(diff, diff), x1))
  }

  /** The doubling half: A, B and what is made of them. */
  lemma DoublingHalf(x: seq<u32>, z: seq<u32>, x': int, z': int)
    requires Bytes(x) && Reduced(z) && Eq(Val(x), x') && Eq(Val(z), z')
    ensures var a, b := Sum(x, z), Difference(x, z);
            var aa, bb := Product(a, a), Product(b, b);
            var e := Difference(aa, bb);
            var u := Sum(Times121665(e), aa);
            var p, q := (x' + z') * (x' + z'), (x' - z') * (x' - z');
            && Wide(a) && Wide(b) && Eq(Val(a), x' + z') && Eq(Val(b), x' - z')
            && Reduced(Product(aa, bb)) && Eq(Val(Product(aa, bb)), p * q)
            && Reduced(Product(e, u)) && Eq(Val(Product(e, u)), (p - q) * (p + 121665 * (p - q)))
  {
    hide Val, Sum, Difference, Product, Times121665, Eq;
    var a, b := Sum(x, z), Difference(x, z);
    var aa, bb := Product(a, a), Product(b, b);
    var e := Difference(aa, bb);
    var t := Times121665(e);
    var u := Sum(t, aa);
    var p, q := (x' + z') * (x' + z'), (x' - z') * (x' - z');
    LadderOperands(x, z, x', z');
    SquareOf(a, x' + z');
    SquareOf(b, x' - z');
    ProductOf(aa, bb, p, q);
    DifferenceOf(aa, bb, p, q);
    TimesOf(e, p - q);
    SumOf(t, aa, 121665 * (p - q), p);
    ProductOf(e, u, p - q, 121665 * (p - q) + p);
    assert 121665 * (p - q) + p == p + 121665 * (p - q);
  }

  lemma ReducedIsWide(s: seq<int>)
    requires Reduced(s)
    ensures Bytes(s) && Wide(s) && 0 <= Val(s) < 2 * P
  {
    ValDigits(s);
  }

  lemma LadderOperands(x: seq<u32>, z: seq<u32>, x': int, z': int)
    requires Bytes(x) && Reduced(z) && Eq(Val(x), x') && Eq(Val(z), z')
    ensures Wide(Sum(x, z)) && Wide(Difference(x, z))
    ensures Eq(Val(Sum(x, z)), x' + z') && Eq(Val(Difference(x, z)), x' - z')
  {
    hide Val, Sum, Difference;
    ReducedIsWide(z);
    BytesBound(x);
    SumValue(x, z);
    DifferenceValue(x, z);
    EqAdd(Val(x), x', Val(z), z');
    EqSub(Val(x), x', Val(z), z');
  }

  lemma SumOf(a: seq<u32>, b: seq<u32>, a': int, b': int)
    requires Reduced(a) && Reduced(b) && Eq(Val(a), a') && Eq(Val(b), b')
    ensures Wide(Sum(a, b)) && Eq(Val(Sum(a, b)), a' + b')
  {
    LadderOperands(a, b, a', b');
  }

  lemma DifferenceOf(a: seq<u32>, b: seq<u32>, a': int, b': int)
    requires Reduced(a) && Reduced(b) && Eq(Val(a), a') && Eq(Val(b), b')
    ensures Wide(Difference(a, b)) && Eq(Val(Difference(a, b)), a' - b')
  {
    LadderOperands(a, b, a', b');
  }

  lemma ProductOf(a: seq<u32>, b: seq<u32>, a': int, b': int)
    requires Wide(a) && Wide(b) && Eq(Val(a), a') && Eq(Val(b), b')
    ensures Reduced(Product(a, b)) && Wide(Product(a, b)) && Eq(Val(Product(a, b)), a' * b')
  {
    hide Val, Product;
    ProductValue(a, b);
    ReducedIsWide(Product(a, b));
    EqMul(Val(a), a', Val(b), b');
  }

  lemma SquareOf(a: seq<u32>, a': int)
    requires Wide(a) && Eq(Val(a), a')
    ensures Reduced(Product(a, a)) && Wide(Product(a, a)) && Eq(Val(Product(a, a)), a' * a')
  {
    ProductOf(a, a, a', a');
  }

  lemma TimesOf(a: seq<u32>, a': int)
    requires Wide(a) && Eq(Val(a), a')
    ensures Reduced(Times121665(a)) && Eq(Val(Times121665(a)), 121665 * a')
  {
    hide Val, Times121665;
    Times121665Value(a);
    EqMul(121665, 121665, Val(a), a');
  }

  /** The sum and difference of the two cross products. */
  lemma CrossProducts(cb: seq<u32>, da: seq<u32>, x1: seq<u32>, q: int, p: int, x1': int)
    requires Reduced(cb) && Reduced(da) && Eq(Val(cb), q) && Eq(Val(da), p)
    requires Bytes(x1) && Eq(Val(x1), x1')
    ensures var sum, diff := Sum(cb, da), Difference(cb, da);
            && Reduced(Product(sum, sum)) && Eq(Val(Product(sum, sum)), (p + q) * (p + q))
            && Reduced(Product(Product(diff, diff), x1))
            && Eq(Val(Product(Product(diff, diff), x1)), x1' * ((p - q) * (p - q)))
  {
    hide Val, Sum, Difference, Product, Eq;
    var sum, diff := Sum(cb, da), Difference(cb, da);
    SumOf(cb, da, q, p);
    DifferenceOf(cb, da, q, p);
    SquareOf(sum, q + p);
    SquareOf(diff, q - p);
    BytesAreWide(x1);
    ProductOf(Product(diff, diff), x1, (q - p) * (q - p), x1');
    SquareSymmetric(p, q, x1');
  }

  /** The addition half: C, D and what is made of them. */
  lemma AdditionHalf(a: seq<u32>, b: seq<u32>, x: seq<u32>, z: seq<u32>, x1: seq<u32>,
                     a': int, b': int, x': int, z': int, x1': int, p: int, q: int)
    requires Wide(a) && Wide(b) && Eq(Val(a), a') && Eq(Val(b), b')
    requires Bytes(x) && Reduced(z) && Eq(Val(x), x') && Eq(Val(z), z')
    requires Bytes(x1) && Eq(Val(x1), x1')
    requires p == (x' - z') * a' && q == (x' + z') * b'
    ensures var c, d := Sum(x, z), Difference(x, z);
            var cb, da := Product(c, b), Product(d, a);
            var sum, diff := Sum(cb, da), Difference(cb, da);
            && Reduced(Product(sum, sum)) && Eq(Val(Product(sum, sum)), (p + q) * (p + q))
            && Reduced(Product(Product(diff, diff), x1))
            && Eq(Val(Product(Product(diff, diff), x1)), x1' * ((p - q) * (p - q)))
  {
    hide Val, Sum, Difference, Product, Eq;
    var c, d := Sum(x, z), Difference(x, z);
    LadderOperands(x, z, x', z');
    ProductOf(c, b, x' + z', b');
    ProductOf(d, a, x' - z', a');
    CrossProducts(Product(c, b), Product(d, a), x1, q, p, x1');
  }

  lemma BytesAreWide(s: seq<int>)
    requires Bytes(s)
    ensures Wide(s)
  {
  }

  lemma SquareSymmetric(p: int, q: int, x: int)
    ensures (q + p) * (q + p) == (p + q) * (p + q)
    ensures ((q - p) * (q - p)) * x == x * ((p - q) * (p - q))
  {
    assert q - p == -(p - q);
    assert (q - p) * (q - p) == (p - q) * (p - q);
  }

  lemma ValuesEq(r: LimbRung)
    ensures var v := r.Values();
            Eq(Val(r.x2), v.x2) && Eq(Val(r.z2), v.z2) && Eq(Val(r.x3), v.x3) && Eq(Val(r.z3), v.z3)
  {
    hide Val;
    EqMod(Val(r.x2));
    EqMod(Val(r.z2));
    EqMod(Val(r.x3));
    EqMod(Val(r.z3));
  }

  lemma EqSwap(a: int, b: int)
    requires Eq(a, b)
    ensures Eq(b, a)
  {
  }

  /** The coordinates a limb-level step leaves, up to congruence. */
  lemma LimbStepEq(x1: seq<u32>, r: LimbRung)
    requires Bytes(x1) && r.Valid()
    ensures var n, s := LimbStep(x1, r), Polynomials(Val(x1) % P, r.Values());
            && n.Valid() && Eq(Val(n.x2), s.x2) && Eq(Val(n.z2), s.z2) && Eq(Val(n.x3), s.x3) && Eq(Val(n.z3), s.z3)
  {
    hide Val, Sum, Difference, Product, Times121665, Eq;
    var v := r.Values();
    var a, b := v.x2 + v.z2, v.x2 - v.z2;
    ValuesEq(r);
    EqMod(Val(x1));
    EqSwap(Val(x1) % P, Val(x1));
    DoublingHalf(r.x2, r.z2, v.x2, v.z2);
    AdditionHalf(Sum(r.x2, r.z2), Difference(r.x2, r.z2), r.x3, r.z3, x1, a, b, v.x3, v.z3, Val(x1) % P,
                 (v.x3 - v.z3) * a, (v.x3 + v.z3) * b);
  }

  /** A limb-level step stays inside the sizes it needs and computes the reference step. */
  lemma LimbStepValue(x1: seq<u32>, r: LimbRung)
    requires Bytes(x1) && r.Valid()
    ensures LimbStep(x1, r).Valid()
    ensures LimbStep(x1, r).Values() == Step(Val(x1) % P, r.Values())
  {
    hide Val, LimbStep, Eq, Polynomials;
    LimbStepEq(x1, r);
    var n, s := LimbStep(x1, r), Polynomials(Val(x1) % P, r.Values());
    EqValues(Val(n.x2), s.x2);
    EqValues(Val(n.z2), s.z2);
    EqValues(Val(n.x3), s.x3);
    EqValues(Val(n.z3), s.z3);
  }

  // ------------------------------------------------------------------------
  // The loop over arrays

  ghost function RungOf(xzm: array<u32>, xzm1: array<u32>): (r: LimbRung)
    requires xzm.Length == xzm1.Length == 64
    reads xzm, xzm1
    ensures |r.x2| == |r.z2| == |r.x3| == |r.z3| == 32
  {
    LimbRung(xzm[..32], xzm[32..64], xzm1[..32], xzm1[32..64])
  }

  /** `add(out,in,in + 32); sub(out + 32,in,in + 32)` */
  method SumAndDifference(out: array<u32>, x: array<u32>)
    requires out.Length == x.Length == 64 && out != x
    modifies out
    ensures out[..32] == Sum(x[..32], x[32..64]) && out[32..64] == Difference(x[..32], x[32..64])
  {
    hide Sum, Difference;
    Add(out, 0, x, 0, x, 32);
    ghost var low := out[..32];
    assert low == out[0..32] && x[..32] == x[0..32];
    Sub(out, 32, x, 0, x, 32);
    assert out[..32] == low;
  }

  method SquareBoth(out: array<u32>, a: array<u32>)
    requires out.Length == a.Length == 64 && out != a
    modifies out
    ensures out[..32] == Product(a[..32], a[..32]) && out[32..64] == Product(a[32..64], a[32..64])
  {
    hide Product;
    Square(out, 0, a, 0);
    ghost var low := out[..32];
    assert low == out[0..32] && a[..32] == a[0..32];
    Square(out, 32, a, 32);
    assert out[..32] == low;
  }

  method CrossMultiply(out: array<u32>, a1: array<u32>, a0: array<u32>)
    requires out.Length == a1.Length == a0.Length == 64 && out != a1 && out != a0
    modifies out
    ensures out[..32] == Product(a1[..32], a0[32..64]) && out[32..64] == Product(a1[32..64], a0[..32])
  {
    hide Product;
    Mult(out, 0, a1, 0, a0, 32);
    ghost var low := out[..32];
    assert low == out[0..32] && a1[..32] == a1[0..32] && a0[..32] == a0[0..32];
    Mult(out, 32, a1, 32, a0, 0);
    assert out[..32] == low;
  }

  /** The doubled point from the squares `b0` of sum and difference. */
  method FinishDoubling(xznb: array<u32>, b0: array<u32>)
    requires xznb.Length == b0.Length == 64 && xznb != b0
    modifies xznb
    ensures xznb[..32] == Product(b0[..32], b0[32..64])
    ensures var e := Difference(b0[..32], b0[32..64]);
            xznb[32..64] == Product(e, Sum(Times121665(e), b0[..32]))
  {
    hide Product, Sum, Difference, Times121665;
    var s, t, u := new u32[32], new u32[32], new u32[32];
    ghost var aa := b0[..32];
    assert aa == b0[0..32];
    Sub(s, 0, b0, 0, b0, 32);
    ghost var e := s[0..32];
    Mult121665(t, 0, s, 0);
    Add(u, 0, t, 0, b0, 0);
    ghost var w := u[0..32];
    assert w == Sum(Times121665(e), aa);
    Mult(xznb, 0, b0, 0, b0, 32);
    ghost var low := xznb[..32];
    assert low == xznb[0..32];
    Mult(xznb, 32, s, 0, u, 0);
    assert xznb[..32] == low;
  }

  /** The differential sum from the sum and difference `c1` of the cross products. */
  method FinishAddition(xzn1b: array<u32>, c1: array<u32>, work: array<u32>)
    requires xzn1b.Length == c1.Length == 64 && work.Length >= 64 && xzn1b != c1 && xzn1b != work
    modifies xzn1b
    ensures xzn1b[..32] == Product(c1[..32], c1[..32])
    ensures xzn1b[32..64] == Product(Product(c1[32..64], c1[32..64]), work[..32])
  {
    hide Product;
    var r := new u32[32];
    Square(r, 0, c1, 32);
    Square(xzn1b, 0, c1, 0);
    ghost var low := xzn1b[..32];
    assert low == xzn1b[0..32] && c1[..32] == c1[0..32] && work[..32] == work[0..32];
    Mult(xzn1b, 32, r, 0, work, 0);
    assert xzn1b[..32] == low;
  }

  /** The squares `b0` of sum and difference, and the sum and difference `c1` of the cross products. */
  method RoundProducts(b0: array<u32>, c1: array<u32>, xzmb: array<u32>, xzm1b: array<u32>)
    requires b0.Length == c1.Length == xzmb.Length == xzm1b.Length == 64
    requires b0 != c1 && b0 != xzmb && b0 != xzm1b && c1 != xzmb && c1 != xzm1b
    modifies b0, c1
    ensures var r := RungOf(xzmb, xzm1b);
            var a, b := Sum(r.x2, r.z2), Difference(r.x2, r.z2);
            var cb, da := Product(Sum(r.x3, r.z3), b), Product(Difference(r.x3, r.z3), a);
            && b0[..32] == Product(a, a) && b0[32..64] == Product(b, b)
            && c1[..32] == Sum(cb, da) && c1[32..64] == Difference(cb, da)
  {
    hide Sum, Difference, Product;
    var a0, a1, b1 := new u32[64], new u32[64], new u32[64];
    SumAndDifference(a0, xzmb);
    SumAndDifference(a1, xzm1b);
    SquareBoth(b0, a0);
    CrossMultiply(b1, a1, a0);
    SumAndDifference(c1, b1);
  }

  /** The arithmetic of one round, between the two selects. */
  method LadderRound(xznb: array<u32>, xzn1b: array<u32>, xzmb: array<u32>, xzm1b: array<u32>, work: array<u32>)
    requires xznb.Length == xzn1b.Length == xzmb.Length == xzm1b.Length == 64 && work.Length >= 64
    requires xznb != xzn1b && xznb != xzmb && xznb != xzm1b && xznb != work
    requires xzn1b != xzmb && xzn1b != xzm1b && xzn1b != work
    modifies xznb, xzn1b
    ensures RungOf(xznb, xzn1b) == LimbStep(work[..32], old(RungOf(xzmb, xzm1b)))
  {
    hide Sum, Difference, Product, Times121665;
    var b0, c1 := new u32[64], new u32[64];
    RoundProducts(b0, c1, xzmb, xzm1b);
    FinishDoubling(xznb, b0);
    ghost var x2, z2 := xznb[..32], xznb[32..64];
    FinishAddition(xzn1b, c1, work);
    assert xznb[..32] == x2 && xznb[32..64] == z2;
  }

  /** The body of the ladder loop for one scalar bit. */
  method LadderStep(xzm: array<u32>, xzm1: array<u32>, work: array<u32>, b: u32)
    requires xzm.Length == xzm1.Length == 64 && work.Length >= 64 && b <= 1
    requires xzm != xzm1 && xzm != work && xzm1 != work
    modifies xzm, xzm1
    ensures RungOf(xzm, xzm1) == LimbStep(work[..32], old(RungOf(xzm, xzm1)).Swap(b)).Swap(b)
  {
    hide LimbStep;
    var xzmb, xzm1b := new u32[64], new u32[64];
    var xznb, xzn1b := new u32[64], new u32[64];
    Select(xzmb, xzm1b, xzm, xzm1, b);
    SelectedRung(xzmb, xzm1b, xzm, xzm1, b);
    LadderRound(xznb, xzn1b, xzmb, xzm1b, work);
    ghost var n := RungOf(xznb, xzn1b);
    Select(xzm, xzm1, xznb, xzn1b, b);
    SelectedRung(xzm, xzm1, xznb, xzn1b, b);
  }

  lemma SelectedRung(p: array<u32>, q: array<u32>, r: array<u32>, s: array<u32>, b: u32)
    requires p.Length == q.Length == r.Length == s.Length == 64
    requires p[..] == (if b == 0 then r[..] else s[..]) && q[..] == (if b == 0 then s[..] else r[..])
    ensures RungOf(p, q) == RungOf(r, s).Swap(b)
  {
    assert p[..32] == p[..][..32] && p[32..64] == p[..][32..64];
    assert q[..32] == q[..][..32] && q[32..64] == q[..][32..64];
    assert r[..32] == r[..][..32] && r[32..64] == r[..][32..64];
    assert s[..32] == s[..][..32] && s[32..64] == s[..][32..64];
  }

  // ------------------------------------------------------------------------
  // Scalar bits


  lemma ShiftedBit(x: nat, y: nat, d: nat, h: nat)
    requires d > 0 && d * h == 128
    ensures ((x + 256 * y) / d) % 2 == (x / d) % 2
  {
    var z := 2 * (h * y);
    ShiftedMultiple(y, d, h);
    ModShift(x, z, d);
    ModShift(x / d, h * y, 2);
  }

  lemma ShiftedMultiple(y: nat, d: nat, h: nat)
    requires d * h == 128
    ensures (2 * (h * y)) * d == 256 * y
  {
    assert (h * y) * d == y * (d * h);
  }

  /** Adding a multiple of 256 does not disturb the low eight bits. */
  lemma LowBits(x: nat, y: nat, t: nat)
    requires t < 8
    ensures ScalarBit(x + 256 * y, t) == ScalarBit(x, t)
  {
    assert Pow2(7) == 128;
    Pow2Add(t, 7 - t);
    hide Pow2;
    ShiftedBit(x, y, Pow2(t), Pow2(7 - t));
  }

  lemma HighBits(x: nat, t: nat)
    requires t >= 8
    ensures ScalarBit(x, t) == ScalarBit(x / 256, t - 8)
  {
    assert Pow2(8) == 256;
    Pow2Add(8, t - 8);
    hide Pow2;
    DivDiv(x, 256, Pow2(t - 8));
  }

  /** Bit `t` of a scalar is bit `t & 7` of its byte `t >> 3`. */
  lemma {:induction false} BitOfByte(e: seq<byte>, t: nat)
    requires t < 8 * |e|
    ensures 0 <= Val(e) && ScalarBit(Val(e), t) == (e[t / 8] / Pow2(t % 8)) % 2
  {
    var rest: seq<byte> := e[1..];
    var v := Val(rest);
    assert Val(e) == e[0] + 256 * v;
    ValDigits(e);
    ValDigits(rest);
    hide Val, Pow2;
    if t < 8 {
      LowBits(e[0], v, t);
    } else {
      BitOfByte(rest, t - 8);
      HighBits(Val(e), t);
      assert (e[0] + 256 * v) / 256 == v;
      assert rest[(t - 8) / 8] == e[t / 8];
    }
  }

  // ------------------------------------------------------------------------
  // The whole loop

  /** Where the reference ladder starts for the point with coordinate `x1`. */
  function Start(x1: int): Rung
  {
    Rung(1, 0, x1, 1)
  }

  lemma OneValue(s: seq<int>)
    requires |s| == 32 && s[0] == 1 && forall i | 1 <= i < 32 :: s[i] == 0
    ensures Reduced(s) && Val(s) == 1
  {
    assert forall i | 0 <= i < 31 :: s[1..][i] == 0;
    ValZeros(s[1..]);
  }

  lemma StartValid(r: LimbRung, x1: seq<u32>)
    requires Bytes(x1) && r.x3 == x1 && |r.x2| == |r.z2| == |r.z3| == 32
    requires r.x2[0] == 1 && (forall i | 1 <= i < 32 :: r.x2[i] == 0)
    requires r.z3[0] == 1 && (forall i | 1 <= i < 32 :: r.z3[i] == 0)
    requires forall i | 0 <= i < 32 :: r.z2[i] == 0
    ensures r.Valid() && r.Values() == Start(Val(x1) % P)
  {
    OneValue(r.x2);
    OneValue(r.z3);
    ValZeros(r.z2);
  }

  /** All 255 rounds, from bit 254 of the scalar down to bit 0. */
  method LadderLoop(xzm: array<u32>, xzm1: array<u32>, work: array<u32>, e: array<byte>)
    requires xzm.Length == xzm1.Length == 64 && work.Length >= 64 && e.Length == 32 && Bytes(work[..32])
    requires xzm != xzm1 && xzm != work && xzm1 != work
    requires RungOf(xzm, xzm1).Valid()
    modifies xzm, xzm1
    ensures RungOf(xzm, xzm1).Valid()
    ensures RungOf(xzm, xzm1).Values()
         == RfcLadder(Val(work[..32]) % P, Scalar(e), 255, old(RungOf(xzm, xzm1)).Values(), 0)
  {
    hide LimbStep, RfcLadder, Val, Step, ScalarBit, Pow2, Bytes, Reduced;
    ghost var x := work[..32];
    ghost var x1, k, s := Val(x) % P, Scalar(e), RungOf(xzm, xzm1).Values();
    ghost var r := RungOf(xzm, xzm1);
    var pos := 254;
    while pos >= 0
      invariant -1 <= pos <= 254
      invariant r == RungOf(xzm, xzm1) && r.Valid()
      invariant RfcLadder(x1, k, 255, s, 0) == RfcLadder(x1, k, pos + 1, r.Values(), 0)
    {
      BitOfByte(e[..], pos);
      Pow2Positive(pos % 8);
      var b := (e[pos / 8] / Pow2(pos % 8)) % 2;
      RoundValue(x, k, pos + 1, r, b);
      LadderStep(xzm, xzm1, work, b);
      r := RungOf(xzm, xzm1);
      pos := pos - 1;
    }
    LadderDone(x1, k, r.Values());
  }

  /** One round on limbs is one round of the reference ladder. */
  lemma RoundValue(x: seq<u32>, k: nat, t: nat, r: LimbRung, b: int)
    requires t > 0 && Bytes(x) && r.Valid() && b == ScalarBit(k, t - 1)
    ensures var n := LimbStep(x, r.Swap(b)).Swap(b);
            && n.Valid()
            && RfcLadder(Val(x) % P, k, t, r.Values(), 0) == RfcLadder(Val(x) % P, k, t - 1, n.Values(), 0)
  {
    hide LimbStep, RfcLadder, Val, Step, ScalarBit;
    LimbStepValue(x, r.Swap(b));
    RfcRound(Val(x) % P, k, t, r.Values());
  }

  /** Runs the ladder in place: `work` holds a point and receives the projective result of the
      reference ladder for the same scalar. */
  method Mainloop(work: array<u32>, e: array<byte>)
    requires work.Length >= 64 && e.Length == 32 && Bytes(work[..32])
    modifies work
    ensures Bytes(work[..32]) && Reduced(work[32..64])
    ensures var x1 := old(Val(work[..32])) % P;
            var r := RfcLadder(x1, Scalar(e), 255, Start(x1), 0);
            Val(work[..32]) % P == r.x2 && Val(work[32..64]) % P == r.z2
    ensures work[64..] == old(work[64..])
  {
    hide RfcLadder, Val, Start;
    var xzm1 := new u32[64](i requires 0 <= i < 64 reads work => if i < 32 then work[i] else if i == 32 then 1 else 0);
    var xzm := new u32[64](i => if i == 0 then 1 else 0);
    assert xzm1[..32] == work[..32];
    StartValid(RungOf(xzm, xzm1), work[..32]);
    LadderLoop(xzm, xzm1, work, e);
    ghost var r := RungOf(xzm, xzm1);
    var j := 0;
    while j < 64
      invariant 0 <= j <= 64
      invariant forall i | 0 <= i < j :: work[i] == xzm[i]
      invariant work[64..] == old(work[64..])
      invariant r == RungOf(xzm, xzm1)
    {
      work[j] := xzm[j];
      j := j + 1;
    }
    assert work[..32] == r.x2 && work[32..64] == r.z2;
  }

  lemma Pow2Positive(n: nat)
    ensures Pow2(n) > 0
  {
  }

  lemma LadderDone(x1: int, k: nat, r: Rung)
    ensures RfcLadder(x1, k, 0, r, 0) == r
  {
  }

  ghost function Scalar(e: array<byte>): nat
    reads e
  {
    ValDigits(e[..]);
    Val(e[..])
  }
}
