/** What the limb functions of `X25519` compute, and the limb sizes under which no 32-bit
    word wraps around or goes below zero. */
module X25519Values {
  import opened Words
  import opened ModArith
  import opened Limbs
  import opened Field
  import opened Convolution
  import opened X25519

  /** Bytes, as read from a point or left by a reduction. */
  predicate Bytes(s: seq<int>)
  {
    |s| == 32 && Within(s, 255)
  }

  /** What one addition or subtraction of `Bytes` leaves: only the top limb may exceed a byte. */
  predicate Wide(s: seq<int>)
  {
    |s| == 32 && Within(s, 511)
  }

  /** What `mult`, `square` and `mult121665` leave. */
  predicate Reduced(s: seq<int>)
  {
    Bytes(s) && Val(s) < 2 * P
  }

  lemma BytesBound(s: seq<int>)
    requires Bytes(s)
    ensures 0 <= Val(s) < 256 * Pow256(|s| - 1)
  {
    ValDigits(s);
  }

  lemma SumValue(a: seq<u32>, b: seq<u32>)
    requires Bytes(a) && Bytes(b)
    ensures Wide(Sum(a, b)) && Normal(Sum(a, b)) && Val(Sum(a, b)) == Val(a) + Val(b)
  {
    hide Val, Pow256, Carry;
    var s := ZipAdd(a, b);
    ValZipAdd(a, b);
    BytesBound(a);
    BytesBound(b);
    CarryExact(s, 0, 510, 510);
    NormalWithin(Sum(a, b), 511);
  }

  lemma {:induction false} DiffTermsValue(a: seq<int>, b: seq<int>)
    requires |a| == |b| >= 1
    ensures Val(DiffTerms(a, b)) == Val(a) - Val(b) + 256 * (Pow256(|a| - 1) - 1)
  {
    var d := DiffTerms(a, b);
    if |a| == 1 {
      assert a[1..] == [] && b[1..] == [] && d[1..] == [];
    } else {
      assert d[1..] == DiffTerms(a[1..], b[1..]);
      DiffTermsValue(a[1..], b[1..]);
    }
  }

  /** `sub` adds exactly 2p, so it never goes below zero while `b` is at most 2p above `a`. */
  lemma DifferenceValue(a: seq<u32>, b: seq<u32>)
    requires Bytes(a) && Bytes(b) && Val(b) <= Val(a) + 2 * P
    ensures Wide(Difference(a, b)) && Normal(Difference(a, b)) && Val(Difference(a, b)) == Val(a) - Val(b) + 2 * P
    ensures Eq(Val(Difference(a, b)), Val(a) - Val(b))
  {
    hide Val, Carry;
    var s := DiffTerms(a, b);
    DiffTermsValue(a, b);
    BytesBound(a);
    BytesBound(b);
    Weights();
    hide Pow256;
    assert |a| - 1 == 31;
    CarryExact(s, 218, 65535, 65535);
    NormalWithin(Difference(a, b), 511);
    CongByMultiple(Val(a) - Val(b) + 2 * P, Val(a) - Val(b), 2, P);
  }

  /** `squeeze` keeps the value modulo p and brings it below 2p. */
  lemma SqueezedValue(s: seq<u32>)
    requires |s| == 32 && Within(s, 0x1370_0000)
    ensures Reduced(Squeezed(s)) && Eq(Val(Squeezed(s)), Val(s))
  {
    hide Val, Carry, ReducePass, Pow256, Folded;
    ValBound(s, 0x1370_0000);
    var w := Pow256(|s| - 1);
    assert Pow256(|s|) == 256 * w by {
      Pow256Next(|s|);
    }
    assert 0 <= Val(s) < 0x1400_0000 * w;
    CarryExact(s, 0, 0x1370_0000, 0x1370_0000);
    var c := Carry(s, 0);
    NormalWithin(c, 0x13ff_ffff);
    ReducePassExact(c, 255);
    FoldedValue(c);
    FoldedSmall(c);
  }

  lemma Pow256Next(n: nat)
    requires n >= 1
    ensures Pow256(n) == 256 * Pow256(n - 1)
  {
  }

  /** Folding a carried sequence leaves less than 2^255 plus 19 times what was above bit 255. */
  lemma FoldedSmall(c: seq<int>)
    requires |c| == 32 && Normal(c) && c[31] <= 0x3fff_ffff
    ensures Folded(c) < TOP_BIT + 19 * (c[31] / 128)
    ensures forall r: seq<int> | |r| == 32 && Normal(r) && Val(r) == Folded(c) :: Reduced(r)
  {
    hide Val;
    ValDigits(c[..31]);
    Weights();
    hide Pow256;
    assert |c| - 1 == 31;
    MulMonotone(c[31] % 128, 127, Pow256(31));
    assert Folded(c) < TOP_BIT + 19 * (c[31] / 128);
    forall r: seq<int> | |r| == 32 && Normal(r) && Val(r) == Folded(c)
      ensures Reduced(r)
    {
      NormalWithin(r, 255);
    }
  }

  /** `mult` and `square` multiply modulo p. */
  lemma ProductValue(a: seq<u32>, b: seq<u32>)
    requires Wide(a) && Wide(b)
    ensures Reduced(Product(a, b)) && Eq(Val(Product(a, b)), Val(a) * Val(b))
  {
    hide Val, Squeezed;
    ProductWordsExact(a, b);
    SqueezedValue(ProductWords(a, b));
    FoldValue(a, b);
  }

  lemma Times121665Value(a: seq<u32>)
    requires Wide(a)
    ensures Reduced(Times121665(a)) && Eq(Val(Times121665(a)), 121665 * Val(a))
  {
    hide Val, Squeezed;
    var s := Scale(121665, a);
    assert Within(s, 121665 * 511);
    SqueezedValue(s);
    ValScale(121665, a);
  }

  function LowBytes(s: seq<u32>): (r: seq<u32>)
    ensures |r| == |s|
  {
    seq(|s|, i requires 0 <= i < |s| => s[i] % 256)
  }

  lemma LowBytesValue(s: seq<u32>)
    requires Normal(s)
    ensures Within(LowBytes(s), 255)
    ensures Val(LowBytes(s)) == Val(s) - (256 * (s[|s| - 1] / 256)) * Pow256(|s| - 1)
  {
    hide Val, Pow256;
    var n := |s| - 1;
    var r := LowBytes(s);
    forall i | 0 <= i < n
      ensures r[i] == s[i]
    {
      assert s[i] == s[..n][i];
      SmallByte(s[i]);
    }
    assert r[..n] == s[..n];
    ValTop(s);
    ValTop(r);
    DropHigh(s[n], Pow256(n));
  }

  lemma SmallByte(x: int)
    requires 0 <= x <= 255
    ensures x % 256 == x
  {
  }

  lemma DropHigh(top: int, w: int)
    ensures (top % 256) * w == top * w - (256 * (top / 256)) * w
  {
    assert (top - 256 * (top / 256)) * w == top * w - (256 * (top / 256)) * w;
  }

  lemma MinusPLimbs()
    ensures var m := MinusP();
            && Bytes(m) && m[0] == 19 && m[31] == 128 && forall i | 0 <= i < 30 :: m[..31][1..][i] == 0
  {
  }

  lemma MinusPValue()
    ensures Bytes(MinusP()) && Val(MinusP()) == TOP_BIT + 19
  {
    hide MinusP, Val, Pow256;
    var m := MinusP();
    MinusPLimbs();
    ValTop(m);
    var low := m[..31];
    ValZeros(low[1..]);
    ValCons(low[0], low[1..], low);
    Weights();
    assert |m| - 1 == 31;
  }

  /** `freeze` and the truncation to bytes give the representative in [0, p) of a value below 2p,
      although the top limb of the frozen limbs may still exceed a byte. */
  lemma FrozenValue(s: seq<u32>)
    requires Reduced(s)
    ensures Within(LowBytes(Frozen(s)), 255) && Val(LowBytes(Frozen(s))) == Val(s) % P
  {
    hide Val, Sum, MinusP, LowBytes;
    var t := Sum(s, MinusP());
    PlusMinusP(s);
    hide Reduced;
    if Val(s) < P {
      assert Frozen(s) == s;
      LowBytesSame(s);
      SmallResidue(Val(s));
    } else {
      assert Frozen(s) == t;
      LowBytesValue(t);
      DropTop(t[31], Pow256(31));
      Weights();
      LargeResidue(Val(s));
    }
  }

  /** Adding 2^255 + 19 brings the top limb to 256 exactly from p on. */
  lemma PlusMinusP(s: seq<u32>)
    requires Reduced(s)
    ensures var t := Sum(s, MinusP());
            && Normal(t) && Val(t) == Val(s) + TOP_BIT + 19 && 0 <= Val(s) < 2 * P && Within(s, 255)
            && if Val(s) < P then 128 <= t[31] <= 255 else 256 <= t[31] <= 383
  {
    hide Val, Sum, MinusP;
    var t := Sum(s, MinusP());
    MinusPValue();
    SumValue(s, MinusP());
    BytesBound(s);
    NormalTop(t);
    Weights();
    hide Pow256;
    assert |t| - 1 == 31;
    if Val(s) < P {
      TopRange(Val(t), Pow256(31), 128, 255, t[31]);
    } else {
      TopRange(Val(t), Pow256(31), 256, 383, t[31]);
    }
  }

  lemma LowBytesSame(s: seq<u32>)
    requires Within(s, 255)
    ensures LowBytes(s) == s
  {
  }

  lemma SmallResidue(v: int)
    requires 0 <= v < P
    ensures v % P == v
  {
  }

  lemma LargeResidue(v: int)
    requires P <= v < 2 * P
    ensures v % P == v - P
  {
  }

  lemma DropTop(top: int, w: int)
    requires 256 <= top <= 383
    ensures (256 * (top / 256)) * w == 256 * w
  {
    assert top / 256 == 1;
  }

  lemma TopRange(v: int, w: int, lo: int, hi: int, top: int)
    requires w > 0 && top == v / w && lo * w <= v < (hi + 1) * w
    ensures lo <= top <= hi
  {
    if top < lo {
      MulMonotone(top + 1, lo, w);
    } else if top > hi {
      MulMonotone(hi + 1, top, w);
    }
  }
}
