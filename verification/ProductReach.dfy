/** How far `fe25519_mul` really reaches: its two reduction passes can end at or above 2^255,
    which is more than `fe25519_freeze` handles. */
module ProductReach {
  import opened Words
  import opened ModArith
  import opened Limbs
  import opened Field
  import opened Convolution
  import opened Fe25519
  import opened Fe25519Values

  /** Limb 30 collects 38 times the product of the top limbs. */
  lemma TopProduct(x: seq<u32>, y: seq<u32>)
    requires Loose(x) && Loose(y)
    ensures 38 * (x[31] as int * y[31] as int) <= Fold(x, y, 30)
  {
    var n := |x| - 1;
    assert Conv(x, y, |x|, 62) == Conv(x, y, n, 62) + At(x, n) * At(y, 62 - n);
    hide Conv;
    ConvBound(x, y, |x|, 30, 255 * 255, 255, 255);
    ConvBound(x, y, n, 62, 255 * 255, 255, 255);
  }

  lemma FoldedAtLeast(s: seq<u32>)
    requires |s| == 32
    ensures Folded(s) >= s[30] * Pow256(30)
  {
    hide Val, Pow256;
    ValTop(s[..31]);
    assert s[..31][..30] == s[..30];
    assert |s[..31]| - 1 == 30 && |s| - 1 == 31;
    ValNonNegative(s[..30]);
    MulMonotone(0, s[31] % 128, Pow256(31));
  }

  lemma {:induction false} ValNonNegative(s: seq<u32>)
    ensures 0 <= Val(s)
  {
    if |s| > 0 {
      ValNonNegative(s[1..]);
    }
  }

  lemma TopQuotient(v: int, q: int)
    requires v >= 2 * TOP_BIT && q == v / TOP_BIT
    ensures v - P * q >= 38
  {
    DivModUnique(v, TOP_BIT, q, v % TOP_BIT);
    if q < 2 {
      MulMonotone(q, 1, TOP_BIT);
    }
  }

  lemma NormalQuotient(a: seq<int>)
    requires |a| == 32 && Normal(a)
    ensures a[31] / 128 == Val(a) / TOP_BIT && 0 <= Val(a)
  {
    hide Val;
    NormalTop(a);
    Weights();
    hide Pow256;
    assert |a| - 1 == 31;
    DivDiv(Val(a), Pow256(31), 128);
  }

  /** The limbs after the first pass hold the folded product, and the second pass takes off one
      p for every 2^255 in it. */
  lemma ProductExact(x: seq<u32>, y: seq<u32>)
    requires Loose(x) && Loose(y)
    ensures var v := Folded(FoldSeq(x, y)); 0 <= v && Val(FeProduct(x, y)) == v - P * (v / TOP_BIT)
  {
    hide Val, ReducePass, Fold, Passes, Folded;
    var s := ProductWords(x, y);
    LooseWords(x, y);
    var a := ReducePass(s);
    FirstPass(s, 0x500_0000, 0x6_0000);
    ReducePassExact(s, 0x500_0000);
    PassNormal(a);
    NormalQuotient(a);
    UnrollFour(s);
  }

  lemma ReachArith(v: int, q: int, r: int)
    requires 0 <= v && q == v / TOP_BIT && r == v - P * q && r < 2 * P
    ensures r < TOP_BIT <==> !(19 <= v % P < 19 * (v / P))
  {
    var m := v % TOP_BIT;
    assert r == m + 19 * q && 0 <= q;
    if r < P {
      DivModUnique(v, P, q, r);
    } else {
      DivModUnique(v, P, q + 1, r - P);
    }
  }

  /** Exactly when a product of loose numbers ends below 2^255: with v the folded product that the
      first pass leaves, unless the residue of v lies between 19 and 19 times its quotient by p. */
  lemma ProductBelowIff(x: seq<u32>, y: seq<u32>)
    requires Loose(x) && Loose(y)
    ensures var v := Folded(FoldSeq(x, y));
            Below(FeProduct(x, y)) <==> !(19 <= v % P < 19 * (v / P))
  {
    hide Val, Folded, Fold, FeProduct;
    ProductExact(x, y);
    FeProductValue(x, y);
    BelowIffValue(FeProduct(x, y));
    var v := Folded(FoldSeq(x, y));
    ReachArith(v, v / TOP_BIT, Val(FeProduct(x, y)));
  }

  /** Two numbers with large top limbs whose product is a small residue end at or above 2^255. */
  lemma ProductAtTopBit(x: seq<u32>, y: seq<u32>)
    requires Loose(x) && Loose(y) && 38 * (x[31] as int * y[31] as int) >= 0x1_0000
    requires 19 <= (Val(x) * Val(y)) % P < 38
    ensures Val(FeProduct(x, y)) >= TOP_BIT && !Below(FeProduct(x, y))
  {
    hide Val, Fold, Folded, FeProduct;
    var s := FoldSeq(x, y);
    TopProduct(x, y);
    LooseWords(x, y);
    FoldedAtLeast(ProductWords(x, y));
    Weights();
    hide Pow256;
    MulMonotone(0x1_0000, s[30], Pow256(30));
    ProductExact(x, y);
    TopQuotient(Folded(s), Folded(s) / TOP_BIT);
    FeProductValue(x, y);
    BelowIffValue(FeProduct(x, y));
    SmallResidue(Val(FeProduct(x, y)));
  }

  lemma SmallResidue(v: int)
    requires 38 <= v && 19 <= v % P < 38
    ensures v >= TOP_BIT
  {
    DivModUnique(v, P, v / P, v % P);
    if v < P {
      DivModUnique(v, P, 0, v);
      assert false;
    }
  }

  // ------------------------------------------------------------------------
  // A concrete pair

  /** The `n` low bytes of a number. */
  function BytesOf(v: nat, n: nat): (s: seq<u32>)
    ensures |s| == n && Within(s, 255)
    decreases n
  {
    if n == 0 then [] else [v % 256] + BytesOf(v / 256, n - 1)
  }

  lemma {:induction false} BytesOfValue(v: nat, n: nat)
    requires v < Pow256(n)
    ensures Val(BytesOf(v, n)) == v
    decreases n
  {
    if n > 0 {
      BytesOfValue(v / 256, n - 1);
      assert BytesOf(v, n)[1..] == BytesOf(v / 256, n - 1);
    }
  }

  lemma FieldBytes(v: nat, s: seq<u32>)
    requires v < TOP_BIT && s == BytesOf(v, |s|) && |s| == 32
    ensures Below(s) && Val(s) == v && s[31] == v / Pow256(31)
  {
    hide Val, BytesOf;
    Weights();
    BytesOfValue(v, |s|);
    NormalTop(s);
    assert |s| - 1 == 31;
    hide Pow256;
    if s[31] >= 128 {
      MulMonotone(128, s[31], Pow256(31));
      DivModUnique(v, Pow256(31), s[31], v % Pow256(31));
      assert false;
    }
  }

  /** (2^255 - 1) * 19/18 is 19 modulo p, and comes out of `fe25519_mul` as 2^255. */
  lemma ProductNotBelow()
    ensures exists x: seq<u32>, y: seq<u32> :: Below(x) && Below(y) && !Below(FeProduct(x, y))
  {
    hide Val, Pow256, BytesOf, FeProduct;
    var u := TOP_BIT - 1;
    var v := 0x238e38e3_8e38e38e_38e38e38_e38e38e3_8e38e38e_38e38e38_e38e38e3_8e38e38a;
    var n := 32;
    var x, y := BytesOf(u, n), BytesOf(v, n);
    FieldBytes(u, x);
    FieldBytes(v, y);
    TopBytes();
    CongByMultiple(u * v, 19, v + 5, P);
    DivModUnique(u * v, P, v + 5, 19);
    ProductAtTopBit(x, y);
  }

  lemma TopBytes()
    ensures (TOP_BIT - 1) / Pow256(31) == 127
    ensures 0x238e38e3_8e38e38e_38e38e38_e38e38e3_8e38e38e_38e38e38_e38e38e3_8e38e38a / Pow256(31) == 35
  {
    Weights();
    hide Pow256;
    var w := Pow256(31);
    DivModUnique(TOP_BIT - 1, w, 127, w - 1);
    DivModUnique(0x238e38e3_8e38e38e_38e38e38_e38e38e3_8e38e38e_38e38e38_e38e38e3_8e38e38a, w, 35,
                 0x8e38e3_8e38e38e_38e38e38_e38e38e3_8e38e38e_38e38e38_e38e38e3_8e38e38a);
  }
}
