/** What `fe25519_*` compute on the loose form, and when freezing is canonical. */
module Fe25519Values {
  import opened Words
  import opened ModArith
  import opened Limbs
  import opened Field
  import opened Convolution
  import opened Fe25519

  /** A pass over a carried sequence below 2^255 + 2^255 leaves less than 2^255 + 19. */
  lemma PassNormal(s: seq<u32>)
    requires |s| == 32 && Normal(s) && s[31] <= 0x3fff_ffff
    ensures var r := ReducePass(s);
            && |r| == 32 && Normal(r) && Val(r) == Val(s) - P * (s[31] / 128) && Eq(Val(r), Val(s))
            && 0 <= Val(r) < TOP_BIT + 19 * (s[31] / 128)
  {
    hide Val, ReducePass, Folded, Pow256;
    ReducePassExact(s, 255);
    FoldedValue(s);
    NormalFolded(s);
  }

  lemma NormalFolded(s: seq<int>)
    requires |s| == 32 && Normal(s)
    ensures Folded(s) < TOP_BIT + 19 * (s[31] / 128)
  {
    hide Val;
    ValDigits(s[..31]);
    Weights();
    hide Pow256;
    assert |s| - 1 == 31;
    MulMonotone(s[31] % 128, 127, Pow256(31));
  }

  /** The top limb of a carried sequence counts the multiples of 2^248. */
  lemma TopAtMost(s: seq<int>, hi: nat)
    requires |s| == 32 && Normal(s) && 128 * Val(s) < (hi + 1) * TOP_BIT
    ensures s[31] <= hi
    ensures hi <= 255 ==> Within(s, 255)
  {
    hide Val;
    Weights();
    hide Pow256;
    assert |s| - 1 == 31;
    assert (hi + 1) * (128 * Pow256(31)) == 128 * ((hi + 1) * Pow256(31));
    NormalWithin(s, hi);
  }

  /** A pass over a value below 2^255 + 38 ends below 2^255. */
  lemma PassSettles(s: seq<u32>)
    requires |s| == 32 && Normal(s) && Val(s) < TOP_BIT + 38
    ensures var r := ReducePass(s);
            |r| == 32 && Normal(r) && Eq(Val(r), Val(s)) && Val(r) < TOP_BIT
  {
    hide Val, ReducePass;
    TopAtMost(s, 128);
    PassNormal(s);
    if s[31] < 128 {
      assert s[31] / 128 == 0;
    }
  }

  /** Four passes bring sums of two loose numbers below 2^255. */
  lemma FourPasses(s: seq<u32>)
    requires |s| == 32 && Within(s, 1023)
    ensures Below(Passes(s, 4)) && Eq(Val(Passes(s, 4)), Val(s))
  {
    hide Val, ReducePass, Passes;
    var a := ReducePass(s);
    FirstPass(s, 1023, 150);
    var b := ReducePass(a);
    PassNormal(a);
    var c := ReducePass(b);
    PassSettles(b);
    var d := ReducePass(c);
    PassSettles(c);
    TopAtMost(d, 127);
    UnrollFour(s);
  }

  lemma UnrollFour(s: seq<u32>)
    requires |s| == 32
    ensures Passes(s, 4) == ReducePass(ReducePass(ReducePass(ReducePass(s))))
    ensures Passes(s, 2) == ReducePass(ReducePass(s))
  {
    hide ReducePass;
    UnrollTwo(s);
    var a, b := ReducePass(s), ReducePass(ReducePass(s));
    UnrollTwo(b);
    assert Passes(s, 4) == Passes(a, 3) && Passes(a, 3) == Passes(b, 2);
  }

  lemma UnrollTwo(s: seq<u32>)
    requires |s| == 32
    ensures Passes(s, 2) == ReducePass(ReducePass(s))
  {
    hide ReducePass;
    var a, b := ReducePass(s), ReducePass(ReducePass(s));
    assert Passes(s, 2) == Passes(a, 1) && Passes(a, 1) == Passes(b, 0) && Passes(b, 0) == b;
  }

  /** The first pass over limbs that have not been carried yet. */
  lemma FirstPass(s: seq<u32>, hi: nat, top: nat)
    requires |s| == 32 && 255 <= hi < 0x1000_0000 && Within(s, hi)
    requires 255 * top >= hi + 255 * 128 + 255
    ensures var r := ReducePass(s);
            |r| == 32 && Normal(r) && Eq(Val(r), Val(s)) && r[31] <= top
  {
    hide Val, ReducePass, Pow256;
    var low := s[..31];
    ReducePassExact(s, hi);
    FoldedValue(s);
    ValBound(low, hi);
    BigWeight();
    assert |s| - 1 == 31;
    FirstPassBound(Val(low), s[31], hi, Pow256(31), top);
    NormalWithin(ReducePass(s), top);
  }

  lemma BigWeight()
    ensures Pow256(31) > 0x1_0000_0000
  {
    Weights();
  }

  lemma FirstPassBound(v: int, t: int, hi: int, w: int, top: int)
    requires 0 <= 255 * v <= hi * (w - 1) && 0 <= t <= hi < 0x1000_0000 && w > 0x1_0000_0000
    requires 255 * top >= hi + 255 * 128 + 255
    ensures v + (t % 128) * w + 19 * (t / 128) < (top + 1) * w
  {
    MulMonotone(t % 128, 127, w);
    assert hi * (w - 1) == hi * w - hi;
    assert 255 * ((top + 1) * w) == (255 * top) * w + 255 * w;
    MulMonotone(hi + 255 * 128 + 255, 255 * top, w);
    assert (hi + 255 * 128 + 255) * w == hi * w + (255 * 128 + 255) * w;
  }

  /** How far beyond 2^255 two passes can leave a product. */
  const SLACK: int := 19 * 0xc00

  /** Two passes bring the folded product of two loose numbers back to the loose form. */
  lemma TwoPasses(s: seq<u32>)
    requires |s| == 32 && Within(s, 0x500_0000)
    ensures Loose(Passes(s, 2)) && Eq(Val(Passes(s, 2)), Val(s)) && 0 <= Val(Passes(s, 2)) < TOP_BIT + SLACK
  {
    hide Val, ReducePass, Passes;
    var a := ReducePass(s);
    FirstPass(s, 0x500_0000, 0x6_0000);
    var b := ReducePass(a);
    PassNormal(a);
    TopAtMost(b, 128);
    UnrollFour(s);
  }

  lemma FeSumValue(x: seq<u32>, y: seq<u32>)
    requires Loose(x) && Loose(y)
    ensures Below(FeSum(x, y)) && Eq(Val(FeSum(x, y)), Val(x) + Val(y))
  {
    hide Val, Passes;
    var s := SumWords(x, y);
    assert s == ZipAdd(x, y);
    ValZipAdd(x, y);
    FourPasses(s);
  }

  function TwoPSeq(): seq<int>
  {
    seq(32, i => TwoP(i))
  }

  lemma {:induction false} RunOf(c: int, s: seq<int>)
    requires forall i | 0 <= i < |s| :: s[i] == c
    ensures 255 * Val(s) == c * (Pow256(|s|) - 1)
  {
    if |s| > 0 {
      RunOf(c, s[1..]);
      RunArith(c, Pow256(|s| - 1), Val(s[1..]));
    }
  }

  lemma RunArith(c: int, w: int, v: int)
    requires 255 * v == c * (w - 1)
    ensures 255 * (c + 256 * v) == c * (256 * w - 1)
  {
  }

  lemma TwoPValue()
    ensures Val(TwoPSeq()) == 2 * P
  {
    hide Pow256, Val;
    var t := TwoPSeq();
    var mid := t[1..31];
    ValEnds(t);
    RunOf(0x1fe, mid);
    Weights();
    assert |t| - 1 == 31 && |mid| == 30;
  }

  lemma FeDifferenceValue(x: seq<u32>, y: seq<u32>)
    requires Loose(x) && Loose(y)
    ensures Below(FeDifference(x, y)) && Eq(Val(FeDifference(x, y)), Val(x) - Val(y))
  {
    hide Val, Passes;
    var s := DiffWords(x, y);
    var t := TwoPSeq();
    DiffWordsExact(x, y);
    assert ZipAdd(s, y) == ZipAdd(x, t);
    ValZipAdd(s, y);
    ValZipAdd(x, t);
    TwoPValue();
    FourPasses(s);
    CongByMultiple(Val(s), Val(x) - Val(y), 2, P);
  }

  lemma DiffWordsExact(x: seq<u32>, y: seq<u32>)
    requires Loose(x) && Loose(y)
    ensures Within(DiffWords(x, y), 1023)
    ensures forall i | 0 <= i < 32 :: DiffWords(x, y)[i] + y[i] == x[i] + TwoPSeq()[i]
  {
    forall i | 0 <= i < 32
      ensures 0 <= DiffWords(x, y)[i] <= 1023 && DiffWords(x, y)[i] + y[i] == x[i] + TwoPSeq()[i]
    {
      W32Id(x[i] + TwoP(i) - y[i]);
    }
  }

  lemma FeProductValue(x: seq<u32>, y: seq<u32>)
    requires Loose(x) && Loose(y)
    ensures Loose(FeProduct(x, y)) && Eq(Val(FeProduct(x, y)), Val(x) * Val(y))
    ensures 0 <= Val(FeProduct(x, y)) < TOP_BIT + SLACK
  {
    hide Val, Passes, Fold;
    var s := ProductWords(x, y);
    LooseWords(x, y);
    FoldValue(x, y);
    TwoPasses(s);
  }

  lemma LooseWords(x: seq<u32>, y: seq<u32>)
    requires Loose(x) && Loose(y)
    ensures ProductWords(x, y) == FoldSeq(x, y) && Within(ProductWords(x, y), 0x500_0000)
  {
    hide Fold;
    forall i | 0 <= i < 32
      ensures ProductWords(x, y)[i] == FoldSeq(x, y)[i] && 0 <= ProductWords(x, y)[i] <= 0x500_0000
    {
      FoldBound(x, y, i, 255);
      W32Id(Fold(x, y, i));
    }
  }
}
