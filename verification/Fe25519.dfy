/** The field arithmetic of the signature half of the curve code, `fe25519_*`: again 32 limbs of
    radix 2^8, but reduced by whole passes instead of `squeeze`. */
module Fe25519 {
  import opened Words
  import opened ModArith
  import opened Limbs
  import opened Field
  import opened Convolution
  import opened Schoolbook

  type Fe = s: seq<u32> | |s| == 32 witness seq(32, _ => 0)

  /** What `fe25519_mul` leaves: the top limb may reach 128. */
  predicate Loose(s: seq<int>)
  {
    |s| == 32 && Within(s, 255) && s[31] <= 128
  }

  /** What `fe25519_add`, `fe25519_sub` and `fe25519_unpack` leave: below 2^255. */
  predicate Below(s: seq<int>)
  {
    |s| == 32 && Within(s, 255) && s[31] <= 127
  }

  lemma BelowIffValue(s: seq<int>)
    requires Loose(s)
    ensures 0 <= Val(s) && (Below(s) <==> Val(s) < TOP_BIT)
  {
    ValTop(s);
    ValDigits(s[..31]);
    Weights();
    hide Pow256, Val;
    var w := Pow256(31);
    assert |s| - 1 == 31;
    MulMonotone(0, s[31], w);
    if s[31] <= 127 {
      MulMonotone(s[31], 127, w);
    }
  }

  // ------------------------------------------------------------------------
  // Reduction passes

  /** One round of the reduction loops of `reduce_add_sub` and `reduce_mul`. */
  method ReduceOnce(r: array<u32>)
    requires r.Length == 32
    modifies r
    ensures r[..] == ReducePass(old(r[..]))
  {
    hide W32, Carry, Carrying;
    ghost var s0 := r[..];
    var t := r[31] / 128;
    r[31] := r[31] % 128;
    t := WMul(19, t);
    ghost var s := r[..];
    assert s == s0[31 := s0[31] % 128];
    ghost var c := Carry(s, t);
    CarryStart(s, t);
    ghost var u: u32 := t;
    r[0] := WAdd(r[0], t);
    var i := 0;
    while i < 31
      invariant 0 <= i <= 31
      invariant Carrying(s, c, i, u)
      invariant r[i] == W32(u + s[i])
      invariant forall k | 0 <= k < i :: r[k] == c[k]
      invariant forall k | i < k < 32 :: r[k] == s[k]
    {
      CarryStep(s, c, i, u);
      t := r[i] / 256;
      r[i + 1] := WAdd(r[i + 1], t);
      r[i] := r[i] % 256;
      u := t;
      i := i + 1;
    }
    CarryStep(s, c, 31, u);
    assert r[..] == c;
  }

  function Passes(s: seq<u32>, n: nat): (r: seq<u32>)
    requires |s| == 32
    ensures |r| == 32
    decreases n, s
  {
    if n == 0 then s else Passes(ReducePass(s), n - 1)
  }

  method ReduceAddSub(r: array<u32>)
    requires r.Length == 32
    modifies r
    ensures r[..] == Passes(old(r[..]), 4)
  {
    hide ReducePass;
    var rep := 0;
    while rep < 4
      invariant 0 <= rep <= 4
      invariant Passes(r[..], 4 - rep) == Passes(old(r[..]), 4)
    {
      ReduceOnce(r);
      rep := rep + 1;
    }
  }

  method ReduceMul(r: array<u32>)
    requires r.Length == 32
    modifies r
    ensures r[..] == Passes(old(r[..]), 2)
  {
    hide ReducePass;
    var rep := 0;
    while rep < 2
      invariant 0 <= rep <= 2
      invariant Passes(r[..], 2 - rep) == Passes(old(r[..]), 2)
    {
      ReduceOnce(r);
      rep := rep + 1;
    }
  }

  // ------------------------------------------------------------------------
  // Addition, subtraction, multiplication: the limbs they produce

  function SumWords(x: seq<u32>, y: seq<u32>): (r: seq<u32>)
    requires |x| == |y| == 32
    ensures |r| == 32
  {
    seq(32, i requires 0 <= i < 32 => WAdd(x[i], y[i]))
  }

  /** The limbs of 2p that `fe25519_sub` adds before subtracting. */
  function TwoP(i: int): u32
  {
    if i == 0 then 0x1da else if i == 31 then 0xfe else 0x1fe
  }

  function DiffWords(x: seq<u32>, y: seq<u32>): (r: seq<u32>)
    requires |x| == |y| == 32
    ensures |r| == 32
  {
    seq(32, i requires 0 <= i < 32 => WSub(x[i] as int + TwoP(i), y[i]))
  }

  function FeSum(x: seq<u32>, y: seq<u32>): (r: seq<u32>)
    requires |x| == |y| == 32
    ensures |r| == 32
  {
    Passes(SumWords(x, y), 4)
  }

  function FeDifference(x: seq<u32>, y: seq<u32>): (r: seq<u32>)
    requires |x| == |y| == 32
    ensures |r| == 32
  {
    Passes(DiffWords(x, y), 4)
  }

  function FeProduct(x: seq<u32>, y: seq<u32>): (r: seq<u32>)
    requires |x| == |y| == 32
    ensures |r| == 32
  {
    Passes(ProductWords(x, y), 2)
  }

  method FeAdd(r: array<u32>, x: array<u32>, y: array<u32>)
    requires r.Length == x.Length == y.Length == 32
    modifies r
    ensures r[..] == FeSum(old(x[..]), old(y[..]))
  {
    hide Passes;
    var i := 0;
    while i < 32
      invariant 0 <= i <= 32
      invariant forall k | 0 <= k < i :: r[k] == WAdd(old(x[k]), old(y[k]))
      invariant forall k | i <= k < 32 :: x[k] == old(x[k]) && y[k] == old(y[k])
    {
      r[i] := WAdd(x[i], y[i]);
      i := i + 1;
    }
    assert r[..] == SumWords(old(x[..]), old(y[..]));
    ReduceAddSub(r);
  }

  method FeSub(r: array<u32>, x: array<u32>, y: array<u32>)
    requires r.Length == x.Length == y.Length == 32
    modifies r
    ensures r[..] == FeDifference(old(x[..]), old(y[..]))
  {
    hide Passes;
    var t := new u32[32](i requires 0 <= i < 32 reads x => WAdd(x[i], TwoP(i)));
    var i := 0;
    while i < 32
      invariant 0 <= i <= 32
      invariant forall k | 0 <= k < 32 :: t[k] == WAdd(old(x[k]), TwoP(k))
      invariant forall k | 0 <= k < i :: r[k] == WSub(t[k], old(y[k]))
      invariant forall k | i <= k < 32 :: y[k] == old(y[k])
    {
      r[i] := WSub(t[i], y[i]);
      i := i + 1;
    }
    forall k | 0 <= k < 32
      ensures r[k] == DiffWords(old(x[..]), old(y[..]))[k]
    {
      WordDiff(old(x[k]), TwoP(k), old(y[k]));
    }
    assert r[..] == DiffWords(old(x[..]), old(y[..]));
    ReduceAddSub(r);
  }

  lemma WordDiff(a: int, b: int, c: int)
    ensures WSub(WAdd(a, b), c) == WSub(a + b, c)
  {
  }

  lemma FoldWord(a: seq<int>, b: seq<int>, k: nat, low: u32, high: int)
    requires low == W32(Conv(a, b, |a|, k)) && high == W32(Conv(a, b, |a|, k + 32))
    ensures WAdd(low, WMul(38, high)) == W32(Fold(a, b, k))
  {
    hide Conv;
    FoldWordArith(Conv(a, b, |a|, k), Conv(a, b, |a|, k + 32));
  }

  lemma FoldWordArith(x: int, y: int)
    ensures WAdd(W32(x), WMul(38, W32(y))) == W32(x + 38 * y)
  {
    WordScale(y);
    WordAdd(x, 38 * y);
  }

  lemma WordScale(y: int)
    ensures WMul(38, W32(y)) == W32(38 * y)
  {
    ModShift(38 * y, -38 * (y / WORD), WORD);
    assert 38 * (y - WORD * (y / WORD)) == 38 * y + (-38 * (y / WORD)) * WORD;
  }

  lemma WordAdd(x: int, y: int)
    ensures WAdd(W32(x), W32(y)) == W32(x + y)
  {
    ModShift(x + y, -(x / WORD) - y / WORD, WORD);
  }

  method FeMul(r: array<u32>, x: array<u32>, y: array<u32>)
    requires r.Length == x.Length == y.Length == 32
    modifies r
    ensures r[..] == FeProduct(old(x[..]), old(y[..]))
  {
    hide Conv, Passes, Fold, W32;
    var t := new u32[63](_ => 0);
    ghost var a: seq<int>, b: seq<int> := x[..], y[..];
    Multiply(t, x, y);
    var i := 32;
    while i < 63
      invariant 32 <= i <= 63
      invariant forall k | 0 <= k < 63 :: t[k] == W32(Conv(a, b, |a|, k))
      invariant forall k | 0 <= k < i - 32 :: r[k] == W32(Fold(a, b, k))
    {
      FoldWord(a, b, i - 32, t[i - 32], t[i]);
      r[i - 32] := WAdd(t[i - 32], WMul(38, t[i]));
      i := i + 1;
    }
    r[31] := t[31];
    LastFold(a, b);
    assert r[..] == ProductWords(a, b);
    ReduceMul(r);
  }

  /** Nothing is folded into limb 31. */
  lemma LastFold(a: seq<int>, b: seq<int>)
    requires |a| == |b| == 32
    ensures Fold(a, b, 31) == Conv(a, b, |a|, 31)
  {
    ConvVanishes(a, b, |a|, 63);
  }
}
