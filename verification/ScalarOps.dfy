/** Loading, adding and multiplying scalars modulo the order. */
module ScalarOps {
  import opened Words
  import opened ModArith
  import opened Limbs
  import opened Convolution
  import opened Schoolbook
  import opened Sc25519
  import opened Barrett

  /** A scalar in canonical form. */
  ghost predicate Scalar(s: seq<int>)
  {
    |s| == 32 && Within(s, 255) && Val(s) < L
  }

  method ScFrom64Bytes(r: array<u32>, x: seq<byte>)
    requires r.Length == 32 && |x| == 64
    modifies r
    ensures Scalar(r[..]) && Val(r[..]) == Val(x) % L
  {
    hide Val;
    var t := new u32[64](i requires 0 <= i < 64 => x[i]);
    assert t[..] == x;
    BarrettReduce(r, t);
  }

  method ScFrom32Bytes(r: array<u32>, x: seq<byte>)
    requires r.Length == 32 && |x| == 32
    modifies r
    ensures Scalar(r[..]) && Val(r[..]) == Val(x) % L
  {
    hide Val;
    var t := new u32[64](i requires 0 <= i < 64 => if i < 32 then x[i] else 0);
    assert t[..] == x + seq(32, _ => 0);
    PaddedValue(x, t[..]);
    BarrettReduce(r, t);
  }

  lemma PaddedValue(x: seq<int>, t: seq<int>)
    requires t == x + seq(32, _ => 0)
    ensures Val(t) == Val(x)
  {
    ValAppend(x, seq(32, _ => 0));
    ValZeros(seq(32, _ => 0));
  }

  /** The carried product of two byte sequences is a byte sequence again. */
  lemma ProductCarried(x: seq<int>, y: seq<int>, t: seq<u32>, c: seq<u32>)
    requires |x| == |y| == 32 && Within(x, 255) && Within(y, 255) && |t| == 64 && c == Carry(t, 0)
    requires forall k | 0 <= k < 64 :: t[k] == W32(Conv(x, y, |x|, k))
    ensures |c| == 64 && Within(c, 255) && Val(c) == Val(x) * Val(y)
  {
    hide Conv, Val, Pow256, Carry;
    var full := ConvSeq(x, y, |x|, 64);
    forall k | 0 <= k < 64
      ensures t[k] == full[k] && 0 <= t[k] <= 2080800
    {
      ConvBound(x, y, |x|, k, 65025, 255, 255);
      W32Id(Conv(x, y, |x|, k));
    }
    assert t == full;
    ConvValue(x, y, |x|, 64);
    assert x[..|x|] == x;
    ProductBelow(x, y);
    CarryExact(t, 0, 2080800, 2080800);
    NormalWithin(c, 255);
  }

  lemma ProductBelow(x: seq<int>, y: seq<int>)
    requires |x| == |y| == 32 && Within(x, 255) && Within(y, 255)
    ensures 0 <= Val(x) * Val(y) < 256 * Pow256(63)
  {
    hide Val, Pow256;
    ValDigits(x);
    ValDigits(y);
    Pow256Square();
    BelowSquare(Val(x), Val(y), Pow256(32));
  }

  lemma BelowSquare(a: int, b: int, w: int)
    requires 0 <= a < w && 0 <= b < w
    ensures 0 <= a * b < w * w
  {
    MulMonotone(a, w, b);
    MulMonotone(b, w - 1, w);
    MulMonotone(0, a, b);
    assert w * b == b * w && (w - 1) * w == w * w - w;
  }

  lemma {:induction false} Pow256Add(a: nat, b: nat)
    ensures Pow256(a + b) == Pow256(a) * Pow256(b)
  {
    if a > 0 {
      Pow256Add(a - 1, b);
      assert 256 * (Pow256(a - 1) * Pow256(b)) == (256 * Pow256(a - 1)) * Pow256(b);
    }
  }

  lemma Pow256Square()
    ensures 256 * Pow256(63) == Pow256(32) * Pow256(32)
  {
    Pow256Add(32, 32);
    assert Pow256(64) == 256 * Pow256(63);
  }

  method ScMul(r: array<u32>, x: array<u32>, y: array<u32>)
    requires r.Length == x.Length == y.Length == 32 && Within(x[..], 255) && Within(y[..], 255)
    modifies r
    ensures Scalar(r[..]) && Val(r[..]) == (old(Val(x[..])) * old(Val(y[..]))) % L
  {
    hide Conv, Val, Carry;
    var t := new u32[64](_ => 0);
    Multiply(t, x, y);
    ghost var p := t[..];
    CarryLimbs(t);
    ProductCarried(x[..], y[..], p, t[..]);
    BarrettReduce(r, t);
  }

  method ScAdd(r: array<u32>, x: array<u32>, y: array<u32>)
    requires r.Length == x.Length == y.Length == 32 && Scalar(x[..]) && Scalar(y[..])
    modifies r
    ensures Scalar(r[..]) && Val(r[..]) == (old(Val(x[..])) + old(Val(y[..]))) % L
  {
    hide Val, Carry;
    ghost var a, b := x[..], y[..];
    var i := 0;
    while i < 32
      invariant 0 <= i <= 32
      invariant forall k | 0 <= k < i :: r[k] == a[k] + b[k]
      invariant forall k | i <= k < 32 :: x[k] == a[k] && y[k] == b[k]
    {
      r[i] := WAdd(x[i], y[i]);
      i := i + 1;
    }
    assert r[..] == ZipAdd(a, b);
    CarryLimbs(r);
    SumCarried(a, b, r[..]);
    ReduceAddSub(r);
    SumResidue(Val(a), Val(b), Val(r[..]));
  }

  lemma SumCarried(a: seq<int>, b: seq<int>, c: seq<u32>)
    requires Scalar(a) && Scalar(b) && c == Carry(ZipAdd(a, b), 0)
    ensures |c| == 32 && Within(c, 255) && 0 <= Val(a) && 0 <= Val(b) && Val(c) == Val(a) + Val(b)
  {
    hide Val, Carry, Pow256;
    ValZipAdd(a, b);
    ValDigits(a);
    ValDigits(b);
    Reciprocal();
    assert |ZipAdd(a, b)| - 1 == 31;
    CarryExact(ZipAdd(a, b), 0, 510, 510);
    NormalWithin(c, 255);
  }

  lemma SumResidue(a: int, b: int, r: int)
    requires 0 <= a < L && 0 <= b < L && r == if a + b >= L then a + b - L else a + b
    ensures r < L && r == (a + b) % L
  {
    DivModUnique(a + b, L, if a + b >= L then 1 else 0, r);
  }

  /** `sc25519_to32bytes` copies limb by limb; scalars are bytes already. */
  method ScTo32Bytes(x: array<u32>) returns (r: seq<byte>)
    requires x.Length == 32 && Scalar(x[..])
    ensures |r| == 32 && Val(r) == Val(x[..])
  {
    hide Val;
    r := seq(32, i requires 0 <= i < 32 reads x => x[i] % 256);
    assert r == x[..];
  }
}
