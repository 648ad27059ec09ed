/** Schoolbook products of limb sequences, folded modulo p. */
module Convolution {
  import opened Words
  import opened ModArith
  import opened Limbs
  import opened Field

  function At(s: seq<int>, i: int): int
  {
    if 0 <= i < |s| then s[i] else 0
  }

  /** Sum over j < n of a[j] * b[k - j]. */
  function Conv(a: seq<int>, b: seq<int>, n: nat, k: int): int
    decreases n
  {
    if n == 0 then 0 else Conv(a, b, n - 1, k) + At(a, n - 1) * At(b, k - (n - 1))
  }

  lemma ConvNone(a: seq<int>, b: seq<int>, k: int)
    ensures Conv(a, b, 0, k) == 0
  {
  }

  function ConvSeq(a: seq<int>, b: seq<int>, n: nat, len: nat): seq<int>
  {
    seq(len, k => Conv(a, b, n, k))
  }

  /** `c * b` shifted up by `n` limbs. */
  function Row(c: int, b: seq<int>, n: nat, len: nat): seq<int>
  {
    seq(len, k => c * At(b, k - n))
  }

  lemma RowUnshifted(c: int, b: seq<int>, len: nat)
    requires |b| <= len
    ensures Val(Row(c, b, 0, len)) == c * Val(b)
  {
    hide Val;
    var r := Row(c, b, 0, len);
    forall k | 0 <= k < len
      ensures r[k] == if k < |b| then c * b[k] else 0
    {
      assert r[k] == c * At(b, k);
    }
    assert r[..|b|] == Scale(c, b);
    ValSplit(r, |b|);
    ValZeros(r[|b|..]);
    ValScale(c, b);
  }

  lemma {:induction false} RowValue(c: int, b: seq<int>, n: nat, len: nat)
    requires n + |b| <= len
    ensures Val(Row(c, b, n, len)) == (c * Val(b)) * Pow256(n)
    decreases n
  {
    if n == 0 {
      RowUnshifted(c, b, len);
    } else {
      var r := Row(c, b, n, len);
      ShiftedRow(c, b, n, len);
      assert Val(r) == r[0] + 256 * Val(r[1..]) && Pow256(n) == 256 * Pow256(n - 1);
      hide Val, Pow256, Row;
      RowValue(c, b, n - 1, len - 1);
      ShiftOut(c * Val(b), Pow256(n - 1));
    }
  }

  lemma ShiftedRow(c: int, b: seq<int>, n: nat, len: nat)
    requires 0 < n <= len
    ensures Row(c, b, n, len)[0] == 0 && Row(c, b, n, len)[1..] == Row(c, b, n - 1, len - 1)
  {
    assert At(b, 0 - n) == 0;
    assert c * 0 == 0;
  }

  lemma ShiftOut(x: int, w: int)
    ensures 256 * (x * w) == x * (256 * w)
  {
  }

  /** The convolution of two sequences has the product of their values. */
  lemma {:induction false} ConvValue(a: seq<int>, b: seq<int>, n: nat, len: nat)
    requires n <= |a| && n + |b| <= len
    ensures Val(ConvSeq(a, b, n, len)) == Val(a[..n]) * Val(b)
  {
    if n == 0 {
      ValZeros(ConvSeq(a, b, 0, len));
    } else {
      var c := a[n - 1];
      assert ConvSeq(a, b, n, len) == ZipAdd(ConvSeq(a, b, n - 1, len), Row(c, b, n - 1, len));
      ValZipAdd(ConvSeq(a, b, n - 1, len), Row(c, b, n - 1, len));
      RowValue(c, b, n - 1, len);
      ConvValue(a, b, n - 1, len);
      ValTop(a[..n]);
      assert a[..n][..n - 1] == a[..n - 1];
      Distribute(Val(a[..n - 1]), c, Pow256(n - 1), Val(b));
    }
  }

  lemma Distribute(x: int, c: int, w: int, y: int)
    ensures x * y + (c * y) * w == (x + c * w) * y
  {
    assert (c * y) * w == (c * w) * y;
  }

  lemma {:induction false} ConvBound(a: seq<int>, b: seq<int>, n: nat, k: int, ab: int, hiA: nat, hiB: nat)
    requires Within(a, hiA) && Within(b, hiB) && ab == hiA * hiB
    ensures 0 <= Conv(a, b, n, k) <= n * ab
  {
    if n > 0 {
      ConvBound(a, b, n - 1, k, ab, hiA, hiB);
      var x, y := At(a, n - 1), At(b, k - (n - 1));
      MulMonotone(x, hiA, y);
      MulMonotone(y, hiB, hiA);
      MulMonotone(0, x, y);
      assert n * ab == (n - 1) * ab + ab;
    }
  }

  /** Terms that reach below index 0 or past the end of `b` contribute nothing. */
  lemma {:induction false} ConvLower(a: seq<int>, b: seq<int>, n: nat, m: nat, k: int)
    requires n <= m && (m <= n || k < n)
    ensures Conv(a, b, m, k) == Conv(a, b, n, k)
    decreases m
  {
    if n < m {
      ConvLower(a, b, n, m - 1, k);
    }
  }

  lemma {:induction false} ConvVanishes(a: seq<int>, b: seq<int>, n: nat, k: int)
    requires k >= n + |b| - 1
    ensures Conv(a, b, n, k) == 0
    decreases n
  {
    if n > 0 {
      ConvVanishes(a, b, n - 1, k);
    }
  }

  /** Limb i of the product modulo 2^256 - 38: limb i + 32 comes back multiplied by 38. */
  function Fold(a: seq<int>, b: seq<int>, i: int): int
  {
    Conv(a, b, |a|, i) + 38 * Conv(a, b, |a|, i + 32)
  }

  function FoldSeq(a: seq<int>, b: seq<int>): seq<int>
  {
    seq(32, i => Fold(a, b, i))
  }

  /** The folded limbs as the 32-bit accumulators hold them. */
  function ProductWords(a: seq<int>, b: seq<int>): (r: seq<u32>)
    ensures |r| == 32
  {
    seq(32, i => W32(Fold(a, b, i)))
  }

  lemma FoldSplit(a: seq<int>, b: seq<int>, full: seq<int>)
    requires |a| == 32 && full == ConvSeq(a, b, |a|, 64)
    ensures FoldSeq(a, b) == ZipAdd(full[..32], Scale(38, full[32..]))
  {
    hide Conv;
    forall i | 0 <= i < 32
      ensures FoldSeq(a, b)[i] == full[i] + 38 * full[i + 32]
    {
    }
  }

  lemma FoldValue(a: seq<int>, b: seq<int>)
    requires |a| == 32 && |b| == 32
    ensures Eq(Val(FoldSeq(a, b)), Val(a) * Val(b))
  {
    var full := ConvSeq(a, b, |a|, 64);
    FoldSplit(a, b, full);
    hide *;
    var low, high := full[..32], full[32..];
    ValZipAdd(low, Scale(38, high));
    ValScale(38, high);
    ValSplit(full, 32);
    ConvValue(a, b, |a|, 64);
    assert a[..|a|] == a;
    FoldMultiple(Val(low), Val(high), Val(a) * Val(b), Val(FoldSeq(a, b)), Pow256(32));
  }

  lemma FoldMultiple(low: int, high: int, prod: int, folded: int, w: int)
    requires w == Pow256(32) && prod == low + high * w && folded == low + 38 * high
    ensures Eq(folded, prod)
  {
    Weights();
    CongByMultiple(folded, prod, -2 * high, P);
  }

  lemma FoldBound(a: seq<int>, b: seq<int>, i: nat, hi: nat)
    requires |a| == 32 && Within(a, hi) && Within(b, hi)
    ensures 0 <= Fold(a, b, i) <= 1248 * (hi * hi)
  {
    ConvBound(a, b, |a|, i, hi * hi, hi, hi);
    ConvBound(a, b, |a|, i + 32, hi * hi, hi, hi);
  }

  /** Limbs up to 511 leave every accumulator clear of the word size. */
  lemma ProductWordsExact(a: seq<int>, b: seq<int>)
    requires |a| == 32 && Within(a, 511) && Within(b, 511)
    ensures ProductWords(a, b) == FoldSeq(a, b)
    ensures Within(FoldSeq(a, b), 0x1370_0000)
  {
    forall i | 0 <= i < 32
      ensures ProductWords(a, b)[i] == FoldSeq(a, b)[i] && 0 <= FoldSeq(a, b)[i] <= 0x1370_0000
    {
      FoldBound(a, b, i, 511);
    }
  }

  // ------------------------------------------------------------------------
  // Squares: each cross term occurs twice

  /** Sum over lo <= j < hi of a[j] * a[k - j]. */
  function Cross(a: seq<int>, k: int, lo: int, hi: int): int
    decreases hi - lo
  {
    if hi <= lo then 0 else Cross(a, k, lo, hi - 1) + At(a, hi - 1) * At(a, k - (hi - 1))
  }

  lemma CrossNone(a: seq<int>, k: int, lo: int)
    ensures Cross(a, k, lo, lo) == 0
  {
  }

  lemma {:induction false} CrossIsConv(a: seq<int>, k: int, n: nat)
    ensures Cross(a, k, 0, n) == Conv(a, a, n, k)
  {
    if n > 0 {
      CrossIsConv(a, k, n - 1);
    }
  }

  lemma {:induction false} CrossSplit(a: seq<int>, k: int, lo: int, mid: int, hi: int)
    requires lo <= mid <= hi
    ensures Cross(a, k, lo, hi) == Cross(a, k, lo, mid) + Cross(a, k, mid, hi)
    decreases hi - mid
  {
    if mid < hi {
      CrossSplit(a, k, lo, mid, hi - 1);
    }
  }

  /** Sums over a range mirrored at k/2: twice the lower half plus the middle term, if any. */
  lemma {:induction false} CrossMirror(a: seq<int>, k: int, lo: int, hi: int, half: int)
    requires lo + hi == k + 1 && lo <= hi && half == (k + 1) / 2
    ensures Cross(a, k, lo, hi)
         == 2 * Cross(a, k, lo, half) + if k % 2 == 0 && lo < hi then At(a, k / 2) * At(a, k / 2) else 0
    decreases hi - lo
  {
    if hi - lo >= 2 {
      CrossMirror(a, k, lo + 1, hi - 1, half);
      CrossSplit(a, k, lo, lo + 1, hi);
      CrossSplit(a, k, lo, lo + 1, half);
      assert Cross(a, k, lo, lo) == 0;
      assert Cross(a, k, lo, lo + 1) == At(a, lo) * At(a, k - lo);
      assert Cross(a, k, lo + 1, hi) == Cross(a, k, lo + 1, hi - 1) + At(a, hi - 1) * At(a, k - (hi - 1));
    } else if hi - lo == 1 {
      assert Cross(a, k, lo, lo) == 0;
    }
  }
}
