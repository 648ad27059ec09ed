/** `barrett_reduce`: the quotient is estimated from the high limbs only, its limbs are left
    uncarried, and two conditional subtractions finish the job. */
module Barrett {
  import opened Words
  import opened ModArith
  import opened Limbs
  import opened Convolution
  import opened Schoolbook
  import opened Sc25519
  import opened Field

  // ------------------------------------------------------------------------
  // The quotient estimate

  /** Dropping the low columns and rounding down loses less than three multiples of the order,
      and never overshoots. `b` is 256^31, `x` is `q1 * b + x0`, `d` the dropped columns. */
  lemma QuotientEstimate(x: int, q1: int, x0: int, q: int, d: int, b: int, l: int, mu: int)
    requires b > 0 && 16 * b <= l && 0 <= x0 < b && 0 <= q1 < 65536 * b && x == q1 * b + x0
    requires mu * l <= b * (65536 * b) < (mu + 1) * l
    requires 0 <= d < 8416 * b && 0 <= q
    requires q * (65536 * b) <= q1 * mu - d < (q + 1) * (65536 * b)
    ensures 0 <= x - q * l < 3 * l
  {
    QuotientNotTooLarge(x, q1, x0, q, d, b, l, mu);
    QuotientNotTooSmall(x, q1, x0, q, d, b, l, mu);
  }

  lemma QuotientNotTooLarge(x: int, q1: int, x0: int, q: int, d: int, b: int, l: int, mu: int)
    requires b > 0 && l > 0 && 0 <= x0 && 0 <= q1 && x == q1 * b + x0
    requires mu * l <= b * (65536 * b) && 0 <= d
    requires q * (65536 * b) <= q1 * mu - d
    ensures q * l <= x
  {
    var c := 65536 * b;
    assert (q * l) * c <= (q1 * b) * c by {
      MulMonotone(q * c, q1 * mu, l);
      assert (q * c) * l == (q * l) * c;
      MulMonotone(mu * l, b * c, q1);
      assert (q1 * mu) * l == (mu * l) * q1;
      assert (b * c) * q1 == (q1 * b) * c;
    }
    MulCancel(q * l, q1 * b, c);
  }

  lemma MulCancel(a: int, b: int, c: int)
    requires c > 0 && a * c <= b * c
    ensures a <= b
  {
    if a > b {
      MulMonotone(b + 1, a, c);
    }
  }

  lemma QuotientNotTooSmall(x: int, q1: int, x0: int, q: int, d: int, b: int, l: int, mu: int)
    requires b > 0 && 16 * b <= l && 0 <= x0 < b && 0 <= q1 < 65536 * b && x == q1 * b + x0
    requires b * (65536 * b) < (mu + 1) * l && 0 <= d < 8416 * b
    requires q1 * mu - d < (q + 1) * (65536 * b)
    ensures x - q * l < 3 * l
  {
    var c := 65536 * b;
    if x >= q * l + 3 * l {
      ScaledDividend(x, q1, x0, q, b, c, l);
      ScaledQuotient(q1, q, d, c, l, mu);
      ScaledReciprocal(q1, b * c, l, mu);
      MulMonotone(x0, b, c);
      MulMonotone(16 * b, l, c);
      assert (16 * b) * c == 16 * (b * c);
      MulMonotone(q1, c, l);
      MulMonotone(d, 8416 * b, l);
      MulMonotone(1, b, l);
      ScaledShift(b, l);
      TooSmallBound(q1 * (b * c), x0 * c, ((q + 1) * c) * l, l * c, q1 * (mu * l), d * l, q1 * l, b * c, b * l);
      assert false;
    }
  }

  lemma ScaledDividend(x: int, q1: int, x0: int, q: int, b: int, c: int, l: int)
    requires x == q1 * b + x0 && x >= q * l + 3 * l && c > 0
    ensures q1 * (b * c) + x0 * c >= ((q + 1) * c) * l + 2 * (l * c)
  {
    MulMonotone(q * l + 3 * l, x, c);
    assert x * c == q1 * (b * c) + x0 * c;
    assert (q * l + 3 * l) * c == (q * l) * c + 3 * (l * c);
    assert ((q + 1) * c) * l == (q * l) * c + l * c;
  }

  lemma ScaledQuotient(q1: int, q: int, d: int, c: int, l: int, mu: int)
    requires q1 * mu - d < (q + 1) * c && l > 0
    ensures ((q + 1) * c) * l > q1 * (mu * l) - d * l
  {
    MulMonotone(q1 * mu - d + 1, (q + 1) * c, l);
    assert (q1 * mu - d + 1) * l == (q1 * mu) * l - d * l + l;
    assert (q1 * mu) * l == q1 * (mu * l);
  }

  lemma ScaledReciprocal(q1: int, bc: int, l: int, mu: int)
    requires bc < (mu + 1) * l && 0 <= q1
    ensures q1 * (mu * l) >= q1 * bc - q1 * l
  {
    assert (mu + 1) * l == mu * l + l;
    MulMonotone(bc - l, mu * l, q1);
    assert (bc - l) * q1 == q1 * bc - q1 * l && (mu * l) * q1 == q1 * (mu * l);
  }

  lemma ScaledShift(b: int, l: int)
    ensures l * (65536 * b) == 65536 * (b * l) && (65536 * b) * l == 65536 * (b * l) && (8416 * b) * l == 8416 * (b * l)
  {
  }

  /** The products of the previous lemmas, combined linearly. */
  lemma TooSmallBound(q1bc: int, x0c: int, t: int, lc: int, q1mul: int, dl: int, q1l: int, bc: int, bl: int)
    requires t > q1mul - dl && q1mul >= q1bc - q1l
    requires x0c <= bc && 16 * bc <= lc && q1l <= lc && dl <= 8416 * bl && lc == 65536 * bl
    requires bl > 0
    ensures q1bc + x0c < t + 2 * lc
  {
  }

  // ------------------------------------------------------------------------
  // No accumulator of the second product reaches 2^32

  /** Column `k` past the end of `b` has only the terms that still meet it. */
  lemma {:induction false} ConvTail(a: seq<int>, b: seq<int>, n: nat, k: int, hi: int, ab: int)
    requires Within(a, 255) && Within(b, 255) && ab == 65025 && k >= |b| && hi == k - |b| + 1
    ensures 0 <= Conv(a, b, n, k) <= (if n <= hi then 0 else (n - hi) * ab)
  {
    if n > 0 {
      ConvTail(a, b, n - 1, k, hi, ab);
      var x, y := At(a, n - 1), At(b, k - (n - 1));
      MulMonotone(x, 255, y);
      MulMonotone(0, x, y);
      if n - 1 < hi {
        assert y == 0;
      }
    }
  }

  /** 32, 31, .. 0: how many products meet in limb `j` of the quotient. */
  function Terms(): (r: seq<int>)
    ensures |r| == 33
  {
    seq(33, j => 32 - j)
  }

  function Total(n: nat): int
  {
    if n == 0 then 0 else Total(n - 1) + MLimb(n - 1)
  }

  lemma {:induction false} TermsShift(n: nat, k: nat)
    requires n <= k + 1 <= 32
    ensures Conv(M(), Terms(), n, k + 1) == Conv(M(), Terms(), n, k) - Total(n)
  {
    hide MLimb;
    if n > 0 {
      TermsShift(n - 1, k);
      var i := n - 1;
      assert At(Terms(), k + 1 - i) == At(Terms(), k - i) - 1;
      assert At(M(), i) == MLimb(i);
      LessOne(MLimb(i), At(Terms(), k - i));
    }
  }

  lemma LessOne(x: int, z: int)
    ensures x * (z - 1) == x * z - x
  {
  }

  /** Column `k` of the modulus against `Terms`. */
  function Column(k: nat): int
  {
    Conv(M(), Terms(), k + 1, k)
  }

  lemma ColumnStep(k: nat)
    requires k < 31
    ensures Column(k + 1) == Column(k) - Total(k + 1) + 32 * MLimb(k + 1)
    ensures Total(k + 2) == Total(k + 1) + MLimb(k + 1)
  {
    TermsShift(k + 1, k);
    assert At(M(), k + 1) == MLimb(k + 1) && At(Terms(), 0) == 32;
  }

  lemma ColumnZero()
    ensures Column(0) == 7584 && Total(1) == 237
  {
    assert At(M(), 0) == 237 && At(Terms(), 0) == 32;
    assert Conv(M(), Terms(), 0, 0) == 0 && Total(0) == 0;
  }

  lemma Columns0To4()
    ensures Column(1) == 14099 && Total(2) == 448
    ensures Column(2) == 21491 && Total(3) == 693
    ensures Column(3) == 23742 && Total(4) == 785
    ensures Column(4) == 23789 && Total(5) == 811
  {
    hide Column, Total;
    ColumnZero();
    ColumnStep(0);
    ColumnStep(1);
    ColumnStep(2);
    ColumnStep(3);
  }

  lemma Columns4To8()
    ensures Column(5) == 26146 && Total(6) == 910
    ensures Column(6) == 25812 && Total(7) == 928
    ensures Column(7) == 27700 && Total(8) == 1016
    ensures Column(8) == 33532 && Total(9) == 1230
  {
    hide Column, Total;
    Columns0To4();
    ColumnStep(4);
    ColumnStep(5);
    ColumnStep(6);
    ColumnStep(7);
  }

  lemma Columns8To12()
    ensures Column(9) == 37294 && Total(10) == 1386
    ensures Column(10) == 43812 && Total(11) == 1633
    ensures Column(11) == 47363 && Total(12) == 1795
    ensures Column(12) == 52672 && Total(13) == 2017
  {
    hide Column, Total;
    Columns4To8();
    ColumnStep(8);
    ColumnStep(9);
    ColumnStep(10);
    ColumnStep(11);
  }

  lemma Columns12To15()
    ensures Column(13) == 58623 && Total(14) == 2266
    ensures Column(14) == 63461 && Total(15) == 2488
    ensures Column(15) == 61613 && Total(16) == 2508
  {
    hide Column, Total;
    Columns8To12();
    ColumnStep(12);
    ColumnStep(13);
    ColumnStep(14);
  }

  /** The first sixteen columns, where the limbs of the modulus are not zero. */
  lemma ColumnsLow(k: nat)
    requires k <= 15
    ensures 0 <= Column(k) <= 63461
    ensures Column(15) == 61613 && Total(16) == 2508
  {
    hide Column, Total;
    ColumnZero();
    Columns0To4();
    Columns4To8();
    Columns8To12();
    Columns12To15();
  }

  lemma {:induction false} ColumnsHigh(k: nat)
    requires 15 <= k <= 30
    ensures Column(k) == 61613 - 2508 * (k - 15) && Total(k + 1) == 2508
  {
    if k == 15 {
      ColumnsLow(15);
    } else {
      ColumnsHigh(k - 1);
      ColumnStep(k - 1);
    }
  }

  lemma ColumnBound(k: nat)
    requires k <= 32
    ensures 0 <= Conv(M(), Terms(), |M()|, k) <= 63461
  {
    hide Conv, Total;
    if k <= 15 {
      ColumnsLow(k);
      ConvLower(M(), Terms(), k + 1, |M()|, k);
    } else if k <= 30 {
      ColumnsHigh(k);
      ConvLower(M(), Terms(), k + 1, |M()|, k);
    } else {
      ColumnsHigh(30);
      ColumnStep(30);
      if k == 32 {
        TermsShift(32, 31);
      }
    }
  }

  /** A quotient limb holds at most 65025 per product, the first one a carry besides. */
  predicate QuotientLimbs(q: seq<int>)
  {
    |q| == 33 && forall j | 0 <= j < 33 :: 0 <= q[j] <= 65025 * (32 - j) + (if j == 0 then 8500 else 0)
  }

  lemma {:induction false} SecondProductTerms(q: seq<int>, n: nat, k: nat)
    requires QuotientLimbs(q) && n <= 32
    ensures 0 <= Conv(M(), q, n, k) <= 65025 * Conv(M(), Terms(), n, k) + (if k < n then 255 * 8500 else 0)
  {
    hide MLimb;
    if n > 0 {
      SecondProductTerms(q, n - 1, k);
      var i := n - 1;
      var x, y, z := At(M(), i), At(q, k - i), At(Terms(), k - i);
      assert 0 <= x <= 255 && 0 <= y <= 65025 * z + (if k == i then 8500 else 0);
      hide At;
      TermBound(x, y, z, if k == i then 8500 else 0);
    }
  }

  lemma TermBound(x: int, y: int, z: int, e: int)
    requires 0 <= x <= 255 && 0 <= y <= 65025 * z + e && 0 <= e
    ensures 0 <= x * y <= 65025 * (x * z) + 255 * e
  {
    MulMonotone(0, x, y);
    MulMonotone(y, 65025 * z + e, x);
    MulMonotone(x, 255, e);
    assert (65025 * z + e) * x == 65025 * (x * z) + x * e;
  }

  /** Bounding the limbs of `m` by 255 would not do; their actual values keep every sum of the
      second product, and the carry added to it, below 2^32. */
  lemma SecondProductBound(q: seq<int>, k: nat)
    requires QuotientLimbs(q) && k <= 32
    ensures 0 <= Conv(M(), q, |M()|, k) <= 4130000000
  {
    hide Conv;
    SecondProductTerms(q, |M()|, k);
    ColumnBound(k);
  }

  // ------------------------------------------------------------------------
  // From limbs to the estimate

  /** The two carries that precede cutting off the quotient. */
  function CutOff(h: seq<int>): (q: seq<int>)
    requires |h| >= 3
    ensures |q| == |h| - 2
  {
    h[2..][0 := h[2] + (h[1] + h[0] / 256) / 256]
  }

  lemma CutOffValue(h: seq<int>)
    requires |h| >= 3 && 0 <= h[0] && 0 <= h[1]
    ensures Val(CutOff(h)) == Val(h) / 65536
  {
    var r := h[2..];
    assert Val(h) == h[0] + 256 * (h[1] + 256 * Val(r)) by {
      assert h[1..][1..] == r;
    }
    ValUpdate(r, 0, CutOff(h)[0]);
    assert Pow256(0) == 1;
    hide Val;
    CutOffArith(h[0], h[1], Val(r));
  }

  lemma CutOffArith(a: int, b: int, r: int)
    requires 0 <= a && 0 <= b
    ensures (a + 256 * (b + 256 * r)) / 65536 == r + (b + a / 256) / 256
  {
    var c := b + a / 256;
    assert a + 256 * (b + 256 * r) == a % 256 + 256 * (c % 256) + 65536 * (r + c / 256);
  }

  /** The limbs of the first product from column 31 on. */
  function HighColumns(x: seq<int>): (h: seq<int>)
    requires |x| == 64
    ensures |h| == 35
  {
    ConvSeq(Mu(), x[31..], |Mu()|, 66)[31..]
  }

  lemma HighColumnsBound(x: seq<int>, k: nat)
    requires |x| == 64 && Within(x, 255) && k < 35
    ensures 0 <= HighColumns(x)[k] <= 33 * 65025
    ensures k >= 2 ==> HighColumns(x)[k] <= 65025 * (34 - k)
  {
    hide Conv;
    ModulusBytes();
    assert HighColumns(x)[k] == Conv(Mu(), x[31..], |Mu()|, 31 + k);
    assert Within(x[31..], 255);
    ConvBound(Mu(), x[31..], |Mu()|, 31 + k, 65025, 255, 255);
    if k >= 2 {
      ConvTail(Mu(), x[31..], |Mu()|, 31 + k, k - 1, 65025);
    }
  }

  lemma QuotientLimbsHold(x: seq<int>)
    requires |x| == 64 && Within(x, 255)
    ensures QuotientLimbs(CutOff(HighColumns(x)))
  {
    hide HighColumns;
    var h := HighColumns(x);
    HighColumnsBound(x, 0);
    HighColumnsBound(x, 1);
    forall j | 0 <= j < 33
      ensures 0 <= CutOff(h)[j] <= 65025 * (32 - j) + (if j == 0 then 8500 else 0)
    {
      HighColumnsBound(x, j + 2);
      if j == 0 {
        assert (h[1] + h[0] / 256) / 256 <= 8500;
      } else {
        assert CutOff(h)[j] == h[j + 2];
      }
    }
  }

  lemma Reciprocal()
    ensures 16 * Pow256(31) <= L < 32 * Pow256(31) && Pow256(33) == 65536 * Pow256(31) && Pow256(32) == 256 * Pow256(31)
    ensures MU * L <= Pow256(31) * (65536 * Pow256(31)) < (MU + 1) * L
  {
    Weights();
    assert Pow256(33) == 256 * Pow256(32);
    hide Pow256;
  }

  /** The estimate made from the cut-off first product. */
  lemma QuotientCorrect(x: seq<int>)
    requires |x| == 64 && Within(x, 255)
    ensures 0 <= Val(CutOff(HighColumns(x)))
    ensures 0 <= Val(x) - Val(CutOff(HighColumns(x))) * L < 3 * L
  {
    hide Conv, Val, Pow256, HighColumns;
    var full := ConvSeq(Mu(), x[31..], |Mu()|, 66);
    var low, high, top := full[..31], HighColumns(x), x[31..];
    var q := CutOff(high);
    var b := Pow256(31);
    assert Val(full) == MU * Val(top) by {
      ConvValue(Mu(), top, |Mu()|, 66);
      assert Mu()[..|Mu()|] == Mu();
      MuValue();
    }
    assert Val(full) == Val(low) + Val(high) * b by {
      ValSplit(full, 31);
      HighColumnsAre(x);
    }
    assert Val(q) == Val(high) / 65536 by {
      HighColumnsBound(x, 0);
      HighColumnsBound(x, 1);
      CutOffValue(high);
    }
    assert 0 <= Val(low) < 8416 * b by {
      LowColumnsBound(x);
    }
    assert 0 <= Val(top) < 65536 * b by {
      ValDigits(top);
      Reciprocal();
    }
    assert 0 <= Val(x[..31]) < b && Val(x) == Val(x[..31]) + Val(top) * b by {
      ValDigits(x[..31]);
      ValSplit(x, 31);
    }
    Reciprocal();
    HighNonNegative(x);
    QuotientRange(Val(high), Val(low), Val(q), b, Val(full));
    QuotientEstimate(Val(x), Val(top), Val(x[..31]), Val(q), Val(low), b, L, MU);
  }

  lemma HighColumnsAre(x: seq<int>)
    requires |x| == 64
    ensures HighColumns(x) == ConvSeq(Mu(), x[31..], |Mu()|, 66)[31..]
  {
  }

  lemma HighNonNegative(x: seq<int>)
    requires |x| == 64 && Within(x, 255)
    ensures 0 <= Val(HighColumns(x))
  {
    hide HighColumns, Val;
    forall k | 0 <= k < 35
      ensures 0 <= HighColumns(x)[k] <= 33 * 65025
    {
      HighColumnsBound(x, k);
    }
    ValBound(HighColumns(x), 33 * 65025);
  }

  lemma LowColumnsBound(x: seq<int>)
    requires |x| == 64 && Within(x, 255)
    ensures 0 <= Val(ConvSeq(Mu(), x[31..], |Mu()|, 66)[..31]) < 8416 * Pow256(31)
  {
    hide Conv, Val, Pow256;
    var low := ConvSeq(Mu(), x[31..], |Mu()|, 66)[..31];
    ModulusBytes();
    assert Within(x[31..], 255);
    forall k | 0 <= k < 31
      ensures 0 <= low[k] <= 33 * 65025
    {
      ConvBound(Mu(), x[31..], |Mu()|, k, 65025, 255, 255);
    }
    ValBound(low, 33 * 65025);
  }

  lemma QuotientRange(h: int, d: int, q: int, b: int, full: int)
    requires b > 0 && 0 <= h && q == h / 65536 && full == d + h * b
    ensures 0 <= q && q * (65536 * b) <= full - d < (q + 1) * (65536 * b)
  {
    var r := h % 65536;
    assert h == 65536 * q + r;
    assert h * b == (65536 * q) * b + r * b;
    assert (65536 * q) * b == q * (65536 * b) && (q + 1) * (65536 * b) == q * (65536 * b) + 65536 * b;
    MulMonotone(0, r, b);
    MulMonotone(r, 65535, b);
  }

  // ------------------------------------------------------------------------
  // The remainder

  /** The second product, carried: its low 32 limbs are those of quotient times order. */
  lemma SecondProductCarried(q: seq<int>, r: seq<u32>, c: seq<u32>) returns (e: int)
    requires QuotientLimbs(q) && |r| == 33 && c == Carry(r, 0)
    requires forall k | 0 <= k < 33 :: r[k] == W32(Conv(M(), q, |M()|, k))
    ensures Normal(c) && |c| == 33 && Within(c[..32], 255)
    ensures Val(c[..32]) == Val(q) * L - e * Pow256(32)
  {
    hide Conv, Val, Pow256, Carry, M;
    var full := ConvSeq(M(), q, |M()|, 65);
    forall k | 0 <= k < 33
      ensures r[k] == full[k] && 0 <= r[k] <= 4130000000
    {
      SecondProductBound(q, k);
      W32Id(Conv(M(), q, |M()|, k));
    }
    assert full[..33] == r;
    ValSplit(full, 33);
    ConvValue(M(), q, |M()|, 65);
    assert M()[..|M()|] == M();
    MValue();
    CarriedTop(r, c);
    Reciprocal();
    e := c[32] + 256 * Val(full[33..]);
    SplitWeight(Val(full[33..]), c[32], Pow256(32));
  }

  lemma SplitWeight(a: int, b: int, w: int)
    ensures a * (256 * w) + b * w == (b + 256 * a) * w
  {
  }

  lemma CarriedTop(r: seq<u32>, c: seq<u32>)
    requires |r| == 33 && Within(r, 4130000000) && c == Carry(r, 0)
    ensures Normal(c) && |c| == 33 && Within(c[..32], 255)
    ensures Val(r) == Val(c[..32]) + c[32] * Pow256(32)
  {
    hide Val, Pow256, Carry;
    ValBound(r, 4130000000);
    assert Pow256(|r|) == 256 * Pow256(|r| - 1) by {
      Reciprocal();
      assert |r| == 33;
    }
    CarryExact(r, 0, 4130000000, 16500000);
    ValTop(c);
    assert c[..32] == c[..|c| - 1];
  }

  /** What the borrow loop leaves is the true remainder, below three times the order. */
  lemma RemainderExact(x: seq<int>, q: seq<int>, c: seq<int>, t: seq<int>, borrow: int, e: int)
    requires |x| == 64 && Within(x, 255) && 0 <= Val(x) - Val(q) * L < 3 * L
    requires |t| == 32 && Within(t, 255) && |c| == 32
    requires Val(c) == Val(q) * L - e * Pow256(32)
    requires Val(t) == Val(x[..32]) - Val(c) + borrow * Pow256(32)
    ensures Val(t) == Val(x) - Val(q) * L
  {
    hide Val, Pow256;
    var w := Pow256(32);
    ValSplit(x, 32);
    ValDigits(t);
    assert 3 * L < w by {
      Reciprocal();
    }
    var h := Val(x[32..]);
    SameResidue(Val(t), Val(x) - Val(q) * L, e, borrow, h, w);
  }

  lemma SameResidue(t: int, r: int, e: int, b: int, h: int, w: int)
    requires 0 <= t < w && 0 <= r < w && t == r - h * w + e * w + b * w
    ensures t == r
  {
    var a := e + b - h;
    assert t == r + a * w;
    if a >= 1 {
      MulMonotone(1, a, w);
    } else if a <= -1 {
      MulMonotone(a, -1, w);
    }
  }

  /** `carry = r[i] >> 8; r[i + 1] += carry; r[i] &= 0xff` up to the last limb. */
  method CarryLimbs(r: array<u32>)
    requires r.Length >= 1
    modifies r
    ensures r[..] == Carry(old(r[..]), 0)
  {
    hide W32, Carry, Carrying;
    ghost var s := r[..];
    ghost var c := Carry(s, 0);
    CarryStart(s, 0);
    ghost var u: u32 := 0;
    W32Id(s[0]);
    var i := 0;
    while i < r.Length - 1
      invariant 0 <= i <= r.Length - 1
      invariant Carrying(s, c, i, u)
      invariant r[i] == W32(u + s[i])
      invariant forall k | 0 <= k < i :: r[k] == c[k]
      invariant forall k | i < k < r.Length :: r[k] == s[k]
    {
      CarryStep(s, c, i, u);
      var carry := r[i] / 256;
      r[i + 1] := WAdd(r[i + 1], carry);
      r[i] := r[i] % 256;
      u := carry;
      i := i + 1;
    }
    CarryStep(s, c, i, u);
    assert r[..] == c;
  }

  /** The first product, from column 31 on. */
  method FirstProduct(q2: array<u32>, x: array<u32>)
    requires q2.Length == 66 && x.Length == 64 && q2 != x && Within(x[..], 255)
    requires forall k | 0 <= k < 66 :: q2[k] == 0
    modifies q2
    ensures q2[31..66] == HighColumns(x[..])
  {
    hide Conv, MuLimb;
    ghost var h := HighColumns(x[..]);
    ghost var y := x[31..64];
    assert y == x[..][31..];
    var mu := new u32[33](i => MuLimb(i));
    assert mu[..] == Mu();
    MultiplyColumns(q2, 31, 66, mu, x, 31, 33);
    forall k | 0 <= k < 35
      ensures q2[31..66][k] == h[k]
    {
      HighColumnsBound(x[..], k);
      W32Id(h[k]);
    }
  }

  lemma CutOffWords(a: int, b: int, c: int)
    requires 0 <= a <= 33 * 65025 && 0 <= b <= 33 * 65025 && 0 <= c <= 33 * 65025
    ensures WAdd(b, a / 256) == b + a / 256
    ensures WAdd(c, (b + a / 256) / 256) == c + (b + a / 256) / 256
  {
  }

  lemma CutOffLimbs(h: seq<int>, q: seq<int>)
    requires |h| == 35 && |q| == 33 && q[0] == h[2] + (h[1] + h[0] / 256) / 256
    requires forall j | 1 <= j < 33 :: q[j] == h[j + 2]
    ensures q == CutOff(h)
  {
    assert forall j | 1 <= j < 33 :: CutOff(h)[j] == h[2..][j] == h[j + 2];
  }

  /** `q2[32] += q2[31] >> 8; q2[33] += q2[32] >> 8` */
  method TwoCarries(q2: array<u32>)
    requires q2.Length == 66 && q2[31] <= 33 * 65025 && q2[32] <= 33 * 65025 && q2[33] <= 33 * 65025
    modifies q2
    ensures q2[33] == old(q2[33]) + (old(q2[32]) + old(q2[31]) / 256) / 256
    ensures forall k | 34 <= k < 66 :: q2[k] == old(q2[k])
  {
    CutOffWords(q2[31], q2[32], q2[33]);
    hide W32;
    var carry := q2[31] / 256;
    q2[32] := WAdd(q2[32], carry);
    carry := q2[32] / 256;
    q2[33] := WAdd(q2[33], carry);
  }

  /** The first product and its two carries; the quotient `q3` starts at `q2 + 33`. */
  method EstimateQuotient(q2: array<u32>, x: array<u32>)
    requires q2.Length == 66 && x.Length == 64 && q2 != x && Within(x[..], 255)
    requires forall k | 0 <= k < 66 :: q2[k] == 0
    modifies q2
    ensures q2[33..66] == CutOff(HighColumns(x[..]))
  {
    hide HighColumns, CutOff;
    FirstProduct(q2, x);
    ghost var h := HighColumns(x[..]);
    assert h == q2[31..66];
    assert q2[31] == h[0] && q2[32] == h[1] && q2[33] == h[2];
    HighColumnsBound(x[..], 0);
    HighColumnsBound(x[..], 1);
    HighColumnsBound(x[..], 2);
    assert forall k | 34 <= k < 66 :: q2[k] == h[k - 31];
    TwoCarries(q2);
    CutOffLimbs(h, q2[33..66]);
  }

  /** For every 64-limb number with byte limbs: its residue modulo the order, in byte limbs. */
  method BarrettReduce(r: array<u32>, x: array<u32>)
    requires r.Length == 32 && x.Length == 64 && r != x && Within(x[..], 255)
    modifies r
    ensures Within(r[..], 255) && Val(r[..]) == Val(x[..]) % L
  {
    hide Conv, Val, Pow256, HighColumns, CutOff, Carry, M, QuotientLimbs;
    var q2, r1, r2 := new u32[66](_ => 0), new u32[33], new u32[33](_ => 0);
    EstimateQuotient(q2, x);
    ghost var q := q2[33..66];
    QuotientLimbsHold(x[..]);
    QuotientCorrect(x[..]);
    for i := 0 to 33
      invariant forall k | 0 <= k < i :: r1[k] == x[k]
      invariant q2[33..66] == q && x[..] == old(x[..])
      invariant forall k | 0 <= k < 33 :: r2[k] == 0
    {
      r1[i] := x[i];
    }
    var m := LoadModulus();
    MultiplyColumns(r2, 0, 33, m, q2, 33, 33);
    ghost var p := r2[..];
    CarryLimbs(r2);
    ghost var e := SecondProductCarried(q, p, r2[..]);
    assert r2[..32] == r2[..][..32] && r1[..32] == x[..][..32];
    var b := SubtractBorrow(r, r1, r2);
    RemainderExact(x[..], q, r2[..32], r[..], b, e);
    ReduceAddSub(r);
    ReduceAddSub(r);
    ValDigits(r[..]);
    ResidueOf(Val(x[..]), Val(q), Val(r[..]));
  }

  lemma ResidueOf(x: int, q: int, r: int)
    requires 0 <= r < L
    requires r == x - q * L || r == x - q * L - L || r == x - q * L - 2 * L
    ensures r == x % L
  {
    if r == x - q * L {
      DivModUnique(x, L, q, r);
    } else if r == x - q * L - L {
      DivModUnique(x, L, q + 1, r);
    } else {
      DivModUnique(x, L, q + 2, r);
    }
  }
}
