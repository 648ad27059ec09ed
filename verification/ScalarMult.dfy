/** `recip` and `crypto_scalarmult`: from a scalar and a point to the canonical 32 bytes. */
module ScalarMult {
  import opened Words
  import opened ModArith
  import opened Limbs
  import opened Field
  import opened Powers
  import opened Bits
  import opened X25519
  import opened X25519Values
  import opened Ladder

  /** The limbs at `o` are reduced and hold the n-th power of `z`. */
  ghost predicate Holds(a: array<u32>, o: nat, z: int, n: nat)
    requires Fits(a, o)
    reads a
  {
    Reduced(a[o..o + 32]) && Eq(Val(a[o..o + 32]), Pow(z, n))
  }

  lemma PowerProduct(a: seq<u32>, b: seq<u32>, z: int, m: nat, n: nat)
    requires Reduced(a) && Reduced(b) && Eq(Val(a), Pow(z, m)) && Eq(Val(b), Pow(z, n))
    ensures Reduced(Product(a, b)) && Eq(Val(Product(a, b)), Pow(z, m + n))
  {
    hide Val, Product, Pow, Eq;
    ReducedIsWide(a);
    ReducedIsWide(b);
    ProductOf(a, b, Pow(z, m), Pow(z, n));
    PowAdd(z, m, n);
  }

  method SquarePower(out: array<u32>, a: array<u32>, ao: nat, ghost z: int, ghost n: nat)
    requires out.Length == 32 && Fits(a, ao) && out != a && Holds(a, ao, z, n)
    modifies out
    ensures Holds(out, 0, z, 2 * n)
  {
    hide Val, Product, Pow, Eq, Reduced;
    PowerProduct(a[ao..ao + 32], a[ao..ao + 32], z, n, n);
    assert n + n == 2 * n;
    Square(out, 0, a, ao);
  }

  method MultPower(out: array<u32>, o: nat, a: array<u32>, b: array<u32>, bo: nat,
                   ghost z: int, ghost m: nat, ghost n: nat)
    requires a.Length == 32 && Fits(out, o) && Fits(b, bo) && out != a && out != b
    requires Holds(a, 0, z, m) && Holds(b, bo, z, n)
    modifies out
    ensures Holds(out, o, z, m + n) && OnlyChanges(out, o)
  {
    hide Val, Product, Pow, Eq, Reduced;
    PowerProduct(a[0..32], b[bo..bo + 32], z, m, n);
    Mult(out, o, a, 0, b, bo);
  }

  /** `square(t0,x); square(t1,t0); for (i = 2;i < k;i += 2) { square(t0,t1); square(t1,t0); }` */
  method SquareTimes(t1: array<u32>, t0: array<u32>, x: array<u32>, k: nat, ghost z: int, ghost n: nat)
    requires t0.Length == t1.Length == x.Length == 32 && t0 != t1 && t0 != x && k >= 2 && k % 2 == 0
    requires Holds(x, 0, z, n)
    modifies t0, t1
    ensures Holds(t1, 0, z, n * Pow2(k))
  {
    hide Holds;
    SquarePower(t0, x, 0, z, n);
    SquarePower(t1, t0, 0, z, 2 * n);
    ghost var e: nat := 2 * (2 * n);
    assert e == n * Pow2(2) by {
      assert Pow2(2) == 4;
    }
    var i := 2;
    while i < k
      invariant 2 <= i <= k && i % 2 == 0
      invariant Holds(t1, 0, z, e) && e == n * Pow2(i)
    {
      SquarePower(t0, t1, 0, z, e);
      SquarePower(t1, t0, 0, z, 2 * e);
      QuadrupleExponent(n, i);
      e := 2 * (2 * e);
      i := i + 2;
    }
  }

  lemma QuadrupleExponent(n: nat, i: nat)
    ensures 2 * (2 * (n * Pow2(i))) == n * Pow2(i + 2)
  {
    assert Pow2(i + 2) == 4 * Pow2(i);
  }

  /** The first multiplications of the chain: the 11th power and the one of five ones. */
  method FirstPowers(z11: array<u32>, z2_5_0: array<u32>, z: array<u32>, zo: nat, ghost v: int)
    requires z11.Length == z2_5_0.Length == 32 && Fits(z, zo) && z11 != z2_5_0 && z11 != z && z2_5_0 != z
    requires Holds(z, zo, v, 1)
    modifies z11, z2_5_0
    ensures Holds(z11, 0, v, 11) && Holds(z2_5_0, 0, v, Ones(5))
  {
    hide Holds;
    var z2, z9, t0, t1 := new u32[32], new u32[32], new u32[32], new u32[32];
    SquarePower(z2, z, zo, v, 1);
    SquarePower(t1, z2, 0, v, 2);
    SquarePower(t0, t1, 0, v, 4);
    MultPower(z9, 0, t0, z, zo, v, 8, 1);
    MultPower(z11, 0, z9, z2, 0, v, 9, 2);
    SquarePower(t0, z11, 0, v, 11);
    MultPower(z2_5_0, 0, t0, z9, 0, v, 22, 9);
    assert Ones(5) == 31;
  }

  /** Five squarings, ending in `t1`. */
  method SquareFive(t1: array<u32>, t0: array<u32>, x: array<u32>, ghost v: int, ghost n: nat)
    requires t0.Length == t1.Length == x.Length == 32 && t0 != t1 && t1 != x
    requires Holds(x, 0, v, n)
    modifies t0, t1
    ensures Holds(t1, 0, v, n * Pow2(5))
  {
    hide Holds;
    SquarePower(t1, x, 0, v, n);
    SquarePower(t0, t1, 0, v, 2 * n);
    SquarePower(t1, t0, 0, v, 4 * n);
    SquarePower(t0, t1, 0, v, 8 * n);
    SquarePower(t1, t0, 0, v, 16 * n);
    assert Pow2(5) == 32;
  }

  /** Squares a run of `a` ones `b` times and multiplies a run of `b` ones in. */
  method Join(out: array<u32>, t1: array<u32>, t0: array<u32>, x: array<u32>, y: array<u32>, b: nat,
              ghost v: int, ghost a: nat)
    requires out.Length == t0.Length == t1.Length == x.Length == y.Length == 32
    requires t0 != t1 && t0 != x && out != t1 && out != y && y != t0 && y != t1 && b >= 2 && b % 2 == 0
    requires Holds(x, 0, v, Ones(a)) && Holds(y, 0, v, Ones(b))
    modifies out, t0, t1
    ensures Holds(out, 0, v, Ones(a + b))
  {
    hide Holds, Ones, Pow2;
    SquareTimes(t1, t0, x, b, v, Ones(a));
    MultPower(out, 0, t1, y, 0, v, Ones(a) * Pow2(b), Ones(b));
    OnesJoin(a, b);
  }

  /** From five ones to 250 ones; the result ends in `t0`. */
  method LongRun(t0: array<u32>, t1: array<u32>, z2_5_0: array<u32>, ghost v: int)
    requires t0.Length == t1.Length == z2_5_0.Length == 32 && t0 != t1 && t0 != z2_5_0 && t1 != z2_5_0
    requires Holds(z2_5_0, 0, v, Ones(5))
    modifies t0, t1
    ensures Holds(t0, 0, v, Ones(250))
  {
    hide Pow2, Ones, Holds;
    var z2_10_0, z2_20_0, z2_50_0, z2_100_0 := new u32[32], new u32[32], new u32[32], new u32[32];
    SquareFive(t0, t1, z2_5_0, v, Ones(5));
    MultPower(z2_10_0, 0, t0, z2_5_0, 0, v, Ones(5) * Pow2(5), Ones(5));
    OnesJoin(5, 5);
    Join(z2_20_0, t1, t0, z2_10_0, z2_10_0, 10, v, 10);
    Join(t0, t1, t0, z2_20_0, z2_20_0, 20, v, 20);
    Join(z2_50_0, t0, t1, t0, z2_10_0, 10, v, 40);
    Join(z2_100_0, t1, t0, z2_50_0, z2_50_0, 50, v, 50);
    Join(t1, t0, t1, z2_100_0, z2_100_0, 100, v, 100);
    Join(t0, t1, t0, t1, z2_50_0, 50, v, 200);
  }

  /** The chain up to its last multiplication. */
  method AllButLast(z11: array<u32>, t1: array<u32>, z: array<u32>, zo: nat, ghost v: int)
    requires z11.Length == t1.Length == 32 && Fits(z, zo) && z11 != t1 && z11 != z && t1 != z && Holds(z, zo, v, 1)
    modifies z11, t1
    ensures Holds(z11, 0, v, 11) && Holds(t1, 0, v, Ones(250) * Pow2(5))
  {
    hide Pow2, Ones, Holds;
    var z2_5_0, t0 := new u32[32], new u32[32];
    FirstPowers(z11, z2_5_0, z, zo, v);
    LongRun(t0, t1, z2_5_0, v);
    SquareFive(t1, t0, t0, v, Ones(250));
  }

  /** Raises the limbs at `zo` to the power p - 2, possibly in place. */
  method Recip(out: array<u32>, o: nat, z: array<u32>, zo: nat)
    requires Fits(out, o) && Fits(z, zo) && Reduced(z[zo..zo + 32])
    modifies out
    ensures Reduced(out[o..o + 32]) && Eq(Val(out[o..o + 32]), Pow(old(Val(z[zo..zo + 32])), P - 2))
    ensures OnlyChanges(out, o)
  {
    hide Pow2, Ones, Holds, Reduced, Val, Pow;
    var z11, t1 := new u32[32], new u32[32];
    ghost var v := Val(z[zo..zo + 32]);
    StartPower(z, zo, v);
    AllButLast(z11, t1, z, zo, v);
    MultPower(out, o, t1, z11, 0, v, Ones(250) * Pow2(5), 11);
    InverseExponent();
    HoldsMeans(out, o, v, P - 2);
  }

  lemma StartPower(z: array<u32>, zo: nat, v: int)
    requires Fits(z, zo) && Reduced(z[zo..zo + 32]) && v == Val(z[zo..zo + 32])
    ensures Holds(z, zo, v, 1)
  {
    PowOne(v);
  }

  lemma HoldsMeans(a: array<u32>, o: nat, v: int, n: nat)
    requires Fits(a, o) && Holds(a, o, v, n)
    ensures Reduced(a[o..o + 32]) && Eq(Val(a[o..o + 32]), Pow(v, n))
  {
  }

  // ------------------------------------------------------------------------
  // Clamping and the complete function

  /** A clamped scalar: bits 3 to 253 of `k`, bit 254 set, all others clear. */
  function Clamped(k: nat): nat
  {
    Pow2(254) + 8 * ((k % Pow2(254)) / 8)
  }

  /** The bits of a clamped scalar, as section 5 of RFC 7748 sets them. */
  lemma ClampedBits(k: nat, t: nat)
    ensures Bit(Clamped(k), t) == if t < 3 || t >= 255 then 0 else if t == 254 then 1 else Bit(k, t)
  {
    hide Bit, Pow2, Shift;
    var w := Pow2(254);
    var q := (k % w) / 8;
    var low := 8 * q;
    assert low <= k % w < w;
    if t < 254 {
      BitAdd(1, low, 254, t);
      if t < 3 {
        Eight();
        BitAdd(q, 0, 3, t);
        ZeroBit(t);
      } else {
        Eighth(low, q, t);
        Eighth(k % w, q, t);
        DivModIs(k, w);
        BitAdd(k / w, k % w, 254, t);
      }
    } else {
      Shifted(Clamped(k), 254, t - 254);
      ShiftIs(Clamped(k), 254);
      DivModUnique(w + low, w, 1, low);
      OneBit(t - 254);
    }
  }

  lemma Eight()
    ensures Pow2(3) == 8
  {
  }

  lemma DivModIs(k: nat, w: nat)
    requires w > 0
    ensures k / w >= 0 && k == w * (k / w) + k % w
  {
    if k / w < 0 {
      MulMonotone(k / w, -1, w);
      assert false;
    }
  }

  lemma Eighth(v: nat, q: nat, t: nat)
    requires t >= 3 && v / 8 == q
    ensures Bit(v, t) == Bit(q, t - 3)
  {
    hide Bit, Shift;
    Eight();
    Shifted(v, 3, t - 3);
    ShiftIs(v, 3);
  }

  lemma {:induction false} OneBit(t: nat)
    ensures Bit(1, t) == if t == 0 then 1 else 0
  {
    if t > 0 {
      ZeroBit(t - 1);
    }
  }

  /** The function X25519 of RFC 7748 on a clamped scalar and a coordinate. */
  function Rfc7748(k: nat, u: int): nat
  {
    var x1 := u % P;
    var r := RfcLadder(x1, k, 255, Start(x1), 0);
    (r.x2 * Pow(r.z2, P - 2)) % P
  }

  function ClampBytes(n: seq<byte>): (e: seq<byte>)
    requires |n| == 32
    ensures |e| == 32
  {
    n[0 := n[0] - n[0] % 8][31 := n[31] % 64 + 64]
  }

  lemma EndBytes(n: seq<byte>)
    requires |n| == 32
    ensures 0 <= Val(n[1..31]) && 0 <= Val(n) == n[0] + 256 * Val(n[1..31]) + n[31] * Pow256(|n| - 1)
    ensures n[0] + 256 * Val(n[1..31]) < Pow256(|n| - 1)
  {
    hide Pow256, Val;
    ValEnds(n);
    ValTop(n);
    ValDigits(n[..|n| - 1]);
    ValDigits(n);
    ValDigits(n[1..31]);
  }

  /** `e[0] &= 248; e[31] &= 127; e[31] |= 64` clamps. */
  lemma ClampValue(n: seq<byte>)
    requires |n| == 32
    ensures Val(n) >= 0 && Val(ClampBytes(n)) == Clamped(Val(n))
  {
    hide Val, Pow256, Pow2, ClampBytes;
    var e := ClampBytes(n);
    ClampedBytes(n);
    EndBytes(n);
    EndBytes(e);
    assert |n| - 1 == |e| - 1 == 31;
    HalfTop();
    ClampArith(n[0], Val(n[1..31]), n[31], Pow256(31), 32 * Pow256(30));
  }

  lemma ClampedBytes(n: seq<byte>)
    requires |n| == 32
    ensures var e := ClampBytes(n); e[0] == n[0] - n[0] % 8 && e[1..31] == n[1..31] && e[31] == n[31] % 64 + 64
  {
    hide Val;
  }

  lemma HalfTop()
    ensures Pow2(254) == 64 * Pow256(31) && Pow256(31) == 8 * (32 * Pow256(30))
  {
    Pow256IsPow2(31);
    Pow2Add(6, 248);
    assert Pow2(6) == 64;
  }

  lemma ClampArith(n0: nat, m: nat, t: nat, w: nat, v: nat)
    requires w == 8 * v > 0 && n0 < 256 && n0 + 256 * m < w && t < 256
    ensures var n := n0 + 256 * m + t * w;
            (n0 - n0 % 8) + 256 * m + (t % 64 + 64) * w == 64 * w + 8 * ((n % (64 * w)) / 8)
  {
    var n := n0 + 256 * m + t * w;
    var a, b := t / 64, t % 64;
    var rest := n0 + 256 * m + b * w;
    SplitProduct(t, a, b, w);
    MulMonotone(b, 63, w);
    MulMonotone(0, b, w);
    DivModUnique(n, 64 * w, a, rest);
    EightTimes(b, v);
    LowThree(n0, 32 * m + b * v, rest);
  }

  lemma SplitProduct(t: int, a: int, b: int, w: int)
    requires t == 64 * a + b
    ensures t * w == a * (64 * w) + b * w && (b + 64) * w == b * w + 64 * w
  {
    assert (64 * a) * w == a * (64 * w);
  }

  lemma EightTimes(b: int, v: int)
    ensures b * (8 * v) == 8 * (b * v)
  {
  }

  lemma LowThree(n0: nat, k: int, rest: int)
    requires rest == n0 + 8 * k
    ensures 8 * (rest / 8) == n0 - n0 % 8 + 8 * k
  {
    DivModUnique(rest, 8, n0 / 8 + k, n0 % 8);
  }

  lemma ClampedScalar(e: array<byte>, n: seq<byte>)
    requires |n| == 32 && e[..] == ClampBytes(n)
    ensures Val(n) >= 0 && Scalar(e) == Clamped(Val(n))
  {
    hide Val, Clamped;
    ClampValue(n);
  }

  /** What the last multiplication of `crypto_scalarmult` makes of the projective result. */
  lemma AffineValue(x: seq<u32>, zi: seq<u32>, z: int, x2: int, z2: int)
    requires Bytes(x) && Reduced(zi) && Eq(Val(zi), Pow(z, P - 2)) && Val(x) % P == x2 && z % P == z2
    ensures Reduced(Product(x, zi)) && Val(Product(x, zi)) % P == (x2 * Pow(z2, P - 2)) % P
  {
    hide Val, Product, Pow;
    BytesAreWide(x);
    ReducedIsWide(zi);
    EqMod(Val(x));
    EqMod(z);
    PowEq(z, z2, P - 2);
    ProductOf(x, zi, x2, Pow(z2, P - 2));
  }

  method ClampInto(e: array<byte>, n: array<byte>)
    requires e.Length == n.Length == 32 && e != n
    modifies e
    ensures Val(n[..]) >= 0 && Scalar(e) == Clamped(Val(n[..]))
  {
    hide Val, Clamped, Scalar;
    for i := 0 to 32
      invariant forall k | 0 <= k < i :: e[k] == n[k]
    {
      e[i] := n[i];
    }
    assert e[..] == n[..];
    e[0] := e[0] - e[0] % 8;
    e[31] := e[31] % 128;
    e[31] := if e[31] < 64 then e[31] + 64 else e[31];
    assert e[..] == ClampBytes(n[..]);
    ClampedScalar(e, n[..]);
  }

  /** From the projective result in `work` to the frozen affine coordinate at offset 64. */
  method ToAffine(work: array<u32>, ghost x2: int, ghost z2: int)
    requires work.Length == 96 && Bytes(work[..32]) && Reduced(work[32..64])
    requires Val(work[..32]) % P == x2 && Val(work[32..64]) % P == z2
    modifies work
    ensures Within(LowBytes(work[64..96]), 255) && Val(LowBytes(work[64..96])) == (x2 * Pow(z2, P - 2)) % P
  {
    hide Val, Pow, Frozen, Product, LowBytes, Within;
    ghost var x, z := work[..32], work[32..64];
    Recip(work, 32, work, 32);
    assert work[0..32] == x;
    ghost var zi := work[32..64];
    AffineValue(x, zi, Val(z), x2, z2);
    Mult(work, 64, work, 0, work, 32);
    FrozenValue(work[64..96]);
    Freeze(work, 64);
  }

  /** Writes the canonical little-endian bytes of X25519(n, p); the point is taken modulo p with
      all 256 of its bits. */
  method CryptoScalarmult(q: array<byte>, n: array<byte>, p: array<byte>)
    requires q.Length == n.Length == p.Length == 32
    modifies q
    ensures old(Val(n[..])) >= 0
    ensures Val(q[..]) == Rfc7748(Clamped(old(Val(n[..]))), old(Val(p[..])))
  {
    hide Val, Pow, RfcLadder, Start, Clamped;
    var work := new u32[96](_ => 0);
    var e := new byte[32];
    ClampInto(e, n);
    ghost var k, u := Scalar(e), Val(p[..]);
    assert k == Clamped(old(Val(n[..])));
    for i := 0 to 32
      invariant forall k | 0 <= k < i :: work[k] == p[k]
      invariant p[..] == old(p[..]) && Scalar(e) == k
    {
      work[i] := p[i];
    }
    assert work[..32] == p[..];
    Mainloop(work, e);
    ghost var r := RfcLadder(u % P, k, 255, Start(u % P), 0);
    ToAffine(work, r.x2, r.z2);
    ghost var f := work[64..96];
    assert Val(LowBytes(f)) == Rfc7748(k, u);
    for i := 0 to 32
      invariant forall j | 0 <= j < i :: q[j] == f[j] % 256
      invariant work[64..96] == f
    {
      q[i] := work[64 + i] % 256;
    }
    assert q[..] == LowBytes(f);
  }

  /** RFC 7748 drops the top bit of a received coordinate. Only when it is clear does the
      coordinate used here coincide with the one the RFC decodes. */
  lemma DecodedPoint(p: seq<byte>)
    requires |p| == 32
    ensures Val(p) >= 0 && (p[31] < 128 <==> Val(p) == Val(p) % TOP_BIT)
    ensures p[31] >= 128 ==> Eq(Val(p), Val(p) % TOP_BIT + 19)
  {
    hide Val;
    ValTop(p);
    ValDigits(p[..31]);
    Weights();
    hide Pow256;
    assert |p| - 1 == 31;
    TopBitDropped(Val(p[..31]), p[31], Pow256(31), Val(p));
  }

  lemma TopBitDropped(low: int, top: int, w: int, v: int)
    requires 128 * w == TOP_BIT && 0 <= low < w && 0 <= top < 256 && v == low + top * w
    ensures v >= 0 && (top < 128 <==> v == v % TOP_BIT)
    ensures top >= 128 ==> Eq(v, v % TOP_BIT + 19)
  {
    var a, b := top / 128, top % 128;
    MulMonotone(b, 127, w);
    MulMonotone(0, b, w);
    SplitTop(top, a, b, w);
    DivModUnique(v, TOP_BIT, a, low + b * w);
    if a == 1 {
      CongByMultiple(v, low + b * w + 19, 1, P);
    }
  }

  lemma SplitTop(top: int, a: int, b: int, w: int)
    requires top == 128 * a + b
    ensures top * w == a * (128 * w) + b * w
  {
    assert (128 * a) * w == a * (128 * w);
  }
}
