/** Scalars cut into digits: the interleaved base-4 digits of two scalars (`sc25519_2interleave2`)
    and the signed base-8 window of one (`sc25519_window3`). */
module Digits {
  import opened Words
  import opened ModArith
  import opened Limbs
  import opened Field
  import opened Powers

  /** The number with these base-`b` digits, least significant first. */
  function Radix(b: int, d: seq<int>): int
  {
    if |d| == 0 then 0 else d[0] + b * Radix(b, d[1..])
  }

  lemma {:induction false} RadixAppend(b: int, d: seq<int>, e: seq<int>)
    ensures Radix(b, d + e) == Radix(b, d) + Pow(b, |d|) * Radix(b, e)
    decreases |d|
  {
    if |d| == 0 {
      assert d + e == e;
    } else {
      RadixAppend(b, d[1..], e);
      assert (d + e)[1..] == d[1..] + e;
      AppendArith(b, Radix(b, d[1..]), Pow(b, |d| - 1), Radix(b, e));
    }
  }

  lemma AppendArith(b: int, u: int, p: int, v: int)
    ensures b * (u + p * v) == b * u + (b * p) * v
  {
  }

  /** The `n` low base-4 digits of a number. */
  function Base4(v: int, n: nat): (d: seq<int>)
    ensures |d| == n && forall k | 0 <= k < n :: 0 <= d[k] < 4
    decreases n, v
  {
    if n == 0 then [] else [v % 4] + Base4(v / 4, n - 1)
  }

  /** There is only one way to write a number in base 4. */
  lemma {:induction false} Base4Unique(d: seq<int>)
    requires forall k | 0 <= k < |d| :: 0 <= d[k] < 4
    ensures d == Base4(Radix(4, d), |d|)
  {
    if |d| > 0 {
      Base4Unique(d[1..]);
      DivModUnique(Radix(4, d), 4, Radix(4, d[1..]), d[0]);
    }
  }

  lemma {:induction false} Pow4IsPow256(n: nat)
    ensures Pow(4, 4 * n) == Pow256(n)
  {
    if n > 0 {
      Pow4IsPow256(n - 1);
      PowAdd(4, 4, 4 * (n - 1));
      assert Pow(4, 4) == 256;
    }
  }

  lemma {:induction false} Pow8IsPow256(n: nat)
    ensures Pow(8, 8 * n) == Pow256(3 * n)
  {
    if n > 0 {
      Pow8IsPow256(n - 1);
      PowAdd(8, 8, 8 * (n - 1));
      assert Pow(8, 8) == 0x100_0000;
      assert Pow256(3 * n) == 256 * Pow256(3 * n - 1);
      assert Pow256(3 * n - 1) == 256 * Pow256(3 * n - 2);
    }
  }

  // ------------------------------------------------------------------------
  // Interleaved base-4 digits

  function Quarter(v: u32, m: nat): (q: u32)
    ensures q < 4
  {
    (v / (if m == 0 then 1 else if m == 1 then 4 else if m == 2 then 16 else 64)) % 4
  }

  function Quarters(v: u32): (d: seq<int>)
    ensures |d| == 4
  {
    [Quarter(v, 0), Quarter(v, 1), Quarter(v, 2), Quarter(v, 3)]
  }

  lemma QuartersValue(v: u32)
    requires v <= 255
    ensures Radix(4, Quarters(v)) == v
    ensures Radix(4, Quarters(v)[..3]) == v % 64
  {
    hide Radix, Quarter;
    RadixFour(4, Quarter(v, 0), Quarter(v, 1), Quarter(v, 2), Quarter(v, 3));
    RadixThree(4, Quarter(v, 0), Quarter(v, 1), Quarter(v, 2));
    assert Quarters(v)[..3] == [Quarter(v, 0) as int, Quarter(v, 1), Quarter(v, 2)];
    QuarterSum(v);
  }

  lemma QuarterSum(v: u32)
    requires v <= 255
    ensures var low := Quarter(v, 0) as int + 4 * (Quarter(v, 1) as int + 4 * Quarter(v, 2) as int);
            low == v % 64 && low + 64 * Quarter(v, 3) as int == v
  {
    QuarterArith(v);
  }

  lemma QuarterArith(v: int)
    requires 0 <= v <= 255
    ensures v % 4 + 4 * ((v / 4) % 4) + 16 * ((v / 16) % 4) == v % 64
    ensures v % 64 + 64 * ((v / 64) % 4) == v
  {
    var a := v / 4;
    var b := a / 4;
    assert v / 16 == b && v / 64 == b / 4;
    assert v == 4 * a + v % 4 && a == 4 * b + a % 4;
    assert b == 4 * (b / 4) + b % 4;
  }

  lemma RadixThree(b: int, c0: int, c1: int, c2: int)
    ensures Radix(b, [c0, c1, c2]) == c0 + b * (c1 + b * c2)
  {
    assert [c0, c1, c2][1..] == [c1, c2] && [c1, c2][1..] == [c2] && [c2][1..] == [];
    assert Radix(b, [c2]) == c2 + b * Radix(b, []);
    assert Radix(b, [c1, c2]) == c1 + b * Radix(b, [c2]);
  }

  lemma RadixFour(b: int, c0: int, c1: int, c2: int, c3: int)
    ensures Radix(b, [c0, c1, c2, c3]) == c0 + b * (c1 + b * (c2 + b * c3))
  {
    RadixThree(b, c1, c2, c3);
    assert [c0, c1, c2, c3][1..] == [c1, c2, c3];
  }

  /** `a ^ (b << 2)` on two base-4 digits packs them. */
  lemma PackDigits(a: u32, b: u32)
    requires a < 4 && b < 4
    ensures Xor(a, 4 * b) == a + 4 * b
  {
    assert Xor(a, 4 * b) == a + 4 * b by {
      match a {
        case 0 =>
        case 1 => PackOne(b);
        case 2 => PackTwo(b);
        case 3 => PackThree(b);
      }
    }
  }

  lemma PackOne(b: u32)
    requires b < 4
    ensures Xor(1, 4 * b) == 1 + 4 * b
  {
    assert Xor(0, 2 * b) == 2 * b;
  }

  lemma PackTwo(b: u32)
    requires b < 4
    ensures Xor(2, 4 * b) == 2 + 4 * b
  {
    assert Xor(0, b) == b;
    assert Xor(1, 2 * b) == 1 + 2 * b;
  }

  lemma PackThree(b: u32)
    requires b < 4
    ensures Xor(3, 4 * b) == 3 + 4 * b
  {
    assert Xor(0, b) == b;
    assert Xor(1, 2 * b) == 1 + 2 * b;
  }

  /** The digits of one scalar inside the interleaved ones. */
  ghost predicate Interleaved(r: seq<int>, d1: seq<int>, d2: seq<int>)
  {
    && |r| == |d1| == |d2|
    && forall k | 0 <= k < |r| :: 0 <= d1[k] < 4 && 0 <= d2[k] < 4 && r[k] == d1[k] + 4 * d2[k]
  }

  lemma InterleavedAppend(r: seq<int>, d1: seq<int>, d2: seq<int>, r': seq<int>, e1: seq<int>, e2: seq<int>)
    requires Interleaved(r, d1, d2) && Interleaved(r', e1, e2)
    ensures Interleaved(r + r', d1 + e1, d2 + e2)
  {
  }

  lemma DigitsGrow(d: seq<int>, s: seq<u32>, i: nat)
    requires i < |s| && Within(s, 255) && |d| == 4 * i && Radix(4, d) == Val(s[..i])
    ensures Radix(4, d + Quarters(s[i])) == Val(s[..i + 1])
    ensures Radix(4, d + Quarters(s[i])[..3]) == Val(s[..i]) + (s[i] % 64) * Pow256(i)
  {
    hide Radix, Val, Pow, Quarters;
    QuartersValue(s[i]);
    RadixAppend(4, d, Quarters(s[i]));
    RadixAppend(4, d, Quarters(s[i])[..3]);
    Pow4IsPow256(i);
    ValTop(s[..i + 1]);
    assert s[..i + 1][..i] == s[..i];
  }

  /** One limb of each scalar gives four packed digits. */
  method PackLimb(r: array<byte>, j: nat, a: u32, b: u32, n: nat)
    requires j + n <= r.Length && 3 <= n <= 4
    modifies r
    ensures Interleaved(r[j..j + n], Quarters(a)[..n], Quarters(b)[..n])
    ensures forall k | 0 <= k < r.Length && !(j <= k < j + n) :: r[k] == old(r[k])
  {
    hide Xor, Quarter;
    forall m | 0 <= m < 4 ensures Xor(Quarter(a, m), 4 * Quarter(b, m)) == Quarter(a, m) + 4 * Quarter(b, m) {
      PackDigits(Quarter(a, m), Quarter(b, m));
    }
    r[j] := Xor(Quarter(a, 0), 4 * Quarter(b, 0));
    r[j + 1] := Xor(Quarter(a, 1), 4 * Quarter(b, 1));
    r[j + 2] := Xor(Quarter(a, 2), 4 * Quarter(b, 2));
    if n == 4 {
      r[j + 3] := Xor(Quarter(a, 3), 4 * Quarter(b, 3));
    }
  }

  /** The packed digits are the base-4 digits of both scalars; the two top bits of 256 are dropped. */
  method Interleave2(r: array<byte>, s1: array<u32>, s2: array<u32>) returns (ghost d1: seq<int>, ghost d2: seq<int>)
    requires r.Length == 127 && s1.Length == s2.Length == 32 && Within(s1[..], 255) && Within(s2[..], 255)
    modifies r
    ensures Interleaved(r[..], d1, d2)
    ensures Radix(4, d1) == Val(s1[..]) - (s1[31] / 64) * (TOP_BIT / 2)
    ensures Radix(4, d2) == Val(s2[..]) - (s2[31] / 64) * (TOP_BIT / 2)
  {
    hide Quarters, Radix, Val, Interleaved;
    d1, d2 := [], [];
    EmptyDigits(r[..0]);
    var i := 0;
    while i < 31
      invariant 0 <= i <= 31 && |d1| == |d2| == 4 * i
      invariant Interleaved(r[..4 * i], d1, d2)
      invariant Radix(4, d1) == Val(s1[..i]) && Radix(4, d2) == Val(s2[..i])
    {
      ghost var before := r[..4 * i];
      PackLimb(r, 4 * i, s1[i], s2[i], 4);
      assert r[..4 * i] == before;
      FourQuarters(s1[i]);
      FourQuarters(s2[i]);
      InterleavedAppend(before, d1, d2, r[4 * i..4 * i + 4], Quarters(s1[i]), Quarters(s2[i]));
      assert r[..4 * i + 4] == before + r[4 * i..4 * i + 4];
      DigitsGrow(d1, s1[..], i);
      DigitsGrow(d2, s2[..], i);
      PrefixOf(s1, i);
      PrefixOf(s2, i);
      d1, d2 := d1 + Quarters(s1[i]), d2 + Quarters(s2[i]);
      i := i + 1;
    }
    ghost var before := r[..124];
    PackLimb(r, 124, s1[31], s2[31], 3);
    assert r[..124] == before;
    FourQuarters(s1[31]);
    FourQuarters(s2[31]);
    InterleavedAppend(before, d1, d2, r[124..127], Quarters(s1[31])[..3], Quarters(s2[31])[..3]);
    assert r[..] == before + r[124..127];
    PrefixOf(s1, 31);
    PrefixOf(s2, 31);
    DigitsGrow(d1, s1[..], 31);
    DigitsGrow(d2, s2[..], 31);
    TopDigits(s1[..]);
    TopDigits(s2[..]);
    d1, d2 := d1 + Quarters(s1[31])[..3], d2 + Quarters(s2[31])[..3];
  }

  lemma EmptyDigits(r: seq<int>)
    requires |r| == 0
    ensures Interleaved(r, [], []) && Radix(4, []) == 0 && Val(r) == 0
  {
  }

  lemma FourQuarters(v: u32)
    ensures |Quarters(v)| == 4 && Quarters(v)[..4] == Quarters(v)
  {
  }

  lemma PrefixOf(s: array<u32>, i: nat)
    requires i < s.Length
    ensures s[..][..i] == s[..i] && s[..][..i + 1] == s[..i + 1] && s[..][i] == s[i]
  {
  }

  lemma TopDigits(s: seq<int>)
    requires |s| == 32
    ensures Val(s[..31]) + (s[31] % 64) * Pow256(31) == Val(s) - (s[31] / 64) * (TOP_BIT / 2)
  {
    ValTop(s);
    Weights();
    hide Val, Pow256;
    assert |s| - 1 == 31;
    TopArith(s[31], Pow256(31));
  }

  lemma TopArith(t: int, w: int)
    ensures t * w == (t % 64) * w + (t / 64) * (64 * w)
  {
    assert t == t % 64 + 64 * (t / 64);
  }

  // ------------------------------------------------------------------------
  // Signed base-8 window

  type int8 = x: int | -128 <= x <= 127

  /** The eight octal digits of three limbs. */
  function Octals(a: u32, b: u32, c: u32): (d: seq<int>)
    ensures |d| == 8
  {
    [a % 8, (a / 8) % 8, (a / 64) % 8 + 4 * (b % 2), (b / 2) % 8, (b / 16) % 8, (b / 128) % 8 + 2 * (c % 4),
     (c / 4) % 8, (c / 32) % 8]
  }

  /** The five octal digits of the last two limbs. */
  function TopOctals(a: u32, b: u32): (d: seq<int>)
    ensures |d| == 5
  {
    [a % 8, (a / 8) % 8, (a / 64) % 8 + 4 * (b % 2), (b / 2) % 8, (b / 16) % 8]
  }

  lemma OctalArith(a: int, b: int, c: int)
    requires 0 <= a <= 255 && 0 <= b <= 255 && 0 <= c <= 255
    ensures a % 8 + 8 * ((a / 8) % 8) + 64 * ((a / 64) % 8) == a
    ensures b % 2 + 2 * ((b / 2) % 8) + 16 * ((b / 16) % 8) == b % 128
    ensures b % 128 + 128 * ((b / 128) % 8) == b
    ensures c % 4 + 4 * ((c / 4) % 8) + 32 * ((c / 32) % 8) == c
  {
    LowOctals(a);
    MidOctals(b);
    HighOctals(c);
  }

  lemma LowOctals(a: int)
    requires 0 <= a <= 255
    ensures a % 8 + 8 * ((a / 8) % 8) + 64 * ((a / 64) % 8) == a
  {
    var a1 := a / 8;
    assert a == 8 * a1 + a % 8 && a / 64 == a1 / 8 && a1 == 8 * (a1 / 8) + a1 % 8;
  }

  lemma MidOctals(b: int)
    requires 0 <= b <= 255
    ensures b % 2 + 2 * ((b / 2) % 8) + 16 * ((b / 16) % 8) == b % 128
    ensures b % 128 + 128 * ((b / 128) % 8) == b
  {
    var b1 := b / 2;
    assert b == 2 * b1 + b % 2 && b / 16 == b1 / 8 && b / 128 == b1 / 64;
    assert b1 == 8 * (b1 / 8) + b1 % 8 && b1 / 64 == (b1 / 8) / 8;
  }

  lemma HighOctals(c: int)
    requires 0 <= c <= 255
    ensures c % 4 + 4 * ((c / 4) % 8) + 32 * ((c / 32) % 8) == c
  {
    var c1 := c / 4;
    assert c == 4 * c1 + c % 4 && c / 32 == c1 / 8 && c1 == 8 * (c1 / 8) + c1 % 8;
  }

  lemma RadixFive(b: int, c: int, d: seq<int>)
    requires |d| == 4
    ensures Radix(b, [c] + d) == c + b * (d[0] + b * (d[1] + b * (d[2] + b * d[3])))
  {
    RadixFour(b, d[0], d[1], d[2], d[3]);
    assert d == [d[0], d[1], d[2], d[3]];
    assert ([c] + d)[1..] == d;
  }

  lemma TopOctalsValue(a: u32, b: u32)
    requires a <= 255 && b <= 255
    ensures Radix(8, TopOctals(a, b)) == a + 256 * (b % 128)
    ensures forall k | 0 <= k < 5 :: 0 <= TopOctals(a, b)[k] < 8
  {
    OctalArith(a, b, 0);
    var d := TopOctals(a, b);
    hide Radix;
    RadixFive(8, d[0], d[1..]);
    assert d == [d[0]] + d[1..];
  }

  lemma OctalsDigits(a: u32, b: u32, c: u32)
    requires a <= 255 && b <= 255 && c <= 255
    ensures var d := Octals(a, b, c);
            && (forall k | 0 <= k < 8 :: 0 <= d[k] < 8)
            && d[0] + 8 * d[1] + 64 * d[2] + 512 * d[3] + 4096 * (d[4] + 8 * d[5] + 64 * d[6] + 512 * d[7])
               == a + 256 * b + 0x1_0000 * c
  {
    OctalArith(a, b, c);
  }

  lemma OctalsValue(a: u32, b: u32, c: u32)
    requires a <= 255 && b <= 255 && c <= 255
    ensures Radix(8, Octals(a, b, c)) == a + 256 * b + 0x1_0000 * c
    ensures forall k | 0 <= k < 8 :: 0 <= Octals(a, b, c)[k] < 8
  {
    var d := Octals(a, b, c);
    OctalsDigits(a, b, c);
    hide Radix, Octals;
    RadixFour(8, d[0], d[1], d[2], d[3]);
    RadixFour(8, d[4], d[5], d[6], d[7]);
    RadixAppend(8, d[..4], d[4..]);
    assert d[..4] == [d[0], d[1], d[2], d[3]] && d[4..] == [d[4], d[5], d[6], d[7]] && d == d[..4] + d[4..];
    assert Pow(8, 4) == 4096;
  }

  /** `x ^ (2 y)` for a single low bit. */
  lemma PackBit(a: u32, b: u32)
    requires a < 2 && b < 4
    ensures Xor(a, 2 * b) == a + 2 * b
  {
    assert Xor(0, b) == b;
  }

  /** `v << m` masked to three bits. */
  lemma ShiftMask(v: u32)
    ensures (4 * v) % 8 == 4 * (v % 2) && (2 * v) % 8 == 2 * (v % 4)
  {
    DivModUnique(4 * v, 8, v / 2, 4 * (v % 2));
    DivModUnique(2 * v, 8, v / 4, 2 * (v % 4));
  }

  lemma OctalBound(a: u32)
    requires a <= 255
    ensures (a / 64) % 8 < 4 && (a / 128) % 8 < 2
  {
  }

  /** What is left of a number in a signed char. */
  function AsChar(v: int): int8
  {
    (v + 128) % 256 - 128
  }

  /** A number in `n` signed base-8 digits, the last one taking what is left. */
  function Signed8(v: int, n: nat): (d: seq<int8>)
    ensures |d| == n
    decreases n, v
  {
    if n == 0 then []
    else if n == 1 then [AsChar(v)]
    else [(v + 4) % 8 - 4] + Signed8((v + 4) / 8, n - 1)
  }

  /** There is only one way to write a number with such digits. */
  lemma {:induction false} Signed8Unique(d: seq<int8>, e: seq<int>)
    requires Window(d) && e == d
    ensures d == Signed8(Radix(8, e), |d|)
    decreases |d|
  {
    if |d| == 1 {
      RadixDigit(e[0]);
      assert e == [e[0]];
      CharIsItself(e[0]);
    } else if |d| > 1 {
      Signed8Unique(d[1..], e[1..]);
      DivModUnique(Radix(8, e) + 4, 8, Radix(8, e[1..]), e[0] + 4);
    }
  }

  lemma CharIsItself(v: int8)
    ensures AsChar(v) == v
  {
    DivModUnique(v as int + 128, 256, 0, v as int + 128);
  }

  ghost predicate Octal(d: seq<int>)
  {
    forall k | 0 <= k < |d| :: 0 <= d[k] < 8
  }

  lemma OctalsGrow(d: seq<int>, s: seq<u32>, i: nat)
    requires 3 * i + 3 <= |s| && Within(s, 255) && |d| == 8 * i && Radix(8, d) == Val(s[..3 * i]) && Octal(d)
    ensures var e := d + Octals(s[3 * i], s[3 * i + 1], s[3 * i + 2]);
            Radix(8, e) == Val(s[..3 * i + 3]) && Octal(e)
  {
    hide Radix, Val, Pow, Octals, Pow256;
    var a, b, c := s[3 * i], s[3 * i + 1], s[3 * i + 2];
    OctalsValue(a, b, c);
    RadixAppend(8, d, Octals(a, b, c));
    Pow8IsPow256(i);
    PrefixThree(s, 3 * i);
  }

  lemma PrefixThree(s: seq<int>, k: nat)
    requires k + 3 <= |s|
    ensures Val(s[..k + 3]) == Val(s[..k]) + Pow256(k) * (s[k] + 256 * s[k + 1] + 0x1_0000 * s[k + 2])
  {
    PrefixTwo(s, k);
    ValTop(s[..k + 3]);
    assert s[..k + 3][..k + 2] == s[..k + 2];
    assert Pow256(k + 2) == 256 * (256 * Pow256(k));
    hide Val, Pow256;
    ThreeArith(Pow256(k), s[k], s[k + 1], s[k + 2]);
  }

  lemma PrefixTwo(s: seq<int>, k: nat)
    requires k + 2 <= |s|
    ensures Val(s[..k + 2]) == Val(s[..k]) + s[k] * Pow256(k) + s[k + 1] * (256 * Pow256(k))
  {
    ValTop(s[..k + 1]);
    assert s[..k + 1][..k] == s[..k];
    ValTop(s[..k + 2]);
    assert s[..k + 2][..k + 1] == s[..k + 1];
  }

  lemma ThreeArith(w: int, a: int, b: int, c: int)
    ensures a * w + b * (256 * w) + c * (256 * (256 * w)) == w * (a + 256 * b + 0x1_0000 * c)
  {
  }

  lemma TopOctalsGrow(d: seq<int>, s: seq<u32>)
    requires |s| == 32 && Within(s, 255) && |d| == 80 && Radix(8, d) == Val(s[..30]) && Octal(d)
    ensures var e := d + TopOctals(s[30], s[31]);
            Radix(8, e) == Val(s) - (s[31] / 128) * TOP_BIT && Octal(e)
  {
    hide Radix, Val, Pow, TopOctals, Pow256;
    TopOctalsValue(s[30], s[31]);
    RadixAppend(8, d, TopOctals(s[30], s[31]));
    Pow8IsPow256(10);
    PrefixTwo(s, 30);
    assert s[..32] == s;
    Weights();
    SplitTop(s[30], s[31], Pow256(30));
  }

  lemma SplitTop(a: int, b: int, w: int)
    ensures w * (a + 256 * (b % 128)) == a * w + b * (256 * w) - (b / 128) * (128 * (256 * w))
  {
    assert b == 128 * (b / 128) + b % 128;
  }

  method WriteTriple(r: array<int8>, j: nat, a: u32, b: u32, c: u32)
    requires j + 8 <= r.Length && a <= 255 && b <= 255 && c <= 255
    modifies r
    ensures r[j..j + 8] == Octals(a, b, c)
    ensures forall k | 0 <= k < r.Length && !(j <= k < j + 8) :: r[k] == old(r[k])
  {
    hide Xor;
    OctalBound(a);
    OctalBound(b);
    ShiftMask(b);
    ShiftMask(c);
    PackDigits((a / 64) % 8, b % 2);
    PackBit((b / 128) % 8, c % 4);
    r[j] := a % 8;
    r[j + 1] := (a / 8) % 8;
    r[j + 2] := Xor((a / 64) % 8, (4 * b) % 8);
    r[j + 3] := (b / 2) % 8;
    r[j + 4] := (b / 16) % 8;
    r[j + 5] := Xor((b / 128) % 8, (2 * c) % 8);
    r[j + 6] := (c / 4) % 8;
    r[j + 7] := (c / 32) % 8;
    ghost var d := Octals(a, b, c);
    assert forall k | 0 <= k < 8 :: r[j + k] == d[k];
  }

  method WriteTop(r: array<int8>, j: nat, a: u32, b: u32)
    requires j + 5 <= r.Length && a <= 255 && b <= 255
    modifies r
    ensures r[j..j + 5] == TopOctals(a, b)
    ensures forall k | 0 <= k < r.Length && !(j <= k < j + 5) :: r[k] == old(r[k])
  {
    hide Xor;
    OctalBound(a);
    ShiftMask(b);
    PackDigits((a / 64) % 8, b % 2);
    r[j] := a % 8;
    r[j + 1] := (a / 8) % 8;
    r[j + 2] := Xor((a / 64) % 8, (4 * b) % 8);
    r[j + 3] := (b / 2) % 8;
    r[j + 4] := (b / 16) % 8;
    ghost var d := TopOctals(a, b);
    assert forall k | 0 <= k < 5 :: r[j + k] == d[k];
  }

  /** Every digit but the last is one that `choose_t` can look up. */
  ghost predicate Window(d: seq<int>)
  {
    forall k | 0 <= k < |d| - 1 :: -4 <= d[k] <= 3
  }

  lemma SignedStep(r: seq<int>, d: seq<int>, i: nat, k: int, x: int, k': int)
    requires i < |d| && |r| == i && Radix(8, r) + Pow(8, i) * k == Radix(8, d[..i])
    requires d[i] + k == x + 8 * k'
    ensures Radix(8, r + [x]) + Pow(8, i + 1) * k' == Radix(8, d[..i + 1])
  {
    RadixAppend(8, r, [x]);
    RadixAppend(8, d[..i], [d[i]]);
    assert d[..i + 1] == d[..i] + [d[i]];
    RadixDigit(x);
    RadixDigit(d[i]);
    assert Pow(8, i + 1) == 8 * Pow(8, i);
    hide Radix, Pow;
    SignedArith(Pow(8, i), d[i], k, x, k');
  }

  lemma SignedArith(p: int, d: int, k: int, x: int, k': int)
    requires d + k == x + 8 * k'
    ensures p * x + (8 * p) * k' == p * d + p * k
  {
    assert p * (d + k) == p * (x + 8 * k');
  }

  lemma RadixDigit(x: int)
    ensures Radix(8, [x]) == x
  {
    assert [x][1..] == [];
  }

  /** The loop that makes the digits signed keeps the number. */
  method MakeSigned(r: array<int8>)
    requires r.Length == 85 && Octal(r[..])
    modifies r
    ensures Radix(8, r[..]) == old(Radix(8, r[..])) && Window(r[..])
    ensures old(r[84]) <= r[84] <= old(r[84]) + 1
  {
    hide Radix, Pow;
    ghost var d: seq<int> := r[..];
    var carry: int8 := 0;
    EmptyRadix(r[..0], d);
    var i := 0;
    while i < 84
      invariant 0 <= i <= 84 && 0 <= carry && 0 <= r[i] - d[i] && r[i] - d[i] + carry <= 1
      invariant Radix(8, r[..i]) + Pow(8, i) * (r[i] - d[i] + carry) == Radix(8, d[..i])
      invariant forall j | 0 <= j < i :: -4 <= r[j] <= 3
      invariant forall j | i < j < 85 :: r[j] == d[j]
    {
      ghost var k := r[i] - d[i] + carry;
      ghost var done := r[..i];
      r[i] := r[i] + carry;
      r[i + 1] := r[i + 1] + r[i] / 8;
      r[i] := r[i] % 8;
      carry := r[i] / 4;
      r[i] := r[i] - carry * 8;
      assert r[..i] == done;
      SignedStep(done, d, i, k, r[i], r[i + 1] - d[i + 1] + carry);
      assert r[..i + 1] == done + [r[i]];
      i := i + 1;
    }
    ghost var k := r[84] - d[84] + carry;
    ghost var done := r[..84];
    r[84] := r[84] + carry;
    assert r[..84] == done;
    SignedStep(done, d, 84, k, r[84], 0);
    assert r[..] == done + [r[84]] && d[..85] == d;
  }

  lemma EmptyRadix(r: seq<int>, d: seq<int>)
    requires |r| == 0
    ensures Radix(8, r) == 0 && Radix(8, d[..0]) == 0
  {
  }

  /** `sc25519_window3`: the digits make up the scalar (bit 255 is dropped), each but the last in
      -4..3, and the last as well for scalars below the group order. */
  method Window3(r: array<int8>, s: array<u32>)
    requires r.Length == 85 && s.Length == 32 && Within(s[..], 255)
    modifies r
    ensures Radix(8, r[..]) == Val(s[..]) - (s[31] / 128) * TOP_BIT && Window(r[..])
    ensures s[31] / 16 % 8 <= r[84] <= s[31] / 16 % 8 + 1
  {
    hide Radix, Val, Octals, TopOctals, Octal;
    ghost var d: seq<int> := [];
    var i := 0;
    EmptyOctals(s[..0]);
    while i < 10
      invariant 0 <= i <= 10 && r[..8 * i] == d && Octal(d)
      invariant Radix(8, d) == Val(s[..3 * i])
    {
      WriteTriple(r, 8 * i, s[3 * i], s[3 * i + 1], s[3 * i + 2]);
      assert r[..8 * i] == d;
      OctalsGrow(d, s[..], i);
      PrefixAt(s, 3 * i);
      PrefixAt(s, 3 * i + 3);
      d := d + Octals(s[3 * i], s[3 * i + 1], s[3 * i + 2]);
      assert r[..8 * i + 8] == d;
      i := i + 1;
    }
    WriteTop(r, 80, s[30], s[31]);
    assert r[..80] == d;
    PrefixAt(s, 30);
    TopOctalsGrow(d, s[..]);
    LastOctal(s[30], s[31]);
    assert r[..] == d + TopOctals(s[30], s[31]);
    assert r[84] == TopOctals(s[30], s[31])[4];
    MakeSigned(r);
  }

  lemma EmptyOctals(s: seq<int>)
    requires |s| == 0
    ensures Octal([]) && Radix(8, []) == 0 && Val(s) == 0
  {
  }

  lemma PrefixAt(s: array<u32>, i: nat)
    requires i <= s.Length
    ensures s[..][..i] == s[..i]
  {
  }

  lemma LastOctal(a: u32, b: u32)
    ensures TopOctals(a, b)[4] == b / 16 % 8
  {
  }
}
