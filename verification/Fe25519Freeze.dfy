/** Canonical form, comparison, packing and conditional moves of field elements. */
module Fe25519Freeze {
  import opened Words
  import opened ModArith
  import opened Limbs
  import opened Field
  import opened Fe25519
  import opened Fe25519Values

  // ------------------------------------------------------------------------
  // Branch-free comparisons

  /** `x = a ^ b; x -= 1; x >>= 31` */
  function Equal16(a: u32, b: u32): u32
  {
    WSub(Xor(a, b), 1) / 0x8000_0000
  }

  /** `x = a - b; x >>= 31; x ^= 1` */
  function Ge16(a: u32, b: u32): nat
  {
    Xor(WSub(a, b) / 0x8000_0000, 1)
  }

  lemma Equal16Decides(a: u32, b: u32)
    requires a <= 0xffff && b <= 0xffff
    ensures Equal16(a, b) == if a == b then 1 else 0
  {
    Pow2Word();
    XorZeroIff(a, b);
    XorBound(a, b, 16);
  }

  lemma Ge16Decides(a: u32, b: u32)
    requires a <= 0xffff && b <= 0xffff
    ensures Ge16(a, b) == if a >= b then 1 else 0
  {
    assert Xor(0, 1) == 1 && Xor(1, 1) == 0;
  }

  lemma AndBits(a: nat, b: nat)
    requires a <= 1 && b <= 1
    ensures And(a, b) == a * b
  {
    assert And(0, 0) == 0;
  }

  lemma AndMask(m: u32, x: nat)
    requires (m == 0 || m == 0xffff_ffff) && x <= 255
    ensures And(m, x) == if m == 0 then 0 else x
  {
    Pow2Word();
    if m != 0 {
      AndOnes(32, x);
    }
  }

  // ------------------------------------------------------------------------
  // freeze

  /** The limbs of p. */
  function PLimb(i: int): u32
  {
    if i == 0 then 237 else if i == 31 then 127 else 255
  }

  function PSeq(): (r: seq<int>)
    ensures |r| == 32
  {
    seq(32, i => PLimb(i))
  }

  /** The limbs read as a number between p and 2^255 - 1. */
  predicate AtLeastP(s: seq<int>)
    requires |s| == 32
  {
    s[31] == 127 && s[0] >= 237 && forall i | 1 <= i < 31 :: s[i] == 255
  }

  function FrozenLimbs(s: seq<u32>): (r: seq<u32>)
    requires |s| == 32
    ensures |r| == 32
  {
    if AtLeastP(s) then [s[0] - 237] + seq(31, _ => 0) else s
  }

  method FeFreeze(r: array<u32>)
    requires r.Length == 32 && Within(r[..], 0xffff)
    modifies r
    ensures r[..] == FrozenLimbs(old(r[..]))
  {
    hide And, Xor, Equal16, Ge16;
    ghost var s := r[..];
    assert forall k | 0 <= k < 32 :: r[k] == s[k];
    Equal16Decides(r[31], 127);
    var m: nat := Equal16(r[31], 127);
    var i := 30;
    while i > 0
      invariant 0 <= i <= 30 && r[..] == s
      invariant m == if s[31] == 127 && (forall k | i < k < 31 :: s[k] == 255) then 1 else 0
    {
      Equal16Decides(r[i], 255);
      AndBits(m, Equal16(r[i], 255));
      m := And(m, Equal16(r[i], 255));
      i := i - 1;
    }
    Ge16Decides(r[0], 237);
    AndBits(m, Ge16(r[0], 237));
    m := And(m, Ge16(r[0], 237));
    assert m == if AtLeastP(s) then 1 else 0;
    var mask := WSub(0, m);
    SubtractMasked(r, mask);
    assert r[..] == FrozenLimbs(s);
  }

  /** `r[31] -= m & 127; r[i] -= m & 255; r[0] -= m & 237` */
  method SubtractMasked(r: array<u32>, m: u32)
    requires r.Length == 32 && (m == 0 || m == 0xffff_ffff)
    modifies r
    ensures forall k | 0 <= k < 32 :: r[k] == WSub(old(r[k]), if m == 0 then 0 else PLimb(k))
  {
    hide And, W32;
    AndMask(m, 127);
    r[31] := WSub(r[31], And(m, 127));
    var i := 30;
    while i > 0
      invariant 0 <= i <= 30
      invariant forall k | i < k < 32 :: r[k] == WSub(old(r[k]), if m == 0 then 0 else PLimb(k))
      invariant forall k | 0 <= k <= i :: r[k] == old(r[k])
    {
      AndMask(m, 255);
      r[i] := WSub(r[i], And(m, 255));
      i := i - 1;
    }
    AndMask(m, 237);
    r[0] := WSub(r[0], And(m, 237));
  }

  lemma PValue()
    ensures Val(PSeq()) == P
  {
    hide Pow256, Val;
    var t := PSeq();
    var mid := t[1..31];
    ValEnds(t);
    RunOf(255, mid);
    Weights();
    assert |t| - 1 == 31 && |mid| == 30;
  }

  /** Byte limbs spell a number from p up to 2^255 - 1 exactly when they pass the test. */
  lemma AtLeastPIffValue(s: seq<int>)
    requires Loose(s)
    ensures AtLeastP(s) <==> P <= Val(s) < TOP_BIT
    ensures AtLeastP(s) ==> Val(s) == P + s[0] - 237
  {
    BelowIffValue(s);
    if AtLeastP(s) {
      AtLeastPValue(s);
    } else if P <= Val(s) < TOP_BIT {
      NotBelowP(s);
      assert false;
    }
  }

  lemma AtLeastPValue(s: seq<int>)
    requires Loose(s) && AtLeastP(s)
    ensures Val(s) == P + s[0] - 237 < TOP_BIT
  {
    assert s == PSeq()[0 := s[0]] && PSeq()[0] == 237;
    hide Val, PSeq, AtLeastP;
    PValue();
    ValUpdate(PSeq(), 0, s[0]);
    assert Pow256(0) == 1;
  }

  /** A number from p up to 2^255 - 1 has all the limbs the test asks for. */
  lemma NotBelowP(s: seq<int>)
    requires Below(s) && P <= Val(s)
    ensures AtLeastP(s)
  {
    hide Pow256, Val;
    var mid := s[1..31];
    var ones := seq(30, _ => 255);
    ValEnds(s);
    ValDigits(mid);
    RunOf(255, ones);
    Weights();
    assert |s| - 1 == 31 && |mid| == |ones| == 30;
    TopByteFull(s[0], Val(mid), s[31], Pow256(30));
    DigitsUnique(mid, ones);
    assert forall i | 1 <= i < 31 :: s[i] == mid[i - 1];
  }

  lemma TopByteFull(s0: int, m: int, t: int, w: int)
    requires 0 <= s0 <= 255 && 0 <= m < w && 0 <= t <= 127 && w > 0
    requires s0 + 256 * m + t * (256 * w) >= 128 * (256 * w) - 19
    ensures t == 127 && m == w - 1 && s0 >= 237
  {
    if t < 127 {
      MulMonotone(t, 126, 256 * w);
    }
  }

  /** On numbers below 2^255, freezing gives the representative in [0, p); numbers from 2^255 on
      are left alone. */
  lemma FrozenLimbsValue(s: seq<u32>)
    requires Loose(s)
    ensures Loose(FrozenLimbs(s))
    ensures Below(s) ==> Val(FrozenLimbs(s)) == Val(s) % P
    ensures !Below(s) ==> FrozenLimbs(s) == s
  {
    AtLeastPIffValue(s);
    BelowIffValue(s);
    var f := FrozenLimbs(s);
    if AtLeastP(s) {
      assert f[1..] == seq(31, _ => 0);
      ValZeros(f[1..]);
      hide Val;
      DivModUnique(Val(s), P, 1, Val(f));
    } else if Below(s) {
      DivModUnique(Val(s), P, 0, Val(s));
    }
  }

  method FePack(r: array<byte>, x: array<u32>)
    requires r.Length == 32 && x.Length == 32 && Within(x[..], 0xffff)
    modifies r
    ensures forall k | 0 <= k < 32 :: r[k] == FrozenLimbs(x[..])[k] % 256
  {
    hide FrozenLimbs;
    var y := new u32[32](i requires 0 <= i < 32 reads x => x[i]);
    assert y[..] == x[..];
    FeFreeze(y);
    ghost var f := y[..];
    for i := 0 to 32
      invariant y[..] == f
      invariant forall k | 0 <= k < i :: r[k] == f[k] % 256
    {
      r[i] := y[i] % 256;
    }
  }

  /** Packing a number below 2^255 writes the bytes of its residue modulo p. */
  lemma PackedValue(x: seq<u32>, r: seq<byte>)
    requires Below(x) && |r| == 32 && forall k | 0 <= k < 32 :: r[k] == FrozenLimbs(x)[k] % 256
    ensures Val(r) == Val(x) % P
  {
    FrozenLimbsValue(x);
    assert r == FrozenLimbs(x);
  }

  method FeIsEq(x: array<u32>, y: array<u32>) returns (eq: bool)
    requires x.Length == y.Length == 32 && Within(x[..], 0xffff) && Within(y[..], 0xffff)
    ensures eq <==> FrozenLimbs(x[..]) == FrozenLimbs(y[..])
  {
    hide FrozenLimbs;
    var t1 := new u32[32](i requires 0 <= i < 32 reads x => x[i]);
    var t2 := new u32[32](i requires 0 <= i < 32 reads y => y[i]);
    assert t1[..] == x[..] && t2[..] == y[..];
    FeFreeze(t1);
    FeFreeze(t2);
    assert t1[..] == FrozenLimbs(x[..]) && t2[..] == FrozenLimbs(y[..]);
    var i := 0;
    while i < 32
      invariant 0 <= i <= 32
      invariant t1[..] == FrozenLimbs(x[..]) && t2[..] == FrozenLimbs(y[..])
      invariant forall k | 0 <= k < i :: t1[k] == t2[k]
    {
      if t1[i] != t2[i] {
        assert t1[..][i] != t2[..][i];
        return false;
      }
      i := i + 1;
    }
    assert t1[..] == t2[..];
    return true;
  }

  /** Comparing frozen limbs decides congruence modulo p on numbers below 2^255. From 2^255 on
      it only recognises a number equal to itself. */
  lemma FrozenDecides(x: seq<u32>, y: seq<u32>)
    requires Loose(x) && Loose(y)
    ensures FrozenLimbs(x) == FrozenLimbs(y)
       <==> Eq(Val(x), Val(y)) && ((Below(x) && Below(y)) || x == y)
  {
    FrozenLimbsValue(x);
    FrozenLimbsValue(y);
    BelowIffValue(x);
    BelowIffValue(y);
    var f, g := FrozenLimbs(x), FrozenLimbs(y);
    hide FrozenLimbs, Val;
    if Below(x) && Below(y) {
      if Val(f) == Val(g) {
        DigitsUnique(f, g);
      }
    } else if f == g {
      if Below(x) {
        ResidueBelow(Val(x));
        assert false;
      } else if Below(y) {
        ResidueBelow(Val(y));
        assert false;
      }
    }
  }

  lemma ResidueBelow(v: int)
    ensures v % P < TOP_BIT
  {
  }

  /** The loose form does reach beyond what freezing handles: 2^255 and 19 are congruent modulo p
      and yet do not compare equal. */
  lemma FreezeMissesTopBit()
    ensures exists x: seq<u32>, y: seq<u32> ::
              Loose(x) && Loose(y) && Eq(Val(x), Val(y)) && FrozenLimbs(x) != FrozenLimbs(y)
  {
    var x: seq<u32> := seq(31, _ => 0) + [128];
    var y: seq<u32> := [19] + seq(31, _ => 0);
    ValTop(x);
    ValZeros(x[..31]);
    assert y[1..] == seq(31, _ => 0);
    ValZeros(y[1..]);
    Weights();
    hide Pow256;
    assert Val(x) == TOP_BIT && Val(y) == 19;
    CongByMultiple(Val(x), Val(y), 1, P);
    assert FrozenLimbs(x)[31] == 128 && FrozenLimbs(y)[31] == 0;
  }
}
