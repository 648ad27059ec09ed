/** The field of integers modulo p = 2^255 - 19 and its reduction on 32 limbs. */
module Field {
  import opened Words
  import opened ModArith
  import opened Limbs

  const P: int := 0x7fffffff_ffffffff_ffffffff_ffffffff_ffffffff_ffffffff_ffffffff_ffffffed

  /** 2^255: the weight of bit 7 of the top limb. */
  const TOP_BIT: int := P + 19

  ghost predicate Eq(a: int, b: int)
  {
    Cong(a, b, P)
  }

  lemma EqMul(a: int, a': int, b: int, b': int)
    requires Eq(a, a') && Eq(b, b')
    ensures Eq(a * b, a' * b')
  {
    CongMul(a, a', b, b', P);
  }

  lemma EqAdd(a: int, a': int, b: int, b': int)
    requires Eq(a, a') && Eq(b, b')
    ensures Eq(a + b, a' + b')
  {
    CongAdd(a, a', b, b', P);
  }

  lemma EqSub(a: int, a': int, b: int, b': int)
    requires Eq(a, a') && Eq(b, b')
    ensures Eq(a - b, a' - b')
  {
    CongSub(a, a', b, b', P);
  }

  lemma EqMod(a: int)
    ensures Eq(a % P, a)
  {
    CongMod(a, P);
  }

  lemma EqValues(a: int, b: int)
    requires Eq(a, b)
    ensures a % P == b % P
  {
  }

  lemma Weights()
    ensures 128 * Pow256(31) == TOP_BIT
    ensures Pow256(32) == 256 * Pow256(31) == 2 * TOP_BIT
    ensures Pow256(31) == 256 * Pow256(30)
  {
    assert Pow256(8) == 0x1_0000_0000_0000_0000;
    assert Pow256(16) == 0x1_0000_0000_0000_0000 * 0x1_0000_0000_0000_0000;
    assert Pow256(24) == 0x1_0000_0000_0000_0000 * Pow256(16);
    assert Pow256(31) == 0x100_0000_0000_0000 * Pow256(24);
  }

  /** Carry out of bit 255 and back in at the bottom: `t = v[31] >> 7; v[31] &= 127; v[0] += 19 t`,
      followed by a carry pass. */
  function ReducePass(s: seq<int>): (r: seq<u32>)
    requires |s| >= 1 && 0 <= s[|s| - 1]
    ensures |r| == |s|
  {
    Carry(s[|s| - 1 := s[|s| - 1] % 128], W32(19 * (s[|s| - 1] / 128)))
  }

  lemma FoldTop(w: int, low: int, top: int)
    requires 128 * w == TOP_BIT
    ensures low + (top % 128) * w + 19 * (top / 128) == low + top * w - P * (top / 128)
  {
    var q, m := top / 128, top % 128;
    assert top * w == m * w + q * (128 * w) by {
      assert (128 * q + m) * w == (128 * q) * w + m * w;
    }
  }

  /** The value after folding the bits from 255 up of the top limb into the bottom one. */
  function Folded(s: seq<int>): int
    requires |s| >= 1
  {
    Val(s[..|s| - 1]) + (s[|s| - 1] % 128) * Pow256(|s| - 1) + 19 * (s[|s| - 1] / 128)
  }

  /** Folding takes off `v[31] >> 7` copies of p. */
  lemma FoldedValue(s: seq<int>)
    requires |s| == 32
    ensures Folded(s) == Val(s) - P * (s[31] / 128)
    ensures Eq(Folded(s), Val(s))
  {
    ValTop(s);
    Weights();
    FoldTop(Pow256(31), Val(s[..31]), s[31]);
    CongByMultiple(Folded(s), Val(s), -(s[31] / 128), P);
  }

  lemma FoldRoom(v: int, hi: int, m: nat, c: nat, w: int)
    requires 0 <= 255 * v <= hi * (w - 1) && 0 <= hi <= 0x1000_0000 && w > 0
    requires m < 128 && c < 0x1000_0000
    ensures 0 <= v + m * w + c < WORD * w
  {
    MulMonotone(hi, 0x1000_0000, w - 1);
    MulMonotone(m, 127, w);
    MulMonotone(0, m, w);
  }

  /** A reduction pass carries the folded value out exactly. */
  lemma ReducePassExact(s: seq<int>, hi: int)
    requires |s| >= 1 && 255 <= hi < 0x1000_0000 && Within(s[..|s| - 1], hi) && 0 <= s[|s| - 1] <= 0x3fff_ffff
    ensures Normal(ReducePass(s)) && Val(ReducePass(s)) == Folded(s) >= 0
  {
    var k := |s| - 1;
    var q, m := s[k] / 128, s[k] % 128;
    W32Id(19 * q);
    var t := s[k := m];
    ValTop(t);
    assert t[..k] == s[..k];
    ValBound(s[..k], hi);
    FoldRoom(Val(s[..k]), hi, m, 19 * q, Pow256(k));
    assert forall i | 0 <= i < k :: t[i] == s[..k][i];
    CarryExact(t, 19 * q, 0x1000_0000, 0x1000_0000);
  }
}
