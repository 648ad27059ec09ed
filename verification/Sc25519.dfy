/** Scalars modulo the group order, `sc25519_*`, and their truncated Barrett reduction. */
module Sc25519 {
  import opened Words
  import opened ModArith
  import opened Limbs
  import opened Convolution
  import opened Schoolbook

  /** The order of the base point. */
  const L: int := 0x10000000_00000000_00000000_00000000_14def9de_a2f79cd6_5812631a_5cf5d3ed

  /** floor(2^512 / L) */
  const MU: int := 0xf_ffffffff_ffffffff_ffffffff_ffffffeb_2106215d_086329a7_ed9ce5a3_0a2c131b

  /** The limbs `m` of the order. */
  function MLimb(i: int): (r: u32)
    ensures r <= 255
  {
    match i
    case 0 => 0xED case 1 => 0xD3 case 2 => 0xF5 case 3 => 0x5C
    case 4 => 0x1A case 5 => 0x63 case 6 => 0x12 case 7 => 0x58
    case 8 => 0xD6 case 9 => 0x9C case 10 => 0xF7 case 11 => 0xA2
    case 12 => 0xDE case 13 => 0xF9 case 14 => 0xDE case 15 => 0x14
    case 31 => 0x10
    case _ => 0
  }

  /** The 33 limbs `mu`. */
  function MuLimb(i: int): (r: u32)
    ensures r <= 255
  {
    match i
    case 0 => 0x1B case 1 => 0x13 case 2 => 0x2C case 3 => 0x0A
    case 4 => 0xA3 case 5 => 0xE5 case 6 => 0x9C case 7 => 0xED
    case 8 => 0xA7 case 9 => 0x29 case 10 => 0x63 case 11 => 0x08
    case 12 => 0x5D case 13 => 0x21 case 14 => 0x06 case 15 => 0x21
    case 16 => 0xEB case 32 => 0x0F
    case _ => 0xFF
  }

  function M(): (r: seq<u32>)
    ensures |r| == 32
  {
    seq(32, i => MLimb(i))
  }

  function Mu(): (r: seq<u32>)
    ensures |r| == 33
  {
    seq(33, i => MuLimb(i))
  }

  lemma ModulusBytes()
    ensures Within(M(), 255) && Within(Mu(), 255)
  {
    hide MLimb, MuLimb;
  }

  lemma MQuads()
    ensures Quad(M(), 0) == 0x5812631a_5cf5d3ed && Quad(M(), 8) == 0x14def9de_a2f79cd6
    ensures Quad(M(), 16) == 0 && Quad(M(), 24) == 0x10000000_00000000
  {
  }

  lemma MValue()
    ensures Val(M()) == L
  {
    MQuads();
    hide M, Quad, Val;
    ValQuads(M());
  }

  lemma MuQuads()
    ensures Quad(Mu(), 0) == 0xed9ce5a3_0a2c131b && Quad(Mu(), 8) == 0x2106215d_086329a7
    ensures Quad(Mu(), 16) == 0xffffffff_ffffffeb && Quad(Mu(), 24) == 0xffffffff_ffffffff
    ensures Mu()[32] == 0xf
  {
  }

  lemma MuValue()
    ensures Val(Mu()) == MU
  {
    var m := Mu();
    MuQuads();
    hide Mu, Quad, Val;
    ValQuad(m, 0);
    ValQuad(m, 8);
    ValQuad(m, 16);
    ValQuad(m, 24);
    assert m[0..] == m;
    ValNext(m, 32);
    ValNothing(m[33..]);
  }

  // ------------------------------------------------------------------------
  // Subtraction with borrow

  /** `x = a - b; x >>= 31` */
  function Lt16(a: u32, b: u32): u32
  {
    WSub(a, b) / 0x8000_0000
  }

  lemma Lt16Decides(a: u32, b: u32)
    requires a <= 0xffff && b <= 0xffff
    ensures Lt16(a, b) == if a < b then 1 else 0
  {
  }

  /** Limbs of `a - b - pb`, each borrowing 256 from the next where needed. */
  function Borrowed(a: seq<int>, b: seq<int>, pb: int): (r: seq<int>)
    requires |a| == |b|
    ensures |r| == |a|
    decreases |a|
  {
    if |a| == 0 then []
    else
      var d := a[0] - b[0] - pb;
      [if d < 0 then d + 256 else d] + Borrowed(a[1..], b[1..], if d < 0 then 1 else 0)
  }

  function BorrowOut(a: seq<int>, b: seq<int>, pb: int): int
    requires |a| == |b|
    decreases |a|
  {
    if |a| == 0 then pb
    else BorrowOut(a[1..], b[1..], if a[0] - b[0] - pb < 0 then 1 else 0)
  }

  lemma {:induction false} BorrowedValue(a: seq<int>, b: seq<int>, pb: int)
    requires |a| == |b| && Within(a, 255) && Within(b, 255) && 0 <= pb <= 1
    ensures Within(Borrowed(a, b, pb), 255) && 0 <= BorrowOut(a, b, pb) <= 1
    ensures Val(Borrowed(a, b, pb)) == Val(a) - Val(b) - pb + BorrowOut(a, b, pb) * Pow256(|a|)
    decreases |a|
  {
    if |a| > 0 {
      var d := a[0] - b[0] - pb;
      var c := if d < 0 then 1 else 0;
      BorrowedValue(a[1..], b[1..], c);
      var r := Borrowed(a, b, pb);
      assert r[1..] == Borrowed(a[1..], b[1..], c) && r == [r[0]] + r[1..];
      assert r[0] == d + 256 * c;
      var o, w := BorrowOut(a, b, pb), Pow256(|a| - 1);
      assert o == BorrowOut(a[1..], b[1..], c) && Pow256(|a|) == 256 * w;
      assert Val(r) == r[0] + 256 * Val(r[1..]);
      assert Val(a) == a[0] + 256 * Val(a[1..]) && Val(b) == b[0] + 256 * Val(b[1..]);
      hide Val, Pow256, Borrowed, BorrowOut;
      ScaleOut(o, w);
    }
  }

  lemma ScaleOut(o: int, w: int)
    ensures o * (256 * w) == 256 * (o * w)
  {
  }

  /** The borrow loop has reached limb `i` with borrow `pb`. */
  ghost predicate Borrowing(a: seq<int>, b: seq<int>, r: seq<int>, out: int, i: nat, pb: int)
  {
    i <= |a| == |b| == |r| && r[i..] == Borrowed(a[i..], b[i..], pb) && out == BorrowOut(a[i..], b[i..], pb)
  }

  lemma BorrowStart(a: seq<int>, b: seq<int>)
    requires |a| == |b|
    ensures Borrowing(a, b, Borrowed(a, b, 0), BorrowOut(a, b, 0), 0, 0)
  {
    assert a[0..] == a && b[0..] == b && Borrowed(a, b, 0)[0..] == Borrowed(a, b, 0);
  }

  lemma BorrowStep(a: seq<int>, b: seq<int>, r: seq<int>, out: int, i: nat, pb: int)
    requires i < |a| && Borrowing(a, b, r, out, i, pb)
    ensures var d := a[i] - b[i] - pb;
            && r[i] == (if d < 0 then d + 256 else d)
            && Borrowing(a, b, r, out, i + 1, if d < 0 then 1 else 0)
  {
    assert a[i..][1..] == a[i + 1..] && b[i..][1..] == b[i + 1..] && r[i..][1..] == r[i + 1..];
    assert r[i] == r[i..][0];
  }

  lemma BorrowEnd(a: seq<int>, b: seq<int>, r: seq<int>, out: int, pb: int)
    requires Borrowing(a, b, r, out, |a|, pb)
    ensures out == pb
  {
  }

  /** `pb += b[i]; c = lt(a[i],pb); t[i] = a[i] - pb + (c << 8); pb = c` over 32 limbs. */
  method SubtractBorrow(t: array<u32>, a: array<u32>, b: array<u32>) returns (borrow: u32)
    requires t.Length == 32 && a.Length >= 32 && b.Length >= 32 && t != a && t != b
    requires Within(a[..32], 255) && Within(b[..32], 255)
    modifies t
    ensures Within(t[..], 255) && borrow <= 1
    ensures Val(t[..]) == Val(a[..32]) - Val(b[..32]) + borrow * Pow256(|t[..]|)
  {
    hide Borrowed, BorrowOut, Borrowing, Val, Pow256, Lt16;
    ghost var x, y := a[..32], b[..32];
    ghost var r, out := Borrowed(x, y, 0), BorrowOut(x, y, 0);
    BorrowStart(x, y);
    var pb: u32 := 0;
    borrow := 0;
    var i := 0;
    while i < 32
      invariant 0 <= i <= 32 && borrow == pb <= 1
      invariant Borrowing(x, y, r, out, i, pb)
      invariant forall k | 0 <= k < i :: t[k] == r[k]
    {
      assert a[i] == x[i] && b[i] == y[i];
      BorrowStep(x, y, r, out, i, pb);
      pb := WAdd(pb, b[i]);
      Lt16Decides(a[i], pb);
      borrow := Lt16(a[i], pb);
      t[i] := W32(a[i] - pb + 256 * borrow);
      pb := borrow;
      i := i + 1;
    }
    BorrowEnd(x, y, r, out, pb);
    BorrowedValue(x, y, 0);
    assert t[..] == r;
  }

  method LoadModulus() returns (m: array<u32>)
    ensures fresh(m) && m[..] == M()
  {
    m := new u32[32](i => MLimb(i));
    assert m[..] == M();
  }

  /** One conditional subtraction of the order. */
  method ReduceAddSub(r: array<u32>)
    requires r.Length == 32 && Within(r[..], 255)
    modifies r
    ensures Within(r[..], 255)
    ensures Val(r[..]) == if old(Val(r[..])) >= L then old(Val(r[..])) - L else old(Val(r[..]))
  {
    hide Val, Pow256, M, Xor, And;
    var m := LoadModulus();
    var t := new u32[32];
    ModulusBytes();
    MValue();
    ghost var s := r[..];
    assert r[..32] == s && m[..32] == M();
    var b := SubtractBorrow(t, r, m);
    ghost var d := t[..];
    var mask := WSub(b, 1);
    var i := 0;
    while i < 32
      invariant 0 <= i <= 32
      invariant t[..] == d
      invariant forall k | 0 <= k < i :: r[k] == if b == 1 then s[k] else d[k]
      invariant forall k | i <= k < 32 :: r[k] == s[k]
    {
      MaskedSelect(mask, r[i], t[i]);
      r[i] := Xor(r[i], And(mask, Xor(r[i], t[i])));
      i := i + 1;
    }
    assert r[..] == if b == 1 then s else d;
    ValDigits(s);
    ValDigits(d);
  }
}
