/** Limb arithmetic of the Diffie-Hellman half of the curve code: 32 limbs of radix 2^8 in
    32-bit words, lazily carried. Every method is equated with a function of the limbs it reads,
    word wrap-around included; the lemmas that follow say what those functions compute. */
module X25519 {
  import opened Words
  import opened ModArith
  import opened Limbs
  import opened Field
  import opened Convolution

  predicate Fits(a: array<u32>, o: nat)
  {
    o + 32 <= a.Length
  }

  predicate Apart(x: array<u32>, xo: nat, y: array<u32>, yo: nat)
  {
    x != y || xo + 32 <= yo || yo + 32 <= xo
  }

  twostate predicate OnlyChanges(a: array<u32>, o: nat)
    reads a
  {
    forall k | 0 <= k < a.Length && !(o <= k < o + 32) :: a[k] == old(a[k])
  }

  function Sum(a: seq<u32>, b: seq<u32>): (r: seq<u32>)
    requires |a| == |b| == 32
    ensures |r| == 32
  {
    Carry(ZipAdd(a, b), 0)
  }

  function DiffTerms(a: seq<int>, b: seq<int>): seq<int>
    requires |a| == |b|
  {
    seq(|a|, j requires 0 <= j < |a| => if j < |a| - 1 then a[j] + 65280 - b[j] else a[j] - b[j])
  }

  function Difference(a: seq<u32>, b: seq<u32>): (r: seq<u32>)
    requires |a| == |b| == 32
    ensures |r| == 32
  {
    Carry(DiffTerms(a, b), 218)
  }

  function Squeezed(s: seq<int>): (r: seq<u32>)
    requires |s| == 32
    ensures |r| == 32
  {
    ReducePass(Carry(s, 0))
  }

  function Product(a: seq<u32>, b: seq<u32>): (r: seq<u32>)
    requires |a| == |b| == 32
    ensures |r| == 32
  {
    Squeezed(ProductWords(a, b))
  }

  function Times121665(a: seq<u32>): (r: seq<u32>)
    requires |a| == 32
    ensures |r| == 32
  {
    Squeezed(Scale(121665, a))
  }

  method Add(out: array<u32>, o: nat, a: array<u32>, ao: nat, b: array<u32>, bo: nat)
    requires Fits(out, o) && Fits(a, ao) && Fits(b, bo)
    requires out != b && (out == a ==> o == ao)
    modifies out
    ensures out[o..o + 32] == Sum(old(a[ao..ao + 32]), old(b[bo..bo + 32]))
    ensures OnlyChanges(out, o)
  {
    hide W32, Carry, Carrying;
    ghost var s := ZipAdd(a[ao..ao + 32], b[bo..bo + 32]);
    ghost var r := Carry(s, 0);
    CarryStart(s, 0);
    var u: u32 := 0;
    var j := 0;
    while j < 31
      invariant 0 <= j <= 31
      invariant Carrying(s, r, j, u)
      invariant forall k | o <= k < o + j :: out[k] == r[k - o]
      invariant forall k | ao + j <= k < ao + 32 :: a[k] == old(a[k])
      invariant OnlyChanges(out, o)
    {
      CarryStep(s, r, j, u);
      u := W32(u + a[ao + j] + b[bo + j]);
      out[o + j] := u % 256;
      u := u / 256;
      j := j + 1;
    }
    CarryStep(s, r, 31, u);
    out[o + 31] := W32(u + a[ao + 31] + b[bo + 31]);
  }

  method Sub(out: array<u32>, o: nat, a: array<u32>, ao: nat, b: array<u32>, bo: nat)
    requires Fits(out, o) && Fits(a, ao) && Fits(b, bo)
    requires out != a && out != b
    modifies out
    ensures out[o..o + 32] == Difference(old(a[ao..ao + 32]), old(b[bo..bo + 32]))
    ensures OnlyChanges(out, o)
  {
    hide W32, Carry, Carrying;
    ghost var s := DiffTerms(a[ao..ao + 32], b[bo..bo + 32]);
    ghost var r := Carry(s, 218);
    CarryStart(s, 218);
    var u: u32 := 218;
    var j := 0;
    while j < 31
      invariant 0 <= j <= 31
      invariant Carrying(s, r, j, u)
      invariant forall k | o <= k < o + j :: out[k] == r[k - o]
      invariant OnlyChanges(out, o)
    {
      CarryStep(s, r, j, u);
      u := W32(u + a[ao + j] + 65280 - b[bo + j]);
      out[o + j] := u % 256;
      u := u / 256;
      j := j + 1;
    }
    CarryStep(s, r, 31, u);
    out[o + 31] := W32(u + a[ao + 31] - b[bo + 31]);
  }

  /** The in-place carry loop that `squeeze` and `mult121665` share. */
  method CarryPass(a: array<u32>, o: nat, u0: u32)
    requires Fits(a, o)
    modifies a
    ensures a[o..o + 32] == Carry(old(a[o..o + 32]), u0)
    ensures OnlyChanges(a, o)
  {
    hide W32, Carry, Carrying;
    ghost var s := a[o..o + 32];
    ghost var r := Carry(s, u0);
    CarryStart(s, u0);
    var u: u32 := u0;
    var j := 0;
    while j < 31
      invariant 0 <= j <= 31
      invariant Carrying(s, r, j, u)
      invariant forall k | o <= k < o + j :: a[k] == r[k - o]
      invariant forall k | o + j <= k < o + 32 :: a[k] == old(a[k])
      invariant OnlyChanges(a, o)
    {
      CarryStep(s, r, j, u);
      u := W32(u + a[o + j]);
      a[o + j] := u % 256;
      u := u / 256;
      j := j + 1;
    }
    CarryStep(s, r, 31, u);
    a[o + 31] := W32(u + a[o + 31]);
  }

  /** `a[31] &= 127`, and 19 times the bits above it back in at the bottom. */
  method FoldBack(a: array<u32>, o: nat)
    requires Fits(a, o)
    modifies a
    ensures a[o..o + 32] == ReducePass(old(a[o..o + 32]))
    ensures OnlyChanges(a, o)
  {
    var u := a[o + 31];
    ghost var s := a[o..o + 32];
    a[o + 31] := u % 128;
    assert a[o..o + 32] == s[31 := u % 128];
    CarryPass(a, o, W32(19 * (u / 128)));
  }

  method Squeeze(a: array<u32>, o: nat)
    requires Fits(a, o)
    modifies a
    ensures a[o..o + 32] == Squeezed(old(a[o..o + 32]))
    ensures OnlyChanges(a, o)
  {
    CarryPass(a, o, 0);
    FoldBack(a, o);
  }

  method Mult121665(out: array<u32>, o: nat, a: array<u32>, ao: nat)
    requires Fits(out, o) && Fits(a, ao) && out != a
    modifies out
    ensures out[o..o + 32] == Times121665(old(a[ao..ao + 32]))
    ensures OnlyChanges(out, o)
  {
    hide W32, Carry, Carrying;
    ghost var s := Scale(121665, a[ao..ao + 32]);
    ghost var r := Carry(s, 0);
    CarryStart(s, 0);
    var u: u32 := 0;
    var j := 0;
    while j < 31
      invariant 0 <= j <= 31
      invariant Carrying(s, r, j, u)
      invariant forall k | o <= k < o + j :: out[k] == r[k - o]
      invariant OnlyChanges(out, o)
    {
      CarryStep(s, r, j, u);
      var x: int := a[ao + j];
      u := W32(u + 121665 * x);
      out[o + j] := u % 256;
      u := u / 256;
      j := j + 1;
    }
    CarryStep(s, r, 31, u);
    var x: int := a[ao + 31];
    out[o + 31] := W32(u + 121665 * x);
    assert out[o..o + 32] == r;
    FoldBack(out, o);
  }

  lemma WordSum(u: u32, x: int, y: int)
    requires u == W32(x)
    ensures W32(u + y) == W32(x + y)
  {
  }

  /** Adding one more product to the accumulator; `base` is what it already holds besides. */
  lemma AccumulateStep(a: seq<int>, b: seq<int>, j: nat, k: int, base: int, c: int, u: u32, p: int, q: int)
    requires u == W32(base + c * Conv(a, b, j, k))
    requires p == At(a, j) && q == At(b, k - j)
    ensures W32(u + c * p * q) == W32(base + c * Conv(a, b, j + 1, k))
  {
    var s := Conv(a, b, j, k);
    WordSum(u, base + c * s, c * p * q);
    assert c * (s + p * q) == c * s + c * p * q;
  }

  /** One limb of `mult` before carrying. */
  method MultLimb(a: array<u32>, ao: nat, b: array<u32>, bo: nat, i: nat) returns (u: u32)
    requires Fits(a, ao) && Fits(b, bo) && i < 32
    ensures u == W32(Fold(a[ao..ao + 32], b[bo..bo + 32], i))
  {
    hide Conv;
    ghost var x: seq<int>, y: seq<int> := a[ao..ao + 32], b[bo..bo + 32];
    ConvNone(x, y, i);
    u := 0;
    var j := 0;
    while j <= i
      invariant 0 <= j <= i + 1
      invariant u == W32(0 + 1 * Conv(x, y, j, i))
    {
      var p: int, q: int := a[ao + j], b[bo + i - j];
      AccumulateStep(x, y, j, i, 0, 1, u, p, q);
      u := W32(u + p * q);
      j := j + 1;
    }
    ghost var low := Conv(x, y, |x|, i);
    ConvLower(x, y, i + 1, |x|, i);
    ConvVanishes(x, y, i + 1, i + 32);
    while j < 32
      invariant i + 1 <= j <= 32
      invariant u == W32(low + 38 * Conv(x, y, j, i + 32))
    {
      var p: int, q: int := a[ao + j], b[bo + i + 32 - j];
      AccumulateStep(x, y, j, i + 32, low, 38, u, p, q);
      u := W32(u + 38 * p * q);
      j := j + 1;
    }
  }


  method Mult(out: array<u32>, o: nat, a: array<u32>, ao: nat, b: array<u32>, bo: nat)
    requires Fits(out, o) && Fits(a, ao) && Fits(b, bo)
    requires Apart(out, o, a, ao) && Apart(out, o, b, bo)
    modifies out
    ensures out[o..o + 32] == Product(old(a[ao..ao + 32]), old(b[bo..bo + 32]))
    ensures OnlyChanges(out, o)
  {
    hide Fold;
    ghost var x, y := a[ao..ao + 32], b[bo..bo + 32];
    var i := 0;
    while i < 32
      invariant 0 <= i <= 32
      invariant a[ao..ao + 32] == x && b[bo..bo + 32] == y
      invariant forall k | o <= k < o + i :: out[k] == ProductWords(x, y)[k - o]
      invariant OnlyChanges(out, o)
    {
      var u := MultLimb(a, ao, b, bo, i);
      out[o + i] := u;
      i := i + 1;
    }
    assert out[o..o + 32] == ProductWords(x, y);
    Squeeze(out, o);
  }

  /** Adding one more cross product; `c` is 1 below the diagonal and 38 past it. */
  lemma CrossStep(a: seq<int>, k: int, lo: int, j: int, base: int, c: int, u: u32, p: int, q: int)
    requires lo <= j && u == W32(base + c * Cross(a, k, lo, j))
    requires p == At(a, j) && q == At(a, k - j)
    ensures W32(u + c * p * q) == W32(base + c * Cross(a, k, lo, j + 1))
  {
    var s := Cross(a, k, lo, j);
    WordSum(u, base + c * s, c * p * q);
    assert c * (s + p * q) == c * s + c * p * q;
  }

  /** Halved cross terms, doubled, plus the two diagonal ones make up limb `i` of the product. */
  lemma SquareLimbIsFold(a: seq<int>, i: nat, low: int, high: int)
    requires |a| == 32 && i < 32
    requires low == Cross(a, i, 0, (i + 1) / 2) && high == Cross(a, i + 32, i + 1, (i + 33) / 2)
    ensures i % 2 == 0 ==>
              Fold(a, a, i) == 2 * (low + 38 * high) + a[i / 2] * a[i / 2] + 38 * (a[i / 2 + 16] * a[i / 2 + 16])
    ensures i % 2 == 1 ==> Fold(a, a, i) == 2 * (low + 38 * high)
  {
    hide Conv, Cross;
    CrossMirror(a, i, 0, i + 1, (i + 1) / 2);
    CrossMirror(a, i + 32, i + 1, 32, (i + 33) / 2);
    ConvLower(a, a, i + 1, |a|, i);
    CrossIsConv(a, i, i + 1);
    ConvVanishes(a, a, i + 1, i + 32);
    CrossIsConv(a, i + 32, i + 1);
    CrossIsConv(a, i + 32, |a|);
    CrossSplit(a, i + 32, 0, i + 1, |a|);
    if i % 2 == 0 {
      assert (i + 32) / 2 == i / 2 + 16;
    }
  }

  /** One limb of `square` before carrying. */
  method SquareLimb(a: array<u32>, ao: nat, i: nat) returns (u: u32)
    requires Fits(a, ao) && i < 32
    ensures u == W32(Fold(a[ao..ao + 32], a[ao..ao + 32], i))
  {
    hide Conv, Cross, Fold;
    ghost var x: seq<int> := a[ao..ao + 32];
    CrossNone(x, i, 0);
    CrossNone(x, i + 32, i + 1);
    u := 0;
    var j := 0;
    while j < i - j
      invariant 0 <= j <= (i + 1) / 2
      invariant u == W32(0 + 1 * Cross(x, i, 0, j))
    {
      var p: int, q: int := a[ao + j], a[ao + i - j];
      CrossStep(x, i, 0, j, 0, 1, u, p, q);
      u := W32(u + p * q);
      j := j + 1;
    }
    ghost var low := Cross(x, i, 0, j);
    j := i + 1;
    while j < i + 32 - j
      invariant i + 1 <= j <= (i + 33) / 2
      invariant u == W32(low + 38 * Cross(x, i + 32, i + 1, j))
    {
      var p: int, q: int := a[ao + j], a[ao + i + 32 - j];
      CrossStep(x, i + 32, i + 1, j, low, 38, u, p, q);
      u := W32(u + 38 * p * q);
      j := j + 1;
    }
    ghost var high := Cross(x, i + 32, i + 1, j);
    SquareLimbIsFold(x, i, low, high);
    WordDouble(u, low + 38 * high);
    u := W32(2 * (u as int));
    if i % 2 == 0 {
      var d: int, e: int := a[ao + i / 2], a[ao + i / 2 + 16];
      WordSum(u, 2 * (low + 38 * high), d * d);
      u := W32(u + d * d);
      WordSum(u, 2 * (low + 38 * high) + d * d, 38 * (e * e));
      u := W32(u + 38 * (e * e));
    }
  }

  lemma WordDouble(u: u32, x: int)
    requires u == W32(x)
    ensures W32(2 * (u as int)) == W32(2 * x)
  {
    ModShift(2 * u, 2 * (x / WORD), WORD);
  }

  method Square(out: array<u32>, o: nat, a: array<u32>, ao: nat)
    requires Fits(out, o) && Fits(a, ao) && Apart(out, o, a, ao)
    modifies out
    ensures out[o..o + 32] == Product(old(a[ao..ao + 32]), old(a[ao..ao + 32]))
    ensures OnlyChanges(out, o)
  {
    hide Fold;
    ghost var x := a[ao..ao + 32];
    var i := 0;
    while i < 32
      invariant 0 <= i <= 32
      invariant a[ao..ao + 32] == x
      invariant forall k | o <= k < o + i :: out[k] == ProductWords(x, x)[k - o]
      invariant OnlyChanges(out, o)
    {
      var u := SquareLimb(a, ao, i);
      out[o + i] := u;
      i := i + 1;
    }
    assert out[o..o + 32] == ProductWords(x, x);
    Squeeze(out, o);
  }

  /** Swaps the pair `r`, `s` into `p`, `q` when `b` is set, without branching on it. */
  method Select(p: array<u32>, q: array<u32>, r: array<u32>, s: array<u32>, b: u32)
    requires p.Length == q.Length == r.Length == s.Length == 64 && b <= 1
    requires p != q && p != r && p != s && q != r && q != s
    modifies p, q
    ensures p[..] == old(if b == 0 then r[..] else s[..])
    ensures q[..] == old(if b == 0 then s[..] else r[..])
  {
    hide Xor, And;
    var bminus1 := W32(b - 1);
    for j := 0 to 64
      invariant forall k | 0 <= k < j :: p[k] == if b == 0 then r[k] else s[k]
      invariant forall k | 0 <= k < j :: q[k] == if b == 0 then s[k] else r[k]
    {
      var t := And(bminus1, Xor(r[j], s[j]));
      MaskedSelect(bminus1, s[j], r[j]);
      MaskedSelect(bminus1, r[j], s[j]);
      p[j] := Xor(s[j], t);
      q[j] := Xor(r[j], t);
    }
  }

  function MinusPLimb(i: int): u32
  {
    if i == 0 then 19 else if i == 31 then 128 else 0
  }

  function MinusP(): (r: seq<u32>)
    ensures |r| == 32
  {
    seq(32, i => MinusPLimb(i))
  }

  function Frozen(s: seq<u32>): (r: seq<u32>)
    requires |s| == 32
    ensures |r| == 32
  {
    var t := Sum(s, MinusP());
    if (t[31] / 128) % 2 == 1 then s else t
  }

  method Freeze(a: array<u32>, o: nat)
    requires Fits(a, o)
    modifies a
    ensures a[o..o + 32] == Frozen(old(a[o..o + 32]))
    ensures OnlyChanges(a, o)
  {
    hide Xor, And, Sum;
    var minusp := new u32[32](i => MinusPLimb(i));
    var aorig := new u32[32](i requires 0 <= i < 32 reads a => a[o + i]);
    assert aorig[..] == a[o..o + 32] && minusp[0..32] == MinusP();
    Add(a, o, a, o, minusp, 0);
    ghost var t := a[o..o + 32];
    var sign: int := (a[o + 31] / 128) % 2;
    var negative := W32(-sign);
    var j := 0;
    while j < 32
      invariant 0 <= j <= 32
      invariant aorig[..] == old(a[o..o + 32])
      invariant forall k | o <= k < o + j :: a[k] == if negative == 0 then t[k - o] else aorig[k - o]
      invariant forall k | o + j <= k < o + 32 :: a[k] == t[k - o]
      invariant OnlyChanges(a, o)
    {
      MaskedSelect(negative, a[o + j], aorig[j]);
      a[o + j] := Xor(a[o + j], And(negative, Xor(aorig[j], a[o + j])));
      j := j + 1;
    }
    assert a[o..o + 32] == if negative == 0 then t else aorig[..];
  }
}
