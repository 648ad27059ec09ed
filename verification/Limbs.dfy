/** Little-endian base-256 limb sequences and the carry passes run over them.

    One family of lemmas serves every carry loop of the library: a pass that adds a running
    carry, keeps the low byte and hands the rest to the next limb turns any limb sequence whose
    terms stay clear of the word size into the base-256 expansion of its value, the top limb
    taking whatever is left over. */
module Limbs {
  import opened Words
  import opened ModArith

  function Val(s: seq<int>): int
  {
    if |s| == 0 then 0 else s[0] + 256 * Val(s[1..])
  }

  function Pow256(n: nat): nat
    ensures Pow256(n) > 0
  {
    if n == 0 then 1 else 256 * Pow256(n - 1)
  }

  /** Every limb lies in 0..hi. */
  predicate Within(s: seq<int>, hi: int)
  {
    forall i | 0 <= i < |s| :: 0 <= s[i] <= hi
  }

  lemma {:induction false} ValAppend(a: seq<int>, b: seq<int>)
    ensures Val(a + b) == Val(a) + Val(b) * Pow256(|a|)
  {
    if |a| == 0 {
      assert a + b == b;
    } else {
      assert (a + b)[1..] == a[1..] + b;
      ValAppend(a[1..], b);
    }
  }

  lemma {:induction false} ValSplit(s: seq<int>, n: nat)
    requires n <= |s|
    ensures Val(s) == Val(s[..n]) + Val(s[n..]) * Pow256(n)
  {
    assert s == s[..n] + s[n..];
    ValAppend(s[..n], s[n..]);
  }

  lemma {:induction false} ValTop(s: seq<int>)
    requires |s| >= 1
    ensures Val(s) == Val(s[..|s| - 1]) + s[|s| - 1] * Pow256(|s| - 1)
  {
    ValSplit(s, |s| - 1);
    assert s[|s| - 1..] == [s[|s| - 1]];
    assert Val([s[|s| - 1]]) == s[|s| - 1];
  }

  /** The bottom limb, the middle ones and the top limb. */
  lemma {:induction false} ValEnds(s: seq<int>)
    requires |s| >= 2
    ensures Val(s) == s[0] + 256 * Val(s[1..|s| - 1]) + s[|s| - 1] * Pow256(|s| - 1)
  {
    var low := s[..|s| - 1];
    assert low[1..] == s[1..|s| - 1];
    assert Val(low) == s[0] + 256 * Val(s[1..|s| - 1]);
    ValTop(s);
  }

  lemma {:induction false} ValUpdate(s: seq<int>, k: nat, x: int)
    requires k < |s|
    ensures Val(s[k := x]) == Val(s) + (x - s[k]) * Pow256(k)
  {
    if k > 0 {
      assert s[k := x][1..] == s[1..][k - 1 := x];
      ValUpdate(s[1..], k - 1, x);
      assert 256 * ((x - s[k]) * Pow256(k - 1)) == (x - s[k]) * Pow256(k);
    }
  }

  lemma {:induction false} ValBound(s: seq<int>, hi: int)
    requires 0 <= hi && Within(s, hi)
    ensures 0 <= 255 * Val(s) <= hi * (Pow256(|s|) - 1)
  {
    if |s| > 0 {
      ValBound(s[1..], hi);
      calc {
        255 * Val(s);
        255 * s[0] + 256 * (255 * Val(s[1..]));
      <=
        255 * hi + 256 * (hi * (Pow256(|s| - 1) - 1));
      ==
        255 * hi + hi * (256 * Pow256(|s| - 1) - 256);
      ==
        hi * (Pow256(|s|) - 1);
      }
    }
  }

  /** Byte limbs stay below the next power of the base. */
  lemma ValDigits(s: seq<int>)
    requires Within(s, 255)
    ensures 0 <= Val(s) < Pow256(|s|)
  {
    ValBound(s, 255);
  }

  lemma {:induction false} ValZeros(s: seq<int>)
    requires forall i | 0 <= i < |s| :: s[i] == 0
    ensures Val(s) == 0
  {
    if |s| > 0 {
      ValZeros(s[1..]);
    }
  }

  function ZipAdd(a: seq<int>, b: seq<int>): seq<int>
    requires |a| == |b|
  {
    seq(|a|, i requires 0 <= i < |a| => a[i] + b[i])
  }

  function Scale(c: int, a: seq<int>): seq<int>
  {
    seq(|a|, i requires 0 <= i < |a| => c * a[i])
  }

  lemma {:induction false} ValZipAdd(a: seq<int>, b: seq<int>)
    requires |a| == |b|
    ensures Val(ZipAdd(a, b)) == Val(a) + Val(b)
  {
    if |a| > 0 {
      assert ZipAdd(a, b)[1..] == ZipAdd(a[1..], b[1..]);
      ValZipAdd(a[1..], b[1..]);
    }
  }

  lemma {:induction false} ValScale(c: int, a: seq<int>)
    ensures Val(Scale(c, a)) == c * Val(a)
  {
    if |a| > 0 {
      assert Scale(c, a)[1..] == Scale(c, a[1..]);
      ValScale(c, a[1..]);
      assert c * a[0] + 256 * (c * Val(a[1..])) == c * (a[0] + 256 * Val(a[1..]));
    }
  }

  /** A carried sequence: bytes below, and on top whatever is left over. */
  predicate Normal(s: seq<int>)
  {
    |s| >= 1 && Within(s[..|s| - 1], 255) && 0 <= s[|s| - 1]
  }

  /** The top limb is the quotient of the value by the weight of its position. */
  lemma NormalTop(s: seq<int>)
    requires Normal(s)
    ensures s[|s| - 1] == Val(s) / Pow256(|s| - 1)
    ensures Val(s[..|s| - 1]) == Val(s) % Pow256(|s| - 1)
    ensures 0 <= Val(s)
  {
    var n := |s| - 1;
    ValTop(s);
    ValDigits(s[..n]);
    MulMonotone(0, s[n], Pow256(n));
    DivModUnique(Val(s), Pow256(n), s[n], Val(s[..n]));
  }

  /** A value below `(hi + 1) * 256^top` leaves at most `hi` in the top limb. */
  lemma NormalWithin(s: seq<int>, hi: nat)
    requires Normal(s) && Val(s) < (hi + 1) * Pow256(|s| - 1)
    ensures s[|s| - 1] <= hi
    ensures hi >= 255 ==> Within(s, hi)
    ensures hi <= 255 ==> Within(s, 255)
  {
    hide Val, Pow256;
    var n := |s| - 1;
    ValTop(s);
    ValDigits(s[..n]);
    TopBound(Val(s[..n]), s[n], Pow256(n), hi);
    assert forall i | 0 <= i < n :: s[i] == s[..n][i];
  }

  lemma TopBound(low: int, t: int, w: int, hi: int)
    requires 0 <= low && 0 <= w && low + t * w < (hi + 1) * w
    ensures t <= hi
  {
    if t >= hi + 1 {
      MulMonotone(hi + 1, t, w);
      assert false;
    }
  }

  /** A carried sequence is determined by its value. */
  lemma {:induction false} NormalUnique(a: seq<int>, b: seq<int>)
    requires |a| == |b| && Normal(a) && Normal(b) && Val(a) == Val(b)
    ensures a == b
  {
    if |a| == 1 {
      assert a[1..] == [] && b[1..] == [];
    } else {
      var a', b' := a[1..], b[1..];
      assert a'[..|a'| - 1] == a[..|a| - 1][1..] && b'[..|b'| - 1] == b[..|b| - 1][1..];
      assert a[0] == a[..|a| - 1][0] && b[0] == b[..|b| - 1][0];
      NormalUnique(a', b');
    }
  }

  lemma DigitsUnique(a: seq<int>, b: seq<int>)
    requires |a| == |b| && Within(a, 255) && Within(b, 255) && Val(a) == Val(b)
    ensures a == b
  {
    if |a| > 0 {
      NormalUnique(a, b);
    }
  }

  // ------------------------------------------------------------------------
  // Carry passes on machine words

  /** The loop `u += s[j]; out[j] = u & 255; u >>= 8`, the last limb keeping all of `u`. */
  function Carry(s: seq<int>, u: u32): (r: seq<u32>)
    requires |s| >= 1
    ensures |r| == |s|
  {
    var v := W32(u + s[0]);
    if |s| == 1 then [v] else [v % 256] + Carry(s[1..], v / 256)
  }

  /** From limb `j` on, the pass over `s` continues as a pass over the rest with carry `u`. */
  ghost predicate Carrying(s: seq<int>, r: seq<int>, j: nat, u: u32)
  {
    j < |s| == |r| && r[j..] == Carry(s[j..], u)
  }

  lemma CarryStart(s: seq<int>, u: u32)
    requires |s| >= 1
    ensures Carrying(s, Carry(s, u), 0, u)
  {
    assert s[0..] == s && Carry(s, u)[0..] == Carry(s, u);
  }

  lemma CarryStep(s: seq<int>, r: seq<int>, j: nat, u: u32)
    requires Carrying(s, r, j, u)
    ensures j == |s| - 1 ==> r[j] == W32(u + s[j])
    ensures j < |s| - 1 ==> r[j] == W32(u + s[j]) % 256 && Carrying(s, r, j + 1, W32(u + s[j]) / 256)
  {
    assert r[j] == r[j..][0] && s[j] == s[j..][0];
    if j < |s| - 1 {
      assert s[j + 1..] == s[j..][1..] && r[j + 1..] == r[j..][1..];
    }
  }

  /** While no term plus carry reaches the word size, a carry pass keeps the value. */
  lemma {:induction false} CarryExact(s: seq<int>, u: u32, hi: int, c: int)
    requires |s| >= 1 && u <= c && 0 <= hi && hi + c < WORD && hi + c < 256 * (c + 1)
    requires forall i | 0 <= i < |s| - 1 :: 0 <= s[i] <= hi
    requires 0 <= Val(s) + u < WORD * Pow256(|s| - 1)
    ensures Normal(Carry(s, u)) && Val(Carry(s, u)) == Val(s) + u
  {
    if |s| == 1 {
      assert s[1..] == [] && Carry(s, u)[1..] == [];
    } else {
      var v, t := u + s[0], s[1..];
      CarryHead(s, u, hi, c);
      assert Carry(s, u) == [v % 256] + Carry(t, v / 256);
      hide Val, Pow256, Carry, W32;
      CarryExact(t, v / 256, hi, c);
      CarryJoin(v % 256, Carry(t, v / 256), Carry(s, u));
    }
  }

  /** The first step leaves the conditions of the pass over the rest. */
  lemma CarryHead(s: seq<int>, u: u32, hi: int, c: int)
    requires |s| >= 2 && u <= c && 0 <= hi && hi + c < WORD && hi + c < 256 * (c + 1)
    requires forall i | 0 <= i < |s| - 1 :: 0 <= s[i] <= hi
    requires 0 <= Val(s) + u < WORD * Pow256(|s| - 1)
    ensures var v, t := u + s[0], s[1..];
            && 0 <= v && W32(v) == v && v / 256 <= c && Val(s) == s[0] + 256 * Val(t)
            && (forall i | 0 <= i < |t| - 1 :: 0 <= t[i] <= hi)
            && 0 <= Val(t) + v / 256 < WORD * Pow256(|t| - 1)
  {
    var v, t := u + s[0], s[1..];
    assert forall i | 0 <= i < |t| - 1 :: t[i] == s[i + 1];
    assert Val(s) == s[0] + 256 * Val(t) && Pow256(|s| - 1) == 256 * Pow256(|t| - 1);
    hide Val, Pow256;
    CarryBound(Val(t), v, WORD * Pow256(|t| - 1));
  }

  lemma CarryJoin(d: int, r: seq<int>, q: seq<int>)
    requires 0 <= d < 256 && Normal(r) && q == [d] + r
    ensures Normal(q) && Val(q) == d + 256 * Val(r)
  {
    hide Val;
    ValCons(d, r, q);
    assert q[..|q| - 1] == [d] + r[..|r| - 1];
  }

  lemma ValCons(d: int, r: seq<int>, q: seq<int>)
    requires q == [d] + r
    ensures Val(q) == d + 256 * Val(r)
  {
    assert q[1..] == r;
  }

  lemma CarryBound(x: int, v: int, top: int)
    requires 0 <= v + 256 * x < 256 * top
    ensures 0 <= x + v / 256 < top
  {
  }

  /** The carry passes of two sequences that agree modulo 2^32 are the same. */
  lemma {:induction false} CarryWords(s: seq<int>, t: seq<int>, u: u32)
    requires |s| == |t| >= 1
    requires forall i | 0 <= i < |s| :: W32(s[i]) == W32(t[i])
    ensures Carry(s, u) == Carry(t, u)
  {
    assert W32(u + s[0]) == W32(u + t[0]);
    if |s| > 1 {
      CarryWords(s[1..], t[1..], W32(u + s[0]) / 256);
    }
  }

  // ------------------------------------------------------------------------
  // Literal limb tables

  /** Eight limbs from `i` on, as one 64-bit number. */
  function Quad(s: seq<int>, i: nat): int
    requires i + 8 <= |s|
  {
    s[i] + 0x100 * s[i + 1] + 0x1_0000 * s[i + 2] + 0x100_0000 * s[i + 3] + 0x1_0000_0000 * s[i + 4]
    + 0x100_0000_0000 * s[i + 5] + 0x1_0000_0000_0000 * s[i + 6] + 0x100_0000_0000_0000 * s[i + 7]
  }

  lemma {:induction false} ValNext(s: seq<int>, i: nat)
    requires i < |s|
    ensures Val(s[i..]) == s[i] + 256 * Val(s[i + 1..])
  {
    assert s[i..][1..] == s[i + 1..];
  }

  lemma ValQuad(s: seq<int>, i: nat)
    requires i + 8 <= |s|
    ensures Val(s[i..]) == Quad(s, i) + 0x1_0000_0000_0000_0000 * Val(s[i + 8..])
  {
    hide Val;
    ValNext(s, i);
    ValNext(s, i + 1);
    ValNext(s, i + 2);
    ValNext(s, i + 3);
    ValNext(s, i + 4);
    ValNext(s, i + 5);
    ValNext(s, i + 6);
    ValNext(s, i + 7);
  }

  lemma ValNothing(s: seq<int>)
    requires |s| == 0
    ensures Val(s) == 0
  {
  }

  /** A table of 32 limbs read eight at a time. */
  lemma ValQuads(s: seq<int>)
    requires |s| == 32
    ensures Val(s) == Quad(s, 0) + 0x1_0000_0000_0000_0000 * (Quad(s, 8)
                      + 0x1_0000_0000_0000_0000 * (Quad(s, 16) + 0x1_0000_0000_0000_0000 * Quad(s, 24)))
  {
    hide Quad, Val;
    ValQuad(s, 0);
    ValQuad(s, 8);
    ValQuad(s, 16);
    ValQuad(s, 24);
    assert s[0..] == s;
    ValNothing(s[32..]);
  }
}
