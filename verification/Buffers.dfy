/** The fixed-capacity byte buffer that every wire format is written to and read from,
    with integers in big-endian order. */
module Buffers {
  import opened Words
  import opened Options
  import opened ModArith
  import opened Limbs

  // ------------------------------------------------------------------------
  // Big-endian integers

  function Big(v: nat, n: nat): (s: seq<byte>)
    ensures |s| == n
    decreases n
  {
    if n == 0 then [] else Big(v / 256, n - 1) + [v % 256]
  }

  function Number(s: seq<byte>): nat
  {
    if |s| == 0 then 0 else 256 * Number(s[..|s| - 1]) + s[|s| - 1]
  }

  lemma {:induction false} NumberOfBig(v: nat, n: nat)
    requires v < Pow256(n)
    ensures Number(Big(v, n)) == v
    decreases n
  {
    if n > 0 {
      NumberOfBig(v / 256, n - 1);
      var s := Big(v, n);
      assert s[..n - 1] == Big(v / 256, n - 1);
    }
  }

  lemma {:induction false} NumberBound(s: seq<byte>)
    ensures Number(s) < Pow256(|s|)
  {
    if |s| > 0 {
      NumberBound(s[..|s| - 1]);
    }
  }

  /** Reading what is written is the only way to get a number: bytes of the same length and number are equal. */
  lemma {:induction false} BigOfNumber(s: seq<byte>)
    ensures Big(Number(s), |s|) == s
  {
    if |s| > 0 {
      BigOfNumber(s[..|s| - 1]);
    }
  }

  /** Network byte order: the most significant byte comes first. */
  lemma {:induction false} BigByte(v: nat, n: nat, i: nat)
    requires i < n
    ensures Big(v, n)[i] == (v / Pow256(n - 1 - i)) % 256
    decreases n
  {
    if i < n - 1 {
      BigByte(v / 256, n - 1, i);
      var w := Pow256(n - 2 - i);
      assert Pow256(n - 1 - i) == 256 * w;
      hide Pow256, Big;
      DivDiv(v, 256, w);
    }
  }

  /** The byte of weight 256^k. */
  function ByteOf(v: nat, k: nat): nat
  {
    (v / Pow256(k)) % 256
  }

  /** The `n` bytes at position `p` spell `v`, most significant first. */
  predicate Spells(b: seq<byte>, p: nat, n: nat, v: nat)
  {
    p + n <= |b| && forall k | 0 <= k < n :: ByteOf(v, k) == b[p + n - 1 - k]
  }

  lemma Sizes()
    ensures Pow256(1) == 0x100 && Pow256(2) == 0x1_0000 && Pow256(4) == 0x1_0000_0000
    ensures Pow256(5) == 0x100_0000_0000 && Pow256(8) == 0x1_0000_0000_0000_0000
  {
  }

  /** The bytes `s` stand at position `p`. */
  predicate At(b: seq<byte>, p: nat, s: seq<byte>)
  {
    p + |s| <= |b| && b[p..p + |s|] == s
  }

  lemma AtSplit(b: seq<byte>, p: nat, s: seq<byte>, t: seq<byte>)
    requires At(b, p, s + t)
    ensures At(b, p, s) && At(b, p + |s|, t)
  {
    var u := b[p..p + |s| + |t|];
    assert u[..|s|] == s && u[|s|..] == t;
    assert b[p..p + |s|] == u[..|s|];
    assert b[p + |s|..p + |s| + |t|] == u[|s|..];
  }

  /** `at<T>`: an integer of `n` bytes, or the exception for reading beyond the end. */
  function ReadInt(b: seq<byte>, p: nat, n: nat): Option<nat>
  {
    if p + n <= |b| then Some(Number(b[p..p + n])) else None
  }

  /** `field`: raw bytes. */
  function ReadBytes(b: seq<byte>, p: nat, n: nat): Option<seq<byte>>
  {
    if p + n <= |b| then Some(b[p..p + n]) else None
  }

  lemma ReadBack(b: seq<byte>, p: nat, v: nat, n: nat)
    requires At(b, p, Big(v, n)) && v < Pow256(n)
    ensures ReadInt(b, p, n) == Some(v)
  {
    hide Big, Number, Pow256;
    NumberOfBig(v, n);
  }

  lemma AtJoin(b: seq<byte>, p: nat, s: seq<byte>, t: seq<byte>)
    requires At(b, p, s) && At(b, p + |s|, t)
    ensures At(b, p, s + t)
  {
    assert b[p..p + |s| + |t|] == b[p..p + |s|] + b[p + |s|..p + |s| + |t|];
  }

  /** An integer is read only where its bytes stand. */
  lemma ReadAt(b: seq<byte>, p: nat, n: nat)
    requires ReadInt(b, p, n).Some?
    ensures ReadInt(b, p, n).value < Pow256(n) && At(b, p, Big(ReadInt(b, p, n).value, n))
  {
    hide Big, Number, Pow256;
    NumberBound(b[p..p + n]);
    BigOfNumber(b[p..p + n]);
  }

  /** Where an integer is written it stands in network byte order. */
  lemma WrittenSpells(b: seq<byte>, p: nat, v: nat, n: nat)
    requires At(b, p, Big(v, n))
    ensures Spells(b, p, n, v)
  {
    hide Big, Pow256;
    forall k | 0 <= k < n
      ensures ByteOf(v, k) == b[p + n - 1 - k]
    {
      BigByte(v, n, n - 1 - k);
      assert b[p + n - 1 - k] == b[p..p + n][n - 1 - k];
    }
  }

  /** An integer in front of other bytes: it is spelled out, and they follow. */
  lemma SpellsFirst(b: seq<byte>, p: nat, v: nat, n: nat, rest: seq<byte>)
    requires At(b, p, Big(v, n) + rest)
    ensures Spells(b, p, n, v) && At(b, p + n, rest)
  {
    hide Big, At, Spells;
    AtSplit(b, p, Big(v, n), rest);
    WrittenSpells(b, p, v, n);
  }

  /** Appends fail, leaving the buffer as it was, when they would exceed the capacity. */
  class Buffer {
    const capacity: nat
    var data: seq<byte>

    ghost predicate Valid()
      reads this
    {
      |data| <= capacity
    }

    constructor (c: nat)
      ensures Valid() && capacity == c && data == []
    {
      capacity := c;
      data := [];
    }

    method Append(s: seq<byte>) returns (ok: bool)
      requires Valid()
      modifies this
      ensures Valid() && ok == (|old(data)| + |s| <= capacity)
      ensures data == if ok then old(data) + s else old(data)
    {
      ok := |data| + |s| <= capacity;
      if ok {
        data := data + s;
      }
    }

    method AppendInt(v: nat, n: nat) returns (ok: bool)
      requires Valid()
      modifies this
      ensures Valid() && ok == (|old(data)| + n <= capacity)
      ensures data == if ok then old(data) + Big(v, n) else old(data)
    {
      ok := Append(Big(v, n));
    }
  }
}
