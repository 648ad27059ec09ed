/** Single bits of numbers and of addresses. */
module Bits {
  import opened Words
  import opened ModArith
  import opened Limbs
  import opened Buffers

  /** Bit `t`, the lowest one being bit 0. */
  function Bit(v: nat, t: nat): (b: nat)
    ensures b < 2
    decreases t
  {
    if t == 0 then v % 2 else Bit(v / 2, t - 1)
  }

  lemma {:induction false} BitIs(v: nat, t: nat)
    ensures Bit(v, t) == (v / Pow2(t)) % 2
    decreases t
  {
    if t > 0 {
      BitIs(v / 2, t - 1);
      DivDiv(v, 2, Pow2(t - 1));
    } else {
      assert v / 1 == v;
    }
  }

  /** `v >> n` */
  function Shift(v: nat, n: nat): nat
    decreases n
  {
    if n == 0 then v else Shift(v / 2, n - 1)
  }

  lemma {:induction false} ShiftIs(v: nat, n: nat)
    ensures Shift(v, n) == v / Pow2(n)
    decreases n
  {
    if n > 0 {
      ShiftIs(v / 2, n - 1);
      DivDiv(v, 2, Pow2(n - 1));
    } else {
      assert v / 1 == v;
    }
  }

  lemma AndHalves(a: nat, b: nat)
    ensures And(a, b) % 2 == (if a % 2 == 1 && b % 2 == 1 then 1 else 0) && And(a, b) / 2 == And(a / 2, b / 2)
  {
    if a != 0 && b != 0 {
      LowBit(if a % 2 == 1 && b % 2 == 1 then 1 else 0, And(a / 2, b / 2));
    }
  }

  lemma {:induction false} AndBit(a: nat, b: nat, t: nat)
    ensures Bit(And(a, b), t) == if Bit(a, t) == 1 && Bit(b, t) == 1 then 1 else 0
    decreases t
  {
    AndHalves(a, b);
    if t > 0 {
      hide And;
      AndBit(a / 2, b / 2, t - 1);
    }
  }

  lemma {:induction false} XorBit(a: nat, b: nat, t: nat)
    ensures Bit(Xor(a, b), t) == if Bit(a, t) != Bit(b, t) then 1 else 0
    decreases t
  {
    XorBits(a, b);
    if t > 0 {
      hide Xor;
      XorBit(a / 2, b / 2, t - 1);
    }
  }

  /** `a | b` */
  function Or(a: nat, b: nat): nat
  {
    Xor(a, b) + And(a, b)
  }

  lemma OrHalves(a: nat, b: nat)
    ensures Or(a, b) % 2 == (if a % 2 == 1 || b % 2 == 1 then 1 else 0) && Or(a, b) / 2 == Or(a / 2, b / 2)
  {
    XorBits(a, b);
    AndHalves(a, b);
    hide Xor, And;
    var x, y := Xor(a / 2, b / 2), And(a / 2, b / 2);
    LowBit(if a % 2 == 1 || b % 2 == 1 then 1 else 0, x + y);
  }

  lemma {:induction false} OrBit(a: nat, b: nat, t: nat)
    ensures Bit(Or(a, b), t) == if Bit(a, t) == 1 || Bit(b, t) == 1 then 1 else 0
    decreases t
  {
    OrHalves(a, b);
    if t > 0 {
      hide Or;
      OrBit(a / 2, b / 2, t - 1);
    }
  }

  /** Numbers below 2^n with the same bits are equal. */
  lemma {:induction false} SameBitsSame(a: nat, b: nat, n: nat)
    requires a < Pow2(n) && b < Pow2(n) && forall t | 0 <= t < n :: Bit(a, t) == Bit(b, t)
    ensures a == b
    decreases n
  {
    if n > 0 {
      forall t | 0 <= t < n - 1
        ensures Bit(a / 2, t) == Bit(b / 2, t)
      {
        assert Bit(a, t + 1) == Bit(b, t + 1);
      }
      SameBitsSame(a / 2, b / 2, n - 1);
      assert Bit(a, 0) == Bit(b, 0);
    }
  }

  lemma {:induction false} ZeroBit(t: nat)
    ensures Bit(0, t) == 0
    decreases t
  {
    if t > 0 {
      ZeroBit(t - 1);
    }
  }

  lemma {:induction false} SomeBit(v: nat, n: nat) returns (t: nat)
    requires 0 < v < Pow2(n)
    ensures t < n && Bit(v, t) == 1
    decreases n
  {
    if v % 2 == 1 {
      t := 0;
    } else {
      var u := SomeBit(v / 2, n - 1);
      t := u + 1;
    }
  }

  lemma {:induction false} AndBound(a: nat, b: nat)
    ensures And(a, b) <= a
  {
    if a != 0 && b != 0 {
      AndBound(a / 2, b / 2);
    }
  }

  /** Two masks have a bit in common exactly when their conjunction is not zero. */
  lemma AndNonZero(a: nat, b: nat, n: nat)
    requires a < Pow2(n)
    ensures And(a, b) != 0 <==> exists t | 0 <= t < n :: Bit(a, t) == 1 && Bit(b, t) == 1
  {
    hide And, Bit, Pow2;
    if And(a, b) != 0 {
      AndBound(a, b);
      var t := SomeBit(And(a, b), n);
      AndBit(a, b, t);
    } else {
      forall t | 0 <= t < n
        ensures !(Bit(a, t) == 1 && Bit(b, t) == 1)
      {
        AndBit(a, b, t);
        ZeroBit(t);
      }
    }
  }

  // ------------------------------------------------------------------------
  // Addresses

  /** Bit `t` of an address, counted from the front as netmasks do. */
  function AddressBit(ip: seq<byte>, t: nat): nat
    requires t < 8 * |ip|
  {
    Bit(ip[t / 8], 7 - t % 8)
  }

  /** The address begins with the first `bits` bits of the network. */
  ghost predicate InNetwork(ip: seq<byte>, bits: nat, a: seq<byte>)
    requires |a| == |ip| && bits <= 8 * |ip|
  {
    forall t | 0 <= t < bits :: AddressBit(ip, t) == AddressBit(a, t)
  }

  /** A number's bits are those of its bytes, most significant first. */
  lemma {:induction false} NumberBit(s: seq<byte>, t: nat)
    requires t < 8 * |s|
    ensures Bit(Number(s), 8 * |s| - 1 - t) == AddressBit(s, t)
    decreases |s|
  {
    var n := |s| - 1;
    var v, w := Number(s), Number(s[..n]);
    var low := s[n];
    assert v == 256 * w + low;
    hide Number;
    if t / 8 == n {
      LowByte(w, low, 7 - t % 8);
      assert 8 * |s| - 1 - t == 7 - t % 8;
    } else {
      NumberBit(s[..n], t);
      HighByte(w, low, 8 * n - 1 - t);
    }
  }

  lemma LowByte(w: nat, low: byte, t: nat)
    requires t < 8
    ensures Bit(256 * w + low, t) == Bit(low, t)
  {
    BitAdd(w, low, 8, t);
  }

  /** A multiple of 2^n does not show below bit n. */
  lemma {:induction false} BitAdd(w: nat, low: nat, n: nat, t: nat)
    requires t < n
    ensures Bit(Pow2(n) * w + low, t) == Bit(low, t)
    decreases t
  {
    var m := Pow2(n - 1) * w;
    assert Pow2(n) * w == 2 * m by {
      DoubleTimes(Pow2(n - 1), w);
    }
    hide Pow2;
    assert (2 * m + low) % 2 == low % 2 && (2 * m + low) / 2 == m + low / 2;
    if t > 0 {
      BitAdd(w, low / 2, n - 1, t - 1);
    }
  }

  lemma DoubleTimes(x: int, y: int)
    ensures (2 * x) * y == 2 * (x * y)
  {
  }

  lemma HighByte(w: nat, low: byte, t: nat)
    ensures Bit(256 * w + low, t + 8) == Bit(w, t)
  {
    var v := 256 * w + low;
    Shifted(v, 8, t);
    ShiftIs(v, 8);
    assert Pow2(8) == 256;
    hide Bit, Shift, Pow2;
    assert v / 256 == w;
  }

  lemma {:induction false} Shifted(v: nat, n: nat, t: nat)
    ensures Bit(v, t + n) == Bit(Shift(v, n), t)
    decreases n
  {
    if n > 0 {
      Shifted(v / 2, n - 1, t);
    }
  }

  /** Bit `t` from the front of a number of `n` bits. */
  function FrontBit(v: nat, n: nat, t: nat): nat
    requires t < n
  {
    Bit(v, n - 1 - t)
  }

  /** Shifting out the last n - k bits leaves equal numbers exactly when the first k bits agree. */
  lemma PrefixIffBits(u: nat, v: nat, n: nat, k: nat)
    requires k <= n && u < Pow2(n) && v < Pow2(n)
    ensures Shift(u, n - k) == Shift(v, n - k) <==> forall t | 0 <= t < k :: FrontBit(u, n, t) == FrontBit(v, n, t)
  {
    var x, y := Shift(u, n - k), Shift(v, n - k);
    SmallShift(u, n, k);
    SmallShift(v, n, k);
    hide Pow2, Shift;
    forall t | 0 <= t < k
      ensures FrontBit(u, n, t) == Bit(x, k - 1 - t) && FrontBit(v, n, t) == Bit(y, k - 1 - t)
    {
      Shifted(u, n - k, k - 1 - t);
      Shifted(v, n - k, k - 1 - t);
    }
    if forall t | 0 <= t < k :: FrontBit(u, n, t) == FrontBit(v, n, t) {
      forall t | 0 <= t < k
        ensures Bit(x, t) == Bit(y, t)
      {
        assert FrontBit(u, n, k - 1 - t) == FrontBit(v, n, k - 1 - t);
      }
      SameBitsSame(x, y, k);
    }
  }

  lemma {:induction false} SmallShift(u: nat, n: nat, k: nat)
    requires k <= n && u < Pow2(n)
    ensures Shift(u, n - k) < Pow2(k)
    decreases n - k
  {
    if k < n {
      SmallShift(u / 2, n - 1, k);
    }
  }

  /** Numbers of addresses agree after the shift exactly when the addresses are in one network. */
  lemma SameNetwork(ip: seq<byte>, bits: nat, a: seq<byte>)
    requires |a| == |ip| && bits <= 8 * |ip|
    ensures Shift(Number(ip), 8 * |ip| - bits) == Shift(Number(a), 8 * |ip| - bits) <==> InNetwork(ip, bits, a)
  {
    hide Number, Shift, Bit;
    var u, v, n := Number(ip), Number(a), 8 * |ip|;
    NumberWidth(ip);
    NumberWidth(a);
    PrefixIffBits(u, v, n, bits);
    forall t | 0 <= t < bits
      ensures FrontBit(u, n, t) == AddressBit(ip, t) && FrontBit(v, n, t) == AddressBit(a, t)
    {
      NumberBit(ip, t);
      NumberBit(a, t);
    }
  }

  lemma {:induction false} NumberWidth(s: seq<byte>)
    ensures Number(s) < Pow2(8 * |s|)
  {
    if |s| > 0 {
      NumberWidth(s[..|s| - 1]);
      var n := 8 * |s|;
      assert Pow2(n) == 4 * Pow2(n - 2) && Pow2(n - 2) == 4 * Pow2(n - 4);
      assert Pow2(n - 4) == 4 * Pow2(n - 6) && Pow2(n - 6) == 4 * Pow2(n - 8);
    }
  }
}
