/** Machine words as the C sources use them.

    Unsigned arithmetic in C is arithmetic modulo 2^32; since reduction modulo 2^32 respects
    sums and products, one reduction per statement gives the same word as one per operator.
    `x & (2^k - 1)` is written `x % 2^k` and `x >> k` is written `x / 2^k`. Exclusive or and
    masking by a computed mask are spelled out bit by bit below. */
module Words {

  const WORD: int := 0x1_0000_0000

  type u32 = x: int | 0 <= x < 0x1_0000_0000
  type byte = x: int | 0 <= x < 256

  function W32(x: int): u32
  {
    x % 0x1_0000_0000
  }

  function WAdd(x: int, y: int): u32
  {
    W32(x + y)
  }

  function WSub(x: int, y: int): u32
  {
    W32(x - y)
  }

  function WMul(x: int, y: int): u32
  {
    W32(x * y)
  }

  lemma W32Id(x: int)
    requires 0 <= x < WORD
    ensures W32(x) == x
  {
  }

  function Xor(a: nat, b: nat): nat
    decreases a + b
  {
    if a == 0 then b
    else if b == 0 then a
    else (a % 2 + b % 2) % 2 + 2 * Xor(a / 2, b / 2)
  }

  function And(a: nat, b: nat): nat
    decreases a
  {
    if a == 0 || b == 0 then 0
    else (if a % 2 == 1 && b % 2 == 1 then 1 else 0) + 2 * And(a / 2, b / 2)
  }

  function Pow2(n: nat): nat
    ensures Pow2(n) > 0
  {
    if n == 0 then 1 else 2 * Pow2(n - 1)
  }

  lemma {:induction false} XorZeroIff(a: nat, b: nat)
    ensures Xor(a, b) == 0 <==> a == b
    decreases a
  {
    if a != 0 && b != 0 {
      XorZeroIff(a / 2, b / 2);
    }
  }

  lemma {:induction false} XorBound(a: nat, b: nat, n: nat)
    requires a < Pow2(n) && b < Pow2(n)
    ensures Xor(a, b) < Pow2(n)
    decreases n
  {
    if a != 0 && b != 0 {
      XorBound(a / 2, b / 2, n - 1);
    }
  }

  lemma {:induction false} XorBits(a: nat, b: nat)
    ensures Xor(a, b) % 2 == (a % 2 + b % 2) % 2
    ensures Xor(a, b) / 2 == Xor(a / 2, b / 2)
  {
    if a != 0 && b != 0 {
      LowBit((a % 2 + b % 2) % 2, Xor(a / 2, b / 2));
    } else if a != 0 {
      assert Xor(a / 2, 0) == a / 2;
    }
  }

  lemma LowBit(d: nat, x: nat)
    requires d < 2
    ensures (d + 2 * x) % 2 == d && (d + 2 * x) / 2 == x
  {
  }

  /** Exclusive or with the same word twice restores the other one. */
  lemma {:induction false} XorCancel(a: nat, b: nat)
    ensures Xor(a, Xor(b, a)) == b
    decreases a + b
  {
    if a != 0 {
      var x := Xor(b, a);
      hide Xor;
      XorBits(b, a);
      XorBits(a, x);
      XorCancel(a / 2, b / 2);
      SameBits(a % 2, b % 2);
      assert Xor(a, x) == b;
    } else {
      XorComm(b, a);
    }
  }

  lemma SameBits(x: nat, y: nat)
    requires x < 2 && y < 2
    ensures (x + (y + x) % 2) % 2 == y
  {
  }

  lemma {:induction false} XorComm(a: nat, b: nat)
    ensures Xor(a, b) == Xor(b, a)
    decreases a
  {
    if a != 0 && b != 0 {
      XorComm(a / 2, b / 2);
    }
  }

  /** An all-ones mask keeps a value. */
  lemma {:induction false} AndOnes(n: nat, x: nat)
    requires x < Pow2(n)
    ensures And(Pow2(n) - 1, x) == x
    decreases n
  {
    if n > 0 && x != 0 {
      AndOnes(n - 1, x / 2);
      var m := Pow2(n - 1) - 1;
      LowBit(1, m);
      assert And(1 + 2 * m, x) == (if x % 2 == 1 then 1 else 0) + 2 * And(m, x / 2);
    }
  }

  /** `a ^ (mask & (b ^ a))` with an all-zero or all-one mask chooses between `a` and `b`. */
  lemma MaskedSelect(mask: u32, a: u32, b: u32)
    requires mask == 0 || mask == 0xffff_ffff
    ensures Xor(a, And(mask, Xor(b, a))) == if mask == 0 then a else b
    ensures Xor(a, And(mask, Xor(a, b))) == if mask == 0 then a else b
  {
    Pow2Word();
    XorComm(a, b);
    XorBound(a, b, 32);
    if mask == 0 {
      XorComm(a, 0);
    } else {
      AndOnes(32, Xor(b, a));
      XorCancel(a, b);
    }
  }

  lemma Pow2Word()
    ensures Pow2(32) == WORD && Pow2(16) == 65536 && Pow2(8) == 256
  {
    assert Pow2(8) == 256;
    assert Pow2(16) == 65536;
    assert Pow2(24) == 16777216;
    assert Pow2(32) == WORD;
  }
}
