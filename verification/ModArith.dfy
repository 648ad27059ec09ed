/** Congruence modulo a positive integer. */
module ModArith {

  predicate Cong(a: int, b: int, m: int)
    requires m > 0
  {
    a % m == b % m
  }

  /** Multiplication by repeated addition. It is `a * b` (`Products`); the statements of the curve
      formulas use it so that their products stay atomic and every other step is linear. */
  function Prod(a: int, b: int): int
    decreases if b < 0 then -b else b
  {
    if b == 0 then 0 else if b > 0 then Prod(a, b - 1) + a else Prod(a, b + 1) - a
  }

  lemma {:induction false} ProdIs(a: int, b: int)
    ensures Prod(a, b) == a * b
    decreases if b < 0 then -b else b
  {
    if b > 0 {
      ProdIs(a, b - 1);
      assert a * (b - 1) == a * b - a;
    } else if b < 0 {
      ProdIs(a, b + 1);
      assert a * (b + 1) == a * b + a;
    }
  }

  lemma Products()
    ensures forall a: int, b: int :: Prod(a, b) == a * b
  {
    forall a: int, b: int
      ensures Prod(a, b) == a * b
    {
      ProdIs(a, b);
    }
  }

  lemma MulMonotone(a: int, b: int, c: int)
    requires a <= b && 0 <= c
    ensures a * c <= b * c
  {
    assert 0 <= (b - a) * c;
  }

  lemma DivModUnique(a: int, m: int, q: int, r: int)
    requires m > 0 && 0 <= r < m && a == q * m + r
    ensures a / m == q && a % m == r
  {
    var d := a / m - q;
    assert a == (a / m) * m + a % m;
    assert d * m == r - a % m;
    if d >= 1 {
      MulMonotone(1, d, m);
    } else if d <= -1 {
      MulMonotone(d, -1, m);
    }
  }

  lemma ModShift(a: int, k: int, m: int)
    requires m > 0
    ensures (a + k * m) % m == a % m
    ensures (a + k * m) / m == a / m + k
  {
    assert a + k * m == (a / m + k) * m + a % m;
    DivModUnique(a + k * m, m, a / m + k, a % m);
  }

  /** The form in which congruences are established: exhibit the multiple. */
  lemma CongByMultiple(a: int, b: int, k: int, m: int)
    requires m > 0 && a == b + k * m
    ensures Cong(a, b, m)
  {
    ModShift(b, k, m);
  }

  lemma CongMultiple(a: int, b: int, m: int) returns (k: int)
    requires m > 0 && Cong(a, b, m)
    ensures a == b + k * m
  {
    k := a / m - b / m;
  }

  lemma CongAdd(a: int, a': int, b: int, b': int, m: int)
    requires m > 0 && Cong(a, a', m) && Cong(b, b', m)
    ensures Cong(a + b, a' + b', m)
  {
    var k := CongMultiple(a, a', m);
    var l := CongMultiple(b, b', m);
    CongByMultiple(a + b, a' + b', k + l, m);
  }

  lemma CongSub(a: int, a': int, b: int, b': int, m: int)
    requires m > 0 && Cong(a, a', m) && Cong(b, b', m)
    ensures Cong(a - b, a' - b', m)
  {
    var k := CongMultiple(a, a', m);
    var l := CongMultiple(b, b', m);
    CongByMultiple(a - b, a' - b', k - l, m);
  }

  lemma CongScale(a: int, a': int, b: int, m: int)
    requires m > 0 && Cong(a, a', m)
    ensures Cong(a * b, a' * b, m)
  {
    var k := CongMultiple(a, a', m);
    assert (a' + k * m) * b == a' * b + (k * m) * b;
    assert (k * m) * b == (k * b) * m;
    CongByMultiple(a * b, a' * b, k * b, m);
  }

  lemma CongMul(a: int, a': int, b: int, b': int, m: int)
    requires m > 0 && Cong(a, a', m) && Cong(b, b', m)
    ensures Cong(a * b, a' * b', m)
  {
    CongScale(a, a', b, m);
    CongScale(b, b', a', m);
  }

  lemma CongMod(a: int, m: int)
    requires m > 0
    ensures Cong(a % m, a, m)
  {
    DivModUnique(a % m, m, 0, a % m);
  }

  lemma DivDiv(x: nat, a: nat, b: nat)
    requires a > 0 && b > 0
    ensures a * b > 0 && x / (a * b) == (x / a) / b
  {
    var q := (x / a) / b;
    var r := a * ((x / a) % b) + x % a;
    assert x == q * (a * b) + r by {
      assert x == a * (x / a) + x % a;
      assert x / a == b * q + (x / a) % b;
      assert a * (b * q) == q * (a * b);
    }
    MulMonotone((x / a) % b, b - 1, a);
    assert a * ((x / a) % b) == ((x / a) % b) * a && (b - 1) * a == a * b - a;
    assert 0 <= ((x / a) % b) * a by {
      MulMonotone(0, (x / a) % b, a);
    }
    DivModUnique(x, a * b, q, r);
  }
}
