/** Abelian groups and integer multiples in them. */
module Group {

  datatype Group<!G(!new)> = Group(add: (G, G) -> G, neg: G -> G, zero: G)
  {
    ghost predicate Abelian()
    {
      && (forall a: G, b: G, c: G :: add(add(a, b), c) == add(a, add(b, c)))
      && (forall a: G, b: G :: add(a, b) == add(b, a))
      && (forall a: G :: add(a, zero) == a)
      && (forall a: G :: add(a, neg(a)) == zero)
    }

    ghost function Times(n: nat, a: G): G
    {
      if n == 0 then zero else add(a, Times(n - 1, a))
    }

    /** The multiple by any integer. */
    ghost function Mul(n: int, a: G): G
    {
      if n >= 0 then Times(n, a) else neg(Times(-n, a))
    }
  }

  lemma Assoc<G(!new)>(g: Group<G>, a: G, b: G, c: G)
    requires g.Abelian()
    ensures g.add(g.add(a, b), c) == g.add(a, g.add(b, c))
  {
  }

  lemma Comm<G(!new)>(g: Group<G>, a: G, b: G)
    requires g.Abelian()
    ensures g.add(a, b) == g.add(b, a)
  {
  }

  lemma Zero<G(!new)>(g: Group<G>, a: G)
    requires g.Abelian()
    ensures g.add(a, g.zero) == a && g.add(g.zero, a) == a
  {
  }

  lemma Inverse<G(!new)>(g: Group<G>, a: G)
    requires g.Abelian()
    ensures g.add(a, g.neg(a)) == g.zero && g.add(g.neg(a), a) == g.zero
  {
  }

  /** Four summands may be regrouped in pairs. */
  lemma Exchange<G(!new)>(g: Group<G>, a: G, b: G, c: G, d: G)
    requires g.Abelian()
    ensures g.add(g.add(a, b), g.add(c, d)) == g.add(g.add(a, c), g.add(b, d))
  {
    Assoc(g, a, b, g.add(c, d));
    Assoc(g, b, c, d);
    Comm(g, b, c);
    Assoc(g, c, b, d);
    Assoc(g, a, c, g.add(b, d));
  }

  lemma InverseUnique<G(!new)>(g: Group<G>, a: G, b: G)
    requires g.Abelian() && g.add(a, b) == g.zero
    ensures b == g.neg(a)
  {
    Zero(g, b);
    Zero(g, g.neg(a));
    Inverse(g, a);
    Assoc(g, g.neg(a), a, b);
  }

  lemma NegAdd<G(!new)>(g: Group<G>, a: G, b: G)
    requires g.Abelian()
    ensures g.neg(g.add(a, b)) == g.add(g.neg(a), g.neg(b))
  {
    Exchange(g, a, b, g.neg(a), g.neg(b));
    Inverse(g, a);
    Inverse(g, b);
    Zero(g, g.zero);
    InverseUnique(g, g.add(a, b), g.add(g.neg(a), g.neg(b)));
  }

  lemma NegNeg<G(!new)>(g: Group<G>, a: G)
    requires g.Abelian()
    ensures g.neg(g.neg(a)) == a && g.neg(g.zero) == g.zero
  {
    Inverse(g, a);
    InverseUnique(g, g.neg(a), a);
    Zero(g, g.zero);
    InverseUnique(g, g.zero, g.zero);
  }

  lemma {:induction false} TimesAdd<G(!new)>(g: Group<G>, m: nat, n: nat, a: G)
    requires g.Abelian()
    ensures g.Times(m + n, a) == g.add(g.Times(m, a), g.Times(n, a))
    decreases m
  {
    if m == 0 {
      Zero(g, g.Times(n, a));
    } else {
      TimesAdd(g, m - 1, n, a);
      Assoc(g, a, g.Times(m - 1, a), g.Times(n, a));
    }
  }

  lemma MulOne<G(!new)>(g: Group<G>, a: G)
    requires g.Abelian()
    ensures g.Mul(0, a) == g.zero && g.Mul(1, a) == a
  {
    Zero(g, a);
    assert g.Times(0, a) == g.zero;
    assert g.Times(1, a) == g.add(a, g.Times(0, a));
  }

  lemma MulNeg<G(!new)>(g: Group<G>, n: int, a: G)
    requires g.Abelian()
    ensures g.Mul(-n, a) == g.neg(g.Mul(n, a))
  {
    hide g.Times, g.Abelian;
    if n == 0 {
      MulOne(g, a);
      NegNeg(g, a);
    } else if n < 0 {
      NegNeg(g, g.Times(-n, a));
    }
  }

  /** Multiples of opposite sign cancel. */
  lemma TimesCancel<G(!new)>(g: Group<G>, m: nat, n: nat, a: G)
    requires g.Abelian() && m >= n
    ensures g.add(g.Times(m, a), g.neg(g.Times(n, a))) == g.Times(m - n, a)
  {
    hide g.Times, g.Abelian;
    TimesAdd(g, m - n, n, a);
    Assoc(g, g.Times(m - n, a), g.Times(n, a), g.neg(g.Times(n, a)));
    Inverse(g, g.Times(n, a));
    Zero(g, g.Times(m - n, a));
  }

  lemma MulAdd<G(!new)>(g: Group<G>, m: int, n: int, a: G)
    requires g.Abelian()
    ensures g.Mul(m + n, a) == g.add(g.Mul(m, a), g.Mul(n, a))
  {
    hide g.Times, g.Abelian;
    if m >= 0 && n >= 0 {
      TimesAdd(g, m, n, a);
    } else if m < 0 && n < 0 {
      TimesAdd(g, -m, -n, a);
      NegAdd(g, g.Times(-m, a), g.Times(-n, a));
    } else if m >= 0 {
      MulAddMixed(g, m, -n, a);
    } else {
      MulAddMixed(g, n, -m, a);
      Comm(g, g.Mul(m, a), g.Mul(n, a));
    }
  }

  lemma MulAddMixed<G(!new)>(g: Group<G>, m: nat, n: nat, a: G)
    requires g.Abelian() && n > 0
    ensures g.Mul(m - n, a) == g.add(g.Times(m, a), g.neg(g.Times(n, a)))
  {
    hide g.Times, g.Abelian;
    if m >= n {
      TimesCancel(g, m, n, a);
    } else {
      TimesCancel(g, n, m, a);
      NegAdd(g, g.Times(n, a), g.neg(g.Times(m, a)));
      NegNeg(g, g.Times(m, a));
      Comm(g, g.neg(g.Times(n, a)), g.Times(m, a));
    }
  }

  lemma {:induction false} TimesDistributes<G(!new)>(g: Group<G>, n: nat, a: G, b: G)
    requires g.Abelian()
    ensures g.Times(n, g.add(a, b)) == g.add(g.Times(n, a), g.Times(n, b))
  {
    hide g.Abelian;
    if n == 0 {
      Zero(g, g.zero);
    } else {
      TimesDistributes(g, n - 1, a, b);
      Exchange(g, a, b, g.Times(n - 1, a), g.Times(n - 1, b));
    }
  }

  /** Multiplying a multiple multiplies the factors. */
  lemma {:induction false} TimesMul<G(!new)>(g: Group<G>, m: nat, n: int, a: G)
    requires g.Abelian()
    ensures g.Times(m, g.Mul(n, a)) == g.Mul(m * n, a)
  {
    if m == 0 {
      MulOne(g, a);
    } else {
      TimesMul(g, m - 1, n, a);
      assert n + (m - 1) * n == m * n;
      assert g.Times(m, g.Mul(n, a)) == g.add(g.Mul(n, a), g.Times(m - 1, g.Mul(n, a)));
      hide g.Times, g.Mul, g.Abelian;
      MulAdd(g, n, (m - 1) * n, a);
    }
  }

  /** A multiple only depends on the factor modulo the order of the point. */
  lemma MulModOrder<G(!new)>(g: Group<G>, n: nat, l: nat, a: G)
    requires g.Abelian() && l > 0 && g.Mul(l, a) == g.zero
    ensures g.Mul(n % l, a) == g.Mul(n, a)
  {
    hide g.Times, g.Abelian;
    var q := n / l;
    assert n == q * l + n % l;
    MulAdd(g, q * l, n % l, a);
    TimesMul(g, q, l, a);
    TimesZero(g, q);
    Zero(g, g.Mul(n % l, a));
  }

  lemma {:induction false} TimesZero<G(!new)>(g: Group<G>, n: nat)
    requires g.Abelian()
    ensures g.Times(n, g.zero) == g.zero
  {
    if n > 0 {
      TimesZero(g, n - 1);
      Zero(g, g.zero);
    }
  }
}
