/** `ge25519_double_scalarmult_vartime`: [s1]P1 + [s2]P2 by interleaved base-4 digits. */
module DoubleScalarMult {
  import opened Words
  import opened Limbs
  import opened Field
  import opened Group
  import opened Edwards
  import opened Ge25519
  import opened Digits
  import opened ScalarOps
  import ModArith

  /** [m]a + [n]b */
  ghost function Combo<G(!new)>(g: Group<G>, m: int, n: int, a: G, b: G): G
  {
    g.add(g.Mul(m, a), g.Mul(n, b))
  }

  lemma ComboAdd<G(!new)>(g: Group<G>, m: int, n: int, m': int, n': int, a: G, b: G)
    requires g.Abelian()
    ensures g.add(Combo(g, m, n, a, b), Combo(g, m', n', a, b)) == Combo(g, m + m', n + n', a, b)
  {
    hide g.Abelian, g.Mul;
    MulAdd(g, m, m', a);
    MulAdd(g, n, n', b);
    Exchange(g, g.Mul(m, a), g.Mul(n, b), g.Mul(m', a), g.Mul(n', b));
  }

  lemma ComboDouble<G(!new)>(g: Group<G>, m: int, n: int, a: G, b: G)
    requires g.Abelian()
    ensures g.add(Combo(g, m, n, a, b), Combo(g, m, n, a, b)) == Combo(g, 2 * m, 2 * n, a, b)
  {
    hide g.Abelian, Combo;
    ComboAdd(g, m, n, m, n, a, b);
    assert m + m == 2 * m && n + n == 2 * n;
  }

  lemma LawAbelian<G(!new)>(c: Curve<G>)
    requires c.Law()
    ensures c.group.Abelian() && Prime()
  {
  }

  lemma ComboUnits<G(!new)>(g: Group<G>, a: G, b: G)
    requires g.Abelian()
    ensures Combo(g, 0, 0, a, b) == g.zero && Combo(g, 1, 0, a, b) == a && Combo(g, 0, 1, a, b) == b
  {
    hide g.Abelian, g.Mul;
    MulOne(g, a);
    MulOne(g, b);
    Zero(g, g.zero);
    Zero(g, a);
    Zero(g, b);
  }

  /** The extended point `e` is [m]a + [n]b. */
  ghost predicate Entry<G(!new)>(c: Curve<G>, e: Ge, m: int, n: int, a: G, b: G)
  {
    Represents(c, e, Combo(c.group, m, n, a, b))
  }

  lemma StartEntries<G(!new)>(c: Curve<G>, p1: Ge, p2: Ge, a: G, b: G)
    requires c.Law() && Represents(c, p1, a) && Represents(c, p2, b)
    ensures Entry(c, Neutral(), 0, 0, a, b) && Entry(c, p1, 1, 0, a, b) && Entry(c, p2, 0, 1, a, b)
  {
    hide Represents, c.Law, Prime, c.group.Abelian, Combo;
    LawAbelian(c);
    ComboUnits(c.group, a, b);
    NeutralRepresents(c);
  }

  lemma AddEntry<G(!new)>(c: Curve<G>, p: Ge, q: Ge, m: int, n: int, m': int, n': int, a: G, b: G)
    requires c.Law() && Entry(c, p, m, n, a, b) && Entry(c, q, m', n', a, b)
    ensures Entry(c, ToP3(AddP1p1(p, q)), m + m', n + n', a, b)
  {
    hide Represents, RepresentsP1p1, c.Law, Prime, c.group.Abelian, Combo, ToP3, AddP1p1;
    LawAbelian(c);
    ComboAdd(c.group, m, n, m', n', a, b);
    var x, y := Combo(c.group, m, n, a, b), Combo(c.group, m', n', a, b);
    AddRepresents(c, p, q, x, y);
    ConversionRepresents(c, AddP1p1(p, q), p, c.group.add(x, y));
  }

  lemma DoubleEntry<G(!new)>(c: Curve<G>, p: Ge, m: int, n: int, a: G, b: G)
    requires c.Law() && Entry(c, p, m, n, a, b)
    ensures Entry(c, ToP3(DblP1p1(p)), 2 * m, 2 * n, a, b)
  {
    hide Represents, RepresentsP2, RepresentsP1p1, c.Law, Prime, c.group.Abelian, Combo, ToP3, DblP1p1;
    LawAbelian(c);
    ExtendedIsProjective(c, p, Combo(c.group, m, n, a, b));
    ComboDouble(c.group, m, n, a, b);
    var x := Combo(c.group, m, n, a, b);
    DoubleRepresents(c, p, x);
    ConversionRepresents(c, DblP1p1(p), p, c.group.add(x, x));
  }

  lemma ExtendedIsProjective<G(!new)>(c: Curve<G>, p: Ge, g: G)
    requires Represents(c, p, g)
    ensures RepresentsP2(c, p, g)
  {
  }

  /** The table: entry k is [k mod 4]a + [k / 4]b. */
  ghost predicate Table<G(!new)>(c: Curve<G>, pre: seq<Ge>, a: G, b: G)
  {
    |pre| == 16 && forall k | 0 <= k < 16 :: Entry(c, pre[k], k % 4, k / 4, a, b)
  }

  /** The limbs of the table. */
  function Table16(p1: Ge, p2: Ge): (pre: seq<Ge>)
    ensures |pre| == 16
  {
    var e2 := ToP3(DblP1p1(p1));
    var e3 := ToP3(AddP1p1(p1, e2));
    var e5 := ToP3(AddP1p1(p1, p2));
    var e8 := ToP3(DblP1p1(p2));
    var e12 := ToP3(AddP1p1(p2, e8));
    [Neutral(), p1, e2, e3]
    + [p2, e5, ToP3(AddP1p1(e2, p2)), ToP3(AddP1p1(e3, p2))]
    + [e8, ToP3(AddP1p1(p1, e8)), ToP3(DblP1p1(e5)), ToP3(AddP1p1(e3, e8))]
    + [e12, ToP3(AddP1p1(p1, e12)), ToP3(AddP1p1(e2, e12)), ToP3(AddP1p1(e3, e12))]
  }

  /** The limbs of one round: the completed point, and the running result left behind. */
  function RoundLimbs(r: Ge, pre: seq<Ge>, digit: nat): (P1p1, Ge)
    requires digit < |pre|
  {
    var s := ToP2(r, DblP1p1(r));
    var t := DblP1p1(s);
    if digit == 0 then (t, s) else (AddP1p1(ToP3(t), pre[digit]), ToP3(t))
  }

  /** The limbs after the digits from `i` on. */
  function Horner(pre: seq<Ge>, d1: seq<int>, d2: seq<int>, i: nat): Ge
    requires |pre| == 16 && i < |d1| == |d2|
    requires forall k | 0 <= k < |d1| :: 0 <= d1[k] < 4 && 0 <= d2[k] < 4
    decreases |d1| - i, pre
  {
    if i == |d1| - 1 then pre[d1[i] + 4 * d2[i]]
    else
      var (t, s) := RoundLimbs(Horner(pre, d1, d2, i + 1), pre, d1[i] + 4 * d2[i]);
      if i != 0 then ToP2(s, t) else ToP3(t)
  }

  /** The limbs of [m]P1 + [n]P2 as the code computes them from the table. */
  function ComboLimbs(pre: seq<Ge>, m: int, n: int): Ge
    requires |pre| == 16
  {
    var d1, d2 := Base4(m, 127), Base4(n, 127);
    Horner(pre, d1, d2, 0)
  }

  /** The four entries with a given multiple of `b`. */
  ghost predicate Row<G(!new)>(c: Curve<G>, e0: Ge, e1: Ge, e2: Ge, e3: Ge, n: int, a: G, b: G)
  {
    Entry(c, e0, 0, n, a, b) && Entry(c, e1, 1, n, a, b) && Entry(c, e2, 2, n, a, b) && Entry(c, e3, 3, n, a, b)
  }

  lemma Rows<G(!new)>(c: Curve<G>, r0: seq<Ge>, r1: seq<Ge>, r2: seq<Ge>, r3: seq<Ge>, a: G, b: G)
    requires |r0| == |r1| == |r2| == |r3| == 4
    requires Row(c, r0[0], r0[1], r0[2], r0[3], 0, a, b) && Row(c, r1[0], r1[1], r1[2], r1[3], 1, a, b)
    requires Row(c, r2[0], r2[1], r2[2], r2[3], 2, a, b) && Row(c, r3[0], r3[1], r3[2], r3[3], 3, a, b)
    ensures Table(c, r0 + r1 + r2 + r3, a, b)
  {
    hide Entry, Row;
    var pre := r0 + r1 + r2 + r3;
    forall k | 0 <= k < 16
      ensures Entry(c, pre[k], k % 4, k / 4, a, b)
    {
      var row, n := if k < 4 then r0 else if k < 8 then r1 else if k < 12 then r2 else r3, k / 4;
      assert k == 4 * n + k % 4 && pre[k] == row[k % 4];
      RowEntry(c, row, k % 4, n, a, b);
    }
  }

  lemma RowEntry<G(!new)>(c: Curve<G>, r: seq<Ge>, m: nat, n: int, a: G, b: G)
    requires |r| == 4 && m < 4 && Row(c, r[0], r[1], r[2], r[3], n, a, b)
    ensures Entry(c, r[m], m, n, a, b)
  {
    hide Entry;
  }

  /** Adds [n]b to the first row. */
  method AddRow<G(!new)>(e1: Ge, e2: Ge, e3: Ge, f: Ge, ghost c: Curve<G>, ghost n: int, ghost a: G, ghost b: G)
    returns (f1: Ge, f2: Ge, f3: Ge)
    requires c.Law() && Entry(c, e1, 1, 0, a, b) && Entry(c, e2, 2, 0, a, b) && Entry(c, e3, 3, 0, a, b)
    requires Entry(c, f, 0, n, a, b)
    ensures Row(c, f, f1, f2, f3, n, a, b)
    ensures f1 == ToP3(AddP1p1(e1, f)) && f2 == ToP3(AddP1p1(e2, f)) && f3 == ToP3(AddP1p1(e3, f))
  {
    hide Entry, c.Law, ToP3, AddP1p1;
    AddEntry(c, e1, f, 1, 0, 0, n, a, b);
    f1 := ToP3(AddP1p1(e1, f));
    AddEntry(c, e2, f, 2, 0, 0, n, a, b);
    f2 := ToP3(AddP1p1(e2, f));
    AddEntry(c, e3, f, 3, 0, 0, n, a, b);
    f3 := ToP3(AddP1p1(e3, f));
  }

  /** The third row doubles where it can. */
  method ThirdRow<G(!new)>(e1: Ge, e3: Ge, e4: Ge, e5: Ge, ghost c: Curve<G>, ghost a: G, ghost b: G)
    returns (e8: Ge, e9: Ge, e10: Ge, e11: Ge)
    requires c.Law() && Entry(c, e1, 1, 0, a, b) && Entry(c, e3, 3, 0, a, b)
    requires Entry(c, e4, 0, 1, a, b) && Entry(c, e5, 1, 1, a, b)
    ensures Row(c, e8, e9, e10, e11, 2, a, b)
    ensures e8 == ToP3(DblP1p1(e4)) && e9 == ToP3(AddP1p1(e1, e8))
    ensures e10 == ToP3(DblP1p1(e5)) && e11 == ToP3(AddP1p1(e3, e8))
  {
    hide Entry, c.Law, ToP3, AddP1p1, DblP1p1;
    DoubleEntry(c, e4, 0, 1, a, b);
    e8 := ToP3(DblP1p1(e4));
    AddEntry(c, e1, e8, 1, 0, 0, 2, a, b);
    e9 := ToP3(AddP1p1(e1, e8));
    DoubleEntry(c, e5, 1, 1, a, b);
    e10 := ToP3(DblP1p1(e5));
    AddEntry(c, e3, e8, 3, 0, 0, 2, a, b);
    e11 := ToP3(AddP1p1(e3, e8));
  }

  method Precompute<G(!new)>(p1: Ge, p2: Ge, ghost c: Curve<G>, ghost a: G, ghost b: G) returns (pre: seq<Ge>)
    requires c.Law() && Represents(c, p1, a) && Represents(c, p2, b)
    ensures pre == Table16(p1, p2) && Table(c, pre, a, b)
  {
    hide Represents, Entry, c.Law, ToP3, AddP1p1, DblP1p1, Neutral, Table;
    StartEntries(c, p1, p2, a, b);
    var e0, e1, e4 := Neutral(), p1, p2;
    DoubleEntry(c, e1, 1, 0, a, b);
    var e2 := ToP3(DblP1p1(e1));
    AddEntry(c, e1, e2, 1, 0, 2, 0, a, b);
    var e3 := ToP3(AddP1p1(e1, e2));
    assert Row(c, e0, e1, e2, e3, 0, a, b);
    var e5, e6, e7 := AddRow(e1, e2, e3, e4, c, 1, a, b);
    var e8, e9, e10, e11 := ThirdRow(e1, e3, e4, e5, c, a, b);
    AddEntry(c, e4, e8, 0, 1, 0, 2, a, b);
    var e12 := ToP3(AddP1p1(e4, e8));
    var e13, e14, e15 := AddRow(e1, e2, e3, e12, c, 3, a, b);
    hide Row;
    Rows(c, [e0, e1, e2, e3], [e4, e5, e6, e7], [e8, e9, e10, e11], [e12, e13, e14, e15], a, b);
    pre := [e0, e1, e2, e3] + [e4, e5, e6, e7] + [e8, e9, e10, e11] + [e12, e13, e14, e15];
  }

  /** The point under the running result; only its first three coordinates need be current. */
  ghost predicate Running<G(!new)>(c: Curve<G>, e: Ge, m: int, n: int, a: G, b: G)
  {
    RepresentsP2(c, e, Combo(c.group, m, n, a, b))
  }

  /** The completed point is [m]a + [n]b. */
  ghost predicate Fresh<G(!new)>(c: Curve<G>, e: P1p1, m: int, n: int, a: G, b: G)
  {
    RepresentsP1p1(c, e, Combo(c.group, m, n, a, b))
  }

  lemma DoubleRunning<G(!new)>(c: Curve<G>, p: Ge, m: int, n: int, a: G, b: G)
    requires c.Law() && Running(c, p, m, n, a, b)
    ensures Fresh(c, DblP1p1(p), 2 * m, 2 * n, a, b)
  {
    hide RepresentsP2, RepresentsP1p1, c.Law, Prime, c.group.Abelian, Combo, DblP1p1;
    LawAbelian(c);
    ComboDouble(c.group, m, n, a, b);
    DoubleRepresents(c, p, Combo(c.group, m, n, a, b));
  }

  lemma AddFresh<G(!new)>(c: Curve<G>, p: Ge, q: Ge, m: int, n: int, m': int, n': int, a: G, b: G)
    requires c.Law() && Entry(c, p, m, n, a, b) && Entry(c, q, m', n', a, b)
    ensures Fresh(c, AddP1p1(p, q), m + m', n + n', a, b)
  {
    hide Represents, RepresentsP1p1, c.Law, Prime, c.group.Abelian, Combo, AddP1p1;
    LawAbelian(c);
    ComboAdd(c.group, m, n, m', n', a, b);
    AddRepresents(c, p, q, Combo(c.group, m, n, a, b), Combo(c.group, m', n', a, b));
  }

  lemma Settle<G(!new)>(c: Curve<G>, p: P1p1, r: Ge, m: int, n: int, a: G, b: G)
    requires c.Law() && Fresh(c, p, m, n, a, b)
    ensures Entry(c, ToP3(p), m, n, a, b) && Running(c, ToP2(r, p), m, n, a, b) && Running(c, ToP3(p), m, n, a, b)
  {
    hide Combo, ToP2, ToP3, c.Law, Prime;
    LawAbelian(c);
    var x := Combo(c.group, m, n, a, b);
    ConversionRepresents(c, p, r, x);
    ExtendedIsProjective(c, ToP3(p), x);
  }

  /** Two doublings and at most one table addition: the completed point of one round, and the
      running result it leaves behind. */
  method Round<G(!new)>(r: Ge, pre: seq<Ge>, digit: byte, ghost c: Curve<G>, ghost m: int, ghost n: int,
                        ghost d1: int, ghost d2: int, ghost a: G, ghost b: G) returns (t: P1p1, s: Ge)
    requires c.Law() && Running(c, r, m, n, a, b) && Table(c, pre, a, b)
    requires 0 <= d1 < 4 && 0 <= d2 < 4 && digit == d1 + 4 * d2
    ensures Fresh(c, t, d1 + 4 * m, d2 + 4 * n, a, b)
    ensures digit < |pre| && (t, s) == RoundLimbs(r, pre, digit)
  {
    hide Running, Fresh, Entry, c.Law, ToP3, ToP2, AddP1p1, DblP1p1;
    DoubleRunning(c, r, m, n, a, b);
    t := DblP1p1(r);
    Settle(c, t, r, 2 * m, 2 * n, a, b);
    s := ToP2(r, t);
    DoubleRunning(c, s, 2 * m, 2 * n, a, b);
    t := DblP1p1(s);
    assert Fresh(c, t, 4 * m, 4 * n, a, b);
    if digit != 0 {
      Settle(c, t, s, 4 * m, 4 * n, a, b);
      s := ToP3(t);
      assert digit % 4 == d1 && digit / 4 == d2;
      assert Entry(c, pre[digit], digit % 4, digit / 4, a, b);
      AddFresh(c, s, pre[digit], 4 * m, 4 * n, d1, d2, a, b);
      t := AddP1p1(s, pre[digit]);
    }
  }

  lemma RadixNext(d: seq<int>, i: nat)
    requires i < |d|
    ensures Radix(4, d[i..]) == d[i] + 4 * Radix(4, d[i + 1..])
  {
    assert d[i..][1..] == d[i + 1..];
  }

  lemma RadixEnd(d: seq<int>)
    requires |d| > 0
    ensures Radix(4, d[|d| - 1..]) == d[|d| - 1] && d[0..] == d
  {
    RadixNext(d, |d| - 1);
    assert d[|d|..] == [];
  }

  lemma TableEntry<G(!new)>(c: Curve<G>, pre: seq<Ge>, digit: byte, d1: int, d2: int, a: G, b: G)
    requires Table(c, pre, a, b) && 0 <= d1 < 4 && 0 <= d2 < 4 && digit == d1 + 4 * d2
    ensures digit < |pre| && Entry(c, pre[digit], d1, d2, a, b) && Running(c, pre[digit], d1, d2, a, b)
  {
    hide Represents, Combo;
    assert digit % 4 == d1 && digit / 4 == d2;
    ExtendedIsProjective(c, pre[digit], Combo(c.group, d1, d2, a, b));
  }

  /** The scalar the digits hold: the code drops bits 254 and 255. */
  function Low254(s: seq<int>): int
    requires |s| == 32
  {
    Val(s) - (s[31] / 64) * (TOP_BIT / 2)
  }

  /** Horner evaluation from the top digit down. */
  method DoubleScalarmult<G(!new)>(p1: Ge, s1: array<u32>, p2: Ge, s2: array<u32>,
                                   ghost c: Curve<G>, ghost a: G, ghost b: G) returns (r: Ge)
    requires s1.Length == s2.Length == 32 && Within(s1[..], 255) && Within(s2[..], 255)
    requires c.Law() && Represents(c, p1, a) && Represents(c, p2, b)
    ensures Represents(c, r, Combo(c.group, Low254(s1[..]), Low254(s2[..]), a, b))
    ensures r == ComboLimbs(Table16(p1, p2), Low254(s1[..]), Low254(s2[..]))
  {
    hide Represents, Table, c.Law, Radix, Val, Table16, Horner, Base4;
    var pre := Precompute(p1, p2, c, a, b);
    var digits := new byte[127];
    ghost var d1, d2 := Interleave2(digits, s1, s2);
    Base4Unique(d1);
    Base4Unique(d2);
    r := Evaluate(pre, digits, c, d1, d2, a, b);
  }

  method Evaluate<G(!new)>(pre: seq<Ge>, digits: array<byte>, ghost c: Curve<G>, ghost d1: seq<int>, ghost d2: seq<int>,
                           ghost a: G, ghost b: G) returns (r: Ge)
    requires digits.Length == 127 && Interleaved(digits[..], d1, d2) && |pre| == 16 && c.Law() && Table(c, pre, a, b)
    ensures Entry(c, r, Radix(4, d1), Radix(4, d2), a, b) && r == Horner(pre, d1, d2, 0)
  {
    hide Represents, Running, Fresh, Table, Entry, c.Law, ToP3, ToP2, Radix, RoundLimbs, Horner;
    assert digits[..][126] == digits[126];
    TableEntry(c, pre, digits[126], d1[126], d2[126], a, b);
    r := pre[digits[126]];
    RadixEnd(d1);
    RadixEnd(d2);
    HornerStart(pre, d1, d2);
    var i := 126;
    while i > 0
      invariant 0 <= i <= 126 && r == Horner(pre, d1, d2, i)
      invariant Running(c, r, Radix(4, d1[i..]), Radix(4, d2[i..]), a, b)
      invariant i == 0 ==> Entry(c, r, Radix(4, d1[i..]), Radix(4, d2[i..]), a, b)
    {
      i := i - 1;
      RadixNext(d1, i);
      RadixNext(d2, i);
      assert digits[..][i] == digits[i];
      var t, s := Round(r, pre, digits[i], c, Radix(4, d1[i + 1..]), Radix(4, d2[i + 1..]), d1[i], d2[i], a, b);
      Settle(c, t, s, Radix(4, d1[i..]), Radix(4, d2[i..]), a, b);
      HornerNext(pre, d1, d2, i);
      r := if i != 0 then ToP2(s, t) else ToP3(t);
    }
  }

  lemma HornerStart(pre: seq<Ge>, d1: seq<int>, d2: seq<int>)
    requires |pre| == 16 && 0 < |d1| == |d2| && forall k | 0 <= k < |d1| :: 0 <= d1[k] < 4 && 0 <= d2[k] < 4
    ensures Horner(pre, d1, d2, |d1| - 1) == pre[d1[|d1| - 1] + 4 * d2[|d1| - 1]]
  {
  }

  lemma HornerNext(pre: seq<Ge>, d1: seq<int>, d2: seq<int>, i: nat)
    requires |pre| == 16 && i + 1 < |d1| == |d2| && forall k | 0 <= k < |d1| :: 0 <= d1[k] < 4 && 0 <= d2[k] < 4
    ensures var (t, s) := RoundLimbs(Horner(pre, d1, d2, i + 1), pre, d1[i] + 4 * d2[i]);
            Horner(pre, d1, d2, i) == if i != 0 then ToP2(s, t) else ToP3(t)
  {
    hide RoundLimbs, ToP2, ToP3;
  }

  /** Scalars below the order lose nothing. */
  lemma ScalarIsLow(s: seq<int>)
    requires Scalar(s)
    ensures Low254(s) == Val(s)
  {
    Weights();
    ValTop(s);
    ValDigits(s[..31]);
    hide Val, Pow256;
    assert |s| - 1 == 31;
    if s[31] >= 64 {
      ModArith.MulMonotone(64, s[31], Pow256(31));
      assert false;
    }
  }
}
