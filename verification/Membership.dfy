/** Certificates of membership: sorted qualifier tuples, compared within maximum deltas. */
module Membership {
  import opened Words
  import opened Identities

  const U64: int := 0x1_0000_0000_0000_0000

  type u64 = x: int | 0 <= x < 0x1_0000_0000_0000_0000

  const MAX_QUALIFIERS: nat := 8

  datatype Qualifier = Qualifier(id: u64, value: u64, maxDelta: u64)

  const TIMESTAMP: u64 := 0
  const NETWORK_ID: u64 := 1
  const ISSUED_TO: u64 := 2

  function Distance(a: u64, b: u64): u64
  {
    if a >= b then a - b else b - a
  }

  /** Strictly increasing ids, hence a listing of a map. */
  predicate Sorted(q: seq<Qualifier>)
  {
    forall i, j | 0 <= i < j < |q| :: q[i].id < q[j].id
  }

  function Ids(q: seq<Qualifier>): (r: seq<u64>)
    ensures |r| == |q|
  {
    seq(|q|, i requires 0 <= i < |q| => q[i].id)
  }

  // ------------------------------------------------------------------------
  // Agreement

  /** What the documentation promises: every tuple of mine is in the other one, within my delta. */
  ghost predicate Documented(mine: seq<Qualifier>, other: seq<Qualifier>)
  {
    && |mine| > 0 && |other| > 0
    && forall i | 0 <= i < |mine| :: Matched(mine[i], other)
  }

  ghost predicate Matched(q: Qualifier, other: seq<Qualifier>)
  {
    exists k | 0 <= k < |other| :: other[k].id == q.id && Distance(q.value, other[k].value) <= q.maxDelta
  }

  /** Scanning both id lists forward: the other index moves until the ids meet and then stays. */
  predicate Embeds(mine: seq<u64>, other: seq<u64>)
    decreases |mine| + |other|
  {
    if |mine| == 0 then true
    else if |other| == 0 then false
    else if other[0] == mine[0] then Embeds(mine[1..], other)
    else Embeds(mine, other[1..])
  }

  /** Values compared position by position, as the code indexes both sides by `myidx`. */
  predicate Positional(mine: seq<Qualifier>, slots: seq<Qualifier>)
    requires |mine| <= |slots|
  {
    forall i | 0 <= i < |mine| :: Distance(mine[i].value, slots[i].value) <= mine[i].maxDelta
  }

  /** What `agreesWith` computes, on the eight slots of the other certificate and its count. */
  predicate Compares(a: seq<Qualifier>, slots: seq<Qualifier>, n: nat)
    requires |a| <= |slots| && n <= |slots|
  {
    |a| > 0 && n > 0 && Embeds(Ids(a), Ids(slots[..n])) && Positional(a, slots)
  }

  /** The same between tuple lists, when no slot beyond the other list is read. */
  predicate CodeAgrees(a: seq<Qualifier>, b: seq<Qualifier>)
  {
    |a| > 0 && |b| > 0 && Embeds(Ids(a), Ids(b)) && |a| <= |b| && Positional(a, b)
  }

  /** What `setQualifier` keeps. */
  predicate SortedIds(ids: seq<u64>)
  {
    forall i, j | 0 <= i < j < |ids| :: ids[i] < ids[j]
  }

  /** What `deserialize` accepts: an id may be repeated. */
  predicate Ordered(ids: seq<u64>)
  {
    forall i, j | 0 <= i < j < |ids| :: ids[i] <= ids[j]
  }

  predicate Contained(mine: seq<u64>, other: seq<u64>)
  {
    forall i | 0 <= i < |mine| :: mine[i] in other
  }

  /** Between ordered lists the scan succeeds exactly when every id is present. */
  lemma {:induction false} EmbedsIffContained(mine: seq<u64>, other: seq<u64>)
    requires Ordered(mine) && Ordered(other)
    ensures Embeds(mine, other) <==> Contained(mine, other)
    decreases |mine| + |other|
  {
    if |mine| == 0 {
    } else if |other| == 0 {
      assert mine[0] !in other;
    } else if other[0] == mine[0] {
      EmbedsIffContained(mine[1..], other);
      assert forall i | 0 <= i < |mine| :: mine[i] == (if i == 0 then other[0] else mine[1..][i - 1]);
      if Contained(mine, other) {
        assert forall i | 0 <= i < |mine[1..]| :: mine[1..][i] == mine[i + 1];
      }
    } else {
      EmbedsIffContained(mine, other[1..]);
      SkipHead(mine, other);
    }
  }

  lemma SkipHead(mine: seq<u64>, other: seq<u64>)
    requires Ordered(mine) && Ordered(other) && |mine| > 0 && |other| > 0 && other[0] != mine[0]
    ensures Contained(mine, other) <==> Contained(mine, other[1..])
  {
    if Contained(mine, other) {
      forall i | 0 <= i < |mine|
        ensures mine[i] in other[1..]
      {
        assert mine[0] in other;
        var k :| 0 <= k < |other| && other[k] == mine[0];
        assert other[0] < mine[0];
        var m :| 0 <= m < |other| && other[m] == mine[i];
        assert mine[0] <= mine[i];
        assert other[1..][m - 1] == mine[i];
      }
    }
    assert forall x | x in other[1..] :: x in other;
  }

  // ------------------------------------------------------------------------
  // When the code decides what is documented

  /** Each id of mine stands in the other list at its own position and nowhere else. */
  predicate InPlace(mine: seq<u64>, other: seq<u64>)
  {
    |mine| <= |other| && forall i, k | 0 <= i < |mine| && 0 <= k < |other| :: other[k] == mine[i] <==> k == i
  }

  /** For sorted lists that says that mine is a prefix. */
  lemma InPlaceIffPrefix(mine: seq<u64>, other: seq<u64>)
    requires SortedIds(other)
    ensures InPlace(mine, other) <==> mine <= other
  {
    if InPlace(mine, other) {
      assert forall i | 0 <= i < |mine| :: other[i] == mine[i];
    }
  }

  lemma {:induction false} InPlaceEmbeds(mine: seq<u64>, other: seq<u64>, k: nat)
    requires k <= |mine| && InPlace(mine, other)
    ensures Embeds(mine[k..], other[k..])
    decreases |mine| - k
  {
    if k < |mine| {
      InPlaceEmbeds(mine, other, k + 1);
      assert mine[k..][1..] == mine[k + 1..] && other[k..][1..] == other[k + 1..];
    }
  }

  /** With my ids in place the code decides the documented relation. */
  lemma InPlaceDecides(a: seq<Qualifier>, slots: seq<Qualifier>, n: nat)
    requires n <= |slots| && InPlace(Ids(a), Ids(slots[..n]))
    ensures Compares(a, slots, n) <==> Documented(a, slots[..n])
  {
    hide Embeds, Distance;
    var b := slots[..n];
    InPlaceEmbeds(Ids(a), Ids(b), 0);
    assert Ids(a)[0..] == Ids(a) && Ids(b)[0..] == Ids(b);
    if Documented(a, b) {
      forall i | 0 <= i < |a|
        ensures Distance(a[i].value, slots[i].value) <= a[i].maxDelta
      {
        assert Matched(a[i], b);
        var k :| 0 <= k < |b| && b[k].id == a[i].id && Distance(a[i].value, b[k].value) <= a[i].maxDelta;
        assert Ids(b)[k] == Ids(a)[i];
      }
    } else if Compares(a, slots, n) {
      forall i | 0 <= i < |a|
        ensures Matched(a[i], b)
      {
        assert Ids(b)[i] == Ids(a)[i] && b[i] == slots[i];
      }
    }
  }

  lemma DocumentedContains(a: seq<Qualifier>, b: seq<Qualifier>)
    requires Documented(a, b)
    ensures Contained(Ids(a), Ids(b))
  {
    forall i | 0 <= i < |a|
      ensures Ids(a)[i] in Ids(b)
    {
      assert Matched(a[i], b);
      var k :| 0 <= k < |b| && b[k].id == a[i].id && Distance(a[i].value, b[k].value) <= a[i].maxDelta;
      assert Ids(b)[k] == a[i].id;
    }
  }

  /** Some id of mine stands in the other list at another position. */
  lemma OutOfPlace(mine: seq<u64>, other: seq<u64>) returns (i: nat, k: nat)
    requires Contained(mine, other) && !InPlace(mine, other)
    ensures i < |mine| && k < |other| && other[k] == mine[i] && k != i
  {
    if |mine| > |other| {
      i := |other|;
      assert mine[i] in other;
      k :| k < |other| && other[k] == mine[i];
    } else {
      var i', k' :| 0 <= i' < |mine| && 0 <= k' < |other| && !(other[k'] == mine[i'] <==> k' == i');
      i, k := i', k';
      if k == i {
        assert mine[i] in other;
        k :| k < |other| && other[k] == mine[i];
      }
    }
  }

  /** My tuples: all values zero, and only the one at `i` allows no difference. */
  function Strict(ids: seq<u64>, i: nat): (r: seq<Qualifier>)
    ensures |r| == |ids| && Ids(r) == ids
  {
    seq(|ids|, j requires 0 <= j < |ids| => Qualifier(ids[j], 0, if j == i then 0 else 0xffff_ffff_ffff_ffff))
  }

  /** Eight slots with the given ids first, all values zero but the one at `i`. */
  function Spiked(ids: seq<u64>, i: nat): (r: seq<Qualifier>)
    requires |ids| <= MAX_QUALIFIERS
    ensures |r| == MAX_QUALIFIERS && Ids(r[..|ids|]) == ids
  {
    seq(MAX_QUALIFIERS, j requires 0 <= j < MAX_QUALIFIERS =>
      Qualifier(if j < |ids| then ids[j] else 0, if j == i then 1 else 0, 0))
  }

  /** For all contained ids that are not in place there are values and deltas on which the code
      denies what is documented. */
  lemma PlaceNeeded(mine: seq<u64>, other: seq<u64>) returns (a: seq<Qualifier>, slots: seq<Qualifier>)
    requires Contained(mine, other) && !InPlace(mine, other) && |mine| <= MAX_QUALIFIERS && |other| <= MAX_QUALIFIERS
    ensures Ids(a) == mine && |slots| == MAX_QUALIFIERS && Ids(slots[..|other|]) == other
    ensures Documented(a, slots[..|other|]) && !Compares(a, slots, |other|)
  {
    var i, k := OutOfPlace(mine, other);
    a, slots := Strict(mine, i), Spiked(other, i);
    var b := slots[..|other|];
    forall j | 0 <= j < |a|
      ensures Matched(a[j], b)
    {
      assert mine[j] in other;
      var m: nat :| m < |other| && other[m] == mine[j];
      if j == i {
        m := k;
      }
      assert b[m].id == a[j].id && Distance(a[j].value, b[m].value) <= a[j].maxDelta;
    }
    assert Distance(a[i].value, slots[i].value) == 1;
  }

  /** For all ids that deserialize or setQualifier can leave: the code decides the documented
      relation for all values and deltas exactly when my ids are in place, or one is missing. */
  lemma AgreesIffInPlace(mine: seq<u64>, other: seq<u64>)
    requires Ordered(mine) && Ordered(other) && |mine| <= MAX_QUALIFIERS && |other| <= MAX_QUALIFIERS
    requires |mine| > 0 && |other| > 0
    ensures (forall a, slots | Ids(a) == mine && |slots| == MAX_QUALIFIERS && Ids(slots[..|other|]) == other ::
               Compares(a, slots, |other|) <==> Documented(a, slots[..|other|]))
            <==> InPlace(mine, other) || !Contained(mine, other)
  {
    hide InPlace, Contained, Documented, Ordered, Embeds, Positional;
    EmbedsIffContained(mine, other);
    if InPlace(mine, other) || !Contained(mine, other) {
      forall a, slots | Ids(a) == mine && |slots| == MAX_QUALIFIERS && Ids(slots[..|other|]) == other
        ensures Compares(a, slots, |other|) <==> Documented(a, slots[..|other|])
      {
        if InPlace(mine, other) {
          InPlaceDecides(a, slots, |other|);
        } else if Documented(a, slots[..|other|]) {
          DocumentedContains(a, slots[..|other|]);
        }
      }
    } else {
      var a, slots := PlaceNeeded(mine, other);
    }
  }

  // ------------------------------------------------------------------------
  // Which slots are read

  /** How many ids of mine the scan finds before it runs off the other list. */
  function Found(mine: seq<u64>, other: seq<u64>): (r: nat)
    ensures r <= |mine|
    decreases |mine| + |other|
  {
    if |mine| == 0 || |other| == 0 then 0
    else if other[0] == mine[0] then 1 + Found(mine[1..], other)
    else Found(mine, other[1..])
  }

  lemma {:induction false} FoundEmbeds(mine: seq<u64>, other: seq<u64>, j: nat)
    requires j <= |mine|
    ensures Embeds(mine[..j], other) <==> j <= Found(mine, other)
    decreases |mine| + |other|
  {
    if j == 0 || |other| == 0 {
    } else if other[0] == mine[0] {
      FoundEmbeds(mine[1..], other, j - 1);
      assert mine[..j][1..] == mine[1..][..j - 1];
    } else {
      FoundEmbeds(mine, other[1..], j);
    }
  }

  /** A slot beyond the other certificate's tuples is compared. */
  predicate ReadsBeyond(a: seq<Qualifier>, slots: seq<Qualifier>, n: nat)
    requires |a| <= |slots| && n <= |slots|
  {
    n < Found(Ids(a), Ids(slots[..n])) && Positional(a[..n], slots)
  }

  /** Slot j is compared exactly when my first j + 1 ids are found and the first j values agree. */
  predicate ComparedUpTo(a: seq<Qualifier>, slots: seq<Qualifier>, n: nat, compared: nat)
    requires |a| <= |slots| && n <= |slots|
  {
    && compared <= |a|
    && forall j | 0 <= j < |a| ::
         j < compared <==> j < Found(Ids(a), Ids(slots[..n])) && Positional(a[..j], slots)
  }

  lemma NothingCompared(a: seq<Qualifier>, slots: seq<Qualifier>, n: nat)
    requires |a| <= |slots| && n <= |slots| && (|a| == 0 || n == 0)
    ensures !Compares(a, slots, n) && ComparedUpTo(a, slots, n, 0) && !ReadsBeyond(a, slots, n)
  {
  }

  /** The scan stops after i ids. */
  lemma RanOff(a: seq<Qualifier>, slots: seq<Qualifier>, n: nat, i: nat)
    requires i <= |a| <= |slots| && 0 < n <= |slots| && |a| > 0
    requires Found(Ids(a), Ids(slots[..n])) == i && Positional(a[..i], slots)
    ensures (Compares(a, slots, n) <==> i == |a|) && ComparedUpTo(a, slots, n, i)
            && (ReadsBeyond(a, slots, n) <==> n < i)
  {
    hide Found, Distance, Embeds;
    FoundEmbeds(Ids(a), Ids(slots[..n]), |a|);
    assert Ids(a)[..|a|] == Ids(a) && a[..|a|] == a;
    PositionalPrefix(a, slots, i);
  }

  /** The values at i differ by too much. */
  lemma Differed(a: seq<Qualifier>, slots: seq<Qualifier>, n: nat, i: nat)
    requires i < |a| <= |slots| && 0 < n <= |slots| && i < Found(Ids(a), Ids(slots[..n]))
    requires Positional(a[..i], slots) && Distance(a[i].value, slots[i].value) > a[i].maxDelta
    ensures !Compares(a, slots, n) && ComparedUpTo(a, slots, n, i + 1) && (ReadsBeyond(a, slots, n) <==> n < i + 1)
  {
    hide Found, Distance, Embeds;
    PositionalPrefix(a, slots, i);
    forall j | i < j <= |a|
      ensures !Positional(a[..j], slots)
    {
      assert a[..j][i] == a[i];
    }
    assert a[..|a|] == a;
  }

  lemma PositionalPrefix(a: seq<Qualifier>, slots: seq<Qualifier>, i: nat)
    requires i <= |a| <= |slots| && Positional(a[..i], slots)
    ensures forall j | 0 <= j <= i :: Positional(a[..j], slots)
  {
    hide Distance;
    forall j, k | 0 <= j <= i && 0 <= k < j
      ensures Distance(a[..j][k].value, slots[k].value) <= a[..j][k].maxDelta
    {
      assert a[..j][k] == a[..i][k];
    }
  }

  /** More ids can be found than the other list has only if one of mine is repeated. */
  lemma {:induction false} FoundWithin(mine: seq<u64>, other: seq<u64>)
    requires forall i | 0 <= i < |mine| - 1 :: mine[i] != mine[i + 1]
    ensures Found(mine, other) <= |other|
    decreases |mine| + |other|
  {
    if |mine| > 0 && |other| > 0 {
      if other[0] != mine[0] {
        FoundWithin(mine, other[1..]);
      } else if |mine| > 1 {
        assert mine[1..][0] == mine[1] != other[0];
        FoundWithin(mine[1..], other[1..]);
      }
    }
  }

  /** Between ordered lists: more are found than the other list has exactly when mine is longer and
      its first ids, one more than the other list has, all occur there. */
  lemma FoundBeyondIff(mine: seq<u64>, other: seq<u64>)
    requires Ordered(mine) && Ordered(other)
    ensures Found(mine, other) > |other| <==> |mine| > |other| && Contained(mine[..|other| + 1], other)
    ensures Found(mine, other) > |other| ==> exists i | 0 <= i < |mine| - 1 :: mine[i] == mine[i + 1]
  {
    if |mine| > |other| {
      FoundEmbeds(mine, other, |other| + 1);
      EmbedsIffContained(mine[..|other| + 1], other);
    }
    if forall i | 0 <= i < |mine| - 1 :: mine[i] != mine[i + 1] {
      FoundWithin(mine, other);
    }
  }

  /** A sorted certificate never reads a slot beyond the other one's tuples. */
  lemma NoSlotBeyond(a: seq<Qualifier>, slots: seq<Qualifier>, n: nat)
    requires SortedIds(Ids(a)) && n <= |slots| && |a| <= |slots|
    ensures !ReadsBeyond(a, slots, n)
    ensures CodeAgrees(a, slots[..n]) <==> Compares(a, slots, n)
  {
    var mine, other := Ids(a), Ids(slots[..n]);
    FoundWithin(mine, other);
    FoundEmbeds(mine, other, |a|);
    assert mine[..|a|] == mine;
  }

  /** Two equal ids against one: the second value compared is not one of the other certificate's,
      and decides the answer. */
  lemma RepeatReadsBeyond(id: u64, value: u64, stale: u64)
    ensures var a, slots := [Qualifier(id, value, 0), Qualifier(id, value, 0)],
                            [Qualifier(id, value, 0), Qualifier(0, stale, 0)];
            && ReadsBeyond(a, slots, 1) && Documented(a, slots[..1])
            && (Compares(a, slots, 1) <==> stale == value)
  {
    var a, slots := [Qualifier(id, value, 0), Qualifier(id, value, 0)],
                    [Qualifier(id, value, 0), Qualifier(0, stale, 0)];
    var mine, other := Ids(a), Ids(slots[..1]);
    assert mine == [id, id] && other == [id];
    FoundEmbeds(mine, other, 2);
    assert mine[..2] == mine && mine[1..] == [id] && [id][1..] == [];
    assert Embeds(mine[1..], other) && Embeds([], other);
    hide Embeds, Found;
    assert a[..1][0] == a[0];
    assert slots[..1][0].id == id && Distance(value, slots[..1][0].value) == 0;
    assert Distance(a[1].value, slots[1].value) == 0 <==> stale == value;
  }

  lemma IdsSorted(q: seq<Qualifier>)
    requires Sorted(q)
    ensures SortedIds(Ids(q))
  {
  }

  // ------------------------------------------------------------------------
  // The certificate object

  /** The qualifiers are the sorted listing of a map from ids to values and deltas. */
  ghost predicate Lists(q: seq<Qualifier>, m: map<u64, (u64, u64)>)
  {
    && Sorted(q)
    && (forall i | 0 <= i < |q| :: q[i].id in m && m[q[i].id] == (q[i].value, q[i].maxDelta))
    && (forall x | x in m :: x in Ids(q))
  }

  lemma ReplacedInMap(q: seq<Qualifier>, i: nat, n: Qualifier, m: map<u64, (u64, u64)>)
    requires Lists(q, m) && i < |q| && q[i].id == n.id
    ensures n.id in m && Lists(q[i := n], m[n.id := (n.value, n.maxDelta)])
  {
    assert Ids(q[i := n]) == Ids(q);
  }

  lemma NotListed(q: seq<Qualifier>, m: map<u64, (u64, u64)>, id: u64)
    requires Lists(q, m) && forall k | 0 <= k < |q| :: q[k].id != id
    ensures id !in m && Sorted(q)
  {
  }

  lemma InsertedInMap(q: seq<Qualifier>, i: nat, n: Qualifier, m: map<u64, (u64, u64)>)
    requires Lists(q, m) && i <= |q| && (i > 0 ==> q[i - 1].id < n.id) && (i < |q| ==> n.id < q[i].id)
    ensures Lists(q[..i] + [n] + q[i..], m[n.id := (n.value, n.maxDelta)])
  {
    InsertedSorted(q, i, n);
    var r := q[..i] + [n] + q[i..];
    InsertedIds(q, i, n);
    forall k | 0 <= k < |r|
      ensures var w := m[n.id := (n.value, n.maxDelta)]; r[k].id in w && w[r[k].id] == (r[k].value, r[k].maxDelta)
    {
      if k != i {
        InsertedAt(q, i, n, k);
      }
    }
  }

  lemma InsertedAt(q: seq<Qualifier>, i: nat, n: Qualifier, k: nat)
    requires Sorted(q) && i <= |q| && (i > 0 ==> q[i - 1].id < n.id) && (i < |q| ==> n.id < q[i].id)
    requires k <= |q| && k != i
    ensures (q[..i] + [n] + q[i..])[k] == q[if k < i then k else k - 1]
    ensures q[if k < i then k else k - 1].id != n.id
  {
  }

  lemma InsertedIds(q: seq<Qualifier>, i: nat, n: Qualifier)
    requires i <= |q|
    ensures forall x | x == n.id || x in Ids(q) :: x in Ids(q[..i] + [n] + q[i..])
  {
    var r := q[..i] + [n] + q[i..];
    assert Ids(r)[i] == n.id;
    forall k | 0 <= k < |q|
      ensures Ids(q)[k] in Ids(r)
    {
      assert Ids(r)[if k < i then k else k + 1] == q[k].id;
    }
  }

  lemma InsertedSorted(q: seq<Qualifier>, i: nat, n: Qualifier)
    requires Sorted(q) && i <= |q| && (i > 0 ==> q[i - 1].id < n.id) && (i < |q| ==> n.id < q[i].id)
    ensures Sorted(q[..i] + [n] + q[i..])
  {
  }

  lemma Inserted(r: seq<Qualifier>, q: seq<Qualifier>, n: Qualifier, i: nat)
    requires i <= |q| && |r| == |q| + 1 && r[i] == n
    requires (forall k | 0 <= k < i :: r[k] == q[k]) && forall k | i < k < |r| :: r[k] == q[k - 1]
    ensures r == q[..i] + [n] + q[i..]
  {
  }

  class Certificate {
    var slots: array<Qualifier>
    var count: nat
    var signedBy: nat
    var signature: seq<byte>

    ghost predicate Valid()
      reads this, slots
    {
      slots.Length == MAX_QUALIFIERS && count <= MAX_QUALIFIERS && |signature| == SIGNATURE_LEN
    }

    ghost function Contents(): seq<Qualifier>
      requires Valid()
      reads this, slots
    {
      slots[..count]
    }

    constructor Empty()
      ensures Valid() && fresh(slots) && Contents() == [] && signedBy == 0
    {
      slots := new Qualifier[MAX_QUALIFIERS](_ => Qualifier(0, 0, 0));
      count, signedBy, signature := 0, 0, seq(SIGNATURE_LEN, _ => 0);
    }

    /** The fields common to all networks. */
    constructor ForMember(timestamp: u64, timestampMaxDelta: u64, nwid: u64, issuedTo: u64)
      ensures Valid() && fresh(slots) && Contents() == Required(timestamp, timestampMaxDelta, nwid, issuedTo)
              && signedBy == 0
    {
      slots := new Qualifier[MAX_QUALIFIERS](_ => Qualifier(0, 0, 0));
      count, signedBy, signature := 3, 0, seq(SIGNATURE_LEN, _ => 0);
      new;
      slots[0] := Qualifier(TIMESTAMP, timestamp, timestampMaxDelta);
      slots[1] := Qualifier(NETWORK_ID, nwid, 0);
      slots[2] := Qualifier(ISSUED_TO, issuedTo, 0xffff_ffff_ffff_ffff);
    }

    /** The sort after an append: moves the last tuple down to its place. */
    method SortLast() returns (ghost i: nat)
      requires Valid() && count > 0 && Sorted(slots[..count - 1])
      requires forall k | 0 <= k < count - 1 :: slots[k].id != slots[count - 1].id
      modifies slots
      ensures i <= count - 1
      ensures var q, n := old(slots[..count - 1]), old(slots[count - 1]);
              && Contents() == q[..i] + [n] + q[i..]
              && (i > 0 ==> q[i - 1].id < n.id) && (i < |q| ==> n.id < q[i].id)
    {
      hide Sorted;
      ghost var q := slots[..count - 1];
      var n := slots[count - 1];
      var j := count - 1;
      while j > 0 && n.id < slots[j - 1].id
        invariant 0 <= j <= count - 1
        invariant forall k | 0 <= k < j :: slots[k] == q[k]
        invariant forall k | j < k < count :: slots[k] == q[k - 1]
        invariant j < count - 1 ==> n.id < q[j].id
      {
        slots[j] := slots[j - 1];
        j := j - 1;
      }
      slots[j] := n;
      i := j;
      Inserted(slots[..count], q, n, i);
    }

    /** Adds or replaces a tuple; a full certificate takes no new id. Any signature is dropped. */
    method SetQualifier(id: u64, value: u64, maxDelta: u64, ghost m: map<u64, (u64, u64)>)
      requires Valid() && Lists(Contents(), m)
      modifies this, slots
      ensures Valid() && slots == old(slots) && signedBy == 0
      ensures Lists(Contents(), if id in m || old(count) < MAX_QUALIFIERS then m[id := (value, maxDelta)] else m)
    {
      hide Lists, Sorted;
      signedBy := 0;
      ghost var q := slots[..count];
      var n := Qualifier(id, value, maxDelta);
      var i := 0;
      while i < count
        invariant 0 <= i <= count == |q| && Valid() && slots == old(slots) && slots[..count] == q && signedBy == 0
        invariant forall k | 0 <= k < i :: q[k].id != id
      {
        if slots[i].id == id {
          slots[i] := n;
          assert slots[..count] == q[i := n];
          ReplacedInMap(q, i, n, m);
          return;
        }
        i := i + 1;
      }
      NotListed(q, m, id);
      if count < MAX_QUALIFIERS {
        slots[count] := n;
        count := count + 1;
        assert slots[..count - 1] == q;
        ghost var at := SortLast();
        InsertedInMap(q, at, n, m);
      }
    }

    /** True when no field of mine is missing and the positional comparison stays within my deltas. */
    method AgreesWith(other: Certificate) returns (agree: bool)
      requires Valid() && other.Valid()
      ensures agree <==> Compares(Contents(), other.slots[..], other.count)
      ensures Sorted(Contents()) ==> (agree <==> CodeAgrees(Contents(), other.Contents()))
    {
      hide Embeds, Distance, Positional;
      if Sorted(Contents()) {
        IdsSorted(Contents());
        NoSlotBeyond(Contents(), other.slots[..], other.count);
        assert other.slots[..][..other.count] == other.Contents();
      }
      ghost var compared;
      agree, compared := Scan(other);
    }

    /** The two nested loops of the comparison, and how many slots of the other one they compare:
        slot j exactly when my first j + 1 ids are found and the first j values agree. */
    method Scan(other: Certificate) returns (agree: bool, ghost compared: nat)
      requires Valid() && other.Valid()
      ensures agree <==> Compares(Contents(), other.slots[..], other.count)
      ensures ComparedUpTo(Contents(), other.slots[..], other.count, compared)
      ensures other.count < compared <==> ReadsBeyond(Contents(), other.slots[..], other.count)
    {
      hide Embeds, Found, Distance, Compares, ComparedUpTo, ReadsBeyond;
      var myidx, otheridx := 0, 0;
      ghost var a, b := Contents(), other.slots[..];
      ghost var mine, theirs := Ids(a), Ids(b[..other.count]);
      assert mine[0..] == mine && theirs[0..] == theirs;
      if count == 0 || other.count == 0 {
        FoundStep(mine, theirs, 0, 0);
        NothingCompared(a, b, other.count);
        return false, 0;
      }
      while myidx < count
        invariant 0 <= myidx <= count && 0 <= otheridx <= other.count
        invariant Found(mine, theirs) == myidx + Found(mine[myidx..], theirs[otheridx..])
        invariant Positional(a[..myidx], b)
      {
        FoundStep(mine, theirs, myidx, otheridx);
        if otheridx >= other.count {
          RanOff(a, b, other.count, myidx);
          return false, myidx;
        }
        while other.slots[otheridx].id != slots[myidx].id
          invariant 0 <= otheridx < other.count
          invariant Found(mine, theirs) == myidx + Found(mine[myidx..], theirs[otheridx..])
          decreases other.count - otheridx
        {
          FoundStep(mine, theirs, myidx, otheridx);
          otheridx := otheridx + 1;
          if otheridx >= other.count {
            FoundStep(mine, theirs, myidx, otheridx);
            RanOff(a, b, other.count, myidx);
            return false, myidx;
          }
        }
        FoundStep(mine, theirs, myidx, otheridx);
        if Distance(slots[myidx].value, other.slots[myidx].value) > slots[myidx].maxDelta {
          Differed(a, b, other.count, myidx);
          return false, myidx + 1;
        }
        myidx := myidx + 1;
      }
      FoundStep(mine, theirs, myidx, otheridx);
      RanOff(a, b, other.count, myidx);
      return true, myidx;
    }
  }

  lemma FoundStep(mine: seq<u64>, other: seq<u64>, i: nat, k: nat)
    requires i <= |mine| && k <= |other|
    ensures i == |mine| || k == |other| ==> Found(mine[i..], other[k..]) == 0
    ensures i < |mine| && k < |other| && other[k] == mine[i]
            ==> Found(mine[i..], other[k..]) == 1 + Found(mine[i + 1..], other[k..])
    ensures i < |mine| && k < |other| && other[k] != mine[i]
            ==> Found(mine[i..], other[k..]) == Found(mine[i..], other[k + 1..])
  {
    if i < |mine| && k < |other| {
      assert mine[i..][1..] == mine[i + 1..] && other[k..][1..] == other[k + 1..];
    }
  }

  function Required(timestamp: u64, timestampMaxDelta: u64, nwid: u64, issuedTo: u64): seq<Qualifier>
  {
    [Qualifier(TIMESTAMP, timestamp, timestampMaxDelta), Qualifier(NETWORK_ID, nwid, 0),
     Qualifier(ISSUED_TO, issuedTo, 0xffff_ffff_ffff_ffff)]
  }

  /** Certificates as the controller makes them agree exactly when they are for one network and
      their timestamps are within the first one's delta, whoever they are issued to. */
  lemma RequiredAgreement(ts: u64, delta: u64, nwid: u64, to: u64, ts': u64, delta': u64, nwid': u64, to': u64)
    ensures var a, b := Required(ts, delta, nwid, to), Required(ts', delta', nwid', to');
            && Sorted(a) && Sorted(b)
            && (CodeAgrees(a, b) <==> Documented(a, b))
            && (CodeAgrees(a, b) <==> nwid == nwid' && Distance(ts, ts') <= delta)
  {
    var a, b := Required(ts, delta, nwid, to), Required(ts', delta', nwid', to');
    RequiredIds(ts, delta, nwid, to);
    RequiredIds(ts', delta', nwid', to');
    RequiredPositional(ts, delta, nwid, to, ts', delta', nwid', to');
    hide Documented, Embeds, Positional, Required, Sorted, SortedIds, InPlace, ReadsBeyond;
    assert b[..3] == b && Ids(a)[0..] == Ids(a);
    InPlaceIffPrefix(Ids(a), Ids(b));
    InPlaceEmbeds(Ids(a), Ids(b), 0);
    InPlaceDecides(a, b, 3);
    NoSlotBeyond(a, b, 3);
  }

  lemma RequiredIds(ts: u64, delta: u64, nwid: u64, to: u64)
    ensures var a := Required(ts, delta, nwid, to); Sorted(a) && SortedIds(Ids(a)) && Ids(a) == [0, 1, 2]
  {
  }

  lemma RequiredPositional(ts: u64, delta: u64, nwid: u64, to: u64, ts': u64, delta': u64, nwid': u64, to': u64)
    ensures Positional(Required(ts, delta, nwid, to), Required(ts', delta', nwid', to'))
            <==> nwid == nwid' && Distance(ts, ts') <= delta
  {
    var a, b := Required(ts, delta, nwid, to), Required(ts', delta', nwid', to');
    if Positional(a, b) {
      assert Distance(a[0].value, b[0].value) <= a[0].maxDelta && Distance(a[1].value, b[1].value) <= a[1].maxDelta;
    }
  }
}
