/** The wire format of certificates of membership. */
module MembershipCodec {
  import opened Words
  import opened Options
  import opened Limbs
  import opened Buffers
  import opened Identities
  import opened Membership

  /** A certificate as it is sent; without a signer there is no signature. */
  datatype Sent = Sent(qualifiers: seq<Qualifier>, signedBy: nat, signature: seq<byte>)

  /** Ids may repeat but not descend. */
  predicate InOrder(q: seq<Qualifier>)
  {
    forall i, j | 0 <= i < j < |q| :: q[i].id <= q[j].id
  }

  lemma InOrderIffOrdered(q: seq<Qualifier>)
    ensures InOrder(q) <==> Ordered(Ids(q))
  {
    if Ordered(Ids(q)) {
      forall i, j | 0 <= i < j < |q|
        ensures q[i].id <= q[j].id
      {
        assert Ids(q)[i] <= Ids(q)[j];
      }
    }
  }

  predicate WellFormed(c: Sent)
  {
    && InOrder(c.qualifiers) && |c.qualifiers| <= MAX_QUALIFIERS && c.signedBy < 0x100_0000_0000
    && |c.signature| == if c.signedBy == 0 then 0 else SIGNATURE_LEN
  }

  function TupleBytes(q: Qualifier): seq<byte>
  {
    Big(q.id, 8) + (Big(q.value, 8) + Big(q.maxDelta, 8))
  }

  function TuplesBytes(q: seq<Qualifier>): seq<byte>
  {
    if |q| == 0 then [] else TupleBytes(q[0]) + TuplesBytes(q[1..])
  }

  function CertificateBytes(c: Sent): seq<byte>
  {
    Big(1, 1) + (Big(|c.qualifiers|, 2) + (TuplesBytes(c.qualifiers) + (Big(c.signedBy, 5) + c.signature)))
  }

  /** `n` tuples with ids no smaller than `last`, as far as there is room. */
  function ReadTuples(b: seq<byte>, p: nat, n: nat, last: nat, room: nat): Option<seq<Qualifier>>
    decreases n
  {
    if n == 0 then Some([])
    else
      var id, value, delta := ReadInt(b, p, 8), ReadInt(b, p + 8, 8), ReadInt(b, p + 16, 8);
      if id == None || id.value < last || room == 0 || value == None || delta == None then None
      else
        Widths(b, p);
        var rest := ReadTuples(b, p + 24, n - 1, id.value, room - 1);
        if rest == None then None else Some([Qualifier(id.value, value.value, delta.value)] + rest.value)
  }

  lemma Widths(b: seq<byte>, p: nat)
    ensures ReadInt(b, p, 8).Some? ==> ReadInt(b, p, 8).value < U64
    ensures ReadInt(b, p + 8, 8).Some? ==> ReadInt(b, p + 8, 8).value < U64
    ensures ReadInt(b, p + 16, 8).Some? ==> ReadInt(b, p + 16, 8).value < U64
  {
    Sizes();
    WidthAt(b, p);
    WidthAt(b, p + 8);
    WidthAt(b, p + 16);
  }

  lemma WidthAt(b: seq<byte>, p: nat)
    ensures ReadInt(b, p, 8).Some? ==> ReadInt(b, p, 8).value < U64
  {
    hide Number, Pow256;
    Sizes();
    if p + 8 <= |b| {
      NumberBound(b[p..p + 8]);
    }
  }

  function ReadCertificate(b: seq<byte>, start: nat): Option<(Sent, nat)>
  {
    var version, count := ReadInt(b, start, 1), ReadInt(b, start + 1, 2);
    if version != Some(1) || count == None then None
    else
      var q := ReadTuples(b, start + 3, count.value, 0, MAX_QUALIFIERS);
      var p := start + 3 + 24 * count.value;
      var signer := ReadInt(b, p, 5);
      if q == None || signer == None then None
      else if signer.value == 0 then Some((Sent(q.value, 0, []), p + 5 - start))
      else
        var signature := ReadBytes(b, p + 5, SIGNATURE_LEN);
        if signature == None then None
        else Some((Sent(q.value, signer.value, signature.value), p + 5 + SIGNATURE_LEN - start))
  }

  lemma TupleBack(b: seq<byte>, p: nat, q: Qualifier)
    requires At(b, p, TupleBytes(q))
    ensures ReadInt(b, p, 8) == Some(q.id) && ReadInt(b, p + 8, 8) == Some(q.value)
            && ReadInt(b, p + 16, 8) == Some(q.maxDelta)
    ensures |TupleBytes(q)| == 24
  {
    hide Big, Number, Pow256;
    Sizes();
    AtSplit(b, p, Big(q.id, 8), Big(q.value, 8) + Big(q.maxDelta, 8));
    AtSplit(b, p + 8, Big(q.value, 8), Big(q.maxDelta, 8));
    ReadBack(b, p, q.id, 8);
    ReadBack(b, p + 8, q.value, 8);
    ReadBack(b, p + 16, q.maxDelta, 8);
  }

  lemma {:induction false} TuplesBack(b: seq<byte>, p: nat, q: seq<Qualifier>, last: nat, room: nat)
    requires InOrder(q) && |q| <= room && (|q| > 0 ==> last <= q[0].id) && At(b, p, TuplesBytes(q))
    ensures ReadTuples(b, p, |q|, last, room) == Some(q) && |TuplesBytes(q)| == 24 * |q|
    decreases |q|
  {
    hide TupleBytes, ReadInt, At;
    if |q| > 0 {
      AtSplit(b, p, TupleBytes(q[0]), TuplesBytes(q[1..]));
      TupleBack(b, p, q[0]);
      TuplesBack(b, p + 24, q[1..], q[0].id, room - 1);
      assert q == [q[0]] + q[1..];
    }
  }

  lemma CertificateBack(b: seq<byte>, p: nat, c: Sent)
    requires WellFormed(c) && At(b, p, CertificateBytes(c))
    ensures ReadCertificate(b, p) == Some((c, |CertificateBytes(c)|))
  {
    hide Big, Number, Pow256, ReadTuples, TuplesBytes, InOrder;
    Sizes();
    var q := c.qualifiers;
    var tail := Big(c.signedBy, 5) + c.signature;
    AtSplit(b, p, Big(1, 1), Big(|q|, 2) + (TuplesBytes(q) + tail));
    AtSplit(b, p + 1, Big(|q|, 2), TuplesBytes(q) + tail);
    AtSplit(b, p + 3, TuplesBytes(q), tail);
    TuplesBack(b, p + 3, q, 0, MAX_QUALIFIERS);
    var s := p + 3 + 24 * |q|;
    AtSplit(b, s, Big(c.signedBy, 5), c.signature);
    ReadBack(b, p, 1, 1);
    ReadBack(b, p + 1, |q|, 2);
    ReadBack(b, s, c.signedBy, 5);
    if c.signedBy != 0 {
      assert ReadBytes(b, s + 5, SIGNATURE_LEN) == Some(c.signature);
    } else {
      assert c.signature == [];
    }
  }

  /** A well formed certificate is accepted and reproduced, at any position and whatever follows. */
  lemma CertificateRoundTrip(before: seq<byte>, c: Sent, after: seq<byte>)
    requires WellFormed(c)
    ensures ReadCertificate(before + CertificateBytes(c) + after, |before|) == Some((c, |CertificateBytes(c)|))
  {
    hide CertificateBytes, ReadCertificate, WellFormed;
    var b := before + CertificateBytes(c) + after;
    assert At(b, |before|, CertificateBytes(c));
    CertificateBack(b, |before|, c);
  }

  /** Whatever tuples are accepted stand there as they would be sent, in order of id. */
  lemma {:induction false} AcceptedTuples(b: seq<byte>, p: nat, n: nat, last: nat, room: nat)
    requires p <= |b| && ReadTuples(b, p, n, last, room).Some?
    ensures var q := ReadTuples(b, p, n, last, room).value;
            && |q| == n <= room && InOrder(q) && (forall i | 0 <= i < |q| :: last <= q[i].id)
            && |TuplesBytes(q)| == 24 * n && At(b, p, TuplesBytes(q))
    decreases n
  {
    hide At, TupleBytes, ReadInt;
    if n > 0 {
      TupleAt(b, p);
      TupleFits(b, p);
      var first := Qualifier(ReadInt(b, p, 8).value, ReadInt(b, p + 8, 8).value, ReadInt(b, p + 16, 8).value);
      AcceptedTuples(b, p + 24, n - 1, first.id, room - 1);
      var rest := ReadTuples(b, p + 24, n - 1, first.id, room - 1).value;
      assert ([first] + rest)[1..] == rest;
      AtJoin(b, p, TupleBytes(first), TuplesBytes(rest));
    } else {
      NothingAt(b, p);
    }
  }

  lemma NothingAt(b: seq<byte>, p: nat)
    requires p <= |b|
    ensures At(b, p, [])
  {
  }

  lemma TupleFits(b: seq<byte>, p: nat)
    requires ReadInt(b, p + 16, 8).Some?
    ensures p + 24 <= |b|
  {
  }

  lemma TupleAt(b: seq<byte>, p: nat)
    requires ReadInt(b, p, 8).Some? && ReadInt(b, p + 8, 8).Some? && ReadInt(b, p + 16, 8).Some?
    ensures var id, value, delta := ReadInt(b, p, 8).value, ReadInt(b, p + 8, 8).value, ReadInt(b, p + 16, 8).value;
            && id < U64 && value < U64 && delta < U64
            && |TupleBytes(Qualifier(id, value, delta))| == 24 && At(b, p, TupleBytes(Qualifier(id, value, delta)))
  {
    hide At, Big, ReadInt;
    Widths(b, p);
    ReadAt(b, p, 8);
    ReadAt(b, p + 8, 8);
    ReadAt(b, p + 16, 8);
    var id, value, delta := ReadInt(b, p, 8).value, ReadInt(b, p + 8, 8).value, ReadInt(b, p + 16, 8).value;
    AtJoin(b, p + 8, Big(value, 8), Big(delta, 8));
    AtJoin(b, p, Big(id, 8), Big(value, 8) + Big(delta, 8));
  }

  /** Whatever is accepted is well formed, and stands there exactly as it would be sent. */
  lemma AcceptedAt(b: seq<byte>, p: nat)
    requires ReadCertificate(b, p).Some?
    ensures var (c, n) := ReadCertificate(b, p).value;
            WellFormed(c) && n == |CertificateBytes(c)| && At(b, p, CertificateBytes(c))
  {
    hide Big, ReadTuples, TuplesBytes, InOrder, At, Pow256, ReadInt, ReadBytes;
    var n := ReadInt(b, p + 1, 2).value;
    var q := ReadTuples(b, p + 3, n, 0, MAX_QUALIFIERS).value;
    var s := p + 3 + 24 * n;
    var tail := Big(ReadInt(b, s, 5).value, 5) + ReadCertificate(b, p).value.0.signature;
    ReadFits(b, p + 1, 2);
    AcceptedTuples(b, p + 3, n, 0, MAX_QUALIFIERS);
    TailAt(b, s);
    ReadAt(b, p, 1);
    ReadAt(b, p + 1, 2);
    AtJoin(b, p + 3, TuplesBytes(q), tail);
    AtJoin(b, p + 1, Big(n, 2), TuplesBytes(q) + tail);
    AtJoin(b, p, Big(1, 1), Big(n, 2) + (TuplesBytes(q) + tail));
  }

  lemma ReadFits(b: seq<byte>, p: nat, n: nat)
    requires ReadInt(b, p, n).Some?
    ensures p + n <= |b|
  {
  }

  /** The signer and, if there is one, the signature. */
  lemma TailAt(b: seq<byte>, s: nat)
    requires ReadInt(b, s, 5).Some?
    requires ReadInt(b, s, 5).value != 0 ==> ReadBytes(b, s + 5, SIGNATURE_LEN).Some?
    ensures var signer := ReadInt(b, s, 5).value;
            var signature := if signer == 0 then [] else ReadBytes(b, s + 5, SIGNATURE_LEN).value;
            && signer < 0x100_0000_0000 && |signature| == (if signer == 0 then 0 else SIGNATURE_LEN)
            && At(b, s, Big(signer, 5) + signature)
  {
    hide Big, At, Pow256, ReadInt;
    Sizes();
    ReadFits(b, s, 5);
    ReadAt(b, s, 5);
    var signer := ReadInt(b, s, 5).value;
    SignatureAt(b, s + 5, signer);
    AtJoin(b, s, Big(signer, 5), if signer == 0 then [] else ReadBytes(b, s + 5, SIGNATURE_LEN).value);
  }

  lemma SignatureAt(b: seq<byte>, p: nat, signer: nat)
    requires p <= |b| && (signer != 0 ==> ReadBytes(b, p, SIGNATURE_LEN).Some?)
    ensures At(b, p, if signer == 0 then [] else ReadBytes(b, p, SIGNATURE_LEN).value)
  {
  }

  /** The format is canonical: exactly the bytes of a well formed certificate are read as it. */
  lemma CertificateReadIff(b: seq<byte>, p: nat, c: Sent, n: nat)
    ensures ReadCertificate(b, p) == Some((c, n))
            <==> WellFormed(c) && At(b, p, CertificateBytes(c)) && n == |CertificateBytes(c)|
  {
    hide CertificateBytes, ReadCertificate, WellFormed, At;
    if ReadCertificate(b, p) == Some((c, n)) {
      AcceptedAt(b, p);
    }
    if WellFormed(c) && At(b, p, CertificateBytes(c)) {
      CertificateBack(b, p, c);
    }
  }

  /** What a certificate object sends. */
  ghost function SentBy(c: Certificate): Sent
    requires c.Valid()
    reads c, c.slots
  {
    Sent(c.Contents(), c.signedBy, if c.signedBy == 0 then [] else c.signature)
  }

  /** `serialize` of a certificate object. */
  method Serialize(c: Certificate, buffer: Buffer) returns (ok: bool)
    requires c.Valid() && buffer.Valid()
    modifies buffer
    ensures buffer.Valid() && ok == (|old(buffer.data)| + |CertificateBytes(SentBy(c))| <= buffer.capacity)
    ensures ok ==> buffer.data == old(buffer.data) + CertificateBytes(SentBy(c))
  {
    hide Big, TuplesBytes;
    ghost var start, sent, q := buffer.data, SentBy(c), c.Contents();
    ok := buffer.AppendInt(1, 1);
    if !ok { return; }
    ok := buffer.AppendInt(c.count, 2);
    if !ok { return; }
    ok := SerializeTuples(c, buffer);
    if !ok { return; }
    ok := buffer.AppendInt(c.signedBy, 5);
    if !ok { return; }
    if c.signedBy != 0 {
      ok := buffer.Append(c.signature);
    }
    Regroup(start, Big(1, 1), Big(|q|, 2), TuplesBytes(q), Big(c.signedBy, 5), sent.signature);
  }

  /** The tuple loop of `serialize`. */
  method SerializeTuples(c: Certificate, buffer: Buffer) returns (ok: bool)
    requires c.Valid() && buffer.Valid()
    modifies buffer
    ensures buffer.Valid() && ok == (|old(buffer.data)| + |TuplesBytes(c.Contents())| <= buffer.capacity)
    ensures ok ==> buffer.data == old(buffer.data) + TuplesBytes(c.Contents())
  {
    hide TupleBytes;
    ghost var head, q := buffer.data, c.Contents();
    assert q[0..] == q;
    var i := 0;
    while i < c.count
      invariant 0 <= i <= c.count && buffer.Valid()
      invariant buffer.data + TuplesBytes(q[i..]) == head + TuplesBytes(q)
    {
      assert q[i..][0] == c.slots[i] && q[i..][1..] == q[i + 1..];
      ghost var before := buffer.data;
      ok := buffer.Append(TupleBytes(c.slots[i]));
      if !ok {
        assert |head + TuplesBytes(q)| == |before + TuplesBytes(q[i..])|;
        return;
      }
      assert before + (TupleBytes(c.slots[i]) + TuplesBytes(q[i + 1..])) == buffer.data + TuplesBytes(q[i + 1..]);
      i := i + 1;
    }
    assert q[i..] == [] && buffer.data + [] == buffer.data;
    ok := true;
  }

  lemma Regroup(s: seq<byte>, a: seq<byte>, b: seq<byte>, c: seq<byte>, d: seq<byte>, e: seq<byte>)
    ensures s + a + b + c + d + e == s + (a + (b + (c + (d + e))))
  {
  }

  function Prepend(q: seq<Qualifier>, r: Option<seq<Qualifier>>): Option<seq<Qualifier>>
  {
    if r == None then None else Some(q + r.value)
  }

  lemma PrependOne(q: seq<Qualifier>, one: Qualifier, r: Option<seq<Qualifier>>)
    ensures Prepend(q, Prepend([one], r)) == Prepend(q + [one], r) && Prepend([], r) == r
  {
    if r.Some? {
      assert q + ([one] + r.value) == q + [one] + r.value && [] + r.value == r.value;
    }
  }

  lemma ReadStep(b: seq<byte>, p: nat, n: nat, last: nat, room: nat)
    requires n > 0
    ensures var id, value, delta := ReadInt(b, p, 8), ReadInt(b, p + 8, 8), ReadInt(b, p + 16, 8);
            if id == None || id.value < last || room == 0 || value == None || delta == None
            then ReadTuples(b, p, n, last, room) == None
            else && id.value < U64 && value.value < U64 && delta.value < U64
                 && ReadTuples(b, p, n, last, room)
                    == Prepend([Qualifier(id.value, value.value, delta.value)],
                               ReadTuples(b, p + 24, n - 1, id.value, room - 1))
  {
    hide ReadInt;
    Widths(b, p);
  }

  /** The tuple loop of `deserialize`. */
  method DeserializeTuples(c: Certificate, b: seq<byte>, start: nat, numq: nat) returns (ok: bool)
    requires c.Valid() && c.count == 0
    modifies c`count, c.slots
    ensures ok <==> ReadTuples(b, start, numq, 0, MAX_QUALIFIERS).Some?
    ensures ok ==> c.Valid() && Some(c.Contents()) == ReadTuples(b, start, numq, 0, MAX_QUALIFIERS)
  {
    hide ReadTuples, ReadInt;
    var p: nat, lastId: nat, i := start, 0, 0;
    PrependOne([], Qualifier(0, 0, 0), ReadTuples(b, start, numq, 0, MAX_QUALIFIERS));
    while i < numq
      invariant 0 <= i <= numq && c.count == i <= MAX_QUALIFIERS && p == start + 24 * i
      invariant c.slots == old(c.slots) && c.slots.Length == MAX_QUALIFIERS
      invariant ReadTuples(b, start, numq, 0, MAX_QUALIFIERS)
                == Prepend(c.slots[..i], ReadTuples(b, p, numq - i, lastId, MAX_QUALIFIERS - i))
    {
      ReadStep(b, p, numq - i, lastId, MAX_QUALIFIERS - i);
      var qid := ReadInt(b, p, 8);
      if qid == None || qid.value < lastId {
        return false;
      }
      if c.count >= MAX_QUALIFIERS {
        return false;
      }
      var value, delta := ReadInt(b, p + 8, 8), ReadInt(b, p + 16, 8);
      if value == None || delta == None {
        return false;
      }
      lastId := qid.value;
      ghost var done := c.slots[..i];
      c.slots[c.count] := Qualifier(qid.value, value.value, delta.value);
      PrependOne(done, c.slots[i], ReadTuples(b, p + 24, numq - i - 1, lastId, MAX_QUALIFIERS - i - 1));
      assert c.slots[..i + 1] == done + [c.slots[i]];
      p := p + 24;
      c.count := c.count + 1;
      i := i + 1;
    }
    ReadNone(b, p, lastId, MAX_QUALIFIERS - i);
    assert c.slots[..i] + [] == c.slots[..i];
    ok := true;
  }

  lemma ReadNone(b: seq<byte>, p: nat, last: nat, room: nat)
    ensures ReadTuples(b, p, 0, last, room) == Some([])
  {
  }

  /** `deserialize`: the certificate read, or failure; a certificate without signer keeps no signature. */
  method Deserialize(c: Certificate, b: seq<byte>, start: nat) returns (len: Option<nat>)
    requires c.Valid()
    modifies c, c.slots
    ensures len.Some? <==> ReadCertificate(b, start).Some?
    ensures len.Some? ==>
              var (sent, n) := ReadCertificate(b, start).value;
              len.value == n && c.Valid() && SentBy(c) == sent
  {
    hide ReadTuples, ReadInt;
    c.count, c.signedBy := 0, 0;
    if ReadInt(b, start, 1) != Some(1) {
      return None;
    }
    var numq := ReadInt(b, start + 1, 2);
    if numq == None {
      return None;
    }
    var ok := DeserializeTuples(c, b, start + 3, numq.value);
    if !ok {
      return None;
    }
    var p := start + 3 + 24 * numq.value;
    var signer := ReadInt(b, p, 5);
    if signer == None {
      return None;
    }
    c.signedBy := signer.value;
    if signer.value == 0 {
      return Some(p + 5 - start);
    }
    var signature := ReadBytes(b, p + 5, SIGNATURE_LEN);
    if signature == None {
      return None;
    }
    c.signature := signature.value;
    return Some(p + 5 + SIGNATURE_LEN - start);
  }
}
