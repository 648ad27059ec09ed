/** Signing certificates of membership and verifying them on the other side of the wire. */
module MembershipSigning {
  import opened Words
  import opened Options
  import opened Limbs
  import opened Identities
  import opened Buffers
  import opened Membership
  import opened MembershipCodec

  /** `networkId()`: the first tuple with that id. */
  function NetworkIdOf(q: seq<Qualifier>): u64
  {
    if |q| == 0 then 0 else if q[0].id == NETWORK_ID then q[0].value else NetworkIdOf(q[1..])
  }

  method NetworkId(c: Certificate) returns (nwid: u64)
    requires c.Valid()
    ensures nwid == NetworkIdOf(c.Contents())
  {
    ghost var q := c.Contents();
    assert q[0..] == q;
    var i := 0;
    while i < c.count
      invariant 0 <= i <= c.count && NetworkIdOf(q) == NetworkIdOf(q[i..])
    {
      assert q[i..][0] == c.slots[i] && q[i..][1..] == q[i + 1..];
      if c.slots[i].id == NETWORK_ID {
        return c.slots[i].value;
      }
      i := i + 1;
    }
    return 0;
  }

  /** Value and largest difference of the first tuple with an id, zero without one. */
  function ValueOf(q: seq<Qualifier>, id: u64): (u64, u64)
  {
    if |q| == 0 then (0, 0) else if q[0].id == id then (q[0].value, q[0].maxDelta) else ValueOf(q[1..], id)
  }

  method Value(c: Certificate, id: u64) returns (value: u64, maxDelta: u64)
    requires c.Valid()
    ensures (value, maxDelta) == ValueOf(c.Contents(), id)
  {
    ghost var q := c.Contents();
    assert q[0..] == q;
    var i := 0;
    while i < c.count
      invariant 0 <= i <= c.count && ValueOf(q, id) == ValueOf(q[i..], id)
    {
      assert q[i..][0] == c.slots[i] && q[i..][1..] == q[i + 1..];
      if c.slots[i].id == id {
        return c.slots[i].value, c.slots[i].maxDelta;
      }
      i := i + 1;
    }
    return 0, 0;
  }

  /** `timestamp`, `networkId` and `issuedTo`: the reserved tuples, the last as an address of 40 bits. */
  method Reserved(c: Certificate) returns (timestamp: u64, maxDelta: u64, nwid: u64, holder: nat)
    requires c.Valid()
    ensures (timestamp, maxDelta) == ValueOf(c.Contents(), 0) && nwid == NetworkIdOf(c.Contents())
    ensures holder == ValueOf(c.Contents(), 2).0 % 0x100_0000_0000
  {
    hide ValueOf, NetworkIdOf;
    timestamp, maxDelta := Value(c, TIMESTAMP);
    nwid := NetworkId(c);
    var to, _ := Value(c, ISSUED_TO);
    holder := to % 0x100_0000_0000;
  }

  /** A certificate as the controller makes it says when, for which network and to whom it was issued. */
  lemma RequiredSays(timestamp: u64, delta: u64, nwid: u64, issuedTo: u64)
    ensures var q := Required(timestamp, delta, nwid, issuedTo);
            ValueOf(q, 0) == (timestamp, delta) && NetworkIdOf(q) == nwid && ValueOf(q, 2).0 == issuedTo
  {
    var q := Required(timestamp, delta, nwid, issuedTo);
    assert q[1..][0] == q[1] && q[1..][1..] == q[2..] && q[2..][0] == q[2];
    assert ValueOf(q, 2) == ValueOf(q[1..], 2) && ValueOf(q[1..], 2) == ValueOf(q[2..], 2);
  }

  /** Reading a field looks it up in the map that the tuples list. */
  lemma {:induction false} ValueInMap(q: seq<Qualifier>, m: map<u64, (u64, u64)>, id: u64)
    requires Lists(q, m)
    ensures ValueOf(q, id) == if id in m then m[id] else (0, 0)
  {
    if id in m {
      var k :| 0 <= k < |q| && Ids(q)[k] == id;
      ValueAt(q, id, k);
    } else {
      ValueNowhere(q, id);
    }
  }

  lemma {:induction false} ValueAt(q: seq<Qualifier>, id: u64, k: nat)
    requires Sorted(q) && k < |q| && q[k].id == id
    ensures ValueOf(q, id) == (q[k].value, q[k].maxDelta)
  {
    if k > 0 {
      ValueAt(q[1..], id, k - 1);
    }
  }

  lemma {:induction false} ValueNowhere(q: seq<Qualifier>, id: u64)
    requires forall k | 0 <= k < |q| :: q[k].id != id
    ensures ValueOf(q, id) == (0, 0)
  {
    if |q| > 0 {
      ValueNowhere(q[1..], id);
    }
  }

  /** The bytes that are signed are those of the tuples on the wire. */
  method SignedWords(c: Certificate) returns (buf: seq<byte>)
    requires c.Valid()
    ensures buf == TuplesBytes(c.Contents())
  {
    hide TupleBytes;
    ghost var q := c.Contents();
    buf := [];
    assert q[0..] == q;
    var i := 0;
    while i < c.count
      invariant 0 <= i <= c.count && buf + TuplesBytes(q[i..]) == TuplesBytes(q)
    {
      assert q[i..][0] == c.slots[i] && q[i..][1..] == q[i + 1..];
      assert buf + (TupleBytes(c.slots[i]) + TuplesBytes(q[i + 1..]))
             == buf + TupleBytes(c.slots[i]) + TuplesBytes(q[i + 1..]);
      buf := buf + TupleBytes(c.slots[i]);
      i := i + 1;
    }
    assert q[i..] == [] && buf + [] == buf;
  }

  /** `sign`: without the secret key the certificate ends up unsigned. */
  method Sign(c: Certificate, d: Directory, with: nat, secret: bool) returns (ok: bool)
    requires c.Valid()
    modifies c`signedBy, c`signature
    ensures c.Valid() && ok == secret && c.Contents() == old(c.Contents())
    ensures c.signedBy == if secret then with else 0
    ensures c.signature == if secret then d.sign(with, TuplesBytes(c.Contents())) else old(c.signature)
  {
    hide TuplesBytes;
    var buf := SignedWords(c);
    if !secret {
      c.signedBy := 0;
      return false;
    }
    c.signature := d.sign(with, buf);
    c.signedBy := with;
    return true;
  }

  /** Zero for a certificate that the network's controller signed, 1 while that identity is missing
      and -1 for a bad one. */
  function Verdict(d: Directory, c: Sent): int
  {
    if c.signedBy == 0 || c.signedBy != ControllerFor(NetworkIdOf(c.qualifiers)) then -1
    else if !d.known(c.signedBy) then 1
    else if d.verify(c.signedBy, TuplesBytes(c.qualifiers), c.signature) then 0
    else -1
  }

  /** Only the controller of the network named inside counts, and only then is its identity asked for. */
  lemma VerdictIff(d: Directory, c: Sent, a: nat, n: nat)
    requires a < 0x100_0000_0000 && n < 0x100_0000 && NetworkIdOf(c.qualifiers) == a * 0x100_0000 + n
    ensures Verdict(d, c) == 1 <==> c.signedBy == a != 0 && !d.known(a)
    ensures Verdict(d, c) == 0 <==> && c.signedBy == a != 0 && d.known(a)
                                    && d.verify(a, TuplesBytes(c.qualifiers), c.signature)
    ensures Verdict(d, c) != 0 && Verdict(d, c) != 1 ==> Verdict(d, c) == -1
  {
    hide TuplesBytes, NetworkIdOf, ControllerFor;
    ControllerOf(a, n);
  }

  method Verify(c: Certificate, d: Directory) returns (r: int)
    requires c.Valid()
    ensures r == Verdict(d, SentBy(c))
  {
    hide TuplesBytes, NetworkIdOf, ControllerFor;
    var nwid := NetworkId(c);
    if c.signedBy == 0 || c.signedBy != ControllerFor(nwid) || c.count > MAX_QUALIFIERS {
      return -1;
    }
    if !d.known(c.signedBy) {
      return 1;
    }
    var buf := SignedWords(c);
    return if d.verify(c.signedBy, buf, c.signature) then 0 else -1;
  }

  // ------------------------------------------------------------------------
  // Over the wire

  /** What is signed determines the tuples. */
  lemma {:induction false} SignedBytesInjective(q: seq<Qualifier>, r: seq<Qualifier>)
    requires TuplesBytes(q) == TuplesBytes(r)
    ensures q == r
  {
    hide TupleBytes;
    if |q| > 0 {
      TupleWidth(q[0]);
    }
    if |r| > 0 {
      TupleWidth(r[0]);
    }
    if |q| > 0 && |r| > 0 {
      var s, t := TuplesBytes(q[1..]), TuplesBytes(r[1..]);
      assert TupleBytes(q[0]) == (TupleBytes(q[0]) + s)[..24] && TupleBytes(r[0]) == (TupleBytes(r[0]) + t)[..24];
      assert s == (TupleBytes(q[0]) + s)[24..] && t == (TupleBytes(r[0]) + t)[24..];
      SameTuple(q[0], r[0]);
      SignedBytesInjective(q[1..], r[1..]);
      assert q == [q[0]] + q[1..] && r == [r[0]] + r[1..];
    }
  }

  lemma TupleWidth(q: Qualifier)
    ensures |TupleBytes(q)| == 24
  {
    hide Big;
  }

  lemma SameTuple(q: Qualifier, r: Qualifier)
    requires TupleBytes(q) == TupleBytes(r)
    ensures q == r
  {
    var b := TupleBytes(q);
    hide TupleBytes;
    TupleWidth(q);
    assert At(b, 0, TupleBytes(q)) && At(b, 0, TupleBytes(r));
    TupleBack(b, 0, q);
    TupleBack(b, 0, r);
  }

  /** A certificate that verifies with a signature that stands for certain tuples only carries exactly
      these, and names the network whose controller signed them. */
  lemma VerifiedIsGenuine(d: Directory, c: Sent, signed: seq<Qualifier>)
    requires Verdict(d, c) == 0 && BindsTo(d, c.signedBy, c.signature, TuplesBytes(signed))
    ensures c.qualifiers == signed && c.signedBy == ControllerFor(NetworkIdOf(signed))
  {
    hide TuplesBytes, NetworkIdOf, ControllerFor;
    SignedBytesInjective(c.qualifiers, signed);
  }

  lemma RequiredInOrder(timestamp: u64, delta: u64, nwid: u64, issuedTo: u64)
    ensures var q := Required(timestamp, delta, nwid, issuedTo);
            InOrder(q) && |q| <= MAX_QUALIFIERS && NetworkIdOf(q) == nwid
  {
    var q := Required(timestamp, delta, nwid, issuedTo);
    assert NetworkIdOf(q) == NetworkIdOf(q[1..]);
  }

  /** A certificate that the controller issues, signs and serialises is read on the other side of
      the wire and verifies there, whenever the controller is known. */
  method IssueAndVerify(d: Directory, timestamp: u64, delta: u64, nwid: u64, member: u64, buffer: Buffer,
                        peer: Certificate)
    returns (r: Option<int>)
    requires buffer.Valid() && peer.Valid() && d.Ideal() && ControllerFor(nwid) != 0
    modifies buffer, peer, peer.slots
    ensures r.Some? ==> r.value == (if d.known(ControllerFor(nwid)) then 0 else 1)
    ensures r.Some? ==> peer.Valid() && peer.Contents() == Required(timestamp, delta, nwid, member)
    ensures r.Some? <==> |old(buffer.data)| + 8 + 24 * 3 + SIGNATURE_LEN <= buffer.capacity
  {
    hide TuplesBytes, NetworkIdOf, ControllerFor, CertificateBytes, ReadCertificate, Required, InOrder;
    var start := |buffer.data|;
    var c := new Certificate.ForMember(timestamp, delta, nwid, member);
    var signed := Sign(c, d, ControllerFor(nwid), true);
    RequiredInOrder(timestamp, delta, nwid, member);
    ghost var sent := SentBy(c);
    IssuedFits(sent, ControllerFor(nwid), timestamp, delta, nwid, member);
    var ok := Serialize(c, buffer);
    if !ok {
      return None;
    }
    CertificateRoundTrip(old(buffer.data), sent, []);
    assert buffer.data == old(buffer.data) + CertificateBytes(sent) + [];
    var len := Deserialize(peer, buffer.data, start);
    var verdict := Verify(peer, d);
    return Some(verdict);
  }

  lemma IssuedFits(c: Sent, signer: nat, timestamp: u64, delta: u64, nwid: u64, member: u64)
    requires c.qualifiers == Required(timestamp, delta, nwid, member)
             && c.signedBy == signer == ControllerFor(nwid) != 0
    requires |c.signature| == SIGNATURE_LEN
    ensures WellFormed(c) && |CertificateBytes(c)| == 8 + 24 * 3 + SIGNATURE_LEN
  {
    hide Big, TuplesBytes;
    RequiredInOrder(timestamp, delta, nwid, member);
    TuplesLength(c.qualifiers);
  }

  lemma {:induction false} TuplesLength(q: seq<Qualifier>)
    ensures |TuplesBytes(q)| == 24 * |q|
  {
    hide TupleBytes;
    if |q| > 0 {
      TupleWidth(q[0]);
      TuplesLength(q[1..]);
    }
  }
}
