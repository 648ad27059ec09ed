/** Where every field of rules, capabilities and certificates stands on the wire: byte offsets, with
    integers in network byte order. */
module WireLayout {
  import opened Words
  import opened Options
  import opened Limbs
  import opened Buffers
  import opened Identities
  import opened RuleCodec
  import opened Membership
  import opened MembershipCodec
  import opened Capabilities

  // ------------------------------------------------------------------------
  // Rules

  /** The bytes of a rule of each type: type, length of the field data, field data. */
  ghost predicate RuleSpelled(b: seq<byte>, p: nat, r: Rule)
  {
    && p + 1 < |b| && b[p] == r.t
    && var code, f := r.t % 64, p + 2;
       if code == 2 || code == 3 || code == 4 then
         && b[p + 1] == 14 && r.v.Fwd?
         && Spells(b, f, 8, r.v.address) && Spells(b, f + 8, 4, r.v.flags) && Spells(b, f + 12, 2, r.v.length)
       else if code == 24 || code == 25 then
         b[p + 1] == 5 && r.v.Zt? && Spells(b, f, 5, r.v.zt)
       else if code == 26 then
         b[p + 1] == 2 && r.v.VlanId? && Spells(b, f, 2, r.v.vlanId)
       else if code == 27 then
         b[p + 1] == 1 && r.v.VlanPcp? && Spells(b, f, 1, r.v.vlanPcp)
       else if code == 28 then
         b[p + 1] == 1 && r.v.VlanDei? && Spells(b, f, 1, r.v.vlanDei)
       else if code == 29 || code == 30 then
         b[p + 1] == 6 && r.v.Mac? && |r.v.mac| == 6 && At(b, f, r.v.mac)
       else if code == 31 || code == 32 then
         b[p + 1] == 5 && r.v.Ipv4? && |r.v.ip4| == 4 && At(b, f, r.v.ip4) && Spells(b, f + 4, 1, r.v.mask4)
       else if code == 33 || code == 34 then
         b[p + 1] == 17 && r.v.Ipv6? && |r.v.ip6| == 16 && At(b, f, r.v.ip6) && Spells(b, f + 16, 1, r.v.mask6)
       else if code == 35 then
         && b[p + 1] == 3 && r.v.IpTos?
         && Spells(b, f, 1, r.v.tosMask) && Spells(b, f + 1, 1, r.v.tosStart) && Spells(b, f + 2, 1, r.v.tosEnd)
       else if code == 36 then
         b[p + 1] == 1 && r.v.IpProtocol? && Spells(b, f, 1, r.v.ipProtocol)
       else if code == 37 then
         b[p + 1] == 2 && r.v.EtherType? && Spells(b, f, 2, r.v.etherType)
       else if code == 38 then
         && b[p + 1] == 3 && r.v.Icmp?
         && Spells(b, f, 1, r.v.icmpType) && Spells(b, f + 1, 1, r.v.icmpCode) && Spells(b, f + 2, 1, r.v.icmpFlags)
       else if code == 39 || code == 40 then
         b[p + 1] == 4 && r.v.Port? && Spells(b, f, 2, r.v.portStart) && Spells(b, f + 2, 2, r.v.portEnd)
       else if code == 41 then
         b[p + 1] == 8 && r.v.Characteristics? && Spells(b, f, 8, r.v.characteristics)
       else if code == 42 then
         b[p + 1] == 4 && r.v.FrameSize? && Spells(b, f, 2, r.v.sizeStart) && Spells(b, f + 2, 2, r.v.sizeEnd)
       else if code == 43 then
         b[p + 1] == 4 && r.v.Random? && Spells(b, f, 4, r.v.probability)
       else if 44 <= code <= 50 then
         b[p + 1] == 8 && r.v.Tag? && Spells(b, f, 4, r.v.tagId) && Spells(b, f + 4, 4, r.v.tagValue)
       else
         b[p + 1] == 0
  }

  lemma TwoSpelled(b: seq<byte>, p: nat, n: nat, x: nat, m: nat, y: nat)
    requires At(b, p, Big(x, n) + Big(y, m))
    ensures Spells(b, p, n, x) && Spells(b, p + n, m, y)
  {
    hide Big, At, Spells;
    SpellsFirst(b, p, x, n, Big(y, m));
    WrittenSpells(b, p + n, y, m);
  }

  lemma ThreeSpelled(b: seq<byte>, p: nat, n: nat, x: nat, m: nat, y: nat, k: nat, z: nat)
    requires At(b, p, Big(x, n) + Big(y, m) + Big(z, k))
    ensures Spells(b, p, n, x) && Spells(b, p + n, m, y) && Spells(b, p + n + m, k, z)
  {
    hide Big, At, Spells;
    AtSplit(b, p, Big(x, n) + Big(y, m), Big(z, k));
    TwoSpelled(b, p, n, x, m, y);
    WrittenSpells(b, p + n + m, z, k);
  }

  lemma RawSpelled(b: seq<byte>, p: nat, s: seq<byte>, m: nat)
    requires At(b, p, s + Big(m, 1))
    ensures At(b, p, s) && Spells(b, p + |s|, 1, m)
  {
    hide Big, At, Spells;
    AtSplit(b, p, s, Big(m, 1));
    WrittenSpells(b, p + |s|, m, 1);
  }

  /** What a rule's field data spell, by the fields themselves. */
  ghost predicate FieldSpelled(b: seq<byte>, f: nat, v: Body)
  {
    match v
    case Nothing => true
    case Fwd(a, g, l) => Spells(b, f, 8, a) && Spells(b, f + 8, 4, g) && Spells(b, f + 12, 2, l)
    case Zt(a) => Spells(b, f, 5, a)
    case VlanId(x) => Spells(b, f, 2, x)
    case VlanPcp(x) => Spells(b, f, 1, x)
    case VlanDei(x) => Spells(b, f, 1, x)
    case Mac(m) => At(b, f, m)
    case Ipv4(ip, m) => At(b, f, ip) && Spells(b, f + |ip|, 1, m)
    case Ipv6(ip, m) => At(b, f, ip) && Spells(b, f + |ip|, 1, m)
    case IpTos(m, x, y) => Spells(b, f, 1, m) && Spells(b, f + 1, 1, x) && Spells(b, f + 2, 1, y)
    case IpProtocol(x) => Spells(b, f, 1, x)
    case EtherType(x) => Spells(b, f, 2, x)
    case Icmp(x, y, z) => Spells(b, f, 1, x) && Spells(b, f + 1, 1, y) && Spells(b, f + 2, 1, z)
    case Port(x, y) => Spells(b, f, 2, x) && Spells(b, f + 2, 2, y)
    case Characteristics(x) => Spells(b, f, 8, x)
    case FrameSize(x, y) => Spells(b, f, 2, x) && Spells(b, f + 2, 2, y)
    case Random(x) => Spells(b, f, 4, x)
    case Tag(x, y) => Spells(b, f, 4, x) && Spells(b, f + 4, 4, y)
  }

  lemma FieldLayout(b: seq<byte>, f: nat, r: Rule)
    requires RuleCodec.WellFormed(r) && At(b, f, Field(r)[1..])
    ensures FieldSpelled(b, f, r.v)
  {
    hide Big, At, Spells, ShapeOf;
    match r.v {
      case Nothing =>
      case Fwd(a, g, l) => assert Field(r)[1..] == Big(a, 8) + Big(g, 4) + Big(l, 2);
                           ThreeSpelled(b, f, 8, a, 4, g, 2, l);
      case Zt(a) => WrittenSpells(b, f, a, 5);
      case VlanId(x) => WrittenSpells(b, f, x, 2);
      case VlanPcp(x) => WrittenSpells(b, f, x, 1);
      case VlanDei(x) => WrittenSpells(b, f, x, 1);
      case Mac(m) =>
      case Ipv4(ip, m) => RawSpelled(b, f, ip, m);
      case Ipv6(ip, m) => RawSpelled(b, f, ip, m);
      case IpTos(m, x, y) => ThreeSpelled(b, f, 1, m, 1, x, 1, y);
      case IpProtocol(x) => WrittenSpells(b, f, x, 1);
      case EtherType(x) => WrittenSpells(b, f, x, 2);
      case Icmp(x, y, z) => ThreeSpelled(b, f, 1, x, 1, y, 1, z);
      case Port(x, y) => TwoSpelled(b, f, 2, x, 2, y);
      case Characteristics(x) => WrittenSpells(b, f, x, 8);
      case FrameSize(x, y) => TwoSpelled(b, f, 2, x, 2, y);
      case Random(x) => WrittenSpells(b, f, x, 4);
      case Tag(x, y) => TwoSpelled(b, f, 4, x, 4, y);
    }
  }

  lemma Front(b: seq<byte>, p: nat, x: byte, rest: seq<byte>)
    requires At(b, p, [x] + rest)
    ensures p < |b| && b[p] == x && At(b, p + 1, rest)
  {
    AtSplit(b, p, [x], rest);
    assert b[p] == b[p..p + 1][0];
  }

  /** A rule of any type stands on the wire as its type says. */
  lemma RuleLayout(b: seq<byte>, p: nat, r: Rule)
    requires RuleCodec.WellFormed(r) && At(b, p, RuleBytes(r))
    ensures RuleSpelled(b, p, r)
  {
    hide Field, At, Spells, FieldSpelled;
    FieldLength(r);
    var f := Field(r);
    Front(b, p, r.t, f);
    assert f == [f[0]] + f[1..];
    Front(b, p + 1, f[0], f[1..]);
    FieldLayout(b, p + 2, r);
    ByType(b, p, r);
  }

  lemma ByType(b: seq<byte>, p: nat, r: Rule)
    requires RuleCodec.WellFormed(r) && FieldSpelled(b, p + 2, r.v)
    requires p + 1 < |b| && b[p] == r.t && b[p + 1] == Length(r.v)
    ensures RuleSpelled(b, p, r)
  {
    hide At, Spells;
  }

  /** The rules of a list, each behind the other by its own declared length. */
  ghost predicate RulesSpelled(b: seq<byte>, p: nat, rules: seq<Rule>)
  {
    forall i | 0 <= i < |rules| :: RuleSpelled(b, p + Spans(b, p, i), rules[i])
  }

  lemma {:induction false} RulesLayout(b: seq<byte>, p: nat, rules: seq<Rule>)
    requires (forall i | 0 <= i < |rules| :: RuleCodec.WellFormed(rules[i])) && At(b, p, RulesBytes(rules))
    ensures RulesSpelled(b, p, rules) && Spans(b, p, |rules|) == |RulesBytes(rules)|
    decreases |rules|
  {
    hide RuleCodec.WellFormed, RuleBytes, At, RuleSpelled;
    if |rules| > 0 {
      var r, rest := rules[0], rules[1..];
      AtSplit(b, p, RuleBytes(r), RulesBytes(rest));
      RuleLayout(b, p, r);
      RuleBack(r, b, p);
      ReadSome(b, p);
      hide RulesBytes, ReadRule, Span;
      RulesLayout(b, p + |RuleBytes(r)|, rest);
      forall i | 0 <= i < |rules|
        ensures RuleSpelled(b, p + Spans(b, p, i), rules[i])
      {
        if i > 0 {
          assert rules[i] == rest[i - 1];
        }
      }
    }
  }

  // ------------------------------------------------------------------------
  // Certificates of membership

  /** Three words a tuple: id, value, largest difference. */
  ghost predicate TupleSpelled(b: seq<byte>, p: nat, q: Qualifier)
  {
    Spells(b, p, 8, q.id) && Spells(b, p + 8, 8, q.value) && Spells(b, p + 16, 8, q.maxDelta)
  }

  ghost predicate TuplesSpelled(b: seq<byte>, p: nat, q: seq<Qualifier>)
  {
    forall i | 0 <= i < |q| :: TupleSpelled(b, p + 24 * i, q[i])
  }

  lemma {:induction false} TuplesLayout(b: seq<byte>, p: nat, q: seq<Qualifier>)
    requires At(b, p, TuplesBytes(q))
    ensures TuplesSpelled(b, p, q) && |TuplesBytes(q)| == 24 * |q|
    decreases |q|
  {
    hide Big, At, Spells;
    if |q| > 0 {
      AtSplit(b, p, TupleBytes(q[0]), TuplesBytes(q[1..]));
      SpellsFirst(b, p, q[0].id, 8, Big(q[0].value, 8) + Big(q[0].maxDelta, 8));
      TwoSpelled(b, p + 8, 8, q[0].value, 8, q[0].maxDelta);
      TuplesLayout(b, p + 24, q[1..]);
      hide TupleSpelled;
      forall i | 0 < i < |q|
        ensures TupleSpelled(b, p + 24 * i, q[i])
      {
        assert q[i] == q[1..][i - 1] && p + 24 * i == p + 24 + 24 * (i - 1);
      }
    }
  }

  /** Version, count, tuples, signer in five bytes, and the signature if there is a signer. */
  lemma CertificateLayout(b: seq<byte>, p: nat, c: Sent)
    requires MembershipCodec.WellFormed(c) && At(b, p, CertificateBytes(c))
    ensures var n := |c.qualifiers|;
            && b[p] == 1 && Spells(b, p + 1, 2, n) && TuplesSpelled(b, p + 3, c.qualifiers)
            && Spells(b, p + 3 + 24 * n, 5, c.signedBy) && At(b, p + 8 + 24 * n, c.signature)
            && |CertificateBytes(c)| == 8 + 24 * n + if c.signedBy == 0 then 0 else 96
  {
    hide Big, At, Spells, TuplesBytes, TupleSpelled;
    var q := c.qualifiers;
    var t2 := Big(c.signedBy, 5) + c.signature;
    SpellsFirst(b, p, 1, 1, Big(|q|, 2) + (TuplesBytes(q) + t2));
    OneByte(b, p, 1);
    SpellsFirst(b, p + 1, |q|, 2, TuplesBytes(q) + t2);
    AtSplit(b, p + 3, TuplesBytes(q), t2);
    TuplesLayout(b, p + 3, q);
    SpellsFirst(b, p + 3 + 24 * |q|, c.signedBy, 5, c.signature);
  }

  lemma OneByte(b: seq<byte>, p: nat, v: nat)
    requires Spells(b, p, 1, v) && v < 256
    ensures p < |b| && b[p] == v
  {
    assert ByteOf(v, 0) == b[p];
  }

  // ------------------------------------------------------------------------
  // Capabilities

  /** Network, timestamp, id, number of rules, rules, and the largest length of the chain. */
  ghost predicate HeadSpelled(b: seq<byte>, p: nat, c: Capability)
  {
    && Spells(b, p, 8, c.nwid) && Spells(b, p + 8, 8, c.ts) && Spells(b, p + 16, 4, c.id)
    && Spells(b, p + 20, 2, |c.rules|) && RulesSpelled(b, p + 22, c.rules)
    && Spells(b, p + 22 + Spans(b, p + 22, |c.rules|), 1, c.maxChain)
  }

  /** One entry of the chain of custody in 109 bytes: recipient, giver, signature type and length,
      signature. */
  ghost predicate EntrySpelled(b: seq<byte>, p: nat, e: Custody)
  {
    && Spells(b, p, 5, e.to) && Spells(b, p + 5, 5, e.from) && Spells(b, p + 10, 1, 1)
    && Spells(b, p + 11, 2, 96) && At(b, p + 13, e.signature)
  }

  lemma HeadLayout(b: seq<byte>, p: nat, c: Capability)
    requires WellFormedFields(c) && At(b, p, Head(c))
    ensures HeadSpelled(b, p, c) && |Head(c)| == 23 + Spans(b, p + 22, |c.rules|)
  {
    hide Big, At, Spells, RulesBytes, RuleCodec.WellFormed, RulesSpelled, Spans;
    var rules := RulesBytes(c.rules);
    var t5 := rules + Big(c.maxChain, 1);
    var t4 := Big(|c.rules|, 2) + t5;
    var t3 := Big(c.id, 4) + t4;
    SpellsFirst(b, p, c.nwid, 8, Big(c.ts, 8) + t3);
    SpellsFirst(b, p + 8, c.ts, 8, t3);
    SpellsFirst(b, p + 16, c.id, 4, t4);
    SpellsFirst(b, p + 20, |c.rules|, 2, t5);
    AtSplit(b, p + 22, rules, Big(c.maxChain, 1));
    RulesLayout(b, p + 22, c.rules);
    WrittenSpells(b, p + 22 + |rules|, c.maxChain, 1);
  }

  lemma EntryLayout(b: seq<byte>, p: nat, e: Custody)
    requires GoodCustody(e) && At(b, p, EntryBytes(e))
    ensures EntrySpelled(b, p, e) && |EntryBytes(e)| == 109
  {
    hide Big, At, Spells;
    SpellsFirst(b, p, e.to, 5, Big(e.from, 5) + (Big(1, 1) + (Big(SIGNATURE_LEN, 2) + e.signature)));
    SpellsFirst(b, p + 5, e.from, 5, Big(1, 1) + (Big(SIGNATURE_LEN, 2) + e.signature));
    SpellsFirst(b, p + 10, 1, 1, Big(SIGNATURE_LEN, 2) + e.signature);
    SpellsFirst(b, p + 11, SIGNATURE_LEN, 2, e.signature);
  }

  /** The entries one behind the other, and a zero recipient behind the last. */
  ghost predicate ChainSpelled(b: seq<byte>, p: nat, chain: seq<Custody>)
  {
    && (forall i | 0 <= i < |chain| :: EntrySpelled(b, p + 109 * i, chain[i]))
    && Spells(b, p + 109 * |chain|, 5, 0)
  }

  lemma {:induction false} ChainLayout(b: seq<byte>, p: nat, chain: seq<Custody>)
    requires (forall i | 0 <= i < |chain| :: GoodCustody(chain[i])) && At(b, p, ChainBytes(chain))
    ensures ChainSpelled(b, p, chain) && |ChainBytes(chain)| == 109 * |chain| + 5
    decreases |chain|
  {
    hide Big, At, Spells, EntryBytes, GoodCustody, EntrySpelled;
    if |chain| == 0 {
      WrittenSpells(b, p, 0, 5);
    } else {
      AtSplit(b, p, EntryBytes(chain[0]), ChainBytes(chain[1..]));
      EntryLayout(b, p, chain[0]);
      ChainLayout(b, p + 109, chain[1..]);
      forall i | 0 < i < |chain|
        ensures EntrySpelled(b, p + 109 * i, chain[i])
      {
        assert chain[i] == chain[1..][i - 1] && p + 109 * i == p + 109 + 109 * (i - 1);
      }
    }
  }

  /** The whole capability: fields, chain, and an empty extension. */
  lemma CapabilityLayout(b: seq<byte>, p: nat, c: Capability)
    requires WellFormedCapability(c) && At(b, p, CapabilityBytes(c))
    ensures var chain := p + 23 + Spans(b, p + 22, |c.rules|);
            && HeadSpelled(b, p, c) && ChainSpelled(b, chain, c.custody)
            && Spells(b, chain + 109 * |c.custody| + 5, 2, 0)
            && p + |CapabilityBytes(c)| == chain + 109 * |c.custody| + 7
  {
    hide Big, At, Spells, Head, ChainBytes, HeadSpelled, ChainSpelled, Spans, WellFormedFields, GoodCustody;
    AtSplit(b, p, Head(c), ChainBytes(c.custody) + Big(0, 2));
    HeadLayout(b, p, c);
    AtSplit(b, p + |Head(c)|, ChainBytes(c.custody), Big(0, 2));
    ChainLayout(b, p + |Head(c)|, c.custody);
    WrittenSpells(b, p + |Head(c)| + |ChainBytes(c.custody)|, 0, 2);
  }

  /** What is signed: the same fields between two guards of eight bytes 0x7f, without the chain. */
  lemma SignedLayout(c: Capability)
    requires WellFormedFields(c)
    ensures var b := SignedBytes(c);
            var end := 31 + Spans(b, 30, |c.rules|);
            && HeadSpelled(b, 8, c) && |b| == end + 10 && Spells(b, end, 2, 0)
            && Spells(b, 0, 8, 0x7f7f7f7f_7f7f7f7f) && Spells(b, end + 2, 8, 0x7f7f7f7f_7f7f7f7f)
  {
    hide Big, At, Spells, Head, HeadSpelled, Spans, WellFormedFields;
    var b := SignedBytes(c);
    var t := Big(0, 2) + Big(GUARD, 8);
    Whole(b);
    SpellsFirst(b, 0, GUARD, 8, Head(c) + t);
    AtSplit(b, 8, Head(c), t);
    HeadLayout(b, 8, c);
    var end := 8 + |Head(c)|;
    SpellsFirst(b, end, 0, 2, Big(GUARD, 8));
    WrittenSpells(b, end + 2, GUARD, 8);
  }

  lemma Whole(b: seq<byte>)
    ensures At(b, 0, b)
  {
  }
}
