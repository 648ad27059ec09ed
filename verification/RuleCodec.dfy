/** Flow rules on the wire: type, length, value. */
module RuleCodec {
  import opened Words
  import opened Options
  import opened Limbs
  import opened Buffers

  /** The typed fields of a rule. */
  datatype Body =
    | Nothing
    | Fwd(address: nat, flags: nat, length: nat)
    | Zt(zt: nat)
    | VlanId(vlanId: nat)
    | VlanPcp(vlanPcp: nat)
    | VlanDei(vlanDei: nat)
    | Mac(mac: seq<byte>)
    | Ipv4(ip4: seq<byte>, mask4: nat)
    | Ipv6(ip6: seq<byte>, mask6: nat)
    | IpTos(tosMask: nat, tosStart: nat, tosEnd: nat)
    | IpProtocol(ipProtocol: nat)
    | EtherType(etherType: nat)
    | Icmp(icmpType: nat, icmpCode: nat, icmpFlags: nat)
    | Port(portStart: nat, portEnd: nat)
    | Characteristics(characteristics: nat)
    | FrameSize(sizeStart: nat, sizeEnd: nat)
    | Random(probability: nat)
    | Tag(tagId: nat, tagValue: nat)

  /** The type byte holds the NOT bit, the OR bit and six bits of type. */
  datatype Rule = Rule(t: byte, v: Body)

  /** The types that carry the same fields. */
  datatype Shape =
    | PlainShape | ForwardShape | RedirectShape | ZtShape | VlanIdShape | VlanPcpShape
    | VlanDeiShape | MacShape | Ipv4Shape | Ipv6Shape | IpTosShape | IpProtocolShape
    | EtherTypeShape | IcmpShape | PortShape | CharacteristicsShape | FrameSizeShape | RandomShape
    | TagShape

  function ShapeOf(code: nat): Shape
  {
    match code
    case 2 => ForwardShape
    case 3 => ForwardShape
    case 4 => RedirectShape
    case 24 => ZtShape
    case 25 => ZtShape
    case 26 => VlanIdShape
    case 27 => VlanPcpShape
    case 28 => VlanDeiShape
    case 29 => MacShape
    case 30 => MacShape
    case 31 => Ipv4Shape
    case 32 => Ipv4Shape
    case 33 => Ipv6Shape
    case 34 => Ipv6Shape
    case 35 => IpTosShape
    case 36 => IpProtocolShape
    case 37 => EtherTypeShape
    case 38 => IcmpShape
    case 39 => PortShape
    case 40 => PortShape
    case 41 => CharacteristicsShape
    case 42 => FrameSizeShape
    case 43 => RandomShape
    case _ => if 44 <= code <= 50 then TagShape else PlainShape
  }

  /** The fields of a shape are these, and within the width of their C types. */
  predicate Good(s: Shape, v: Body)
  {
    match s
    case PlainShape => v == Nothing
    case ForwardShape => GoodFwd(v)
    case RedirectShape => GoodFwd(v)
    case ZtShape => v.Zt? && v.zt < 0x100_0000_0000
    case VlanIdShape => v.VlanId? && v.vlanId < 0x1_0000
    case VlanPcpShape => v.VlanPcp? && v.vlanPcp < 0x100
    case VlanDeiShape => v.VlanDei? && v.vlanDei < 0x100
    case MacShape => v.Mac? && |v.mac| == 6
    case Ipv4Shape => v.Ipv4? && |v.ip4| == 4 && v.mask4 < 0x100
    case Ipv6Shape => v.Ipv6? && |v.ip6| == 16 && v.mask6 < 0x100
    case IpTosShape => v.IpTos? && v.tosMask < 0x100 && v.tosStart < 0x100 && v.tosEnd < 0x100
    case IpProtocolShape => v.IpProtocol? && v.ipProtocol < 0x100
    case EtherTypeShape => v.EtherType? && v.etherType < 0x1_0000
    case IcmpShape => v.Icmp? && v.icmpType < 0x100 && v.icmpCode < 0x100 && v.icmpFlags < 0x100
    case PortShape => v.Port? && v.portStart < 0x1_0000 && v.portEnd < 0x1_0000
    case CharacteristicsShape => v.Characteristics? && v.characteristics < 0x1_0000_0000_0000_0000
    case FrameSizeShape => v.FrameSize? && v.sizeStart < 0x1_0000 && v.sizeEnd < 0x1_0000
    case RandomShape => v.Random? && v.probability < 0x1_0000_0000
    case TagShape => v.Tag? && v.tagId < 0x1_0000_0000 && v.tagValue < 0x1_0000_0000
  }

  predicate WellFormed(r: Rule)
  {
    Good(ShapeOf(r.t % 64), r.v)
  }

  predicate GoodFwd(v: Body)
  {
    v.Fwd? && v.address < 0x1_0000_0000_0000_0000 && v.flags < 0x1_0000_0000 && v.length < 0x1_0000
  }

  /** The field data written for a rule, each after its own length byte. */
  function Field(r: Rule): seq<byte>
    requires WellFormed(r)
  {
    match r.v
    case Nothing => [0]
    case Fwd(a: nat, f: nat, l: nat) => [14] + (Big(a, 8) + Big(f, 4) + Big(l, 2))
    case Zt(a) => [5] + Big(a, 5)
    case VlanId(x) => [2] + Big(x, 2)
    case VlanPcp(x) => [1] + Big(x, 1)
    case VlanDei(x) => [1] + Big(x, 1)
    case Mac(m) => [6] + m
    case Ipv4(ip, m) => [5] + (ip + Big(m, 1))
    case Ipv6(ip, m) => [17] + (ip + Big(m, 1))
    case IpTos(m: nat, x: nat, y: nat) => [3] + (Big(m, 1) + Big(x, 1) + Big(y, 1))
    case IpProtocol(x) => [1] + Big(x, 1)
    case EtherType(x) => [2] + Big(x, 2)
    case Icmp(x: nat, y: nat, z: nat) => [3] + (Big(x, 1) + Big(y, 1) + Big(z, 1))
    case Port(x, y) => [4] + (Big(x, 2) + Big(y, 2))
    case Characteristics(x) => [8] + Big(x, 8)
    case FrameSize(x, y) => [4] + (Big(x, 2) + Big(y, 2))
    case Random(x) => [4] + Big(x, 4)
    case Tag(x, y) => [8] + (Big(x, 4) + Big(y, 4))
  }

  function RuleBytes(r: Rule): seq<byte>
    requires WellFormed(r)
  {
    [r.t] + Field(r)
  }

  function RulesBytes(rules: seq<Rule>): seq<byte>
    requires forall i | 0 <= i < |rules| :: WellFormed(rules[i])
  {
    if |rules| == 0 then [] else RuleBytes(rules[0]) + RulesBytes(rules[1..])
  }

  function One(b: seq<byte>, p: nat, n: nat, make: nat -> Body): Option<Body>
  {
    var v := ReadInt(b, p, n);
    if v.Some? then Some(make(v.value)) else None
  }

  function Two(b: seq<byte>, p: nat, n: nat, make: (nat, nat) -> Body): Option<Body>
  {
    var x, y := ReadInt(b, p, n), ReadInt(b, p + n, n);
    if x.Some? && y.Some? then Some(make(x.value, y.value)) else None
  }

  function Three(b: seq<byte>, p: nat, n: nat, m: nat, k: nat, make: (nat, nat, nat) -> Body): Option<Body>
  {
    var x, y, z := ReadInt(b, p, n), ReadInt(b, p + n, m), ReadInt(b, p + n + m, k);
    if x.Some? && y.Some? && z.Some? then Some(make(x.value, y.value, z.value)) else None
  }

  function Raw(b: seq<byte>, p: nat, n: nat, make: (seq<byte>, nat) -> Body): Option<Body>
  {
    var x, y := ReadBytes(b, p, n), ReadInt(b, p + n, 1);
    if x.Some? && y.Some? then Some(make(x.value, y.value)) else None
  }

  /** What is read for a type, wherever its declared length may lead. */
  function ReadField(t: byte, b: seq<byte>, p: nat): Option<Body>
  {
    ReadShape(ShapeOf(t % 64), b, p)
  }

  function ReadShape(s: Shape, b: seq<byte>, p: nat): Option<Body>
  {
    match s
    case PlainShape => Some(Nothing)
    case ForwardShape => Three(b, p, 8, 4, 2, (a: nat, f: nat, l: nat) => Fwd(a, f, l))
    case RedirectShape => Three(b, p, 8, 4, 2, (a: nat, f: nat, l: nat) => Fwd(a, f, l))
    case ZtShape => One(b, p, 5, (a: nat) => Zt(a))
    case VlanIdShape => One(b, p, 2, (x: nat) => VlanId(x))
    case VlanPcpShape => One(b, p, 1, (x: nat) => VlanPcp(x))
    case VlanDeiShape => One(b, p, 1, (x: nat) => VlanDei(x))
    case MacShape => if p + 6 <= |b| then Some(Mac(b[p..p + 6])) else None
    case Ipv4Shape => Raw(b, p, 4, (ip: seq<byte>, m: nat) => Ipv4(ip, m))
    case Ipv6Shape => Raw(b, p, 16, (ip: seq<byte>, m: nat) => Ipv6(ip, m))
    case IpTosShape => Three(b, p, 1, 1, 1, (m: nat, x: nat, y: nat) => IpTos(m, x, y))
    case IpProtocolShape => One(b, p, 1, (x: nat) => IpProtocol(x))
    case EtherTypeShape => One(b, p, 2, (x: nat) => EtherType(x))
    case IcmpShape => Three(b, p, 1, 1, 1, (x: nat, y: nat, z: nat) => Icmp(x, y, z))
    case PortShape => Two(b, p, 2, (x: nat, y: nat) => Port(x, y))
    case CharacteristicsShape => One(b, p, 8, (x: nat) => Characteristics(x))
    case FrameSizeShape => Two(b, p, 2, (x: nat, y: nat) => FrameSize(x, y))
    case RandomShape => One(b, p, 4, (x: nat) => Random(x))
    case TagShape => Two(b, p, 4, (x: nat, y: nat) => Tag(x, y))
  }

  /** One rule and the position after it: two bytes further plus the declared length. */
  function ReadRule(b: seq<byte>, p: nat): Option<(Rule, nat)>
  {
    if p + 1 >= |b| then None
    else
      var v := ReadField(b[p], b, p + 2);
      if v.Some? then Some((Rule(b[p], v.value), p + 2 + b[p + 1])) else None
  }

  /** Up to `n` rules, stopping early at the end of the data. */
  function ReadRules(b: seq<byte>, p: nat, n: nat): Option<(seq<Rule>, nat)>
    decreases n
  {
    if n == 0 || p >= |b| then Some(([], p))
    else
      var r := ReadRule(b, p);
      if r == None then None
      else
        var rest := ReadRules(b, r.value.1, n - 1);
        if rest == None then None else Some(([r.value.0] + rest.value.0, rest.value.1))
  }

  // ------------------------------------------------------------------------
  // Round trip

  lemma OneBack(b: seq<byte>, p: nat, n: nat, v: nat, make: nat -> Body)
    requires At(b, p, Big(v, n)) && v < Pow256(n)
    ensures One(b, p, n, make) == Some(make(v))
  {
    hide Big, Pow256, At, Number;
    ReadBack(b, p, v, n);
  }

  lemma TwoBack(b: seq<byte>, p: nat, n: nat, x: nat, y: nat, make: (nat, nat) -> Body)
    requires At(b, p, Big(x, n) + Big(y, n)) && x < Pow256(n) && y < Pow256(n)
    ensures Two(b, p, n, make) == Some(make(x, y))
  {
    hide Big, Pow256, At, Number;
    AtSplit(b, p, Big(x, n), Big(y, n));
    ReadBack(b, p, x, n);
    ReadBack(b, p + n, y, n);
  }

  lemma ThreeBack(b: seq<byte>, p: nat, n: nat, m: nat, k: nat, x: nat, y: nat, z: nat, make: (nat, nat, nat) -> Body)
    requires At(b, p, Big(x, n) + Big(y, m) + Big(z, k)) && x < Pow256(n) && y < Pow256(m) && z < Pow256(k)
    ensures Three(b, p, n, m, k, make) == Some(make(x, y, z))
  {
    hide Big, Pow256, At, Number;
    AtSplit(b, p, Big(x, n) + Big(y, m), Big(z, k));
    AtSplit(b, p, Big(x, n), Big(y, m));
    ReadBack(b, p, x, n);
    ReadBack(b, p + n, y, m);
    ReadBack(b, p + n + m, z, k);
  }

  lemma RawBack(b: seq<byte>, p: nat, s: seq<byte>, m: nat, make: (seq<byte>, nat) -> Body)
    requires At(b, p, s + Big(m, 1)) && m < Pow256(1)
    ensures Raw(b, p, |s|, make) == Some(make(s, m))
  {
    hide Big, Pow256, At, Number;
    AtSplit(b, p, s, Big(m, 1));
    ReadBack(b, p + |s|, m, 1);
  }

  /** The length byte a type is written with. */
  function Length(v: Body): byte
  {
    match v
    case Nothing => 0
    case Fwd(_, _, _) => 14
    case Zt(_) => 5
    case VlanId(_) => 2
    case VlanPcp(_) => 1
    case VlanDei(_) => 1
    case Mac(_) => 6
    case Ipv4(_, _) => 5
    case Ipv6(_, _) => 17
    case IpTos(_, _, _) => 3
    case IpProtocol(_) => 1
    case EtherType(_) => 2
    case Icmp(_, _, _) => 3
    case Port(_, _) => 4
    case Characteristics(_) => 8
    case FrameSize(_, _) => 4
    case Random(_) => 4
    case Tag(_, _) => 8
  }

  lemma FieldLength(r: Rule)
    requires WellFormed(r)
    ensures |Field(r)| == 1 + Length(r.v) && Field(r)[0] == Length(r.v)
  {
    hide Big, ShapeOf;
  }

  lemma FieldBack(r: Rule, b: seq<byte>, p: nat)
    requires WellFormed(r) && At(b, p, Field(r)[1..])
    ensures ReadField(r.t, b, p) == Some(r.v)
  {
    hide Big, Pow256, One, Two, Three, Raw, At, ShapeOf;
    Sizes();
    match r.v {
      case Nothing =>
      case Fwd(a, f, l) => assert Field(r)[1..] == Big(a, 8) + Big(f, 4) + Big(l, 2);
                           ThreeBack(b, p, 8, 4, 2, a, f, l, (a: nat, f: nat, l: nat) => Fwd(a, f, l));
      case Zt(a) => OneBack(b, p, 5, a, (a: nat) => Zt(a));
      case VlanId(x) => OneBack(b, p, 2, x, (x: nat) => VlanId(x));
      case VlanPcp(x) => OneBack(b, p, 1, x, (x: nat) => VlanPcp(x));
      case VlanDei(x) => OneBack(b, p, 1, x, (x: nat) => VlanDei(x));
      case Mac(m) => MacBack(b, p, m);
      case Ipv4(ip, m) => RawBack(b, p, ip, m, (ip: seq<byte>, m: nat) => Ipv4(ip, m));
      case Ipv6(ip, m) => RawBack(b, p, ip, m, (ip: seq<byte>, m: nat) => Ipv6(ip, m));
      case IpTos(m, x, y) => ThreeBack(b, p, 1, 1, 1, m, x, y, (m: nat, x: nat, y: nat) => IpTos(m, x, y));
      case IpProtocol(x) => OneBack(b, p, 1, x, (x: nat) => IpProtocol(x));
      case EtherType(x) => OneBack(b, p, 2, x, (x: nat) => EtherType(x));
      case Icmp(x, y, z) => ThreeBack(b, p, 1, 1, 1, x, y, z, (x: nat, y: nat, z: nat) => Icmp(x, y, z));
      case Port(x, y) => TwoBack(b, p, 2, x, y, (x: nat, y: nat) => Port(x, y));
      case Characteristics(x) => OneBack(b, p, 8, x, (x: nat) => Characteristics(x));
      case FrameSize(x, y) => TwoBack(b, p, 2, x, y, (x: nat, y: nat) => FrameSize(x, y));
      case Random(x) => OneBack(b, p, 4, x, (x: nat) => Random(x));
      case Tag(x, y) => TwoBack(b, p, 4, x, y, (x: nat, y: nat) => Tag(x, y));
    }
  }

  lemma MacBack(b: seq<byte>, p: nat, m: seq<byte>)
    requires At(b, p, m) && |m| == 6
    ensures p + 6 <= |b| && b[p..p + 6] == m
  {
  }

  /** A rule written at a position is read back, and reading ends right after it. */
  lemma RuleBack(r: Rule, b: seq<byte>, p: nat)
    requires WellFormed(r) && At(b, p, RuleBytes(r))
    ensures ReadRule(b, p) == Some((r, p + |RuleBytes(r)|))
  {
    hide Field, ReadField;
    FieldLength(r);
    var f := Field(r);
    assert f == [f[0]] + f[1..];
    AtSplit(b, p, [r.t], f);
    AtSplit(b, p + 1, [f[0]], f[1..]);
    hide WellFormed;
    assert b[p] == b[p..p + 1][0] && b[p + 1] == b[p + 1..p + 2][0];
    FieldBack(r, b, p + 2);
  }

  /** Rules written one after the other are all read back, at any position and whatever follows. */
  lemma {:induction false} RulesBack(rules: seq<Rule>, b: seq<byte>, p: nat)
    requires forall i | 0 <= i < |rules| :: WellFormed(rules[i])
    requires At(b, p, RulesBytes(rules))
    ensures ReadRules(b, p, |rules|) == Some((rules, p + |RulesBytes(rules)|))
    decreases |rules|
  {
    hide WellFormed, ReadRule, RuleBytes, ReadRules;
    if |rules| == 0 {
      ReadNoRules(b, p);
    } else {
      var r, rest := rules[0], rules[1..];
      AtSplit(b, p, RuleBytes(r), RulesBytes(rest));
      hide At;
      RuleBack(r, b, p);
      NotEmpty(r);
      RulesBack(rest, b, p + |RuleBytes(r)|);
      ReadStep(b, p, |rules|);
      assert rules == [r] + rest;
    }
  }

  lemma ReadNoRules(b: seq<byte>, p: nat)
    ensures ReadRules(b, p, 0) == Some(([], p))
  {
  }

  lemma ReadStep(b: seq<byte>, p: nat, n: nat)
    requires n > 0 && ReadRule(b, p).Some? && ReadRules(b, ReadRule(b, p).value.1, n - 1).Some?
    ensures var r := ReadRule(b, p).value;
            var rest := ReadRules(b, r.1, n - 1).value;
            ReadRules(b, p, n) == Some(([r.0] + rest.0, rest.1))
  {
    ReadSome(b, p);
    hide ReadRule;
  }

  lemma NotEmpty(r: Rule)
    requires WellFormed(r)
    ensures |RuleBytes(r)| > 0
  {
  }

  lemma ReadSome(b: seq<byte>, p: nat)
    requires ReadRule(b, p).Some?
    ensures p + 1 < |b| && ReadRule(b, p).value.1 == p + Span(b, p) && ReadRule(b, p).value.0.t == b[p]
  {
    hide ReadField;
  }

  // ------------------------------------------------------------------------
  // Arbitrary input

  /** The bytes a rule takes by its own account: two and its declared length. */
  function Span(b: seq<byte>, p: nat): nat
  {
    var declared: nat := if p + 1 < |b| then b[p + 1] else 0;
    if p + 1 < |b| then 2 + declared else 0
  }

  /** What `k` rules in a row take. */
  function Spans(b: seq<byte>, p: nat, k: nat): nat
    decreases k
  {
    if k == 0 then 0 else Span(b, p) + Spans(b, p + Span(b, p), k - 1)
  }

  /** The bytes at each rule's own offset are that rule, and the next one starts where it ends. */
  ghost predicate LaidOut(b: seq<byte>, p: nat, rules: seq<Rule>)
  {
    forall i | 0 <= i < |rules| :: RuleAt(b, p + Spans(b, p, i), rules[i])
  }

  ghost predicate RuleAt(b: seq<byte>, q: nat, r: Rule)
  {
    q + 1 < |b| && r.t == b[q] && ReadRule(b, q) == Some((r, q + Span(b, q)))
  }

  lemma LaidOutNext(b: seq<byte>, p: nat, r: Rule, rest: seq<Rule>)
    requires RuleAt(b, p, r) && LaidOut(b, p + Span(b, p), rest)
    ensures LaidOut(b, p, [r] + rest)
  {
    hide RuleAt, Span;
    forall i | 0 <= i < |[r] + rest|
      ensures RuleAt(b, p + Spans(b, p, i), ([r] + rest)[i])
    {
      if i > 0 {
        assert RuleAt(b, p + Span(b, p) + Spans(b, p + Span(b, p), i - 1), rest[i - 1]);
      }
    }
  }

  /** On arbitrary input, rules are taken off one after the other by their declared lengths, and
      reading ends at the count asked for or at the end of the data and nowhere else. */
  lemma {:induction false} RulesLaidOut(b: seq<byte>, p: nat, n: nat)
    requires ReadRules(b, p, n).Some?
    ensures var (rules, end) := ReadRules(b, p, n).value;
            && |rules| <= n && LaidOut(b, p, rules) && end == p + Spans(b, p, |rules|)
            && (|rules| == n || end >= |b|)
    decreases n
  {
    hide ReadRule, LaidOut, RuleAt;
    if n == 0 || p >= |b| {
      assert LaidOut(b, p, []) by {
        NoneLaidOut(b, p);
      }
    } else {
      var r := ReadRule(b, p).value;
      assert RuleAt(b, p, r.0) by {
        FirstLaidOut(b, p);
      }
      ReadSome(b, p);
      RulesLaidOut(b, r.1, n - 1);
      hide Span;
      var rest := ReadRules(b, r.1, n - 1).value.0;
      LaidOutNext(b, p, r.0, rest);
    }
  }

  lemma NoneLaidOut(b: seq<byte>, p: nat)
    ensures LaidOut(b, p, [])
  {
  }

  lemma FirstLaidOut(b: seq<byte>, p: nat)
    requires ReadRule(b, p).Some?
    ensures RuleAt(b, p, ReadRule(b, p).value.0)
  {
    ReadSome(b, p);
    hide ReadRule;
  }

  /** A rule begins here and cannot be read. */
  ghost predicate CutOff(b: seq<byte>, q: nat)
  {
    q < |b| && ReadRule(b, q) == None
  }

  /** The first `k` rules can be read, and the next one is cut off. */
  ghost predicate FailsAt(b: seq<byte>, p: nat, k: nat)
  {
    CutOff(b, p + Spans(b, p, k)) && forall j | 0 <= j < k :: ReadRule(b, p + Spans(b, p, j)).Some?
  }

  lemma FailsNext(b: seq<byte>, p: nat, k: nat)
    requires ReadRule(b, p).Some?
    ensures !FailsAt(b, p, 0) && (FailsAt(b, p, k + 1) <==> FailsAt(b, p + Span(b, p), k))
  {
    hide ReadRule, Span;
    var q := p + Span(b, p);
    if FailsAt(b, q, k) {
      forall j | 0 <= j < k + 1
        ensures ReadRule(b, p + Spans(b, p, j)).Some?
      {
        if j > 0 {
          assert ReadRule(b, q + Spans(b, q, j - 1)).Some?;
        }
      }
    } else if FailsAt(b, p, k + 1) {
      forall j | 0 <= j < k
        ensures ReadRule(b, q + Spans(b, q, j)).Some?
      {
        assert ReadRule(b, p + Spans(b, p, j + 1)).Some?;
      }
      assert false;
    }
  }

  lemma FailsHere(b: seq<byte>, p: nat, k: nat)
    requires p >= |b| || ReadRule(b, p) == None
    ensures FailsAt(b, p, k) ==> p < |b|
    ensures p < |b| ==> FailsAt(b, p, 0)
  {
    hide ReadRule;
  }

  /** Reading fails exactly when one of the rules asked for begins before the end of the data and
      its fields are cut off. */
  lemma {:induction false} RulesFailIff(b: seq<byte>, p: nat, n: nat)
    ensures ReadRules(b, p, n) == None <==> exists k | 0 <= k < n :: FailsAt(b, p, k)
    decreases n
  {
    hide ReadRule, FailsAt, Span, Spans;
    if n > 0 && p < |b| && ReadRule(b, p).Some? {
      ReadSome(b, p);
      var q := p + Span(b, p);
      RulesFailIff(b, q, n - 1);
      if ReadRules(b, p, n) == None {
        var k :| 0 <= k < n - 1 && FailsAt(b, q, k);
        FailsNext(b, p, k);
      } else {
        forall k | 0 <= k < n
          ensures !FailsAt(b, p, k)
        {
          FailsNext(b, p, if k == 0 then 0 else k - 1);
        }
      }
    } else if n > 0 {
      forall k | 0 <= k < n
        ensures FailsAt(b, p, k) ==> p < |b|
      {
        FailsHere(b, p, k);
      }
      FailsHere(b, p, 0);
    }
  }

  /** `serializeRules` */
  method SerializeRules(buffer: Buffer, rules: seq<Rule>) returns (ok: bool)
    requires buffer.Valid() && forall i | 0 <= i < |rules| :: WellFormed(rules[i])
    modifies buffer
    ensures buffer.Valid() && ok == (|old(buffer.data)| + |RulesBytes(rules)| <= buffer.capacity)
    ensures ok ==> buffer.data == old(buffer.data) + RulesBytes(rules)
  {
    hide WellFormed, RuleBytes, RulesBytes;
    ghost var start := buffer.data;
    var i := 0;
    assert rules[0..] == rules;
    while i < |rules|
      invariant 0 <= i <= |rules| && buffer.Valid()
      invariant buffer.data + RulesBytes(rules[i..]) == start + RulesBytes(rules)
    {
      NextRule(rules, i);
      ghost var before := buffer.data;
      ok := buffer.Append(RuleBytes(rules[i]));
      if !ok {
        assert |start + RulesBytes(rules)| == |before + RulesBytes(rules[i..])|;
        return;
      }
      Regrouped(before, RuleBytes(rules[i]), RulesBytes(rules[i + 1..]));
      i := i + 1;
    }
    NoRules(rules, i);
    assert buffer.data + [] == buffer.data;
    ok := true;
  }

  lemma NextRule(rules: seq<Rule>, i: nat)
    requires i < |rules| && forall k | 0 <= k < |rules| :: WellFormed(rules[k])
    ensures RulesBytes(rules[i..]) == RuleBytes(rules[i]) + RulesBytes(rules[i + 1..])
  {
    hide WellFormed, RuleBytes;
    assert rules[i..][0] == rules[i] && rules[i..][1..] == rules[i + 1..];
  }

  lemma NoRules(rules: seq<Rule>, i: nat)
    requires i == |rules|
    ensures RulesBytes(rules[i..]) == []
  {
    assert rules[i..] == [];
  }

  lemma Regrouped(a: seq<byte>, b: seq<byte>, c: seq<byte>)
    ensures a + (b + c) == (a + b) + c
  {
  }

  /** `deserializeRules` */
  method DeserializeRules(b: seq<byte>, start: nat, max: nat) returns (r: Option<(seq<Rule>, nat)>)
    ensures r == ReadRules(b, start, max)
  {
    hide ReadRule;
    var rules: seq<Rule>, p: nat := [], start;
    PrependNone(ReadRules(b, start, max));
    while |rules| < max && p < |b|
      invariant |rules| <= max
      invariant ReadRules(b, start, max) == Prepend(rules, ReadRules(b, p, max - |rules|))
      decreases max - |rules|
    {
      var one := ReadRule(b, p);
      if one == None {
        return None;
      }
      PrependOne(rules, one.value.0, ReadRules(b, one.value.1, max - |rules| - 1));
      rules := rules + [one.value.0];
      p := one.value.1;
    }
    assert rules + [] == rules;
    return Some((rules, p));
  }

  lemma PrependNone(r: Option<(seq<Rule>, nat)>)
    ensures Prepend([], r) == r
  {
    if r.Some? {
      assert [] + r.value.0 == r.value.0;
    }
  }

  lemma PrependOne(rules: seq<Rule>, one: Rule, r: Option<(seq<Rule>, nat)>)
    ensures Prepend(rules, Prepend([one], r)) == Prepend(rules + [one], r)
  {
    if r.Some? {
      assert rules + ([one] + r.value.0) == rules + [one] + r.value.0;
    }
  }

  function Prepend(rules: seq<Rule>, r: Option<(seq<Rule>, nat)>): Option<(seq<Rule>, nat)>
  {
    if r == None then None else Some((rules + r.value.0, r.value.1))
  }
}
