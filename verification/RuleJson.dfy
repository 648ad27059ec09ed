/** Flow rules as the controller's JSON objects: rendering, parsing and normalisation. */
module RuleJson {
  import opened Words
  import opened Options
  import opened Buffers
  import opened RuleCodec

  /** The values of "type". */
  datatype Name =
    | ACTION_DROP | ACTION_ACCEPT | ACTION_TEE
    | ACTION_WATCH | ACTION_REDIRECT | ACTION_BREAK
    | MATCH_SOURCE_ZEROTIER_ADDRESS | MATCH_DEST_ZEROTIER_ADDRESS | MATCH_VLAN_ID
    | MATCH_VLAN_PCP | MATCH_VLAN_DEI | MATCH_MAC_SOURCE
    | MATCH_MAC_DEST | MATCH_IPV4_SOURCE | MATCH_IPV4_DEST
    | MATCH_IPV6_SOURCE | MATCH_IPV6_DEST | MATCH_IP_TOS
    | MATCH_IP_PROTOCOL | MATCH_ETHERTYPE | MATCH_ICMP
    | MATCH_IP_SOURCE_PORT_RANGE | MATCH_IP_DEST_PORT_RANGE | MATCH_CHARACTERISTICS
    | MATCH_FRAME_SIZE_RANGE | MATCH_RANDOM | MATCH_TAGS_DIFFERENCE
    | MATCH_TAGS_BITWISE_AND | MATCH_TAGS_BITWISE_OR | MATCH_TAGS_BITWISE_XOR
    | MATCH_TAGS_EQUAL | MATCH_TAG_SENDER | MATCH_TAG_RECEIVER

  datatype Json = Missing | Null | Bool(b: bool) | Num(n: nat) | Text(s: string) | Nested

  /** The other fields of a rule object. */
  datatype Fields = Fields(not_: Json, or_: Json, address: Json, flags: Json, length: Json, zt: Json,
                           vlanId: Json, vlanPcp: Json, vlanDei: Json, mac: Json, ip: Json,
                           mask: Json, start: Json, end: Json, ipProtocol: Json, etherType: Json,
                           icmpType: Json, icmpCode: Json, probability: Json, id: Json, value: Json)

  const BLANK: Fields := Fields(Missing, Missing, Missing, Missing, Missing, Missing, Missing,
                                Missing, Missing, Missing, Missing, Missing, Missing, Missing,
                                Missing, Missing, Missing, Missing, Missing, Missing, Missing)

  /** A JSON object with its type; objects of no known type, and values that are no objects, are
      rejected alike. */
  datatype JsonRule = Object(name: Name, fields: Fields) | Unknown

  /** The text helpers, as printing and parsing pairs. */
  datatype Helpers = Helpers(
    hex: string -> nat,
    decimal: string -> nat,
    printDecimal: nat -> string,
    printAddress: nat -> string,
    printHex: nat -> string,
    unhex: string -> seq<byte>,
    printMac: seq<byte> -> string,
    parseIp4: string -> (seq<byte>, nat),
    parseIp6: string -> (seq<byte>, nat),
    printIp: (seq<byte>, nat) -> string)
  {
    ghost predicate Lawful()
    {
      && (forall s: string :: hex(s) < 0x1_0000_0000_0000_0000 && |unhex(s)| == 6)
      && (forall s: string :: |parseIp4(s).0| == 4 && |parseIp6(s).0| == 16)
      && (forall a: nat | a < 0x100_0000_0000 :: hex(printAddress(a)) == a)
      && (forall v: nat | v < 0x1_0000_0000_0000_0000 :: hex(printHex(v)) == v)
      && (forall m: seq<byte> | |m| == 6 :: unhex(printMac(m)) == m)
      && (forall ip: seq<byte>, bits: nat | |ip| == 4 && bits <= 32 :: parseIp4(printIp(ip, bits)) == (ip, bits))
      && (forall ip: seq<byte>, bits: nat | |ip| == 16 && bits <= 128 :: parseIp6(printIp(ip, bits)) == (ip, bits))
    }
  }

  function Marks(n: nat): string
  {
    seq(n, _ => '1')
  }

  function Chars(b: seq<byte>): (s: string)
    ensures |s| == |b|
  {
    seq(|b|, i requires 0 <= i < |b| => b[i] as char)
  }

  function BytesOf(s: string, n: nat): (b: seq<byte>)
    ensures |b| == n
  {
    seq(n, i requires 0 <= i < n => if i < |s| then s[i] as int % 256 else 0)
  }

  function Count(s: string): (n: nat)
    ensures n < 0x1_0000_0000_0000_0000
  {
    |s| % 0x1_0000_0000_0000_0000
  }

  function Six(s: string): (b: seq<byte>)
    ensures |b| == 6
  {
    BytesOf(s, 6)
  }

  function Four(s: string): (r: (seq<byte>, nat))
    ensures |r.0| == 4
  {
    (BytesOf(s, 4), if |s| < 4 then 0 else |s| - 4)
  }

  function Sixteen(s: string): (r: (seq<byte>, nat))
    ensures |r.0| == 16
  {
    (BytesOf(s, 16), if |s| < 16 then 0 else |s| - 16)
  }

  function Joined(ip: seq<byte>, bits: nat): string
  {
    Chars(ip) + Marks(bits)
  }

  lemma CountBack(n: nat)
    requires n < 0x1_0000_0000_0000_0000
    ensures Count(Marks(n)) == n
  {
  }

  lemma SixBack(m: seq<byte>)
    requires |m| == 6
    ensures Six(Chars(m)) == m
  {
    CharsBack(m, "");
    assert Chars(m) + "" == Chars(m);
  }

  lemma JoinedBack(ip: seq<byte>, bits: nat)
    ensures |ip| == 4 ==> Four(Joined(ip, bits)) == (ip, bits)
    ensures |ip| == 16 ==> Sixteen(Joined(ip, bits)) == (ip, bits)
  {
    CharsBack(ip, Marks(bits));
  }

  /** There are helpers of that kind. */
  lemma LawfulIsPossible() returns (h: Helpers)
    ensures h.Lawful()
  {
    h := Helpers(Count, Count, Marks, Marks, Marks, Six, Chars, Four, Sixteen, Joined);
    hide Count, Marks, Six, Chars, Four, Sixteen, Joined;
    forall n: nat | n < 0x1_0000_0000_0000_0000
      ensures Count(Marks(n)) == n
    {
      CountBack(n);
    }
    forall m: seq<byte> | |m| == 6
      ensures Six(Chars(m)) == m
    {
      SixBack(m);
    }
    forall ip: seq<byte>, bits: nat
      ensures |ip| == 4 ==> Four(Joined(ip, bits)) == (ip, bits)
      ensures |ip| == 16 ==> Sixteen(Joined(ip, bits)) == (ip, bits)
    {
      JoinedBack(ip, bits);
    }
  }

  lemma CharsBack(b: seq<byte>, rest: string)
    ensures BytesOf(Chars(b) + rest, |b|) == b
  {
    var s := Chars(b) + rest;
    forall i | 0 <= i < |b|
      ensures BytesOf(s, |b|)[i] == b[i]
    {
      assert s[i] == Chars(b)[i] == b[i] as char;
    }
  }

  function Code(n: Name): (c: nat)
    ensures c < 64
  {
    match n
    case ACTION_DROP => 0
    case ACTION_ACCEPT => 1
    case ACTION_TEE => 2
    case ACTION_WATCH => 3
    case ACTION_REDIRECT => 4
    case ACTION_BREAK => 5
    case MATCH_SOURCE_ZEROTIER_ADDRESS => 24
    case MATCH_DEST_ZEROTIER_ADDRESS => 25
    case MATCH_VLAN_ID => 26
    case MATCH_VLAN_PCP => 27
    case MATCH_VLAN_DEI => 28
    case MATCH_MAC_SOURCE => 29
    case MATCH_MAC_DEST => 30
    case MATCH_IPV4_SOURCE => 31
    case MATCH_IPV4_DEST => 32
    case MATCH_IPV6_SOURCE => 33
    case MATCH_IPV6_DEST => 34
    case MATCH_IP_TOS => 35
    case MATCH_IP_PROTOCOL => 36
    case MATCH_ETHERTYPE => 37
    case MATCH_ICMP => 38
    case MATCH_IP_SOURCE_PORT_RANGE => 39
    case MATCH_IP_DEST_PORT_RANGE => 40
    case MATCH_CHARACTERISTICS => 41
    case MATCH_FRAME_SIZE_RANGE => 42
    case MATCH_RANDOM => 43
    case MATCH_TAGS_DIFFERENCE => 44
    case MATCH_TAGS_BITWISE_AND => 45
    case MATCH_TAGS_BITWISE_OR => 46
    case MATCH_TAGS_BITWISE_XOR => 47
    case MATCH_TAGS_EQUAL => 48
    case MATCH_TAG_SENDER => 49
    case MATCH_TAG_RECEIVER => 50
  }

  /** The name rendered for a type code. */
  function NameOf(c: nat): Option<Name>
  {
    match c
    case 0 => Some(ACTION_DROP)
    case 1 => Some(ACTION_ACCEPT)
    case 2 => Some(ACTION_TEE)
    case 3 => Some(ACTION_WATCH)
    case 4 => Some(ACTION_REDIRECT)
    case 5 => Some(ACTION_BREAK)
    case 24 => Some(MATCH_SOURCE_ZEROTIER_ADDRESS)
    case 25 => Some(MATCH_DEST_ZEROTIER_ADDRESS)
    case 26 => Some(MATCH_VLAN_ID)
    case 27 => Some(MATCH_VLAN_PCP)
    case 28 => Some(MATCH_VLAN_DEI)
    case 29 => Some(MATCH_MAC_SOURCE)
    case 30 => Some(MATCH_MAC_DEST)
    case 31 => Some(MATCH_IPV4_SOURCE)
    case 32 => Some(MATCH_IPV4_DEST)
    case 33 => Some(MATCH_IPV6_SOURCE)
    case 34 => Some(MATCH_IPV6_DEST)
    case 35 => Some(MATCH_IP_TOS)
    case 36 => Some(MATCH_IP_PROTOCOL)
    case 37 => Some(MATCH_ETHERTYPE)
    case 38 => Some(MATCH_ICMP)
    case 39 => Some(MATCH_IP_SOURCE_PORT_RANGE)
    case 40 => Some(MATCH_IP_DEST_PORT_RANGE)
    case 41 => Some(MATCH_CHARACTERISTICS)
    case 42 => Some(MATCH_FRAME_SIZE_RANGE)
    case 43 => Some(MATCH_RANDOM)
    case 44 => Some(MATCH_TAGS_DIFFERENCE)
    case 45 => Some(MATCH_TAGS_BITWISE_AND)
    case 46 => Some(MATCH_TAGS_BITWISE_OR)
    case 47 => Some(MATCH_TAGS_BITWISE_XOR)
    case 48 => Some(MATCH_TAGS_EQUAL)
    case 49 => Some(MATCH_TAG_SENDER)
    case 50 => Some(MATCH_TAG_RECEIVER)
    case _ => None
  }

  lemma NameOfCode(n: Name)
    ensures NameOf(Code(n)) == Some(n)
  {
  }

  /** The types of `ZT_VirtualNetworkRuleType` in their order: actions are numbered from 0, matches
      from 24. */
  const ACTIONS: seq<Name> := [ACTION_DROP, ACTION_ACCEPT, ACTION_TEE, ACTION_WATCH, ACTION_REDIRECT, ACTION_BREAK]

  const MATCHES: seq<Name> :=
    [MATCH_SOURCE_ZEROTIER_ADDRESS, MATCH_DEST_ZEROTIER_ADDRESS, MATCH_VLAN_ID, MATCH_VLAN_PCP, MATCH_VLAN_DEI,
     MATCH_MAC_SOURCE, MATCH_MAC_DEST, MATCH_IPV4_SOURCE, MATCH_IPV4_DEST, MATCH_IPV6_SOURCE, MATCH_IPV6_DEST,
     MATCH_IP_TOS, MATCH_IP_PROTOCOL, MATCH_ETHERTYPE, MATCH_ICMP, MATCH_IP_SOURCE_PORT_RANGE,
     MATCH_IP_DEST_PORT_RANGE, MATCH_CHARACTERISTICS, MATCH_FRAME_SIZE_RANGE, MATCH_RANDOM, MATCH_TAGS_DIFFERENCE,
     MATCH_TAGS_BITWISE_AND, MATCH_TAGS_BITWISE_OR, MATCH_TAGS_BITWISE_XOR, MATCH_TAGS_EQUAL, MATCH_TAG_SENDER,
     MATCH_TAG_RECEIVER]

  /** Every name has the number of its place. */
  lemma CodesInOrder(n: Name)
    ensures var c := Code(n); if c < 24 then c < 6 && ACTIONS[c] == n else c < 51 && MATCHES[c - 24] == n
  {
  }

  /** And every number in use the name. */
  lemma NamesInOrder(c: nat)
    ensures NameOf(c) == if c < 6 then Some(ACTIONS[c]) else if 24 <= c < 51 then Some(MATCHES[c - 24]) else None
  {
  }

  predicate IsAction(c: nat)
  {
    c <= 5
  }

  // ------------------------------------------------------------------------
  // Reading JSON values

  function JsonInt(h: Helpers, j: Json, dfl: nat): nat
  {
    match j
    case Num(n) => n
    case Text(s) => h.decimal(s)
    case Bool(b) => if b then 1 else 0
    case _ => dfl
  }

  function JsonBool(j: Json, dfl: bool): bool
  {
    match j
    case Bool(b) => b
    case Num(n) => n > 0
    case Text(s) => |s| > 0 && (s[0] == 't' || s[0] == 'T' || s[0] == '1')
    case _ => dfl
  }

  function JsonText(h: Helpers, j: Json, dfl: string): string
  {
    match j
    case Text(s) => s
    case Num(n) => h.printDecimal(n)
    case Bool(b) => if b then "1" else "0"
    case _ => dfl
  }

  /** Numbers, texts and truth values stand for each other; anything else is the default. */
  lemma JsonReads(h: Helpers, n: nat, s: string, dfl: nat, d: bool)
    ensures JsonInt(h, Num(n), dfl) == n && JsonInt(h, Text(s), dfl) == h.decimal(s)
    ensures JsonInt(h, Bool(true), dfl) == 1 && JsonInt(h, Bool(false), dfl) == 0
    ensures JsonInt(h, Missing, dfl) == JsonInt(h, Null, dfl) == JsonInt(h, Nested, dfl) == dfl
    ensures JsonBool(Bool(true), d) && !JsonBool(Bool(false), d) && (JsonBool(Num(n), d) <==> n != 0)
    ensures JsonBool(Text("true"), d) && JsonBool(Text("T"), d) && JsonBool(Text("1"), d)
    ensures !JsonBool(Text("false"), d) && !JsonBool(Text("0"), d) && !JsonBool(Text(""), d)
    ensures JsonBool(Missing, d) == JsonBool(Null, d) == JsonBool(Nested, d) == d
    ensures JsonText(h, Text(s), "") == s && JsonText(h, Num(n), s) == h.printDecimal(n)
    ensures JsonText(h, Bool(true), s) == "1" && JsonText(h, Bool(false), s) == "0"
    ensures JsonText(h, Missing, s) == s && JsonText(h, Null, s) == s && JsonText(h, Nested, s) == s
  {
  }

  function Byte(h: Helpers, j: Json): nat
  {
    JsonInt(h, j, 0) % 0x100
  }

  function Word(h: Helpers, j: Json, dfl: nat): nat
  {
    JsonInt(h, j, dfl) % 0x1_0000
  }

  function DWord(h: Helpers, j: Json): nat
  {
    JsonInt(h, j, 0) % 0x1_0000_0000
  }

  function Hex40(h: Helpers, j: Json): nat
  {
    h.hex(JsonText(h, j, "0")) % 0x100_0000_0000
  }

  /** The mask byte, capped. */
  function Capped(bits: nat, max: nat): nat
  {
    if bits % 0x100 > max then max else bits % 0x100
  }

  /** The fields of a rule; a characteristics mask that is neither number nor text is an error. */
  function ParseShape(h: Helpers, s: Shape, f: Fields): Option<Body>
  {
    match s
    case PlainShape => Some(Nothing)
    case ForwardShape => Some(Fwd(Hex40(h, f.address), DWord(h, f.flags), Word(h, f.length, 0)))
    case RedirectShape => Some(Fwd(Hex40(h, f.address), DWord(h, f.flags), 0))
    case ZtShape => Some(Zt(Hex40(h, f.zt)))
    case VlanIdShape => Some(VlanId(Word(h, f.vlanId, 0)))
    case VlanPcpShape => Some(VlanPcp(Byte(h, f.vlanPcp)))
    case VlanDeiShape => Some(VlanDei(Byte(h, f.vlanDei)))
    case MacShape => Some(Mac(h.unhex(JsonText(h, f.mac, "0"))))
    case Ipv4Shape => ParseIp4(h, f)
    case Ipv6Shape => ParseIp6(h, f)
    case IpTosShape => Some(IpTos(Byte(h, f.mask), Byte(h, f.start), Byte(h, f.end)))
    case IpProtocolShape => Some(IpProtocol(Byte(h, f.ipProtocol)))
    case EtherTypeShape => Some(EtherType(Word(h, f.etherType, 0)))
    case IcmpShape =>
      if f.icmpCode == Null || f.icmpCode == Missing then Some(Icmp(Byte(h, f.icmpType), 0, 0))
      else Some(Icmp(Byte(h, f.icmpType), Byte(h, f.icmpCode), 1))
    case PortShape => Some(Port(Word(h, f.start, 0), Word(h, f.end, Word(h, f.start, 0))))
    case CharacteristicsShape => ParseCharacteristics(h, f)
    case FrameSizeShape => Some(FrameSize(Word(h, f.start, 0), Word(h, f.end, Word(h, f.start, 0))))
    case RandomShape => Some(Random(DWord(h, f.probability)))
    case TagShape => Some(Tag(DWord(h, f.id), DWord(h, f.value)))
  }

  function ParseIp4(h: Helpers, f: Fields): Option<Body>
  {
    var ip := h.parseIp4(JsonText(h, f.ip, "0.0.0.0"));
    Some(Ipv4(ip.0, Capped(ip.1, 32)))
  }

  function ParseIp6(h: Helpers, f: Fields): Option<Body>
  {
    var ip := h.parseIp6(JsonText(h, f.ip, "::0"));
    Some(Ipv6(ip.0, Capped(ip.1, 128)))
  }

  function ParseCharacteristics(h: Helpers, f: Fields): Option<Body>
  {
    match f.mask
    case Missing => Some(Characteristics(0))
    case Num(n) => Some(Characteristics(n % 0x1_0000_0000_0000_0000))
    case Text(s) => Some(Characteristics(h.hex(s)))
    case _ => None
  }

  /** `_parseRule` */
  function ParseRule(h: Helpers, j: JsonRule): Option<Rule>
  {
    if j == Unknown then None
    else
      var v := ParseShape(h, ShapeOf(Code(j.name)), j.fields);
      var not_ := if JsonBool(j.fields.not_, false) then 0x80 else 0;
      var or_ := if JsonBool(j.fields.or_, false) then 0x40 else 0;
      if v == None then None else Some(Rule(not_ + or_ + Code(j.name), v.value))
  }

  // ------------------------------------------------------------------------
  // Rendering

  function RenderBody(h: Helpers, s: Shape, v: Body): Fields
  {
    match v
    case Nothing => BLANK
    case Fwd(a, f, l) =>
      if s == RedirectShape then BLANK.(address := Text(h.printAddress(a % 0x100_0000_0000)), flags := Num(f))
      else BLANK.(address := Text(h.printAddress(a % 0x100_0000_0000)), flags := Num(f), length := Num(l))
    case Zt(a) => BLANK.(zt := Text(h.printAddress(a % 0x100_0000_0000)))
    case VlanId(x) => BLANK.(vlanId := Num(x))
    case VlanPcp(x) => BLANK.(vlanPcp := Num(x))
    case VlanDei(x) => BLANK.(vlanDei := Num(x))
    case Mac(m) => BLANK.(mac := Text(h.printMac(m)))
    case Ipv4(ip, m) => BLANK.(ip := Text(h.printIp(ip, m)))
    case Ipv6(ip, m) => BLANK.(ip := Text(h.printIp(ip, m)))
    case IpTos(m, x, y) => BLANK.(mask := Num(m), start := Num(x), end := Num(y))
    case IpProtocol(x) => BLANK.(ipProtocol := Num(x))
    case EtherType(x) => BLANK.(etherType := Num(x))
    case Icmp(t, c, f) => BLANK.(icmpType := Num(t), icmpCode := if f % 2 != 0 then Num(c) else Null)
    case Port(x, y) => BLANK.(start := Num(x), end := Num(y))
    case Characteristics(x) => BLANK.(mask := Text(h.printHex(x)))
    case FrameSize(x, y) => BLANK.(start := Num(x), end := Num(y))
    case Random(x) => BLANK.(probability := Num(x))
    case Tag(x, y) => BLANK.(id := Num(x), value := Num(y))
  }

  /** `_renderRule`: actions carry no NOT and OR keys, and unknown types render to nothing. */
  function RenderRule(h: Helpers, r: Rule): JsonRule
  {
    var name := NameOf(r.t % 64);
    if name == None then Unknown
    else if IsAction(r.t % 64) then Object(name.value, RenderBody(h, ShapeOf(r.t % 64), r.v))
    else
      var body := RenderBody(h, ShapeOf(r.t % 64), r.v);
      Object(name.value, body.(not_ := Bool(r.t >= 0x80), or_ := Bool(r.t % 0x80 >= 0x40)))
  }

  // ------------------------------------------------------------------------
  // Normalisation

  /** The rule without NOT and OR bits on an action, where they mean nothing. */
  function Normal(r: Rule): Rule
  {
    if IsAction(r.t % 64) then r.(t := r.t % 64) else r
  }

  /** The fields that parsing leaves. */
  predicate Parsed(s: Shape, v: Body)
  {
    && Good(s, v)
    && (v.Fwd? ==> v.address < 0x100_0000_0000 && (s == RedirectShape ==> v.length == 0))
    && (v.Ipv4? ==> v.mask4 <= 32) && (v.Ipv6? ==> v.mask6 <= 128)
    && (v.Icmp? ==> v.icmpFlags == 1 || (v.icmpFlags == 0 && v.icmpCode == 0))
  }

  lemma LawfulTexts(h: Helpers, f: Fields)
    requires h.Lawful()
    ensures |h.unhex(JsonText(h, f.mac, "0"))| == 6
    ensures |h.parseIp4(JsonText(h, f.ip, "0.0.0.0")).0| == 4 && |h.parseIp6(JsonText(h, f.ip, "::0")).0| == 16
    ensures f.mask.Text? ==> h.hex(f.mask.s) < 0x1_0000_0000_0000_0000
  {
    hide JsonText;
  }

  /** Whatever parses has the fields of its type, within the widths of the wire format. */
  lemma ParsedShape(h: Helpers, s: Shape, f: Fields)
    requires h.Lawful() && ParseShape(h, s, f).Some?
    ensures Parsed(s, ParseShape(h, s, f).value)
  {
    hide JsonInt, JsonText, h.Lawful;
    LawfulTexts(h, f);
  }

  /** An object with the rendered fields, and possibly NOT and OR besides. */
  predicate Shows(f: Fields, body: Fields)
  {
    f == body.(not_ := f.not_, or_ := f.or_)
  }

  lemma LawfulPrints(h: Helpers, a: nat, m: seq<byte>, ip: seq<byte>, bits: nat, v: nat)
    requires h.Lawful()
    ensures a < 0x100_0000_0000 ==> h.hex(h.printAddress(a)) == a
    ensures v < 0x1_0000_0000_0000_0000 ==> h.hex(h.printHex(v)) == v
    ensures |m| == 6 ==> h.unhex(h.printMac(m)) == m
    ensures |ip| == 4 && bits <= 32 ==> h.parseIp4(h.printIp(ip, bits)) == (ip, bits)
    ensures |ip| == 16 && bits <= 128 ==> h.parseIp6(h.printIp(ip, bits)) == (ip, bits)
  {
  }

  lemma Hex40Back(h: Helpers, a: nat)
    requires h.Lawful() && a < 0x100_0000_0000
    ensures Hex40(h, Text(h.printAddress(a % 0x100_0000_0000))) == a
  {
    hide h.Lawful;
    LawfulPrints(h, a, [], [], 0, 0);
    WithinFive(a);
  }

  lemma WithinFive(a: nat)
    requires a < 0x100_0000_0000
    ensures a % 0x100_0000_0000 == a
  {
  }

  lemma AddressBack(h: Helpers, s: Shape, v: Body, f: Fields)
    requires h.Lawful() && Parsed(s, v) && Shows(f, RenderBody(h, s, v)) && (v.Fwd? || v.Zt?)
    ensures ParseShape(h, s, f) == Some(v)
  {
    hide h.Lawful, Hex40, ParseIp4, ParseIp6, ParseCharacteristics;
    Hex40Back(h, if v.Fwd? then v.address else v.zt);
  }

  lemma TextBack(h: Helpers, s: Shape, v: Body, f: Fields)
    requires h.Lawful() && Parsed(s, v) && Shows(f, RenderBody(h, s, v))
             && (v.Mac? || v.Ipv4? || v.Ipv6? || v.Characteristics?)
    ensures ParseShape(h, s, f) == Some(v)
  {
    hide h.Lawful, Hex40, JsonInt;
    LawfulPrints(h, 0, if v.Mac? then v.mac else [], if v.Ipv4? then v.ip4 else if v.Ipv6? then v.ip6 else [],
                 if v.Ipv4? then v.mask4 else if v.Ipv6? then v.mask6 else 0,
                 if v.Characteristics? then v.characteristics else 0);
  }

  /** Bodies of one number or none. */
  predicate Single(v: Body)
  {
    v.Nothing? || v.VlanId? || v.VlanPcp? || v.VlanDei? || v.IpProtocol? || v.EtherType? || v.Random?
  }

  lemma NumberBack(h: Helpers, s: Shape, v: Body, f: Fields)
    requires Parsed(s, v) && Shows(f, RenderBody(h, s, v)) && Single(v)
    ensures ParseShape(h, s, f) == Some(v)
  {
    hide Hex40, JsonText, ParseIp4, ParseIp6, ParseCharacteristics;
  }

  lemma RangeBack(h: Helpers, s: Shape, v: Body, f: Fields)
    requires Parsed(s, v) && Shows(f, RenderBody(h, s, v)) && (v.Port? || v.FrameSize? || v.Tag?)
    ensures ParseShape(h, s, f) == Some(v)
  {
    hide Hex40, JsonText, ParseIp4, ParseIp6, ParseCharacteristics;
  }

  lemma TripleBack(h: Helpers, s: Shape, v: Body, f: Fields)
    requires Parsed(s, v) && Shows(f, RenderBody(h, s, v)) && (v.IpTos? || v.Icmp?)
    ensures ParseShape(h, s, f) == Some(v)
  {
    hide Hex40, JsonText, ParseIp4, ParseIp6, ParseCharacteristics;
  }

  lemma ShapeBack(h: Helpers, s: Shape, v: Body, f: Fields)
    requires h.Lawful() && Parsed(s, v) && Shows(f, RenderBody(h, s, v))
    ensures ParseShape(h, s, f) == Some(v)
  {
    hide h.Lawful, Parsed, RenderBody, ParseShape;
    if v.Fwd? || v.Zt? {
      AddressBack(h, s, v, f);
    } else if Single(v) {
      NumberBack(h, s, v, f);
    } else if v.Port? || v.FrameSize? || v.Tag? {
      RangeBack(h, s, v, f);
    } else if v.IpTos? || v.Icmp? {
      TripleBack(h, s, v, f);
    } else {
      TextBack(h, s, v, f);
    }
  }

  lemma RenderedKeys(h: Helpers, s: Shape, v: Body)
    ensures RenderBody(h, s, v).not_ == Missing && RenderBody(h, s, v).or_ == Missing
  {
  }

  /** Matches are rendered with both flags, actions with none of them. */
  lemma RenderedFlags(h: Helpers, r: Rule)
    ensures var j := RenderRule(h, r);
            && (j.Object? <==> r.t % 64 <= 5 || 24 <= r.t % 64 <= 50)
            && (r.t % 64 <= 5 ==> j.fields.not_ == Missing && j.fields.or_ == Missing)
            && (24 <= r.t % 64 <= 50 ==>
                  && j.fields.not_ == Bool(r.t / 128 == 1)
                  && j.fields.or_ == Bool((r.t / 64) % 2 == 1))
  {
    NamesInOrder(r.t % 64);
    hide NameOf, RenderBody;
    RenderedKeys(h, ShapeOf(r.t % 64), r.v);
  }

  /** The type byte of a parsed rule holds its code and the two flags. */
  lemma TypeByte(h: Helpers, j: JsonRule)
    requires ParseRule(h, j).Some?
    ensures var t := ParseRule(h, j).value.t;
            && t % 64 == Code(j.name)
            && (t >= 0x80 <==> JsonBool(j.fields.not_, false))
            && (t % 0x80 >= 0x40 <==> JsonBool(j.fields.or_, false))
  {
    hide Code, JsonBool, ParseShape, ShapeOf;
  }

  lemma FlagBits(t: byte)
    ensures t == (if t >= 0x80 then 0x80 else 0) + (if t % 0x80 >= 0x40 then 0x40 else 0) + t % 64
  {
  }

  /** Normalising once is enough: the rendering of an accepted rule parses to the same rule, up to
      NOT and OR on actions. */
  lemma RenderThenParse(h: Helpers, j: JsonRule)
    requires h.Lawful() && ParseRule(h, j).Some?
    ensures var r := ParseRule(h, j).value;
            ParseRule(h, RenderRule(h, r)) == Some(Normal(r)) && RenderRule(h, Normal(r)) == RenderRule(h, r)
  {
    hide ParseShape, RenderBody, h.Lawful, Parsed, NameOf, Code, ShapeOf;
    var r := ParseRule(h, j).value;
    var s := ShapeOf(Code(j.name));
    TypeByte(h, j);
    NameOfCode(j.name);
    ParsedShape(h, s, j.fields);
    RenderedKeys(h, s, r.v);
    var k := RenderRule(h, r);
    assert k == Object(j.name, k.fields);
    assert Shows(k.fields, RenderBody(h, s, r.v));
    ShapeBack(h, s, r.v, k.fields);
    FlagBits(r.t);
  }

  /** An accepted rule survives the wire format. */
  lemma ParsedIsWellFormed(h: Helpers, j: JsonRule)
    requires h.Lawful() && ParseRule(h, j).Some?
    ensures WellFormed(ParseRule(h, j).value)
  {
    hide ParseShape, h.Lawful, ShapeOf, Code, Good;
    TypeByte(h, j);
    ParsedShape(h, ShapeOf(Code(j.name)), j.fields);
  }

  /** From JSON through the wire and back, nothing but the meaningless bits of actions changes. */
  lemma RuleSurvives(h: Helpers, j: JsonRule, before: seq<byte>, after: seq<byte>)
    requires h.Lawful() && ParseRule(h, j).Some?
    ensures WellFormed(ParseRule(h, j).value)
    ensures var r := ParseRule(h, j).value;
            && ReadRule(before + RuleBytes(r) + after, |before|) == Some((r, |before| + |RuleBytes(r)|))
            && ParseRule(h, RenderRule(h, r)) == Some(Normal(r))
  {
    hide ParseRule, RenderRule, WellFormed, RuleBytes, ReadRule, h.Lawful, Normal;
    ParsedIsWellFormed(h, j);
    RenderThenParse(h, j);
    var r := ParseRule(h, j).value;
    var b := before + RuleBytes(r) + after;
    assert At(b, |before|, RuleBytes(r));
    RuleBack(r, b, |before|);
  }
}
