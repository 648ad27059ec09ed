/** What the controller's JSON rules mean to the frames of a node: the rules engine, running on type
    numbers after parsing and transport, does what the names and fields of the objects say. */
module RuleMeaning {
  import opened Words
  import opened Options
  import opened Buffers
  import opened Bits
  import opened RuleCodec
  import opened RuleJson
  import opened FlowFilter
  import opened FilterLaws

  // ------------------------------------------------------------------------
  // Networks and characteristics, bit by bit

  /** 2^n - 2^m has its ones from bit m up to bit n - 1. */
  lemma {:induction false} OnesBit(n: nat, m: nat, t: nat)
    requires m <= n && t < n && Pow2(m) <= Pow2(n)
    ensures Bit(Pow2(n) - Pow2(m), t) == if m <= t then 1 else 0
    decreases n
  {
    var v := Pow2(n) - Pow2(m);
    if m > 0 {
      PowersGrow(m - 1, n - 1);
      assert v == 2 * (Pow2(n - 1) - Pow2(m - 1));
      if t > 0 {
        OnesBit(n - 1, m - 1, t - 1);
      }
    } else {
      PowersGrow(0, n - 1);
      assert v == 2 * (Pow2(n - 1) - 1) + 1;
      if t > 0 {
        OnesBit(n - 1, 0, t - 1);
      }
    }
  }

  /** The netmask has its ones in front. */
  lemma MaskBit(bits: nat, i: nat, j: nat)
    requires i < 16 && j < 8
    ensures Bit(MaskByte(bits, i), 7 - j) == if 8 * i + j < bits then 1 else 0
  {
    var ones := if bits >= 8 * i + 8 then 8 else if bits <= 8 * i then 0 else bits - 8 * i;
    assert Pow2(8) == 256;
    hide Bit, Pow2;
    MaskBound(8 - ones);
    OnesBit(8, 8 - ones, 7 - j);
  }

  /** The rest of the address behind the first `bits` bits is zero. */
  ghost predicate HostZero(ip: seq<byte>, bits: nat)
  {
    forall t | bits <= t < 8 * |ip| :: AddressBit(ip, t) == 0
  }

  /** An IPv4 rule matches the addresses of its network. */
  lemma Contains4Iff(ip: seq<byte>, bits: nat, a: seq<byte>)
    requires |ip| == |a| == 4
    ensures Contains4(ip, bits, a) <==> bits <= 32 && InNetwork(ip, bits, a)
  {
    hide Shift, Number, AddressBit;
    if bits <= 32 {
      SameNetwork(ip, bits, a);
    }
  }

  /** One byte of the masked comparison, bit by bit. */
  lemma MaskedByte(ip: seq<byte>, bits: nat, a: seq<byte>, i: nat)
    requires |ip| == |a| == 16 && i < 16
    ensures And(a[i], MaskByte(bits, i)) == ip[i] <==> forall t | 8 * i <= t < 8 * i + 8 :: MaskedBit(ip, bits, a, t)
  {
    hide And, Bit, MaskByte, AddressBit;
    var x, m, y: nat := a[i], MaskByte(bits, i), ip[i];
    forall t | 8 * i <= t < 8 * i + 8
      ensures MaskedBit(ip, bits, a, t) <==> Bit(And(x, m), 7 - (t - 8 * i)) == Bit(y, 7 - (t - 8 * i))
    {
      OneBit(ip, bits, a, i, t - 8 * i);
    }
    if forall t | 8 * i <= t < 8 * i + 8 :: MaskedBit(ip, bits, a, t) {
      forall k | 0 <= k < 8
        ensures Bit(And(x, m), k) == Bit(y, k)
      {
        assert MaskedBit(ip, bits, a, 8 * i + 7 - k);
      }
      AndBound(x, m);
      assert Pow2(8) == 256;
      hide Pow2;
      SameBitsSame(And(x, m), y, 8);
    }
  }

  ghost predicate MaskedBit(ip: seq<byte>, bits: nat, a: seq<byte>, t: nat)
    requires |ip| == |a| && t < 8 * |ip|
  {
    AddressBit(ip, t) == if t < bits then AddressBit(a, t) else 0
  }

  lemma OneBit(ip: seq<byte>, bits: nat, a: seq<byte>, i: nat, j: nat)
    requires |ip| == |a| == 16 && i < 16 && j < 8
    ensures MaskedBit(ip, bits, a, 8 * i + j) <==> Bit(And(a[i], MaskByte(bits, i)), 7 - j) == Bit(ip[i], 7 - j)
  {
    hide And, Bit, MaskByte;
    assert (8 * i + j) / 8 == i && (8 * i + j) % 8 == j;
    MaskBit(bits, i, j);
    AndBit(a[i], MaskByte(bits, i), 7 - j);
  }

  /** An IPv6 rule matches the addresses of its network, but only if its own address has no bits
      behind the netmask. */
  lemma Contains6Iff(ip: seq<byte>, bits: nat, a: seq<byte>)
    requires |ip| == |a| == 16
    ensures Contains6(ip, bits, a) <==> bits <= 128 && InNetwork(ip, bits, a) && HostZero(ip, bits)
  {
    hide And, MaskByte, AddressBit;
    forall i | 0 <= i < 16
      ensures And(a[i], MaskByte(bits, i)) == ip[i] <==> forall t | 8 * i <= t < 8 * i + 8 :: MaskedBit(ip, bits, a, t)
    {
      MaskedByte(ip, bits, a, i);
    }
    if Contains6(ip, bits, a) {
      forall t | 0 <= t < 128
        ensures MaskedBit(ip, bits, a, t)
      {
        assert And(a[t / 8], MaskByte(bits, t / 8)) == ip[t / 8];
        assert 8 * (t / 8) <= t < 8 * (t / 8) + 8;
      }
      assert forall t | 0 <= t < bits :: MaskedBit(ip, bits, a, t) ==> AddressBit(ip, t) == AddressBit(a, t);
      assert forall t | bits <= t < 128 :: MaskedBit(ip, bits, a, t) ==> AddressBit(ip, t) == 0;
    }
    if bits <= 128 && InNetwork(ip, bits, a) && HostZero(ip, bits) {
      assert forall t | 0 <= t < 128 :: MaskedBit(ip, bits, a, t);
    }
  }

  /** Characteristic `t` of a frame, as the bits of the mask are documented. */
  ghost predicate Trait(node: Node, f: Frame, t: nat)
    requires |f.macDest| == 6
  {
    if t == 63 then f.inbound
    else if t == 62 then Multicast(f.macDest)
    else if t == 61 then Broadcast(f.macDest)
    else if t == 60 then IpAuthenticated(node, f)
    else if t == 59 then node.ownsMac
    else t < 12 && Bit(TcpFlags(f), t) == 1
  }

  function Cons(b: bool, v: nat): nat
  {
    2 * v + if b then 1 else 0
  }

  lemma ConsBit(b: bool, v: nat, t: nat)
    ensures Bit(Cons(b, v), t) == if t == 0 then (if b then 1 else 0) else Bit(v, t - 1)
  {
    assert Cons(b, v) / 2 == v;
  }

  /** The five upper characteristics as a number. */
  function Upper(node: Node, f: Frame): nat
    requires |f.macDest| == 6
  {
    Cons(node.ownsMac, Cons(IpAuthenticated(node, f), Cons(Broadcast(f.macDest), Cons(Multicast(f.macDest),
      Cons(f.inbound, 0)))))
  }

  lemma UpperBits(node: Node, f: Frame, t: nat)
    requires |f.macDest| == 6 && t < 5
    ensures Bit(Upper(node, f), t) == 1 <==> Trait(node, f, t + 59)
  {
    hide Cons, Bit, IpAuthenticated, Broadcast, Multicast;
    var u4 := Cons(f.inbound, 0);
    var u3 := Cons(Multicast(f.macDest), u4);
    var u2 := Cons(Broadcast(f.macDest), u3);
    var u1 := Cons(IpAuthenticated(node, f), u2);
    ConsBit(node.ownsMac, u1, t);
    if t >= 1 {
      ConsBit(IpAuthenticated(node, f), u2, t - 1);
    }
    if t >= 2 {
      ConsBit(Broadcast(f.macDest), u3, t - 2);
    }
    if t >= 3 {
      ConsBit(Multicast(f.macDest), u4, t - 3);
    }
    if t >= 4 {
      ConsBit(f.inbound, 0, t - 4);
    }
  }

  const UPPER: nat := 0x0800_0000_0000_0000

  lemma UpperWeight()
    ensures Pow2(59) == UPPER
  {
    Pow2Word();
    assert Pow2(40) == 256 * Pow2(32);
    assert Pow2(48) == 256 * Pow2(40);
    assert Pow2(56) == 256 * Pow2(48);
    assert Pow2(59) == 8 * Pow2(56);
  }

  /** Bits of a number with another on top of 59 bits. */
  lemma OnTop(low: nat, u: nat, t: nat)
    requires low < UPPER
    ensures t < 59 ==> Bit(UPPER * u + low, t) == Bit(low, t)
    ensures t >= 59 ==> Bit(UPPER * u + low, t) == Bit(u, t - 59)
  {
    hide Bit, Shift;
    UpperWeight();
    var v := UPPER * u + low;
    if t < 59 {
      BitAdd(u, low, 59, t);
    } else {
      hide Pow2;
      Shifted(v, 59, t - 59);
      ShiftIs(v, 59);
      assert v / UPPER == u;
    }
  }

  lemma {:induction false} HighZero(v: nat, n: nat, t: nat)
    requires v < Pow2(n) && n <= t
    ensures Bit(v, t) == 0
    decreases t
  {
    if t > 0 {
      if n > 0 {
        HighZero(v / 2, n - 1, t - 1);
      } else {
        HighZero(0, 0, t - 1);
      }
    }
  }

  /** The number compared with the mask has exactly the documented characteristics as its bits. */
  lemma TraitBit(node: Node, f: Frame, t: nat)
    requires |f.macDest| == 6 && t < 64
    ensures Bit(Traits(node, f), t) == 1 <==> Trait(node, f, t)
  {
    var low, u := TcpFlags(f), Upper(node, f);
    TraitsSplit(node, f);
    OnTop(low, u, t);
    if t >= 59 {
      hide Bit, Upper, TcpFlags, Traits, Trait;
      UpperBits(node, f, t - 59);
    } else if t >= 12 {
      hide TcpFlags, Upper, Traits;
      assert Pow2(12) == 4096;
      HighZero(low, 12, t);
    }
  }

  lemma TraitsSplit(node: Node, f: Frame)
    requires |f.macDest| == 6
    ensures Traits(node, f) == UPPER * Upper(node, f) + TcpFlags(f) && Upper(node, f) < 32
  {
    hide TcpFlags, IpAuthenticated, Broadcast, Multicast;
  }

  lemma TraitsBound(node: Node, f: Frame)
    requires |f.macDest| == 6
    ensures Traits(node, f) < Pow2(64)
  {
    UpperWeight();
    assert Pow2(64) == 32 * Pow2(59);
    hide TcpFlags, Upper, Traits, Pow2;
    TraitsSplit(node, f);
  }

  /** A mask matches exactly when one of its bits is a characteristic of the frame. */
  lemma MaskMatchesIff(node: Node, f: Frame, mask: nat)
    requires |f.macDest| == 6
    ensures And(Traits(node, f), mask) != 0 <==> exists t | 0 <= t < 64 :: Bit(mask, t) == 1 && Trait(node, f, t)
  {
    hide And, Bit, Traits, Trait;
    TraitsBound(node, f);
    AndNonZero(Traits(node, f), mask, 64);
    forall t | 0 <= t < 64
      ensures Bit(Traits(node, f), t) == 1 <==> Trait(node, f, t)
    {
      TraitBit(node, f, t);
    }
    if exists t | 0 <= t < 64 :: Bit(mask, t) == 1 && Trait(node, f, t) {
      var t :| 0 <= t < 64 && Bit(mask, t) == 1 && Trait(node, f, t);
      assert Bit(Traits(node, f), t) == 1;
    }
  }

  // ------------------------------------------------------------------------
  // What JSON rules say

  predicate IsActionName(n: Name)
  {
    n.ACTION_DROP? || n.ACTION_ACCEPT? || n.ACTION_TEE? || n.ACTION_WATCH? || n.ACTION_REDIRECT? || n.ACTION_BREAK?
  }

  /** The 40-bit address a field spells in hexadecimal. */
  function AddressIn(h: Helpers, j: Json): nat
  {
    h.hex(JsonText(h, j, "0")) % 0x100_0000_0000
  }

  function ActionMeant(h: Helpers, n: Name, x: Fields): Action
  {
    match n
    case ACTION_DROP => Dropping
    case ACTION_ACCEPT => Accepting
    case ACTION_TEE => Copying(AddressIn(h, x.address), JsonInt(h, x.length, 0) % 0x1_0000, false)
    case ACTION_WATCH => Copying(AddressIn(h, x.address), JsonInt(h, x.length, 0) % 0x1_0000, true)
    case ACTION_REDIRECT => Redirecting(AddressIn(h, x.address))
    case ACTION_BREAK => Breaking
    case _ => Idle
  }

  /** The address lies in the network "ip/bits" of an IPv4 rule. */
  ghost predicate Net4(h: Helpers, j: Json, a: seq<byte>)
  {
    var n := h.parseIp4(JsonText(h, j, "0.0.0.0"));
    var bits := if n.1 % 256 > 32 then 32 else n.1 % 256;
    |n.0| == |a| == 4 && InNetwork(n.0, bits, a)
  }

  /** The same for an IPv6 rule, whose own address must be that of the network. */
  ghost predicate Net6(h: Helpers, j: Json, a: seq<byte>)
  {
    var n := h.parseIp6(JsonText(h, j, "::0"));
    var bits := if n.1 % 256 > 128 then 128 else n.1 % 256;
    |n.0| == |a| == 16 && InNetwork(n.0, bits, a) && HostZero(n.0, bits)
  }

  /** A range of 16-bit numbers; without an end it is a single number. */
  predicate InRange(h: Helpers, x: Fields, v: nat)
  {
    var lo := JsonInt(h, x.start, 0) % 0x1_0000;
    lo <= v <= JsonInt(h, x.end, lo) % 0x1_0000
  }

  function MaskIn(h: Helpers, j: Json): nat
  {
    match j
    case Num(n) => n % 0x1_0000_0000_0000_0000
    case Text(s) => h.hex(s)
    case _ => 0
  }

  /** The values of a tag on both sides pass a test; an unknown value of the other side passes on the
      way out and at the target of a forward. */
  predicate BothTags(node: Node, f: Frame, target: bool, n: Name, id: nat, v: nat)
  {
    && id in node.localTags
    && if id in node.remoteTags then Compare(n, node.localTags[id], node.remoteTags[id], v) else target || !f.inbound
  }

  /** How the values of both sides are compared. */
  predicate Compare(n: Name, a: nat, b: nat, v: nat)
  {
    match n
    case MATCH_TAGS_DIFFERENCE => a <= b + v && b <= a + v
    case MATCH_TAGS_BITWISE_AND => And(a, b) == v
    case MATCH_TAGS_BITWISE_OR => Or(a, b) == v
    case MATCH_TAGS_BITWISE_XOR => Xor(a, b) == v
    case _ => a == v && b == v
  }

  /** The tag of the sender: that of the other side for what comes in. */
  predicate SenderTag(node: Node, f: Frame, target: bool, id: nat, v: nat)
  {
    var tags := if f.inbound then node.remoteTags else node.localTags;
    target || (id in tags && tags[id] == v)
  }

  /** The tag of the receiver; on the way out it passes while it is unknown. */
  predicate ReceiverTag(node: Node, f: Frame, target: bool, id: nat, v: nat)
  {
    var tags := if f.inbound then node.localTags else node.remoteTags;
    target || (if id in tags then tags[id] == v else !f.inbound)
  }

  /** What a match says about a frame, by its name. */
  ghost predicate Means(h: Helpers, node: Node, f: Frame, target: bool, n: Name, x: Fields, draw: nat)
    requires |f.macDest| == 6
  {
    var id, v := JsonInt(h, x.id, 0) % 0x1_0000_0000, JsonInt(h, x.value, 0) % 0x1_0000_0000;
    match n
    case MATCH_SOURCE_ZEROTIER_ADDRESS => f.source == AddressIn(h, x.zt)
    case MATCH_DEST_ZEROTIER_ADDRESS => f.dest == AddressIn(h, x.zt)
    case MATCH_VLAN_ID => f.vlanId % 0x1_0000 == JsonInt(h, x.vlanId, 0) % 0x1_0000
    case MATCH_VLAN_PCP => JsonInt(h, x.vlanPcp, 0) % 0x100 == 0
    case MATCH_VLAN_DEI => JsonInt(h, x.vlanDei, 0) % 0x100 == 0
    case MATCH_MAC_SOURCE => f.macSource == h.unhex(JsonText(h, x.mac, "0"))
    case MATCH_MAC_DEST => f.macDest == h.unhex(JsonText(h, x.mac, "0"))
    case MATCH_IPV4_SOURCE => Is4(f) && Net4(h, x.ip, f.data[12..16])
    case MATCH_IPV4_DEST => Is4(f) && Net4(h, x.ip, f.data[16..20])
    case MATCH_IPV6_SOURCE => Is6(f) && Net6(h, x.ip, f.data[8..24])
    case MATCH_IPV6_DEST => Is6(f) && Net6(h, x.ip, f.data[24..40])
    case MATCH_IP_TOS =>
      && Tos(f).Some?
      && var tos := And(Tos(f).value, JsonInt(h, x.mask, 0) % 0x100);
         JsonInt(h, x.start, 0) % 0x100 <= tos <= JsonInt(h, x.end, 0) % 0x100
    case MATCH_IP_PROTOCOL => ProtocolOf(f) == Some(JsonInt(h, x.ipProtocol, 0) % 0x100)
    case MATCH_ETHERTYPE => f.etherType % 0x1_0000 == JsonInt(h, x.etherType, 0) % 0x1_0000
    case MATCH_ICMP =>
      && IcmpOf(f).Some? && IcmpOf(f).value.0 == JsonInt(h, x.icmpType, 0) % 0x100
      && (x.icmpCode != Null && x.icmpCode != Missing ==> IcmpOf(f).value.1 == JsonInt(h, x.icmpCode, 0) % 0x100)
    case MATCH_IP_SOURCE_PORT_RANGE =>
      PortOf(f, false).Some? && InRange(h, x, PortOf(f, false).value) && (Is4(f) || PortOf(f, false).value > 0)
    case MATCH_IP_DEST_PORT_RANGE =>
      PortOf(f, true).Some? && InRange(h, x, PortOf(f, true).value) && (Is4(f) || PortOf(f, true).value > 0)
    case MATCH_CHARACTERISTICS => exists t | 0 <= t < 64 :: Bit(MaskIn(h, x.mask), t) == 1 && Trait(node, f, t)
    case MATCH_FRAME_SIZE_RANGE => InRange(h, x, |f.data|)
    case MATCH_RANDOM => draw % 0x1_0000_0000 <= JsonInt(h, x.probability, 0) % 0x1_0000_0000
    case MATCH_TAGS_DIFFERENCE => BothTags(node, f, target, n, id, v)
    case MATCH_TAGS_BITWISE_AND => BothTags(node, f, target, n, id, v)
    case MATCH_TAGS_BITWISE_OR => BothTags(node, f, target, n, id, v)
    case MATCH_TAGS_BITWISE_XOR => BothTags(node, f, target, n, id, v)
    case MATCH_TAGS_EQUAL => BothTags(node, f, target, n, id, v)
    case MATCH_TAG_SENDER => SenderTag(node, f, target, id, v)
    case MATCH_TAG_RECEIVER => ReceiverTag(node, f, target, id, v)
    case _ => node.unsupported
  }

  predicate Simple(n: Name)
  {
    || n.MATCH_SOURCE_ZEROTIER_ADDRESS? || n.MATCH_DEST_ZEROTIER_ADDRESS? || n.MATCH_VLAN_ID? || n.MATCH_VLAN_PCP?
    || n.MATCH_VLAN_DEI? || n.MATCH_MAC_SOURCE? || n.MATCH_MAC_DEST? || n.MATCH_ETHERTYPE?
    || n.MATCH_FRAME_SIZE_RANGE? || n.MATCH_RANDOM?
  }

  predicate Payloads(n: Name)
  {
    || n.MATCH_IP_TOS? || n.MATCH_IP_PROTOCOL? || n.MATCH_ICMP? || n.MATCH_IP_SOURCE_PORT_RANGE?
    || n.MATCH_IP_DEST_PORT_RANGE?
  }

  predicate TagNames(n: Name)
  {
    || n.MATCH_TAGS_DIFFERENCE? || n.MATCH_TAGS_BITWISE_AND? || n.MATCH_TAGS_BITWISE_OR? || n.MATCH_TAGS_BITWISE_XOR?
    || n.MATCH_TAGS_EQUAL? || n.MATCH_TAG_SENDER? || n.MATCH_TAG_RECEIVER?
  }

  /** The rule has the code and the fields of its object. */
  predicate Compiled(h: Helpers, n: Name, x: Fields, r: Rule)
  {
    WellFormed(r) && r.t % 64 == Code(n) && ParseShape(h, ShapeOf(Code(n)), x) == Some(r.v)
  }

  lemma SimpleMeans(h: Helpers, node: Node, f: Frame, target: bool, n: Name, x: Fields, r: Rule, draw: nat)
    requires Compiled(h, n, x, r) && Simple(n) && |f.macDest| == 6
    ensures Matches(node, f, target, r, draw) <==> Means(h, node, f, target, n, x, draw)
  {
    hide Matches, Means, Compiled;
    if n.MATCH_ETHERTYPE? || n.MATCH_FRAME_SIZE_RANGE? || n.MATCH_RANDOM? {
      NumberMeans(h, node, f, target, n, x, r, draw);
    } else {
      LinkMeans(h, node, f, target, n, x, r, draw);
    }
  }

  lemma NumberMeans(h: Helpers, node: Node, f: Frame, target: bool, n: Name, x: Fields, r: Rule, draw: nat)
    requires Compiled(h, n, x, r) && (n.MATCH_ETHERTYPE? || n.MATCH_FRAME_SIZE_RANGE? || n.MATCH_RANDOM?)
    requires |f.macDest| == 6
    ensures Matches(node, f, target, r, draw) <==> Means(h, node, f, target, n, x, draw)
  {
    hide JsonInt, WellFormed;
  }

  lemma LinkMeans(h: Helpers, node: Node, f: Frame, target: bool, n: Name, x: Fields, r: Rule, draw: nat)
    requires Compiled(h, n, x, r) && Simple(n) && |f.macDest| == 6
    requires !n.MATCH_ETHERTYPE? && !n.MATCH_FRAME_SIZE_RANGE? && !n.MATCH_RANDOM?
    ensures Matches(node, f, target, r, draw) <==> Means(h, node, f, target, n, x, draw)
  {
    hide JsonInt, JsonText, WellFormed;
  }

  lemma Net4Is(h: Helpers, x: Fields, a: seq<byte>)
    requires h.Lawful() && |a| == 4
    ensures var v := ParseIp4(h, x).value; Contains4(v.ip4, v.mask4, a) <==> Net4(h, x.ip, a)
  {
    LawfulTexts(h, x);
    hide JsonText, Contains4, h.Lawful, InNetwork;
    var v := ParseIp4(h, x).value;
    Contains4Iff(v.ip4, v.mask4, a);
  }

  lemma Net6Is(h: Helpers, x: Fields, a: seq<byte>)
    requires h.Lawful() && |a| == 16
    ensures var v := ParseIp6(h, x).value; |v.ip6| == 16 && (Contains6(v.ip6, v.mask6, a) <==> Net6(h, x.ip, a))
  {
    LawfulTexts(h, x);
    hide JsonText, Contains6, h.Lawful, InNetwork, HostZero;
    var v := ParseIp6(h, x).value;
    Contains6Iff(v.ip6, v.mask6, a);
  }

  lemma Network4Means(h: Helpers, node: Node, f: Frame, target: bool, n: Name, x: Fields, r: Rule, draw: nat)
    requires h.Lawful() && Compiled(h, n, x, r) && (n.MATCH_IPV4_SOURCE? || n.MATCH_IPV4_DEST?) && |f.macDest| == 6
    ensures Matches(node, f, target, r, draw) <==> Means(h, node, f, target, n, x, draw)
  {
    hide Contains4, Net4, h.Lawful, WellFormed, ParseIp4, JsonInt;
    assert r.v == ParseIp4(h, x).value;
    if Is4(f) {
      Net4Is(h, x, f.data[12..16]);
      Net4Is(h, x, f.data[16..20]);
    }
  }

  lemma Network6Means(h: Helpers, node: Node, f: Frame, target: bool, n: Name, x: Fields, r: Rule, draw: nat)
    requires h.Lawful() && Compiled(h, n, x, r) && (n.MATCH_IPV6_SOURCE? || n.MATCH_IPV6_DEST?) && |f.macDest| == 6
    ensures Matches(node, f, target, r, draw) <==> Means(h, node, f, target, n, x, draw)
  {
    hide Contains6, Net6, h.Lawful, WellFormed, ParseIp6, JsonInt;
    assert r.v == ParseIp6(h, x).value;
    if Is6(f) {
      Net6Is(h, x, f.data[8..24]);
      Net6Is(h, x, f.data[24..40]);
    }
  }

  lemma PayloadMeans(h: Helpers, node: Node, f: Frame, target: bool, n: Name, x: Fields, r: Rule, draw: nat)
    requires Compiled(h, n, x, r) && Payloads(n) && |f.macDest| == 6
    ensures Matches(node, f, target, r, draw) <==> Means(h, node, f, target, n, x, draw)
  {
    hide JsonInt, JsonText, And, Traits, PortOf, IcmpOf, ProtocolOf, Tos, Contains4, Contains6, WellFormed;
  }

  lemma MaskMeans(h: Helpers, node: Node, f: Frame, target: bool, n: Name, x: Fields, r: Rule, draw: nat)
    requires Compiled(h, n, x, r) && n.MATCH_CHARACTERISTICS? && |f.macDest| == 6
    ensures Matches(node, f, target, r, draw) <==> Means(h, node, f, target, n, x, draw)
  {
    hide JsonInt, JsonText, And, Traits, PortOf, IcmpOf, ProtocolOf, Tos, Contains4, Contains6, WellFormed, Trait, Bit;
    assert r.v == Characteristics(MaskIn(h, x.mask));
    MaskMatchesIff(node, f, MaskIn(h, x.mask));
  }

  lemma TagMeans(h: Helpers, node: Node, f: Frame, target: bool, n: Name, x: Fields, r: Rule, draw: nat)
    requires Compiled(h, n, x, r) && TagNames(n) && |f.macDest| == 6
    ensures Matches(node, f, target, r, draw) <==> Means(h, node, f, target, n, x, draw)
  {
    hide Matches, Means;
    if n.MATCH_TAG_SENDER? || n.MATCH_TAG_RECEIVER? {
      SideMeans(h, node, f, target, n, x, r, draw);
    } else {
      BothMeans(h, node, f, target, n, x, r, draw);
    }
  }

  lemma SideMeans(h: Helpers, node: Node, f: Frame, target: bool, n: Name, x: Fields, r: Rule, draw: nat)
    requires Compiled(h, n, x, r) && (n.MATCH_TAG_SENDER? || n.MATCH_TAG_RECEIVER?) && |f.macDest| == 6
    ensures Matches(node, f, target, r, draw) <==> Means(h, node, f, target, n, x, draw)
  {
    hide JsonInt, WellFormed;
  }

  lemma BothMeans(h: Helpers, node: Node, f: Frame, target: bool, n: Name, x: Fields, r: Rule, draw: nat)
    requires Compiled(h, n, x, r) && TagNames(n) && !n.MATCH_TAG_SENDER? && !n.MATCH_TAG_RECEIVER? && |f.macDest| == 6
    ensures Matches(node, f, target, r, draw) <==> Means(h, node, f, target, n, x, draw)
  {
    hide JsonInt, WellFormed, TagsMatch, BothTags, Code, ParseShape, ShapeOf;
    TagFields(h, n, x, r);
    BothIs(node, f, target, n, r.v.tagId, r.v.tagValue);
    BothCase(node, f, target, r, draw);
    hide Matches;
  }

  lemma TagFields(h: Helpers, n: Name, x: Fields, r: Rule)
    requires Compiled(h, n, x, r) && TagNames(n)
    ensures r.v == Tag(JsonInt(h, x.id, 0) % 0x1_0000_0000, JsonInt(h, x.value, 0) % 0x1_0000_0000)
    ensures !n.MATCH_TAG_SENDER? && !n.MATCH_TAG_RECEIVER? ==> 44 <= r.t % 64 <= 48
  {
    hide JsonInt, WellFormed;
  }

  lemma BothCase(node: Node, f: Frame, target: bool, r: Rule, draw: nat)
    requires WellFormed(r) && 44 <= r.t % 64 <= 48 && r.v.Tag? && |f.macDest| == 6
    ensures Matches(node, f, target, r, draw) <==> TagsMatch(node, f, target, r.t % 64, r.v.tagId, r.v.tagValue)
  {
    hide WellFormed, TagsMatch;
  }

  lemma BothIs(node: Node, f: Frame, target: bool, n: Name, id: nat, v: nat)
    requires TagNames(n) && !n.MATCH_TAG_SENDER? && !n.MATCH_TAG_RECEIVER?
    ensures TagsMatch(node, f, target, Code(n), id, v) <==> BothTags(node, f, target, n, id, v)
  {
    hide And, Or, Xor;
  }

  /** Every match does to a frame what its name and fields say. */
  lemma MatchMeans(h: Helpers, node: Node, f: Frame, target: bool, n: Name, x: Fields, r: Rule, draw: nat)
    requires h.Lawful() && Compiled(h, n, x, r) && !IsActionName(n) && |f.macDest| == 6
    ensures Matches(node, f, target, r, draw) <==> Means(h, node, f, target, n, x, draw)
  {
    hide Matches, Means, Compiled, h.Lawful;
    if Simple(n) {
      SimpleMeans(h, node, f, target, n, x, r, draw);
    } else if n.MATCH_IPV4_SOURCE? || n.MATCH_IPV4_DEST? {
      Network4Means(h, node, f, target, n, x, r, draw);
    } else if n.MATCH_IPV6_SOURCE? || n.MATCH_IPV6_DEST? {
      Network6Means(h, node, f, target, n, x, r, draw);
    } else if Payloads(n) {
      PayloadMeans(h, node, f, target, n, x, r, draw);
    } else if TagNames(n) {
      TagMeans(h, node, f, target, n, x, r, draw);
    } else {
      MaskMeans(h, node, f, target, n, x, r, draw);
    }
  }

  lemma ActionMeans(h: Helpers, n: Name, x: Fields, r: Rule)
    requires Compiled(h, n, x, r) && IsActionName(n)
    ensures r.t % 64 <= 15 && ActionOf(r) == ActionMeant(h, n, x)
  {
    hide JsonInt, JsonText;
  }

  // ------------------------------------------------------------------------
  // Whole rule sets

  /** What a JSON rule says about one frame. */
  ghost function EntryMeant(h: Helpers, node: Node, f: Frame, j: JsonRule, draw: nat): Entry
    requires j.Object? && |f.macDest| == 6
  {
    if IsActionName(j.name) then Act(ActionMeant(h, j.name, j.fields))
    else
      var negated := JsonBool(j.fields.not_, false);
      Test(JsonBool(j.fields.or_, false), Means(h, node, f, false, j.name, j.fields, draw) != negated,
           Means(h, node, f, true, j.name, j.fields, draw) != negated)
  }

  lemma NameIsAction(n: Name)
    ensures IsActionName(n) <==> Code(n) <= 15
  {
  }

  /** A parsed rule bears on every frame as its object says. */
  lemma EntryMeans(h: Helpers, node: Node, f: Frame, j: JsonRule, draw: nat)
    requires h.Lawful() && ParseRule(h, j).Some? && |f.macDest| == 6
    ensures WellFormed(ParseRule(h, j).value)
    ensures EntryOf(node, f, ParseRule(h, j).value, draw) == EntryMeant(h, node, f, j, draw)
  {
    hide Code, ShapeOf, ParseShape, JsonBool, h.Lawful, WellFormed, Matches, Means, ActionOf, ActionMeant, IsActionName;
    var r := ParseRule(h, j).value;
    ParsedIsWellFormed(h, j);
    TypeByte(h, j);
    assert Compiled(h, j.name, j.fields, r);
    NameIsAction(j.name);
    if IsActionName(j.name) {
      ActionMeans(h, j.name, j.fields, r);
    } else {
      MatchMeans(h, node, f, false, j.name, j.fields, r, draw);
      MatchMeans(h, node, f, true, j.name, j.fields, r, draw);
    }
  }

  predicate AllParse(h: Helpers, js: seq<JsonRule>)
  {
    forall i | 0 <= i < |js| :: js[i].Object? && ParseRule(h, js[i]).Some?
  }

  function ParseAll(h: Helpers, js: seq<JsonRule>): (rules: seq<Rule>)
    requires AllParse(h, js)
    ensures |rules| == |js|
  {
    seq(|js|, i requires 0 <= i < |js| => ParseRule(h, js[i]).value)
  }

  ghost function EntriesMeant(h: Helpers, node: Node, f: Frame, js: seq<JsonRule>, draws: nat -> nat): (es: seq<Entry>)
    requires AllParse(h, js) && |f.macDest| == 6
    ensures |es| == |js|
  {
    seq(|js|, i requires 0 <= i < |js| => EntryMeant(h, node, f, js[i], draws(i)))
  }

  /** What the objects say should be done with the frame. */
  ghost function JsonDecision(h: Helpers, node: Node, f: Frame, js: seq<JsonRule>, draws: nat -> nat): Result
    requires AllParse(h, js) && |f.macDest| == 6
  {
    Decide(f, EntriesMeant(h, node, f, js, draws), true, false, None)
  }

  /** A set of JSON rules that is parsed, sent to a node in the wire format, read there and run by its
      rules engine decides every frame as the names and fields of the objects say. */
  lemma RuleSetMeans(h: Helpers, node: Node, f: Frame, js: seq<JsonRule>, draws: nat -> nat, before: seq<byte>,
                     after: seq<byte>)
    requires h.Lawful() && AllParse(h, js) && |f.macDest| == 6
    ensures forall i | 0 <= i < |js| :: WellFormed(ParseAll(h, js)[i])
    ensures var rules := ParseAll(h, js);
            && ReadRules(before + RulesBytes(rules) + after, |before|, |rules|)
               == Some((rules, |before| + |RulesBytes(rules)|))
            && Decision(node, f, rules, draws) == JsonDecision(h, node, f, js, draws)
  {
    hide ParseRule, h.Lawful, WellFormed, Decide, EntryMeant, EntryOf, ReadRules, RulesBytes;
    var rules := ParseAll(h, js);
    forall i | 0 <= i < |js|
      ensures WellFormed(rules[i]) && EntryOf(node, f, rules[i], draws(i)) == EntryMeant(h, node, f, js[i], draws(i))
    {
      EntryMeans(h, node, f, js[i], draws(i));
    }
    assert Entries(node, f, rules, draws) == EntriesMeant(h, node, f, js, draws);
    var b := before + RulesBytes(rules) + after;
    assert At(b, |before|, RulesBytes(rules));
    RulesBack(rules, b, |before|);
  }

  /** A rule set whose last object is an ACTION_DROP, or ACTION_ACCEPT, behind another action, drops or
      accepts every frame that the others leave undecided. */
  lemma LastNameDecides(h: Helpers, node: Node, f: Frame, js: seq<JsonRule>, last: JsonRule, draws: nat -> nat)
    requires AllParse(h, js) && last.Object? && ParseRule(h, last).Some? && |f.macDest| == 6
    requires last.name.ACTION_DROP? || last.name.ACTION_ACCEPT?
    requires |js| > 0 ==> IsActionName(js[|js| - 1].name)
    ensures AllParse(h, js + [last])
    ensures var before := JsonDecision(h, node, f, js, draws);
            var d := JsonDecision(h, node, f, js + [last], draws);
            if before.verdict != Undecided then d == before
            else if last.name.ACTION_DROP? then d.verdict == Drop
            else d.verdict == if before.target then SuperAccept else Accept
  {
    hide ParseRule, Decide, Means;
    var n, all := |js|, js + [last];
    var es := EntriesMeant(h, node, f, js, draws);
    var a := ActionMeant(h, last.name, last.fields);
    var whole := EntriesMeant(h, node, f, all, draws);
    forall i | 0 <= i < |all|
      ensures whole[i] == (es + [Act(a)])[i]
    {
      assert whole[i] == EntryMeant(h, node, f, all[i], draws(i));
    }
    assert whole == es + [Act(a)];
    if n > 0 {
      assert es[n - 1] == EntryMeant(h, node, f, js[n - 1], draws(n - 1));
    }
    LastWord(f, es, a);
  }
}
