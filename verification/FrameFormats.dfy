/** What the rules engine sees in frames that are laid out as RFC 791, RFC 8200, RFC 826 and IEEE 802
    say. */
module FrameFormats {
  import opened Words
  import opened Options
  import opened Limbs
  import opened Buffers
  import opened Bits
  import opened RuleCodec
  import opened FlowFilter

  // ------------------------------------------------------------------------
  // IPv4

  /** The fields of an IPv4 header that the engine looks at; `middle` and `checksum` fill the gaps. */
  datatype Ipv4Packet = Ipv4Packet(tos: byte, middle: seq<byte>, proto: byte, checksum: seq<byte>, source: seq<byte>,
                                   dest: seq<byte>, options: seq<byte>, payload: seq<byte>)
  {
    predicate Valid()
    {
      && |middle| == 7 && |checksum| == 2 && |source| == 4 && |dest| == 4
      && |options| <= 40 && |options| % 4 == 0
    }

    /** Version 4 and the header length in words share the first byte. */
    function Bytes(): seq<byte>
      requires Valid()
    {
      [0x45 + |options| / 4, tos] + middle + [proto] + checksum + source + dest + options + payload
    }
  }

  lemma Ipv4Fields(p: Ipv4Packet)
    requires p.Valid()
    ensures var d := p.Bytes();
            && |d| == 20 + |p.options| + |p.payload|
            && d[0] == 0x45 + |p.options| / 4 && d[1] == p.tos && d[9] == p.proto
            && d[12..16] == p.source && d[16..20] == p.dest && d[20 + |p.options|..] == p.payload
  {
  }

  /** The engine reads type of service, protocol, addresses and the place of the payload. */
  lemma SeesIpv4(f: Frame, p: Ipv4Packet)
    requires p.Valid() && f.etherType == 0x0800 && f.data == p.Bytes()
    ensures Is4(f) && Tos(f) == Some(p.tos as nat) && ProtocolOf(f) == Some(p.proto as nat)
    ensures f.data[12..16] == p.source && f.data[16..20] == p.dest
    ensures Transport(f) == Some((20 + |p.options|, p.proto as nat)) && f.data[20 + |p.options|..] == p.payload
  {
    Ipv4Fields(p);
    hide p.Bytes;
    HeaderWords(|p.options| / 4);
  }

  lemma HeaderWords(n: nat)
    requires n <= 10
    ensures (0x45 + n) % 16 == 5 + n
  {
  }

  // ------------------------------------------------------------------------
  // IPv6

  /** An extension header: hop-by-hop options, routing, destination options or mobility. */
  datatype Header = Header(kind: byte, body: seq<byte>)
  {
    predicate Valid()
    {
      kind in {0, 43, 60, 135} && |body| % 8 == 6 && |body| < 2048
    }
  }

  predicate Sound(hs: seq<Header>)
  {
    forall i | 0 <= i < |hs| :: hs[i].Valid()
  }

  /** The headers, each announcing the kind of the next one and its own length beyond eight bytes. */
  function Chain(hs: seq<Header>, proto: byte): seq<byte>
    requires Sound(hs)
  {
    if |hs| == 0 then []
    else Front(First(hs[1..], proto), hs[0]) + hs[0].body + Chain(hs[1..], proto)
  }

  function Front(next: byte, h: Header): seq<byte>
    requires h.Valid()
  {
    [next, |h.body| / 8]
  }

  function First(hs: seq<Header>, proto: byte): byte
  {
    if |hs| == 0 then proto else hs[0].kind
  }

  datatype Ipv6Packet = Ipv6Packet(traffic: byte, flow: byte, middle: seq<byte>, hops: byte, source: seq<byte>,
                                   dest: seq<byte>, headers: seq<Header>, proto: byte, payload: seq<byte>)
  {
    predicate Valid()
    {
      && flow < 16 && |middle| == 4 && |source| == 16 && |dest| == 16 && proto !in {0, 43, 60, 135}
      && Sound(headers)
    }

    /** Version 6, the traffic class and the flow label share the first four bytes. */
    function Fixed(): (s: seq<byte>)
      requires Valid()
      ensures |s| == 40
    {
      [0x60 + traffic / 16, 16 * (traffic % 16) + flow] + middle + [First(headers, proto), hops] + source + dest
    }

    function Bytes(): seq<byte>
      requires Valid()
    {
      Fixed() + Chain(headers, proto) + payload
    }
  }

  /** The engine finds the payload behind any chain of extension headers. */
  lemma {:induction false} SkipsChain(data: seq<byte>, pos: nat, hs: seq<Header>, proto: byte)
    requires Sound(hs) && proto !in {0, 43, 60, 135}
    requires At(data, pos, Chain(hs, proto))
    ensures PayloadFrom(data, pos, First(hs, proto)) == Some((pos + |Chain(hs, proto)|, proto as nat))
    decreases |hs|
  {
    hide *;
    if |hs| == 0 {
      NoHeader(data, pos, hs, proto);
    } else {
      var h, rest := hs[0], hs[1..];
      ChainFirst(hs, proto);
      OneHeader(data, pos, First(rest, proto), h, Chain(rest, proto));
      SkipsChain(data, pos + 2 + |h.body|, rest, proto);
    }
  }

  lemma ChainFirst(hs: seq<Header>, proto: byte)
    requires |hs| > 0 && Sound(hs)
    ensures First(hs, proto) == hs[0].kind && hs[0].Valid() && Sound(hs[1..])
    ensures var rest := Chain(hs[1..], proto);
            && Chain(hs, proto) == Front(First(hs[1..], proto), hs[0]) + hs[0].body + rest
            && |Chain(hs, proto)| == 2 + |hs[0].body| + |rest|
  {
  }

  lemma NoHeader(data: seq<byte>, pos: nat, hs: seq<Header>, proto: byte)
    requires |hs| == 0 && proto !in {0, 43, 60, 135} && At(data, pos, Chain(hs, proto))
    ensures PayloadFrom(data, pos, First(hs, proto)) == Some((pos + |Chain(hs, proto)|, proto as nat))
  {
  }

  lemma OneHeader(data: seq<byte>, pos: nat, next: byte, h: Header, rest: seq<byte>)
    requires h.Valid() && At(data, pos, Front(next, h) + h.body + rest)
    ensures At(data, pos + 2 + |h.body|, rest)
    ensures PayloadFrom(data, pos, h.kind) == PayloadFrom(data, pos + 2 + |h.body|, next)
  {
    AtSplit(data, pos, Front(next, h) + h.body, rest);
    AtSplit(data, pos, Front(next, h), h.body);
    assert data[pos] == data[pos..pos + 2][0] && data[pos + 1] == data[pos..pos + 2][1];
  }

  lemma Ipv6Fields(p: Ipv6Packet)
    requires p.Valid()
    ensures var d, n := p.Bytes(), 40 + |Chain(p.headers, p.proto)|;
            && |d| == n + |p.payload| && d[0] == 0x60 + p.traffic / 16 && d[1] == 16 * (p.traffic % 16) + p.flow
            && d[6] == First(p.headers, p.proto) && d[8..24] == p.source && d[24..40] == p.dest
            && At(d, 40, Chain(p.headers, p.proto)) && d[n..] == p.payload
  {
    hide Chain;
  }

  /** Traffic class, addresses, protocol and the place of the payload of an IPv6 packet. */
  lemma SeesIpv6(f: Frame, p: Ipv6Packet)
    requires p.Valid() && f.etherType == 0x86dd && f.data == p.Bytes()
    ensures var n := 40 + |Chain(p.headers, p.proto)|;
            && Is6(f) && !Is4(f) && Tos(f) == Some(p.traffic as nat) && ProtocolOf(f) == Some(p.proto as nat)
            && f.data[8..24] == p.source && f.data[24..40] == p.dest
            && Transport(f) == Some((n, p.proto as nat)) && |f.data| == n + |p.payload| && f.data[n..] == p.payload
  {
    Ipv6Fields(p);
    hide Chain, p.Bytes;
    SkipsChain(f.data, 40, p.headers, p.proto);
    TrafficClass(p.traffic, p.flow);
  }

  lemma TrafficClass(t: byte, flow: byte)
    requires flow < 16
    ensures 16 * ((0x60 + t / 16) % 16) + (16 * (t % 16) + flow) / 16 == t
  {
  }

  // ------------------------------------------------------------------------
  // Transport

  /** Ports are the first two 16-bit numbers of TCP, UDP, SCTP and UDP-Lite, and of nothing else. */
  lemma SeesPorts(f: Frame, n: nat, proto: nat, payload: seq<byte>)
    requires Transport(f) == Some((n, proto)) && n + |payload| == |f.data| && f.data[n..] == payload
    ensures PortOf(f, false).Some? <==> proto in {6, 17, 132, 136} && |payload| > 4
    ensures PortOf(f, true).Some? <==> proto in {6, 17, 132, 136} && |payload| > 4
    ensures PortOf(f, false).Some? ==> PortOf(f, false).value == Number(payload[0..2])
                                       && PortOf(f, true).value == Number(payload[2..4])
  {
    hide Transport;
    if |payload| > 4 {
      assert forall i | 0 <= i < 4 :: f.data[n + i] == payload[i];
      TwoBytes(payload[0..2]);
      TwoBytes(payload[2..4]);
    }
  }

  lemma TwoBytes(s: seq<byte>)
    requires |s| == 2
    ensures Number(s) == 256 * s[0] as int + s[1]
  {
    assert s[..1][..0] == [];
    assert Number(s[..1]) == 256 * Number(s[..1][..0]) + s[..1][0];
  }

  /** Type and code open an ICMP message of either family. */
  lemma SeesIcmp(f: Frame, n: nat, proto: nat, payload: seq<byte>)
    requires Transport(f) == Some((n, proto)) && n + |payload| == |f.data| && f.data[n..] == payload
    ensures IcmpOf(f).Some? <==> proto == (if Is4(f) then 1 else 58) && |payload| >= 2
    ensures IcmpOf(f).Some? ==> IcmpOf(f).value == (payload[0] as nat, payload[1] as nat)
  {
    hide Transport;
    if |payload| >= 2 {
      assert forall i | 0 <= i < 2 :: f.data[n + i] == payload[i];
    }
  }

  /** The flags of a TCP header are the low half of its byte 12 and all of byte 13. */
  lemma SeesFlags(f: Frame, n: nat, proto: nat, payload: seq<byte>)
    requires Transport(f) == Some((n, proto)) && n + |payload| == |f.data| && f.data[n..] == payload
    ensures proto == 6 && |payload| > 14 ==> TcpFlags(f) == 256 * (payload[12] as int % 16) + payload[13]
    ensures proto != 6 ==> TcpFlags(f) == 0
  {
    hide Transport;
    if |payload| > 14 {
      assert f.data[n + 12] == payload[12] && f.data[n + 13] == payload[13];
    }
  }

  // ------------------------------------------------------------------------
  // The sender

  /** An IPv4 packet comes from its source address. */
  lemma SenderOfIpv4(f: Frame, p: Ipv4Packet)
    requires p.Valid() && f.etherType == 0x0800 && f.data == p.Bytes()
    ensures SenderOf(f) == From(p.source)
  {
    hide p.Bytes;
    SeesIpv4(f, p);
  }

  /** So does an IPv6 packet, except that neighbour solicitations need no owner and neighbour
      advertisements come from the address they announce. */
  lemma SenderOfIpv6(f: Frame, p: Ipv6Packet)
    requires p.Valid() && f.etherType == 0x86dd && f.data == p.Bytes()
    ensures var ndp := p.headers == [] && p.proto == 58 && |p.payload| >= 24;
            SenderOf(f) == if ndp && p.payload[0] == 135 then Solicitation
                           else if ndp && p.payload[0] == 136 then From(p.payload[8..24])
                           else From(p.source)
  {
    Ipv6Fields(p);
    hide p.Bytes;
    var d := f.data;
    if d[6] == 58 {
      assert p.headers == [];
      if |p.payload| >= 24 {
        assert d[40] == d[40..][0] && d[48..64] == d[40..][8..24];
      }
    }
  }

  /** An ARP packet comes from its sender protocol address, behind eight bytes and a MAC address. */
  lemma SenderOfArp(f: Frame, head: seq<byte>, senderMac: seq<byte>, sender: seq<byte>, target: seq<byte>)
    requires |head| == 8 && |senderMac| == 6 && |sender| == 4 && |target| == 10
    requires f.etherType == 0x0806 && f.data == head + senderMac + sender + target
    ensures SenderOf(f) == From(sender)
  {
  }

  /** The certificates of the sender decide, where there is a sender at all. */
  lemma AuthenticatedIff(node: Node, f: Frame)
    ensures IpAuthenticated(node, f)
            <==> SenderOf(f) == Solicitation || (SenderOf(f).From? && node.ownsIp(SenderOf(f).ip))
    ensures SenderOf(f) == NoSender ==> !IpAuthenticated(node, f)
    ensures f.etherType !in {0x0800, 0x86dd, 0x0806} ==> SenderOf(f) == NoSender
  {
    hide SenderOf;
    OtherTypes(f);
  }

  lemma OtherTypes(f: Frame)
    ensures f.etherType !in {0x0800, 0x86dd, 0x0806} ==> SenderOf(f) == NoSender
  {
  }

  // ------------------------------------------------------------------------
  // MAC addresses and forwards

  /** As numbers of 48 bits, broadcast is all ones, and multicast has bit 40 set. */
  lemma MacKinds(mac: seq<byte>)
    requires |mac| == 6
    ensures Broadcast(mac) <==> Number(mac) == 0xffff_ffff_ffff
    ensures Multicast(mac) <==> Bit(Number(mac), 40) == 1
  {
    NumberBit(mac, 7);
    assert AddressBit(mac, 7) == Bit(mac[0], 0);
    if Number(mac) == 0xffff_ffff_ffff || Broadcast(mac) {
      AllOnes(mac);
    }
  }

  lemma AllOnes(mac: seq<byte>)
    requires |mac| == 6
    ensures Number(mac) == 0xffff_ffff_ffff <==> Broadcast(mac)
  {
    var ones: seq<byte> := [0xff, 0xff, 0xff, 0xff, 0xff, 0xff];
    assert Number(ones[..1]) == 0xff by {
      assert ones[..1][..0] == [];
    }
    NumberStep(ones, 2);
    NumberStep(ones, 3);
    NumberStep(ones, 4);
    NumberStep(ones, 5);
    NumberStep(ones, 6);
    assert ones[..6] == ones;
    BigOfNumber(mac);
    BigOfNumber(ones);
  }

  lemma NumberStep(s: seq<byte>, n: nat)
    requires 0 < n <= |s|
    ensures Number(s[..n]) == 256 * Number(s[..n - 1]) + s[n - 1]
  {
    assert s[..n][..n - 1] == s[..n - 1];
  }

  /** A forward goes to a third party only: not to the sender, this node or the destination. A copy has
      the whole frame, or as much of it as asked for; for this node what comes in is accepted, unless it
      sent it. */
  lemma ForwardIff(f: Frame, to: nat, length: nat, watch: bool, target: bool, copy: Option<Copy>)
    ensures Taken(f, Redirecting(to), target) == Redirect(to) <==> to !in {f.source, f.here, f.dest}
    ensures Taken(f, Redirecting(to), target) == SuperAccept <==> to == f.here && to != f.source && f.inbound
    ensures Taken(f, Copying(to, length, watch), target) == SuperAccept <==> to == f.here && to != f.source && f.inbound
    ensures Taken(f, Copying(to, length, watch), target) in {SuperAccept, Undecided}
    ensures Taken(f, Redirecting(to), target) in {Redirect(to), SuperAccept, Undecided}
    ensures to in {f.source, f.here, f.dest} ==> Copied(f, Copying(to, length, watch), copy) == copy
    ensures to !in {f.source, f.here, f.dest} ==>
              var c := Copied(f, Copying(to, length, watch), copy);
              && c.Some? && c.value.to == to && c.value.watch == watch && c.value.length <= |f.data|
              && (length == 0 || length >= |f.data| ==> c.value.length == |f.data|)
              && (0 < length < |f.data| ==> c.value.length == length)
    ensures forall a: Action | !a.Copying? :: Copied(f, a, copy) == copy
  {
  }
}
