/** The rules engine of a node: what becomes of one Ethernet frame. */
module FlowFilter {
  import opened Words
  import opened Options
  import opened Buffers
  import opened Bits
  import opened RuleCodec

  /** One frame on its way. `here` is the address of this node; `beyond` stands for the memory behind
      the frame, which the test for TCP flags can reach. */
  datatype Frame = Frame(inbound: bool, here: nat, source: nat, dest: nat, macSource: seq<byte>, macDest: seq<byte>,
                         etherType: nat, vlanId: nat, data: seq<byte>, beyond: nat -> byte)

  /** What the node knows: its own tags, those of the other member, what the sender has certificates
      for, and the result of unsupported matches. */
  datatype Node = Node(localTags: map<nat, nat>, remoteTags: map<nat, nat>, ownsIp: seq<byte> -> bool, ownsMac: bool,
                       unsupported: bool)

  const IPV4: nat := 0x0800
  const IPV6: nat := 0x86dd
  const ARP: nat := 0x0806

  // ------------------------------------------------------------------------
  // Looking into the frame

  predicate Is4(f: Frame)
  {
    f.etherType == IPV4 && |f.data| >= 20
  }

  predicate Is6(f: Frame)
  {
    f.etherType == IPV6 && |f.data| >= 40
  }

  /** Hop-by-hop, routing, destination and mobility headers. */
  predicate Extension(proto: nat)
  {
    proto == 0 || proto == 43 || proto == 60 || proto == 135
  }

  /** The position and protocol of the payload, skipping extension headers from `pos` on. */
  function PayloadFrom(data: seq<byte>, pos: nat, proto: nat): (r: Option<(nat, nat)>)
    ensures r.Some? ==> pos <= r.value.0 <= |data|
    decreases |data| + 1 - pos
  {
    if pos > |data| then None
    else if !Extension(proto) then Some((pos, proto))
    else if pos + 8 > |data| then None
    else
      var words: nat := data[pos + 1];
      PayloadFrom(data, pos + 8 * words + 8, data[pos])
  }

  function Payload6(data: seq<byte>): (r: Option<(nat, nat)>)
    ensures r.Some? ==> 40 <= r.value.0 <= |data|
  {
    if |data| < 40 then None else PayloadFrom(data, 40, data[6])
  }

  /** `_ipv6GetPayload` */
  method Ipv6GetPayload(data: seq<byte>) returns (ok: bool, pos: nat, proto: nat)
    ensures Payload6(data) == if ok then Some((pos, proto)) else None
  {
    pos, proto := 0, 0;
    if |data| < 40 {
      return false, pos, proto;
    }
    pos, proto := 40, data[6];
    while pos <= |data|
      invariant Payload6(data) == PayloadFrom(data, pos, proto)
      decreases |data| + 1 - pos
    {
      if !Extension(proto) {
        return true, pos, proto;
      }
      if pos + 8 > |data| {
        return false, pos, proto;
      }
      var words: nat := data[pos + 1];
      proto := data[pos];
      pos := pos + 8 * words + 8;
    }
    return false, pos, proto;
  }

  /** The headers of an IPv6 packet, as positions and protocols, each leading to the next. */
  ghost predicate Headers(data: seq<byte>, hs: seq<(nat, nat)>)
    requires |data| >= 40
  {
    && |hs| > 0 && hs[0] == (40, data[6] as nat)
    && (forall i | 0 <= i < |hs| - 1 :: Leads(data, hs[i], hs[i + 1]))
    && hs[|hs| - 1].0 <= |data| && !Extension(hs[|hs| - 1].1)
  }

  /** From an extension header to the one that its first two bytes announce. */
  ghost predicate Leads(data: seq<byte>, h: (nat, nat), next: (nat, nat))
  {
    && Extension(h.1) && h.0 + 8 <= |data|
    && var words: nat := data[h.0 + 1];
       next == (h.0 + 8 + 8 * words, data[h.0] as nat)
  }

  /** The protocols that begin with two ports. */
  predicate Ported(proto: nat)
  {
    proto == 0x06 || proto == 0x11 || proto == 0x84 || proto == 0x88
  }

  /** Where the transport header begins, and its protocol. */
  function Transport(f: Frame): Option<(nat, nat)>
  {
    if Is4(f) then
      var words: nat := f.data[0] % 16;
      Some((4 * words, f.data[9] as nat))
    else if f.etherType == IPV6 then Payload6(f.data)
    else None
  }

  function PortOf(f: Frame, dest: bool): Option<nat>
  {
    var t := Transport(f);
    if t.Some? && Ported(t.value.1) && |f.data| > t.value.0 + 4 then
      var p := t.value.0 + if dest then 2 else 0;
      var high, low: nat := f.data[p], f.data[p + 1];
      Some(256 * high + low)
    else None
  }

  /** In an IPv6 packet port 0 matches nothing. */
  predicate PortMatches(f: Frame, dest: bool, lo: nat, hi: nat)
  {
    var p := PortOf(f, dest);
    p.Some? && lo <= p.value <= hi && (Is4(f) || p.value > 0)
  }

  function Tos(f: Frame): Option<nat>
  {
    if Is4(f) then Some(f.data[1] as nat)
    else if Is6(f) then
      var high, low: nat := f.data[0], f.data[1];
      Some(16 * (high % 16) + low / 16)
    else None
  }

  /** Type and code of an ICMP message. */
  function IcmpOf(f: Frame): Option<(nat, nat)>
  {
    var t := Transport(f);
    if t.Some? && t.value.1 == (if Is4(f) then 0x01 else 0x3a) && |f.data| >= t.value.0 + 2
    then Some((f.data[t.value.0] as nat, f.data[t.value.0 + 1] as nat))
    else None
  }

  function ProtocolOf(f: Frame): Option<nat>
  {
    var t := Transport(f);
    if t.Some? then Some(t.value.1) else None
  }

  /** The address whose ownership is looked up, or the neighbour solicitations that need none. */
  datatype Sender = NoSender | Solicitation | From(ip: seq<byte>)

  function SenderOf(f: Frame): Sender
  {
    if Is4(f) then From(f.data[12..16])
    else if Is6(f) then
      if |f.data| >= 64 && f.data[6] == 0x3a && f.data[40] == 0x87 then Solicitation
      else if |f.data| >= 64 && f.data[6] == 0x3a && f.data[40] == 0x88 then From(f.data[48..64])
      else From(f.data[8..24])
    else if f.etherType == ARP && |f.data| >= 28 then From(f.data[14..18])
    else NoSender
  }

  function ByteAt(f: Frame, i: nat): byte
  {
    if i < |f.data| then f.data[i] else f.beyond(i)
  }

  /** The flag bits of a TCP header; an IPv4 frame is not checked to be long enough for it. */
  function TcpFlags(f: Frame): (r: nat)
    ensures r < 4096
  {
    var t := Transport(f);
    if t.Some? && t.value.1 == 0x06 && (Is4(f) || |f.data| > t.value.0 + 14) then
      var high, low: nat := ByteAt(f, t.value.0 + 12), ByteAt(f, t.value.0 + 13);
      256 * (high % 16) + low
    else 0
  }

  function Flag(b: bool, weight: nat): nat
  {
    if b then weight else 0
  }

  predicate Multicast(mac: seq<byte>)
    requires |mac| == 6
  {
    mac[0] % 2 == 1
  }

  predicate Broadcast(mac: seq<byte>)
  {
    mac == [0xff, 0xff, 0xff, 0xff, 0xff, 0xff]
  }

  predicate IpAuthenticated(node: Node, f: Frame)
  {
    match SenderOf(f)
    case NoSender => false
    case Solicitation => true
    case From(ip) => node.ownsIp(ip)
  }

  function Traits(node: Node, f: Frame): nat
    requires |f.macDest| == 6
  {
    TcpFlags(f) + Flag(node.ownsMac, 0x0800_0000_0000_0000) + Flag(IpAuthenticated(node, f), 0x1000_0000_0000_0000)
    + Flag(Broadcast(f.macDest), 0x2000_0000_0000_0000) + Flag(Multicast(f.macDest), 0x4000_0000_0000_0000)
    + Flag(f.inbound, 0x8000_0000_0000_0000)
  }

  // ------------------------------------------------------------------------
  // Networks

  /** `containsAddress` for IPv4: both sides shifted; longer masks than the address contain nothing. */
  predicate Contains4(ip: seq<byte>, bits: nat, a: seq<byte>)
  {
    bits == 0 || (bits <= 32 && Shift(Number(a), 32 - bits) == Shift(Number(ip), 32 - bits))
  }

  /** Byte `i` of an IPv6 netmask: ones in front. */
  function MaskByte(bits: nat, i: nat): (m: byte)
    requires i < 16
  {
    var ones := if bits >= 8 * i + 8 then 8 else if bits <= 8 * i then 0 else bits - 8 * i;
    MaskBound(8 - ones);
    256 - Pow2(8 - ones)
  }

  lemma MaskBound(n: nat)
    requires n <= 8
    ensures 1 <= Pow2(n) <= 256
  {
    PowersGrow(n, 8);
    assert Pow2(8) == 256;
  }

  lemma {:induction false} PowersGrow(m: nat, n: nat)
    requires m <= n
    ensures Pow2(m) <= Pow2(n)
    decreases n - m
  {
    if m < n {
      PowersGrow(m + 1, n);
    }
  }

  /** `containsAddress` for IPv6: the masked address against the whole address of the rule. */
  predicate Contains6(ip: seq<byte>, bits: nat, a: seq<byte>)
    requires |ip| == |a| == 16
  {
    bits <= 128 && forall i | 0 <= i < 16 :: And(a[i], MaskByte(bits, i)) == ip[i]
  }

  // ------------------------------------------------------------------------
  // Matches

  function Value(tags: map<nat, nat>, id: nat): Option<nat>
  {
    if id in tags then Some(tags[id]) else None
  }

  function Apart(x: nat, y: nat): nat
  {
    if x > y then x - y else y - x
  }

  /** Both tags compared; an unknown remote tag passes on the way out and for targets of a forward. */
  predicate TagsMatch(node: Node, f: Frame, target: bool, code: nat, id: nat, v: nat)
  {
    var mine, theirs := Value(node.localTags, id), Value(node.remoteTags, id);
    && mine.Some?
    && if theirs == None then !f.inbound || target
       else
         var x, y := mine.value, theirs.value;
         match code
         case 44 => Apart(x, y) <= v
         case 45 => And(x, y) == v
         case 46 => Or(x, y) == v
         case 47 => Xor(x, y) == v
         case _ => x == v && y == v
  }

  /** The tag of one side; `remote` says whether it is that of the other member. */
  predicate TagMatches(node: Node, target: bool, remote: bool, lenient: bool, id: nat, v: nat)
  {
    var tag := Value(if remote then node.remoteTags else node.localTags, id);
    target || (if tag.Some? then tag.value == v else remote && lenient)
  }

  /** One match rule, before NOT is applied. `target` says that this node is the target of a forward
      that did not match, `draw` is what the random number generator yields. */
  predicate Matches(node: Node, f: Frame, target: bool, r: Rule, draw: nat)
    requires WellFormed(r) && |f.macDest| == 6
  {
    match r.t % 64
    case 24 => r.v.zt == f.source
    case 25 => r.v.zt == f.dest
    case 26 => r.v.vlanId == f.vlanId % 0x1_0000
    case 27 => r.v.vlanPcp == 0
    case 28 => r.v.vlanDei == 0
    case 29 => r.v.mac == f.macSource
    case 30 => r.v.mac == f.macDest
    case 31 => Is4(f) && Contains4(r.v.ip4, r.v.mask4, f.data[12..16])
    case 32 => Is4(f) && Contains4(r.v.ip4, r.v.mask4, f.data[16..20])
    case 33 => Is6(f) && Contains6(r.v.ip6, r.v.mask6, f.data[8..24])
    case 34 => Is6(f) && Contains6(r.v.ip6, r.v.mask6, f.data[24..40])
    case 35 => Tos(f).Some? && r.v.tosStart <= And(Tos(f).value, r.v.tosMask) <= r.v.tosEnd
    case 36 => ProtocolOf(f) == Some(r.v.ipProtocol)
    case 37 => r.v.etherType == f.etherType % 0x1_0000
    case 38 =>
      && IcmpOf(f).Some? && IcmpOf(f).value.0 == r.v.icmpType
      && (r.v.icmpFlags % 2 == 1 ==> IcmpOf(f).value.1 == r.v.icmpCode)
    case 39 => PortMatches(f, false, r.v.portStart, r.v.portEnd)
    case 40 => PortMatches(f, true, r.v.portStart, r.v.portEnd)
    case 41 => And(Traits(node, f), r.v.characteristics) != 0
    case 42 => r.v.sizeStart <= |f.data| <= r.v.sizeEnd
    case 43 => draw % 0x1_0000_0000 <= r.v.probability
    case 49 => TagMatches(node, target, f.inbound, false, r.v.tagId, r.v.tagValue)
    case 50 => TagMatches(node, target, !f.inbound, true, r.v.tagId, r.v.tagValue)
    case code =>
      if 44 <= code <= 48 then TagsMatch(node, f, target, code, r.v.tagId, r.v.tagValue) else node.unsupported
  }

  // ------------------------------------------------------------------------
  // Rule sets

  datatype Action = Dropping | Accepting | Copying(to: nat, length: nat, watch: bool) | Redirecting(to: nat) | Breaking
                  | Idle

  /** A rule as it bears on one frame: an action, or a test with its truth for an ordinary node and
      for the target of a forward. */
  datatype Entry = Act(action: Action) | Test(or_: bool, plain: bool, asTarget: bool)

  const ADDRESSES: nat := 0x100_0000_0000

  function ActionOf(r: Rule): Action
    requires WellFormed(r) && r.t % 64 <= 15
  {
    match r.t % 64
    case 0 => Dropping
    case 1 => Accepting
    case 2 => Copying(r.v.address % ADDRESSES, r.v.length, false)
    case 3 => Copying(r.v.address % ADDRESSES, r.v.length, true)
    case 4 => Redirecting(r.v.address % ADDRESSES)
    case 5 => Breaking
    case _ => Idle
  }

  predicate Negated(r: Rule)
  {
    r.t >= 0x80
  }

  predicate Ored(r: Rule)
  {
    r.t % 0x80 >= 0x40
  }

  function EntryOf(node: Node, f: Frame, r: Rule, draw: nat): Entry
    requires WellFormed(r) && |f.macDest| == 6
  {
    if r.t % 64 <= 15 then Act(ActionOf(r))
    else Test(Ored(r), Matches(node, f, false, r, draw) != Negated(r), Matches(node, f, true, r, draw) != Negated(r))
  }

  function Entries(node: Node, f: Frame, rules: seq<Rule>, draws: nat -> nat): (es: seq<Entry>)
    requires (forall i | 0 <= i < |rules| :: WellFormed(rules[i])) && |f.macDest| == 6
    ensures |es| == |rules|
  {
    seq(|rules|, i requires 0 <= i < |rules| => EntryOf(node, f, rules[i], draws(i)))
  }

  /** The truth of a test. */
  predicate Holds(e: Entry, target: bool)
    requires e.Test?
  {
    if target then e.asTarget else e.plain
  }

  predicate AllTests(ts: seq<Entry>)
  {
    forall i | 0 <= i < |ts| :: ts[i].Test?
  }

  /** All tests of a block, one after the other, joined by AND or OR to what came before. */
  predicate Fold(start: bool, ts: seq<Entry>, target: bool)
    requires AllTests(ts)
    decreases |ts|
  {
    if |ts| == 0 then start
    else
      var x := Holds(ts[0], target);
      Fold(if ts[0].or_ then start || x else start && x, ts[1..], target)
  }

  /** The number of tests before the first action. */
  function Tests(es: seq<Entry>): (n: nat)
    ensures n <= |es| && AllTests(es[..n]) && (n < |es| ==> es[n].Act?)
  {
    if |es| == 0 || es[0].Act? then 0 else 1 + Tests(es[1..])
  }

  datatype Copy = Copy(to: nat, length: nat, watch: bool)

  datatype Verdict = Undecided | Broken | Drop | Redirect(to: nat) | Accept | SuperAccept

  /** The verdict, the copy to send, and whether this node was passed over as a target. */
  datatype Result = Result(verdict: Verdict, copy: Option<Copy>, target: bool)

  /** What an action that is taken decides, if anything. */
  function Taken(f: Frame, a: Action, target: bool): Verdict
  {
    match a
    case Dropping => Drop
    case Accepting => if target then SuperAccept else Accept
    case Breaking => Broken
    case Idle => Undecided
    case Copying(to, _, _) => if to != f.source && to == f.here && f.inbound then SuperAccept else Undecided
    case Redirecting(to) =>
      if to == f.source then Undecided
      else if to == f.here then (if f.inbound then SuperAccept else Undecided)
      else if to == f.dest then Undecided
      else Redirect(to)
  }

  /** The copy that is on record after an action was taken. */
  function Copied(f: Frame, a: Action, copy: Option<Copy>): Option<Copy>
  {
    if a.Copying? && a.to != f.source && a.to != f.here && a.to != f.dest then
      Some(Copy(a.to, if a.length != 0 && a.length < |f.data| then a.length else |f.data|, a.watch))
    else copy
  }

  /** Passing over a forward to this node makes it a target. */
  predicate Targets(f: Frame, a: Action)
  {
    f.inbound && (a.Copying? || a.Redirecting?) && a.to == f.here
  }

  /** Block by block: the action is taken if the tests before it hold. */
  function Decide(f: Frame, es: seq<Entry>, start: bool, target: bool, copy: Option<Copy>): Result
    decreases |es|
  {
    var n := Tests(es);
    if n == |es| then Result(Undecided, copy, target)
    else
      var a, rest := es[n].action, es[n + 1..];
      if !Fold(start, es[..n], target) then Decide(f, rest, true, target || Targets(f, a), copy)
      else if Taken(f, a, target) != Undecided then Result(Taken(f, a, target), copy, target)
      else Decide(f, rest, true, target, Copied(f, a, copy))
  }

  lemma TestFirst(f: Frame, es: seq<Entry>, start: bool, target: bool, copy: Option<Copy>)
    requires |es| > 0 && es[0].Test?
    ensures var x := Holds(es[0], target);
            Decide(f, es, start, target, copy)
            == Decide(f, es[1..], if es[0].or_ then start || x else start && x, target, copy)
  {
    var n := Tests(es);
    assert n == 1 + Tests(es[1..]);
    if n < |es| {
      assert es[..n][0] == es[0] && es[..n][1..] == es[1..][..n - 1];
      assert es[n] == es[1..][n - 1] && es[n + 1..] == es[1..][n..];
    }
  }

  lemma ActFirst(f: Frame, es: seq<Entry>, start: bool, target: bool, copy: Option<Copy>)
    requires |es| > 0 && es[0].Act?
    ensures var a := es[0].action;
            Decide(f, es, start, target, copy)
            == if !start then Decide(f, es[1..], true, target || Targets(f, a), copy)
               else if Taken(f, a, target) != Undecided then Result(Taken(f, a, target), copy, target)
               else Decide(f, es[1..], true, target, Copied(f, a, copy))
  {
    assert Tests(es) == 0 && es[..0] == [] && es[0 + 1..] == es[1..];
  }

  lemma NoneLeft(f: Frame, es: seq<Entry>, start: bool, target: bool, copy: Option<Copy>)
    requires |es| == 0
    ensures Decide(f, es, start, target, copy) == Result(Undecided, copy, target)
  {
  }

  /** What the engine reports: no match for running off the end and for a break alike. */
  datatype Outcome = NoMatch | Dropped | Redirected(to: nat) | Accepted | SuperAccepted

  function Reported(v: Verdict): Outcome
  {
    match v
    case Undecided => NoMatch
    case Broken => NoMatch
    case Drop => Dropped
    case Redirect(to) => Redirected(to)
    case Accept => Accepted
    case SuperAccept => SuperAccepted
  }

  ghost function Decision(node: Node, f: Frame, rules: seq<Rule>, draws: nat -> nat): Result
    requires (forall i | 0 <= i < |rules| :: WellFormed(rules[i])) && |f.macDest| == 6
  {
    Decide(f, Entries(node, f, rules, draws), true, false, None)
  }

  /** `_doZtFilter`: one pass with a running truth value, which leaves out tests that cannot matter. */
  method Filter(node: Node, f: Frame, rules: seq<Rule>, draws: nat -> nat) returns (r: Outcome, cc: Option<Copy>)
    requires (forall i | 0 <= i < |rules| :: WellFormed(rules[i])) && |f.macDest| == 6
    ensures var d := Decision(node, f, rules, draws); r == Reported(d.verdict) && cc == d.copy
  {
    hide WellFormed, Matches, Decide, Fold, Tests, Taken, Copied;
    ghost var es := Entries(node, f, rules, draws);
    assert es[0..] == es;
    var superAccept, thisSetMatches := false, true;
    cc := None;
    var rn := 0;
    while rn < |rules|
      invariant 0 <= rn <= |rules|
      invariant Decide(f, es, true, false, None) == Decide(f, es[rn..], thisSetMatches, superAccept, cc)
    {
      ghost var rest := es[rn..];
      assert rest[0] == EntryOf(node, f, rules[rn], draws(rn)) && rest[1..] == es[rn + 1..];
      var t := rules[rn].t;
      if t % 64 <= 15 {
        ActFirst(f, rest, thisSetMatches, superAccept, cc);
        var a := ActionOf(rules[rn]);
        if thisSetMatches {
          var v := Taken(f, a, superAccept);
          if v != Undecided {
            return Reported(v), cc;
          }
          cc := Copied(f, a, cc);
        } else {
          superAccept := superAccept || Targets(f, a);
          thisSetMatches := true;
        }
      } else {
        TestFirst(f, rest, thisSetMatches, superAccept, cc);
        if thisSetMatches || Ored(rules[rn]) {
          var x := Matches(node, f, superAccept, rules[rn], draws(rn)) != Negated(rules[rn]);
          thisSetMatches := if Ored(rules[rn]) then thisSetMatches || x else thisSetMatches && x;
        }
      }
      rn := rn + 1;
    }
    NoneLeft(f, es[rn..], thisSetMatches, superAccept, cc);
    return NoMatch, cc;
  }
}
