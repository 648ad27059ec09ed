/** The network controller for one network: member records, the cached member summary, requests
    for configuration and authorisation edits. */
module Controller {
  import opened Words
  import opened Options
  import opened Membership
  import opened IpAllocation

  /** The bounds on the timestamp delta of issued certificates, in milliseconds. */
  const MIN_DELTA: u64 := 185000
  const MAX_DELTA: u64 := 7200000

  const MIN_REQUEST_PERIOD: u64 := 1000

  datatype Member = Member(identity: Option<nat>, authorized: bool, authEvents: nat,
                           lastAuthorized: u64, lastDeauthorized: u64, ips: seq<Ip>, noAutoAssign: bool)

  /** A summary of the member records, as of its timestamp. */
  datatype Info = Info(taken: set<Ip>, mostRecentDeauth: u64, timestamp: u64)

  datatype Network = Network(nwid: u64, isPrivate: bool, v4: bool, v6: bool, pools: seq<Pool>, routes: seq<Route>)

  datatype State = State(members: map<Address, Member>, cache: Option<Info>, lastRequest: map<Address, u64>)

  datatype Reply = Dropped | Denied | Config(com: seq<Qualifier>)

  /** Random halves for every pool and trial. */
  type Randomness = seq<nat -> (u64, u64)>

  datatype Ask = Ask(from: Address, identity: nat, packetId: nat, token: bool, rnd: Randomness)

  function Lookup(members: map<Address, Member>, a: Address): Member
  {
    if a in members then members[a] else Member(None, false, 0, 0, 0, [], false)
  }

  /** Unsigned 64-bit difference. */
  function Since(now: u64, then_: u64): u64
  {
    if now >= then_ then now - then_ else U64 + now - then_
  }

  // ------------------------------------------------------------------------
  // The member summary

  ghost predicate Summarises(info: Info, members: map<Address, Member>)
  {
    && info.taken == AllocatedIps(members)
    && (forall a | a in members && !members[a].authorized :: members[a].lastDeauthorized <= info.mostRecentDeauth)
    && (info.mostRecentDeauth == 0
        || exists a | a in members :: !members[a].authorized && members[a].lastDeauthorized == info.mostRecentDeauth)
  }

  /** The addresses of the authorised members. */
  ghost function AllocatedIps(members: map<Address, Member>): set<Ip>
  {
    set a, i | a in members && members[a].authorized && 0 <= i < |members[a].ips| :: members[a].ips[i]
  }

  predicate CacheUsable(cache: Option<Info>, now: u64)
  {
    cache.Some? && Since(now, cache.value.timestamp) < 1000
  }

  /** The summary a request works with: the cached one for a second, else a fresh one. */
  ghost predicate Uses(s: State, now: u64, info: Info)
  {
    if CacheUsable(s.cache, now) then info == s.cache.value
    else Summarises(info, s.members) && info.timestamp == now
  }

  // ------------------------------------------------------------------------
  // Requests

  /** The delta put on a certificate: below the time since the last de-authorisation, within bounds. */
  function CredentialDelta(now: u64, mostRecentDeauth: u64): u64
  {
    if now > mostRecentDeauth then
      var window := now - mostRecentDeauth;
      if window < MIN_DELTA then MIN_DELTA
      else if window < MAX_DELTA + 5000 then window - 5000
      else MAX_DELTA
    else MAX_DELTA
  }

  /** A local route contains the address; a zero-length IPv4 netmask contains everything. */
  predicate Contains(r: Route, ip: Ip)
  {
    match ip
    case V4(a) => r.target.V4? && r.bits <= 32 && a / Pow2(32 - r.bits) == r.target.addr / Pow2(32 - r.bits)
    case V6(hi, lo) =>
      && r.target.V6? && r.bits <= 128
      && Value6(hi, lo) - Value6(hi, lo) % Pow2(128 - r.bits) == Value6(r.target.hi, r.target.lo)
  }

  /** Netmask length of the last local route containing the address. */
  function StaticBits(routes: seq<Route>, ip: Ip): nat
  {
    if |routes| == 0 then 0
    else
      var r := routes[|routes| - 1];
      if !r.via && Contains(r, ip) then r.bits else StaticBits(routes[..|routes| - 1], ip)
  }

  predicate HasManaged(routes: seq<Route>, ips: seq<Ip>, v6: bool)
  {
    exists i | 0 <= i < |ips| :: ips[i].V6? == v6 && StaticBits(routes, ips[i]) > 0
  }

  /** The addresses newly assigned to a member: at most one IPv6 and one IPv4 address. */
  function Assigned(net: Network, taken: set<Ip>, m: Member, a: Address, rnd: Randomness): seq<Ip>
    requires |rnd| == |net.pools|
  {
    var r6 := if net.v6 && !HasManaged(net.routes, m.ips, true) && !m.noAutoAssign
              then FromPools6(net.pools, net.routes, taken, a, rnd) else None;
    var r4 := if net.v4 && !HasManaged(net.routes, m.ips, false) && !m.noAutoAssign
              then FromPools4(net.pools, net.routes, taken, a) else None;
    (if r6.Some? then [r6.value] else []) + (if r4.Some? then [V4(r4.value)] else [])
  }

  /** Whether the member may join, and its record afterwards. */
  predicate MayJoin(net: Network, m: Member, token: bool)
  {
    m.authorized || !net.isPrivate || token
  }

  /** Joining authorises a member for good when it brings a token, or on its first contact with a
      public network. */
  function Joined(net: Network, m: Member, token: bool, now: u64): Member
  {
    if !m.authorized && (if net.isPrivate then token else m.authEvents == 0)
    then m.(authorized := true, lastAuthorized := now, authEvents := m.authEvents + 1)
    else m
  }

  predicate RateLimited(s: State, now: u64, q: Ask)
  {
    q.packetId != 0 && Since(now, if q.from in s.lastRequest then s.lastRequest[q.from] else 0) <= MIN_REQUEST_PERIOD
  }

  /** One request for configuration. */
  ghost predicate Requested(net: Network, s: State, now: u64, q: Ask, s': State, reply: Reply)
    requires |q.rnd| == |net.pools|
  {
    if RateLimited(s, now, q) then
      s' == s && reply == Dropped
    else
      var seen := if q.packetId != 0 then s.lastRequest[q.from := now] else s.lastRequest;
      var m := Lookup(s.members, q.from);
      if m.identity.Some? && m.identity.value != q.identity then
        s' == s.(lastRequest := seen) && reply == Denied
      else
        var known := m.(identity := Some(q.identity));
        if !MayJoin(net, known, q.token) then
          s' == s.(lastRequest := seen, members := s.members[q.from := known]) && reply == Denied
        else
          exists info ::
            Uses(s, now, info)
            && Granted(net, s, now, q, Joined(net, known, q.token, now), seen, info, s', reply)
  }

  ghost predicate Granted(net: Network, s: State, now: u64, q: Ask, m: Member, seen: map<Address, u64>, info: Info,
                          s': State, reply: Reply)
    requires |q.rnd| == |net.pools|
  {
    var added := Assigned(net, info.taken, m, q.from, q.rnd);
    && s' == State(s.members[q.from := m.(ips := m.ips + added)], if added == [] then Some(info) else None, seen)
    && reply == Config(Required(now, CredentialDelta(now, info.mostRecentDeauth), net.nwid, q.from))
  }

  /** An edit of the authorisation flag through the control plane. */
  ghost predicate Posted(s: State, now: u64, a: Address, newAuth: bool, s': State)
  {
    var m := Lookup(s.members, a);
    s' == if newAuth == m.authorized then s.(members := s.members[a := m])
          else if newAuth then
            s.(members := s.members[a := m.(authorized := true, lastAuthorized := now, authEvents := m.authEvents + 1)])
          else
            s.(members := s.members[a := m.(authorized := false, lastDeauthorized := now,
                                            authEvents := m.authEvents + 1)],
               cache := None)
  }

  class EmbeddedController {
    const network: Network
    var members: map<Address, Member>
    var cache: Option<Info>
    var lastRequest: map<Address, u64>

    ghost function Abstract(): State
      reads this
    {
      State(members, cache, lastRequest)
    }

    constructor (net: Network)
      ensures network == net && Abstract() == State(map[], None, map[])
    {
      network := net;
      members, cache, lastRequest := map[], None, map[];
    }

    /** `_getNetworkMemberInfo` */
    method MemberInfo(now: u64) returns (info: Info)
      modifies this`cache
      ensures Uses(old(Abstract()), now, info) && cache == Some(info)
    {
      if CacheUsable(cache, now) {
        return cache.value;
      }
      hide AllocatedIps;
      info := Summarise(now);
      cache := Some(info);
    }

    /** One pass over the member records. */
    method Summarise(now: u64) returns (info: Info)
      ensures Summarises(info, members) && info.timestamp == now
    {
      var ips: set<Ip>, recent: u64 := {}, 0;
      var rest := members.Keys;
      while rest != {}
        invariant rest <= members.Keys
        invariant ips == set a, i | a in members && a !in rest && members[a].authorized && 0 <= i < |members[a].ips|
                           :: members[a].ips[i]
        invariant forall a | a in members && a !in rest && !members[a].authorized ::
                    members[a].lastDeauthorized <= recent
        invariant recent == 0
                  || exists a | a in members :: !members[a].authorized && members[a].lastDeauthorized == recent
        decreases |rest|
      {
        var a :| a in rest;
        rest := rest - {a};
        var m := members[a];
        if m.authorized {
          ips := ips + (set i | 0 <= i < |m.ips| :: m.ips[i]);
        } else if m.lastDeauthorized > recent {
          recent := m.lastDeauthorized;
        }
      }
      info := Info(ips, recent, now);
      assert ips == AllocatedIps(members);
    }

    method Request(now: u64, q: Ask) returns (reply: Reply)
      requires |q.rnd| == |network.pools|
      modifies this
      ensures Requested(network, old(Abstract()), now, q, Abstract(), reply)
    {
      hide Uses, Assigned;
      ghost var s := Abstract();
      if q.packetId != 0 {
        var lrt := if q.from in lastRequest then lastRequest[q.from] else 0;
        if Since(now, lrt) <= MIN_REQUEST_PERIOD {
          return Dropped;
        }
        lastRequest := lastRequest[q.from := now];
      }
      var m := Lookup(members, q.from);
      if m.identity.Some? && m.identity.value != q.identity {
        return Denied;
      }
      m := m.(identity := Some(q.identity));
      if !MayJoin(network, m, q.token) {
        members := members[q.from := m];
        return Denied;
      }
      m := Joined(network, m, q.token, now);
      ghost var joined := m;
      UsesIgnoresRequests(s, Abstract(), now);
      var info := MemberInfo(now);
      var added := AssignIps(m, q, info.taken);
      m := m.(ips := m.ips + added);
      if added != [] {
        cache := None;
      }
      members := members[q.from := m];
      reply := Config(Required(now, CredentialDelta(now, info.mostRecentDeauth), network.nwid, q.from));
      assert Granted(network, s, now, q, joined, lastRequest, info, Abstract(), reply);
    }

    method AssignIps(m: Member, q: Ask, taken: set<Ip>) returns (added: seq<Ip>)
      requires |q.rnd| == |network.pools|
      ensures added == Assigned(network, taken, m, q.from, q.rnd)
    {
      added := [];
      if network.v6 && !HasManaged(network.routes, m.ips, true) && !m.noAutoAssign {
        var r := AssignV6(network.pools, network.routes, taken, q.from, q.rnd);
        if r.Some? {
          added := added + [r.value];
        }
      }
      if network.v4 && !HasManaged(network.routes, m.ips, false) && !m.noAutoAssign {
        var r := AssignV4(network.pools, network.routes, taken, q.from);
        if r.Some? {
          added := added + [V4(r.value)];
        }
      }
    }

    /** The `authorized` field of a member POST. */
    method PostAuthorized(now: u64, a: Address, newAuth: bool)
      modifies this
      ensures Posted(old(Abstract()), now, a, newAuth, Abstract())
    {
      var m := Lookup(members, a);
      if newAuth != m.authorized {
        m := m.(authorized := newAuth, authEvents := m.authEvents + 1);
        if newAuth {
          m := m.(lastAuthorized := now);
        } else {
          m := m.(lastDeauthorized := now);
          cache := None;
        }
      }
      members := members[a := m];
    }
  }

  lemma UsesIgnoresRequests(s: State, s': State, now: u64)
    requires s.members == s'.members && s.cache == s'.cache
    ensures forall info :: Uses(s, now, info) <==> Uses(s', now, info)
  {
  }
}
