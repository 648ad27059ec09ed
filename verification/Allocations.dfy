/** Who ends up with how many addresses: automatic assignment over whole runs. */
module Allocations {
  import opened Words
  import opened Options
  import opened ModArith
  import opened Membership
  import opened IpAllocation
  import opened Controller
  import opened ControllerRuns

  // ------------------------------------------------------------------------
  // Which addresses count as managed

  /** For IPv6 the route that lets an address be assigned is the one that counts it later. */
  lemma {:induction false} SameRoutes6(routes: seq<Route>, hi: u64, lo: u64)
    ensures StaticBits(routes, V6(hi, lo)) == RoutedBits6(routes, hi, lo)
  {
    hide Value6;
    if |routes| > 0 {
      SameRoutes6(routes[..|routes| - 1], hi, lo);
    }
  }

  /** Every IPv4 address that can ever be assigned lies under a local route, whose netmask counts. */
  ghost predicate LocalPools4(net: Network)
  {
    forall ip: u32 | InPool4(net.pools, ip) && ip % 256 != 255 && RoutedBits4(net.routes, ip) > 0 ::
      StaticBits(net.routes, V4(ip)) > 0
  }

  /** Whatever is assigned to the member counts against the next assignment. */
  ghost predicate StaysManaged(net: Network, taken: set<Ip>, m: Member, a: Address, rnd: Randomness)
    requires |rnd| == |net.pools|
  {
    var added := Assigned(net, taken, m, a, rnd);
    forall i | 0 <= i < |added| :: HasManaged(net.routes, m.ips + added, added[i].V6?)
  }

  lemma LastCounts(routes: seq<Route>, ips: seq<Ip>, added: seq<Ip>, i: nat)
    requires i < |added| && StaticBits(routes, added[i]) > 0
    ensures HasManaged(routes, ips + added, added[i].V6?)
  {
    hide StaticBits;
    assert (ips + added)[|ips| + i] == added[i];
  }

  /** Under local pools new addresses count, of either family; for IPv6 they always do. */
  lemma AssignedCounts(net: Network, taken: set<Ip>, m: Member, a: Address, rnd: Randomness, i: nat)
    requires |rnd| == |net.pools| && i < |Assigned(net, taken, m, a, rnd)|
    requires Assigned(net, taken, m, a, rnd)[i].V6? || LocalPools4(net)
    ensures StaticBits(net.routes, Assigned(net, taken, m, a, rnd)[i]) > 0
  {
    hide FromPools4, FromPools6, InPool4, InPool6, RoutedBits4, RoutedBits6, HasManaged, StaticBits;
    FromPools4Sound(net.pools, net.routes, taken, a);
    FromPools6Sound(net.pools, net.routes, taken, a, rnd);
    var ip := Assigned(net, taken, m, a, rnd)[i];
    if ip.V6? {
      SameRoutes6(net.routes, ip.hi, ip.lo);
    }
  }

  /** If only one address is free, nothing else is found. */
  lemma OnlyFree(pools: seq<Pool>, routes: seq<Route>, taken: set<Ip>, a: Address, ip: u32)
    requires forall x: u32 | x != ip :: V4(x) in taken
    ensures FromPools4(pools, routes, taken, a) == None || FromPools4(pools, routes, taken, a) == Some(ip)
  {
    hide FromPools4, InPool4, RoutedBits4;
    FromPools4Sound(pools, routes, taken, a);
  }

  lemma FirstTrial(p: Pool, routes: seq<Route>, taken: set<Ip>, a: Address, ip: u32)
    requires Tried4(p, ip) && a == ip - p.start.addr && Acceptable4(routes, taken, ip)
    ensures Search4(p.start.addr, p.end.addr, routes, taken, W32(a), TrialCount(p.start.addr, p.end.addr)) == Some(ip)
  {
    hide Acceptable4;
    W32Id(a);
    if p.end.addr > p.start.addr {
      DivModUnique(a, p.end.addr - p.start.addr, 0, a);
    }
    assert Trial4(p.start.addr, p.end.addr, W32(a)) == ip;
  }

  /** A member whose counter starts at a free address gets it, if nothing else is free. */
  lemma {:induction false} PoolGives(pools: seq<Pool>, routes: seq<Route>, taken: set<Ip>, a: Address, ip: u32, i: nat)
    requires i < |pools| && Tried4(pools[i], ip) && a == ip - pools[i].start.addr
    requires Acceptable4(routes, taken, ip) && forall x: u32 | x != ip :: V4(x) in taken
    ensures FromPools4(pools, routes, taken, a) == Some(ip)
    decreases i
  {
    hide Acceptable4, Search4, TrialCount;
    if i == 0 {
      FirstTrial(pools[0], routes, taken, a, ip);
    } else {
      PoolGives(pools[1..], routes, taken, a, ip, i - 1);
      OnlyFree(pools, routes, taken, a, ip);
    }
  }

  /** For every address that can be assigned there is a member and a state that get it assigned. */
  lemma SomeoneGets(net: Network, ip: u32, rnd: Randomness) returns (taken: set<Ip>, m: Member, a: Address)
    requires net.v4 && |rnd| == |net.pools|
    requires InPool4(net.pools, ip) && ip % 256 != 255 && RoutedBits4(net.routes, ip) > 0
    ensures m.ips == [] && V4(ip) in Assigned(net, taken, m, a, rnd)
  {
    hide FromPools4, FromPools6, RoutedBits4;
    var i :| 0 <= i < |net.pools| && Tried4(net.pools[i], ip);
    taken := set x: u32 | x != ip :: V4(x);
    m, a := Member(None, true, 0, 0, 0, [], false), ip - net.pools[i].start.addr;
    PoolGives(net.pools, net.routes, taken, a, ip, i);
    assert !HasManaged(net.routes, [], false);
    var added := Assigned(net, taken, m, a, rnd);
    assert added[|added| - 1] == V4(ip);
  }

  lemma OneUncounted(net: Network, taken: set<Ip>, m: Member, a: Address, rnd: Randomness, ip: u32)
    requires |rnd| == |net.pools| && m.ips == [] && V4(ip) in Assigned(net, taken, m, a, rnd)
    requires StaticBits(net.routes, V4(ip)) == 0
    ensures !StaysManaged(net, taken, m, a, rnd)
  {
    hide FromPools4, FromPools6, StaticBits;
    var added := Assigned(net, taken, m, a, rnd);
    assert m.ips + added == added;
    var k :| 0 <= k < |added| && added[k] == V4(ip);
    assert forall i | 0 <= i < |added| && !added[i].V6? :: added[i] == V4(ip);
    assert !HasManaged(net.routes, m.ips + added, added[k].V6?);
  }

  /** Assigned addresses count against the next assignment, for all members and states, exactly when
      IPv4 is not assigned automatically or every assignable address is under a local route. */
  lemma ManagedIff(net: Network)
    ensures (forall taken, m, a, rnd: Randomness | |rnd| == |net.pools| :: StaysManaged(net, taken, m, a, rnd))
       <==> !net.v4 || LocalPools4(net)
  {
    hide Assigned, HasManaged, StaticBits, StaysManaged, InPool4, RoutedBits4;
    if !net.v4 || LocalPools4(net) {
      forall taken, m, a, rnd: Randomness | |rnd| == |net.pools|
        ensures StaysManaged(net, taken, m, a, rnd)
      {
        AllCount(net, taken, m, a, rnd);
      }
    } else {
      var ip: u32 :| InPool4(net.pools, ip) && ip % 256 != 255 && RoutedBits4(net.routes, ip) > 0
                     && StaticBits(net.routes, V4(ip)) == 0;
      var rnd: Randomness := seq(|net.pools|, _ => _ => (0, 0));
      var taken, m, a := SomeoneGets(net, ip, rnd);
      OneUncounted(net, taken, m, a, rnd, ip);
    }
  }

  lemma AllCount(net: Network, taken: set<Ip>, m: Member, a: Address, rnd: Randomness)
    requires |rnd| == |net.pools| && (!net.v4 || LocalPools4(net))
    ensures StaysManaged(net, taken, m, a, rnd)
  {
    hide HasManaged, StaticBits, LocalPools4;
    var added := Assigned(net, taken, m, a, rnd);
    forall i | 0 <= i < |added|
      ensures HasManaged(net.routes, m.ips + added, added[i].V6?)
    {
      FamilyOfAdded(net, taken, m, a, rnd, i);
      AssignedCounts(net, taken, m, a, rnd, i);
      LastCounts(net.routes, m.ips, added, i);
    }
  }

  lemma FamilyOfAdded(net: Network, taken: set<Ip>, m: Member, a: Address, rnd: Randomness, i: nat)
    requires |rnd| == |net.pools| && i < |Assigned(net, taken, m, a, rnd)|
    ensures var ip := Assigned(net, taken, m, a, rnd)[i]; ip.V6? || net.v4
  {
    hide FromPools4, FromPools6, HasManaged;
  }

  // ------------------------------------------------------------------------
  // Local routes are enough

  lemma CoveredIsContained(r: Route, ip: u32)
    requires Covers4(r, ip)
    ensures Contains(r, V4(ip))
  {
    var w := Pow2(32 - r.bits);
    hide Pow2;
    var t := ip - ip % w;
    assert t == (ip / w) * w + 0;
    DivModUnique(t, w, ip / w, 0);
  }

  lemma {:induction false} ContainedCounts(routes: seq<Route>, ip: Ip, k: nat)
    requires k < |routes| && Contains(routes[k], ip) && !routes[k].via
    requires forall r | r in routes && !r.via && Contains(r, ip) :: r.bits > 0
    ensures StaticBits(routes, ip) > 0
    decreases |routes|
  {
    hide Contains;
    var n := |routes| - 1;
    assert routes[n] in routes;
    if routes[n].via || !Contains(routes[n], ip) {
      assert routes[..n][k] == routes[k];
      ContainedCounts(routes[..n], ip, k);
    }
  }

  lemma {:induction false} RoutedBy(routes: seq<Route>, ip: u32) returns (k: nat)
    requires RoutedBits4(routes, ip) > 0
    ensures k < |routes| && Covers4(routes[k], ip)
  {
    hide Covers4;
    if Covers4(routes[0], ip) {
      k := 0;
    } else {
      var j := RoutedBy(routes[1..], ip);
      k := j + 1;
    }
  }

  /** With nothing but local IPv4 routes of nonzero netmask every assignable address counts. */
  lemma LocalRoutesSuffice(net: Network)
    requires forall r | r in net.routes && r.target.V4? :: !r.via && r.bits > 0
    ensures LocalPools4(net)
  {
    hide InPool4, Covers4, RoutedBits4, Contains, StaticBits;
    forall ip: u32 | RoutedBits4(net.routes, ip) > 0
      ensures StaticBits(net.routes, V4(ip)) > 0
    {
      var k := RoutedBy(net.routes, ip);
      CoveredIsContained(net.routes[k], ip);
      ContainsFamily(net.routes, ip);
      assert net.routes[k] in net.routes;
      ContainedCounts(net.routes, V4(ip), k);
    }
  }

  lemma ContainsFamily(routes: seq<Route>, ip: u32)
    ensures forall r | r in routes && Contains(r, V4(ip)) :: r.target.V4?
  {
  }

  // ------------------------------------------------------------------------
  // At most one address of a family

  /** Every member holds at most one address of the family, and it counts. */
  ghost predicate OneEach(net: Network, members: map<Address, Member>, v6: bool)
  {
    forall a | a in members :: OneOf(net, members[a].ips, v6)
  }

  ghost predicate OneOf(net: Network, ips: seq<Ip>, v6: bool)
  {
    && (forall i | 0 <= i < |ips| && ips[i].V6? == v6 :: StaticBits(net.routes, ips[i]) > 0)
    && (forall i, j | 0 <= i < j < |ips| && ips[i].V6? == v6 :: ips[j].V6? != v6)
  }

  /** The family is IPv6, or IPv4 over pools under local routes. */
  ghost predicate Counted(net: Network, v6: bool)
  {
    v6 || !net.v4 || LocalPools4(net)
  }

  /** A member that holds an address of the family gets no other. */
  lemma NothingAdded(net: Network, taken: set<Ip>, m: Member, a: Address, rnd: Randomness, v6: bool, k: nat)
    requires |rnd| == |net.pools| && OneOf(net, m.ips, v6) && k < |m.ips| && m.ips[k].V6? == v6
    ensures forall i | 0 <= i < |Assigned(net, taken, m, a, rnd)| :: Assigned(net, taken, m, a, rnd)[i].V6? != v6
  {
    hide FromPools4, FromPools6, StaticBits;
    assert HasManaged(net.routes, m.ips, v6);
  }

  lemma AssignedKeepsOne(net: Network, taken: set<Ip>, m: Member, a: Address, rnd: Randomness, v6: bool)
    requires |rnd| == |net.pools| && OneOf(net, m.ips, v6) && Counted(net, v6)
    ensures OneOf(net, m.ips + Assigned(net, taken, m, a, rnd), v6)
  {
    hide FromPools4, FromPools6, StaticBits, HasManaged, LocalPools4;
    var added := Assigned(net, taken, m, a, rnd);
    var ips := m.ips + added;
    forall i | 0 <= i < |ips| && ips[i].V6? == v6
      ensures StaticBits(net.routes, ips[i]) > 0
    {
      if i >= |m.ips| {
        FamilyOfAdded(net, taken, m, a, rnd, i - |m.ips|);
        AssignedCounts(net, taken, m, a, rnd, i - |m.ips|);
      }
    }
    forall i, j | 0 <= i < j < |ips| && ips[i].V6? == v6
      ensures ips[j].V6? != v6
    {
      if i < |m.ips| {
        NothingAdded(net, taken, m, a, rnd, v6, i);
      }
    }
  }

  lemma StepKeepsOne(net: Network, t: Step, v6: bool)
    requires ControllerRuns.Valid(net, t) && OneEach(net, t.before.members, v6) && Counted(net, v6)
    ensures OneEach(net, t.after.members, v6)
  {
    if t.event.Post? {
      hide OneOf, Counted;
      NoAddresses(net, v6);
    } else if t.reply.Config? {
      var info, m := GrantedBy(net, t);
      hide ControllerRuns.Valid, OneOf, Counted, Assigned;
      NoAddresses(net, v6);
      AssignedKeepsOne(net, info.taken, m, t.event.ask.from, t.event.ask.rnd, v6);
    } else {
      NotGranted(net, t);
      hide ControllerRuns.Valid, OneOf, Counted;
      NoAddresses(net, v6);
    }
  }

  lemma NoAddresses(net: Network, v6: bool)
    ensures OneOf(net, [], v6)
  {
  }

  /** In every run, whatever is authorised and de-authorised, a member is assigned at most one IPv6
      address, and at most one IPv4 address if the assignable ones are under local routes. */
  lemma {:induction false} AtMostOne(net: Network, run: seq<Step>, v6: bool)
    requires Run(net, run) && Counted(net, v6)
    ensures |run| > 0 ==> OneEach(net, run[|run| - 1].after.members, v6)
    decreases |run|
  {
    if |run| > 0 {
      var n := |run| - 1;
      hide ControllerRuns.Valid, OneOf, Counted;
      RunPrefix(net, run, n);
      AtMostOne(net, run[..n], v6);
      StepKeepsOne(net, run[n], v6);
    }
  }

  /** In such a run, a request of a member that holds an address of the family adds none. */
  lemma RepeatAddsNothing(net: Network, run: seq<Step>, n: nat, v6: bool, k: nat)
    requires Run(net, run) && Counted(net, v6) && n < |run| && run[n].event.Request? && run[n].reply.Config?
    requires var m := Lookup(run[n].before.members, run[n].event.ask.from); k < |m.ips| && m.ips[k].V6? == v6
    ensures var a := run[n].event.ask.from;
            var old_, new_ := Lookup(run[n].before.members, a).ips, Lookup(run[n].after.members, a).ips;
            old_ <= new_ && forall i | |old_| <= i < |new_| :: new_[i].V6? != v6
  {
    var info, m := GrantedBy(net, run[n]);
    RunPrefix(net, run, n);
    AtMostOne(net, run[..n], v6);
    hide ControllerRuns.Valid, OneOf, Counted, Assigned;
    assert OneEach(net, run[n].before.members, v6);
    NothingAdded(net, info.taken, m, run[n].event.ask.from, run[n].event.ask.rnd, v6, k);
  }

  // ------------------------------------------------------------------------
  // Distinct addresses while members come and go

  /** All addresses that members hold, authorised or not. */
  ghost function Held(members: map<Address, Member>): set<Ip>
  {
    set a, i | a in members && 0 <= i < |members[a].ips| :: members[a].ips[i]
  }

  /** The summary that a request works with knows every address that is held. */
  ghost predicate Seen(s: State, now: u64)
  {
    Held(s.members) <= if CacheUsable(s.cache, now) then s.cache.value.taken else AllocatedIps(s.members)
  }

  /** A request that is granted keeps addresses distinct exactly when nothing that is free in the
      summary, and picked for this member, is held all the same. */
  lemma DistinctStepIff(net: Network, t: Step) returns (info: Info, m: Member)
    requires ControllerRuns.Valid(net, t) && t.event.Request? && t.reply.Config? && DistinctIps(t.before.members)
    ensures var q := t.event.ask;
            && Uses(t.before, t.now, info) && |q.rnd| == |net.pools|
            && m == Joined(net, Lookup(t.before.members, q.from).(identity := Some(q.identity)), q.token, t.now)
            && var added := Assigned(net, info.taken, m, q.from, q.rnd);
               DistinctIps(t.after.members) <==> forall i | 0 <= i < |added| :: added[i] !in Held(t.before.members)
  {
    info, m := GrantedBy(net, t);
    hide ControllerRuns.Valid, Assigned, WellPlaced, DistinctIps, Uses;
    var q := t.event.ask;
    AssignedFresh(net, info.taken, m, q.from, q.rnd);
    DistinctWithIff(t.before.members, q.from, m, Assigned(net, info.taken, m, q.from, q.rnd));
  }

  /** A granted request that finds all held addresses in its summary keeps them distinct. */
  lemma SeenKeepsDistinct(net: Network, t: Step)
    requires ControllerRuns.Valid(net, t) && DistinctIps(t.before.members)
    requires t.event.Request? && t.reply.Config? ==> Seen(t.before, t.now)
    ensures DistinctIps(t.after.members)
  {
    if t.event.Request? && t.reply.Config? {
      var info, m := DistinctStepIff(net, t);
      hide ControllerRuns.Valid, Assigned, AllocatedIps, Held, WellPlaced, DistinctIps;
      AssignedFresh(net, info.taken, m, t.event.ask.from, t.event.ask.rnd);
    } else {
      QuietDistinct(net, t);
    }
  }

  lemma QuietDistinct(net: Network, t: Step)
    requires ControllerRuns.Valid(net, t) && DistinctIps(t.before.members) && !(t.event.Request? && t.reply.Config?)
    ensures DistinctIps(t.after.members)
  {
    if t.event.Request? {
      NotGranted(net, t);
      hide ControllerRuns.Valid;
    }
  }

  lemma DistinctWithIff(members: map<Address, Member>, a: Address, m: Member, added: seq<Ip>)
    requires DistinctIps(members) && m.ips == Lookup(members, a).ips
    requires |added| <= 2 && (|added| == 2 ==> added[0] != added[1])
    ensures DistinctIps(members[a := m.(ips := m.ips + added)])
       <==> forall i | 0 <= i < |added| :: added[i] !in Held(members)
  {
    hide DistinctIps, Held;
    if forall i | 0 <= i < |added| :: added[i] !in Held(members) {
      FreeStaysDistinct(members, a, m, added);
    } else {
      var i :| 0 <= i < |added| && added[i] in Held(members);
      HeldTwice(members, a, m, added, i);
    }
  }

  lemma FreeStaysDistinct(members: map<Address, Member>, a: Address, m: Member, added: seq<Ip>)
    requires DistinctIps(members) && m.ips == Lookup(members, a).ips
    requires |added| <= 2 && (|added| == 2 ==> added[0] != added[1])
    requires forall i | 0 <= i < |added| :: added[i] !in Held(members)
    ensures DistinctIps(members[a := m.(ips := m.ips + added)])
  {
    hide Held;
    var n := members[a := m.(ips := m.ips + added)];
    forall b, c, i, j | b in n && c in n && 0 <= i < |n[b].ips| && 0 <= j < |n[c].ips| && n[b].ips[i] == n[c].ips[j]
      ensures b == c && i == j
    {
      OldOrAdded(members, a, m, added, b, i);
      OldOrAdded(members, a, m, added, c, j);
    }
  }

  lemma HeldTwice(members: map<Address, Member>, a: Address, m: Member, added: seq<Ip>, i: nat)
    requires m.ips == Lookup(members, a).ips && i < |added| && added[i] in Held(members)
    ensures !DistinctIps(members[a := m.(ips := m.ips + added)])
  {
    var n := members[a := m.(ips := m.ips + added)];
    var b, j :| b in members && 0 <= j < |members[b].ips| && members[b].ips[j] == added[i];
    assert n[a].ips[|m.ips| + i] == added[i] == n[b].ips[j];
  }

  lemma OldOrAdded(members: map<Address, Member>, a: Address, m: Member, added: seq<Ip>, b: Address, i: nat)
    requires m.ips == Lookup(members, a).ips
    requires var n := members[a := m.(ips := m.ips + added)]; b in n && i < |n[b].ips|
    ensures var n := members[a := m.(ips := m.ips + added)];
            if b == a && i >= |m.ips| then n[b].ips[i] == added[i - |m.ips|]
            else && b in members && i < |members[b].ips|
                 && n[b].ips[i] == members[b].ips[i] && n[b].ips[i] in Held(members)
  {
  }

  lemma NobodyDistinct()
    ensures DistinctIps(map[])
  {
  }

  /** Addresses are distinct all along a run in which every granted request finds all held addresses
      in its summary: whoever holds one is authorised, and a cached summary is not older than that. */
  lemma {:induction false} DistinctWhileSeen(net: Network, run: seq<Step>, n: nat)
    requires Run(net, run) && n < |run|
    requires forall k | 0 <= k <= n && run[k].event.Request? && run[k].reply.Config? :: Seen(run[k].before, run[k].now)
    ensures DistinctIps(run[n].after.members)
  {
    hide ControllerRuns.Valid, DistinctIps, Seen;
    if n == 0 {
      NobodyDistinct();
    } else {
      DistinctWhileSeen(net, run, n - 1);
    }
    SeenKeepsDistinct(net, run[n]);
  }
}
