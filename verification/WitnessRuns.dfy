/** Concrete runs of the controller in which something goes wrong: the cases that the theorems about
    all runs exclude are real. */
module WitnessRuns {
  import opened Words
  import opened Options
  import opened Membership
  import opened IpAllocation
  import opened Controller
  import opened ControllerRuns
  import opened Allocations

  const START: State := State(map[], None, map[])

  function EndOf(run: seq<Step>): State
  {
    if run == [] then START else run[|run| - 1].after
  }

  lemma Extend(net: Network, run: seq<Step>, t: Step)
    requires Run(net, run) && ControllerRuns.Valid(net, t) && t.before == EndOf(run)
    requires run != [] ==> run[|run| - 1].now <= t.now
    ensures Run(net, run + [t])
  {
    hide ControllerRuns.Valid;
  }

  /** One more edit of a member's authorisation. */
  lemma PostNext(net: Network, run: seq<Step>, now: u64, a: Address, auth: bool) returns (next: seq<Step>)
    requires Run(net, run) && (run != [] ==> run[|run| - 1].now <= now)
    requires Lookup(EndOf(run).members, a).authorized != auth
    ensures Run(net, next) && |next| == |run| + 1 && next[..|run|] == run && next[|run|].now == now
    ensures next[|run|].event == Post(a, auth) && EndOf(next).lastRequest == EndOf(run).lastRequest
    ensures var m := Lookup(EndOf(run).members, a);
            var n := m.authEvents + 1;
            && EndOf(next).cache == (if auth then EndOf(run).cache else None)
            && EndOf(next).members == EndOf(run).members[a :=
                 if auth then m.(authorized := true, lastAuthorized := now, authEvents := n)
                 else m.(authorized := false, lastDeauthorized := now, authEvents := n)]
  {
    var s := EndOf(run);
    var m := Lookup(s.members, a);
    var n := m.authEvents + 1;
    var s' := if auth
              then s.(members := s.members[a := m.(authorized := true, lastAuthorized := now, authEvents := n)])
              else s.(members := s.members[a := m.(authorized := false, lastDeauthorized := now, authEvents := n)],
                      cache := None);
    var t := Step(now, Post(a, auth), s, s', Dropped);
    assert Posted(s, now, a, auth, s');
    hide Posted;
    assert ControllerRuns.Valid(net, t);
    Extend(net, run, t);
    next := run + [t];
  }

  /** One more granted request of an authorised member, without cached summary. */
  lemma RequestNext(net: Network, run: seq<Step>, now: u64, a: Address, info: Info, rnd: Randomness)
    returns (next: seq<Step>)
    requires Run(net, run) && (run != [] ==> run[|run| - 1].now <= now) && |rnd| == |net.pools|
    requires var m := Lookup(EndOf(run).members, a); m.authorized && (m.identity == None || m.identity == Some(a))
    requires EndOf(run).cache == None && Summarises(info, EndOf(run).members) && info.timestamp == now
    ensures Run(net, next) && |next| == |run| + 1 && next[..|run|] == run && next[|run|].now == now
    ensures var m := Lookup(EndOf(run).members, a);
            var added := Assigned(net, info.taken, m, a, rnd);
            && next[|run|].event == Request(Ask(a, a, 0, false, rnd))
            && next[|run|].reply == Config(Required(now, CredentialDelta(now, info.mostRecentDeauth), net.nwid, a))
            && EndOf(next).members == EndOf(run).members[a := m.(identity := Some(a), ips := m.ips + added)]
            && EndOf(next).cache == if added == [] then Some(info) else None
  {
    var s := EndOf(run);
    var m := Lookup(s.members, a);
    var q := Ask(a, a, 0, false, rnd);
    var known := m.(identity := Some(a));
    var added := Assigned(net, info.taken, known, a, rnd);
    assert added == Assigned(net, info.taken, m, a, rnd) by {
      SameAssigned(net, info.taken, m, a, rnd);
    }
    hide Assigned, Summarises;
    var cache := if added == [] then Some(info) else None;
    var s' := State(s.members[a := known.(ips := known.ips + added)], cache, s.lastRequest);
    var reply := Config(Required(now, CredentialDelta(now, info.mostRecentDeauth), net.nwid, a));
    assert Granted(net, s, now, q, known, s.lastRequest, info, s', reply);
    assert Joined(net, known, false, now) == known && Uses(s, now, info);
    assert Requested(net, s, now, q, s', reply);
    hide Requested;
    var t := Step(now, Request(q), s, s', reply);
    assert ControllerRuns.Valid(net, t);
    Extend(net, run, t);
    next := run + [t];
  }

  lemma SameAssigned(net: Network, taken: set<Ip>, m: Member, a: Address, rnd: Randomness)
    requires |rnd| == |net.pools|
    ensures Assigned(net, taken, m.(identity := Some(a)), a, rnd) == Assigned(net, taken, m, a, rnd)
  {
    hide FromPools4, FromPools6, HasManaged;
  }

  // ------------------------------------------------------------------------
  // Addresses

  const FIRST: u32 := 0x0a000001

  /** Three addresses to hand out, under one route. */
  function SmallNet(via: bool): Network
  {
    Network(0, true, true, false, [Pool(V4(FIRST), V4(FIRST + 2))], [Route(V4(0x0a000000), 8, via)])
  }

  const NO_LUCK: Randomness := [_ => (0, 0)]

  lemma SmallRoutes(via: bool, ip: u32)
    requires FIRST <= ip <= FIRST + 2
    ensures RoutedBits4(SmallNet(via).routes, ip) == 8
    ensures via ==> StaticBits(SmallNet(via).routes, V4(ip)) == 0
  {
    assert Pow2(8) == 0x100;
    assert Pow2(16) == 0x100 * Pow2(8);
    assert Pow2(24) == 0x100 * Pow2(16);
    hide Pow2;
    assert Covers4(SmallNet(via).routes[0], ip);
    hide Covers4, Contains;
  }

  lemma SmallTrials(a: Address)
    requires a == 0 || a == 2
    ensures TrialCount(FIRST, FIRST + 2) == 3
    ensures Trial4(FIRST, FIRST + 2, a) == FIRST && Trial4(FIRST, FIRST + 2, a + 1) == FIRST + 1
  {
    W32Id(a);
    W32Id(a + 1);
  }

  lemma SmallAccepts(via: bool, taken: set<Ip>)
    requires taken == {} || taken == {V4(FIRST)}
    ensures Acceptable4(SmallNet(via).routes, taken, FIRST) <==> taken == {}
    ensures Acceptable4(SmallNet(via).routes, taken, FIRST + 1)
  {
    SmallRoutes(via, FIRST);
    SmallRoutes(via, FIRST + 1);
    hide RoutedBits4;
  }

  /** The address a member with an even number gets: the first one, or the second if that is taken. */
  lemma SmallSearch(via: bool, taken: set<Ip>, a: Address)
    requires (a == 0 || a == 2) && (taken == {} || taken == {V4(FIRST)})
    ensures FromPools4(SmallNet(via).pools, SmallNet(via).routes, taken, a)
            == Some(if taken == {} then FIRST else FIRST + 1)
  {
    var routes := SmallNet(via).routes;
    SmallTrials(a);
    SmallAccepts(via, taken);
    hide RoutedBits4, Acceptable4, Trial4, TrialCount;
    assert Search4(FIRST, FIRST + 2, routes, taken, a, 3) == Some(if taken == {} then FIRST else FIRST + 1);
  }

  lemma SmallAssigned(via: bool, taken: set<Ip>, m: Member, a: Address)
    requires (a == 0 || a == 2) && (taken == {} || taken == {V4(FIRST)}) && !m.noAutoAssign
    requires m.ips == [] || (via && m.ips == [V4(FIRST)])
    ensures Assigned(SmallNet(via), taken, m, a, NO_LUCK) == [V4(if taken == {} then FIRST else FIRST + 1)]
  {
    SmallSearch(via, taken, a);
    SmallRoutes(via, FIRST);
    hide FromPools4, StaticBits;
  }

  lemma OnlyMember(members: map<Address, Member>, a: Address, m: Member, now: u64)
    requires members == map[a := m] && m.authorized && (m.ips == [] || m.ips == [V4(FIRST)])
    ensures Summarises(Info(if m.ips == [] then {} else {V4(FIRST)}, 0, now), members)
  {
    assert AllocatedIps(members) == if m.ips == [] then {} else {V4(FIRST)} by {
      assert m.ips != [] ==> members[a].ips[0] == V4(FIRST);
    }
  }

  /** Under a route with a gateway, a member that asks again is assigned a second address. */
  lemma SecondAddress() returns (net: Network, run: seq<Step>)
    ensures Run(net, run) && |run| == 3 && run[1].event == run[2].event && run[2].reply.Config?
    ensures Lookup(run[1].after.members, 0).ips == [V4(FIRST)]
    ensures Lookup(run[2].after.members, 0).ips == [V4(FIRST), V4(FIRST + 1)]
    ensures !LocalPools4(net)
  {
    hide ControllerRuns.Valid, Summarises, Assigned;
    net := SmallNet(true);
    var run1 := PostNext(net, [], 1, 0, true);
    var m := Lookup(EndOf(run1).members, 0);
    OnlyMember(EndOf(run1).members, 0, m, 1);
    SmallAssigned(true, {}, m, 0);
    var run2 := RequestNext(net, run1, 1, 0, Info({}, 0, 1), NO_LUCK);
    m := Lookup(EndOf(run2).members, 0);
    OnlyMember(EndOf(run2).members, 0, m, 1);
    SmallAssigned(true, {V4(FIRST)}, m, 0);
    var run3 := RequestNext(net, run2, 1, 0, Info({V4(FIRST)}, 0, 1), NO_LUCK);
    run := run3;
    assert run3[1] == run3[..2][1] == run2[1];
    GatewayPools();
  }

  lemma GatewayPools()
    ensures !LocalPools4(SmallNet(true))
  {
    SmallRoutes(true, FIRST);
    hide RoutedBits4, StaticBits;
    assert Tried4(SmallNet(true).pools[0], FIRST);
    assert InPool4(SmallNet(true).pools, FIRST);
  }

  lemma OneOut(members: map<Address, Member>, x: Address, y: Address, now: u64)
    requires members.Keys == {x, y} && x != y && !members[x].authorized && members[x].lastDeauthorized == now
    requires members[y].authorized && members[y].ips == []
    ensures Summarises(Info({}, now, now), members)
  {
    assert AllocatedIps(members) == {};
  }

  /** A de-authorised member's address is handed to another, and coming back the member still has it. */
  lemma SharedAddress() returns (net: Network, run: seq<Step>)
    ensures Run(net, run) && |run| == 6 && run[2].event == Post(0, false) && run[5].event == Post(0, true)
    ensures var members := run[5].after.members;
            && 0 in members && 2 in members && members[0].authorized && members[2].authorized
            && members[0].ips == members[2].ips == [V4(FIRST)]
    ensures LocalPools4(net) && !Seen(run[4].before, run[4].now)
  {
    hide ControllerRuns.Valid, Summarises, Assigned, Seen;
    net := SmallNet(false);
    LocalRoutesSuffice(net);
    var run1 := PostNext(net, [], 1, 0, true);
    var m := Lookup(EndOf(run1).members, 0);
    OnlyMember(EndOf(run1).members, 0, m, 1);
    SmallAssigned(false, {}, m, 0);
    var run2 := RequestNext(net, run1, 1, 0, Info({}, 0, 1), NO_LUCK);
    var run3 := PostNext(net, run2, 1, 0, false);
    var run4 := PostNext(net, run3, 1, 2, true);
    var s := EndOf(run4);
    m := Lookup(s.members, 2);
    OneOut(s.members, 0, 2, 1);
    SmallAssigned(false, {}, m, 2);
    HiddenAddress(s, 0, 2);
    var run5 := RequestNext(net, run4, 1, 2, Info({}, 1, 1), NO_LUCK);
    run := PostNext(net, run5, 1, 0, true);
    assert run[4] == run[..5][4] == run5[4];
    assert run[2] == run[..5][2] == run5[2] && run5[2] == run5[..4][2] == run4[2] && run4[2] == run4[..3][2];
  }

  lemma HiddenAddress(s: State, x: Address, y: Address)
    requires s.members.Keys == {x, y} && x != y && s.cache == None
    requires !s.members[x].authorized && s.members[x].ips == [V4(FIRST)] && s.members[y].ips == []
    ensures !Seen(s, 1)
  {
    assert s.members[x].ips[0] == V4(FIRST);
    assert V4(FIRST) in Held(s.members);
    assert AllocatedIps(s.members) == {};
  }

  // ------------------------------------------------------------------------
  // Certificates

  const BARE: Network := Network(0, true, false, false, [], [])

  const LATER: u64 := 200001

  lemma NothingToAssign(taken: set<Ip>, m: Member, a: Address)
    ensures Assigned(BARE, taken, m, a, []) == []
  {
    hide FromPools4, FromPools6, HasManaged;
  }

  lemma AllIn(members: map<Address, Member>)
    requires forall a | a in members :: members[a].authorized && members[a].ips == []
    ensures Summarises(Info({}, 0, 1), members)
  {
    assert AllocatedIps(members) == {};
  }

  lemma TwoOut(members: map<Address, Member>)
    requires members.Keys == {1, 2, 3} && forall a | a in members :: members[a].ips == []
    requires !members[1].authorized && members[1].lastDeauthorized == 1 && members[2].authorized
    requires !members[3].authorized && members[3].lastDeauthorized == LATER
    ensures Summarises(Info({}, LATER, LATER), members)
  {
    assert AllocatedIps(members) == {};
  }

  lemma ThreeJoin() returns (run: seq<Step>)
    ensures Run(BARE, run) && |run| == 3 && run[2].now == 1
    ensures var s := EndOf(run);
            && s.members.Keys == {1, 2, 3} && s.cache == None
            && forall a | a in s.members ::
                 s.members[a].authorized && s.members[a].ips == [] && s.members[a].identity == None
  {
    hide ControllerRuns.Valid, Run;
    RunOfNone(BARE);
    var run1 := PostNext(BARE, [], 1, 1, true);
    var run2 := PostNext(BARE, run1, 1, 2, true);
    run := PostNext(BARE, run2, 1, 3, true);
  }

  lemma RunOfNone(net: Network)
    ensures Run(net, [])
  {
  }

  /** Three members join, the first fetches its configuration, and two are de-authorised, the second
      of them much later. */
  lemma TwoLeave() returns (run: seq<Step>)
    ensures Run(BARE, run) && |run| == 6
    ensures run[3].event.Request? && run[3].event.ask.from == 1
    ensures run[3].reply == Config(Required(1, CredentialDelta(1, 0), 0, 1))
    ensures run[5].event == Post(3, false) && run[5].now == LATER
    ensures var s := EndOf(run);
            && s.members.Keys == {1, 2, 3} && s.cache == None && (forall a | a in s.members :: s.members[a].ips == [])
            && !s.members[1].authorized && s.members[1].lastDeauthorized == 1
            && s.members[2].authorized && s.members[2].identity == None
            && !s.members[3].authorized && s.members[3].lastDeauthorized == LATER
  {
    hide ControllerRuns.Valid, Summarises, Assigned, Run, CredentialDelta, Required;
    var run3 := ThreeJoin();
    AllIn(EndOf(run3).members);
    NothingToAssign({}, Lookup(EndOf(run3).members, 1), 1);
    var run4 := RequestNext(BARE, run3, 1, 1, Info({}, 0, 1), []);
    var run5 := PostNext(BARE, run4, 1, 1, false);
    run := PostNext(BARE, run5, LATER, 3, false);
    assert run[3] == run[..5][3] == run5[3] && run5[3] == run5[..4][3] == run4[3];
  }

  /** In the millisecond in which another member is de-authorised, a member long de-authorised is let
      back in: a new certificate agrees with its old one. */
  lemma SameMillisecond() returns (net: Network, run: seq<Step>)
    ensures net.isPrivate && Run(net, run) && |run| == 7
    ensures run[3].event.Request? && run[3].event.ask.from == 1 && run[3].reply.Config?
    ensures run[6].event.Request? && run[6].reply.Config?
    ensures 1 in run[6].before.members && !run[6].before.members[1].authorized
    ensures run[6].now - run[6].before.members[1].lastDeauthorized > MIN_DELTA
    ensures run[5].event == Post(3, false) && run[5].now == run[6].now
    ensures CodeAgrees(run[6].reply.com, run[3].reply.com)
  {
    hide ControllerRuns.Valid, Summarises, Assigned, CodeAgrees, Required, Documented, Sorted;
    net := BARE;
    var run6 := TwoLeave();
    TwoOut(EndOf(run6).members);
    NothingToAssign({}, Lookup(EndOf(run6).members, 2), 2);
    run := RequestNext(net, run6, LATER, 2, Info({}, LATER, LATER), []);
    assert run[5] == run[..6][5] == run6[5] && run[3] == run[..6][3] == run6[3];
    assert run[6].before == EndOf(run6);
    RequiredAgreement(LATER, CredentialDelta(LATER, LATER), 0, 2, 1, CredentialDelta(1, 0), 0, 1);
  }
}
