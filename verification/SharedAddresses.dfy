/** For which networks no run of the controller, with any authorisation and de-authorisation of
    members, ever gives one address to two of them. */
module SharedAddresses {
  import opened Words
  import opened Options
  import opened ModArith
  import opened Membership
  import opened IpAllocation
  import opened Controller
  import opened ControllerRuns
  import opened Allocations
  import opened Reachability
  import opened WitnessRuns

  // ------------------------------------------------------------------------
  // The condition

  /** The IPv4 address can be assigned to somebody. */
  ghost predicate Assignable4(net: Network, ip: u32)
  {
    InPool4(net.pools, ip) && ip % 256 != 255 && RoutedBits4(net.routes, ip) > 0
  }

  /** Two members can be assigned the same IPv6 address. */
  ghost predicate Common6(net: Network, x: Address, y: Address, ip: Ip)
  {
    x != y && Reaches(net.pools, net.routes, x, ip) && Reaches(net.pools, net.routes, y, ip)
  }

  /** No IPv4 address is assigned automatically, and every IPv6 address to one member at most. */
  ghost predicate Separate(net: Network)
  {
    && (net.v4 ==> forall ip: u32 :: !Assignable4(net, ip))
    && (net.v6 ==> forall x, y, ip :: !Common6(net, x, y, ip))
  }

  /** No two authorised members share an address. */
  ghost predicate LiveDistinct(members: map<Address, Member>)
  {
    forall a, b, i, j | a in members && b in members && members[a].authorized && members[b].authorized
                        && 0 <= i < |members[a].ips| && 0 <= j < |members[b].ips| ::
      members[a].ips[i] == members[b].ips[j] ==> a == b && i == j
  }

  lemma DistinctIsLive(members: map<Address, Member>)
    requires DistinctIps(members)
    ensures LiveDistinct(members)
  {
  }

  // ------------------------------------------------------------------------
  // Separate networks

  /** Members hold only IPv6 addresses that they can reach, and the summary knows nothing else. */
  ghost predicate InPlace(net: Network, s: State)
  {
    && (forall a | a in s.members :: OwnReach(net, a, s.members[a].ips))
    && (s.cache.Some? ==> s.cache.value.taken <= Held(s.members))
  }

  ghost predicate OwnReach(net: Network, a: Address, ips: seq<Ip>)
  {
    forall i | 0 <= i < |ips| :: ips[i].V6? && Reaches(net.pools, net.routes, a, ips[i])
  }

  lemma TakenIsHeld(net: Network, s: State, now: u64, info: Info)
    requires InPlace(net, s) && Uses(s, now, info)
    ensures info.taken <= Held(s.members)
  {
  }

  /** In a separate network a member without IPv6 address gets one that it can reach. */
  lemma AddedInReach(net: Network, members: map<Address, Member>, taken: set<Ip>, m: Member, a: Address,
                     rnd: Randomness)
    requires Separate(net) && |rnd| == |net.pools| && taken <= Held(members) && m.ips == Lookup(members, a).ips
    requires forall b | b in members :: OwnReach(net, b, members[b].ips)
    requires OneOf(net, m.ips, true)
    ensures OwnReach(net, a, Assigned(net, taken, m, a, rnd))
  {
    hide Separate, Reaches, Held, OwnReach, HasManaged, FromPools4, FromPools6, OneOf;
    if net.v4 {
      NoneAssignable(net, taken, a);
    }
    NothingReach(net, a);
    var r := FromPools6(net.pools, net.routes, taken, a, rnd);
    var added := Assigned(net, taken, m, a, rnd);
    if net.v6 && !HasManaged(net.routes, m.ips, true) && !m.noAutoAssign && r.Some? {
      ReachedOnly(net, members, taken, m, a, rnd);
      SingleReach(net, a, r.value);
      assert added == [r.value];
    } else {
      assert added == [];
    }
  }

  lemma NothingReach(net: Network, a: Address)
    ensures OwnReach(net, a, [])
  {
  }

  lemma SingleReach(net: Network, a: Address, ip: Ip)
    requires ip.V6? && Reaches(net.pools, net.routes, a, ip)
    ensures OwnReach(net, a, [ip])
  {
  }

  lemma NoneAssignable(net: Network, taken: set<Ip>, a: Address)
    requires Separate(net) && net.v4
    ensures FromPools4(net.pools, net.routes, taken, a) == None
  {
    hide FromPools4, InPool4, RoutedBits4, Separate;
    FromPools4Sound(net.pools, net.routes, taken, a);
    var r := FromPools4(net.pools, net.routes, taken, a);
    if r.Some? {
      NotAssignable(net, r.value);
      assert false;
    }
  }

  lemma NotAssignable(net: Network, ip: u32)
    requires Separate(net) && net.v4
    ensures !Assignable4(net, ip)
  {
    hide Common6, Assignable4;
  }

  lemma NotCommon(net: Network, x: Address, y: Address, ip: Ip)
    requires Separate(net) && net.v6 && x != y && Reaches(net.pools, net.routes, x, ip)
    ensures !Reaches(net.pools, net.routes, y, ip)
  {
    hide Assignable4, Reaches;
    assert !Common6(net, x, y, ip);
  }

  lemma HeldByNone(net: Network, ips: seq<Ip>, i: nat)
    requires OneOf(net, ips, true) && i < |ips| && ips[i].V6?
    ensures HasManaged(net.routes, ips, true)
  {
    hide StaticBits;
  }

  /** What is taken is out of the member's reach, so it makes no difference. */
  lemma ReachedOnly(net: Network, members: map<Address, Member>, taken: set<Ip>, m: Member, a: Address, rnd: Randomness)
    requires Separate(net) && net.v6 && |rnd| == |net.pools| && taken <= Held(members)
    requires m.ips == Lookup(members, a).ips && OneOf(net, m.ips, true) && !HasManaged(net.routes, m.ips, true)
    requires forall b | b in members :: OwnReach(net, b, members[b].ips)
    ensures var r := FromPools6(net.pools, net.routes, taken, a, rnd);
            r.Some? ==> Reaches(net.pools, net.routes, a, r.value)
  {
    hide FromPools6, Reaches, Separate, OneOf, HasManaged;
    var r := FromPools6(net.pools, net.routes, {}, a, rnd);
    if r.Some? {
      ReachesIff(net.pools, net.routes, a, r.value);
      if r.value in taken {
        var b, i :| b in members && 0 <= i < |members[b].ips| && members[b].ips[i] == r.value;
        assert OwnReach(net, b, members[b].ips);
        if a == b {
          HeldByNone(net, m.ips, i);
        } else {
          NotCommon(net, a, b, r.value);
        }
        assert false;
      }
    }
    PoolsIgnore(net.pools, net.routes, taken, a, rnd);
  }

  lemma HeldGrows(members: map<Address, Member>, a: Address, m: Member)
    requires Lookup(members, a).ips <= m.ips
    ensures Held(members) <= Held(members[a := m])
  {
    var n := members[a := m];
    forall ip | ip in Held(members)
      ensures ip in Held(n)
    {
      var b, i :| b in members && 0 <= i < |members[b].ips| && members[b].ips[i] == ip;
      assert n[b].ips[i] == ip;
    }
  }

  lemma StepInPlace(net: Network, t: Step)
    requires ControllerRuns.Valid(net, t) && Separate(net) && InPlace(net, t.before)
    requires OneEach(net, t.before.members, true)
    ensures InPlace(net, t.after)
  {
    if !(t.event.Request? && t.reply.Config?) {
      QuietInPlace(net, t);
    } else {
      var info, m := GrantedBy(net, t);
      hide ControllerRuns.Valid, Separate, OwnReach, Assigned, Uses, OneOf;
      var q := t.event.ask;
      TakenIsHeld(net, t.before, t.now, info);
      NothingReach(net, q.from);
      NoAddresses(net, true);
      AddedInReach(net, t.before.members, info.taken, m, q.from, q.rnd);
      var added := Assigned(net, info.taken, m, q.from, q.rnd);
      ReachJoined(net, q.from, m.ips, added);
      HeldGrows(t.before.members, q.from, m.(ips := m.ips + added));
    }
  }

  lemma QuietInPlace(net: Network, t: Step)
    requires ControllerRuns.Valid(net, t) && InPlace(net, t.before) && !(t.event.Request? && t.reply.Config?)
    ensures InPlace(net, t.after)
  {
    hide OwnReach;
    if t.event.Post? {
      var a := t.event.address;
      NothingReach(net, a);
      HeldGrows(t.before.members, a, t.after.members[a]);
    } else {
      NotGranted(net, t);
      hide ControllerRuns.Valid;
      var q := t.event.ask;
      NothingReach(net, q.from);
      HeldGrows(t.before.members, q.from, Lookup(t.before.members, q.from).(identity := Some(q.identity)));
    }
  }

  lemma ReachJoined(net: Network, a: Address, ips: seq<Ip>, added: seq<Ip>)
    requires OwnReach(net, a, ips) && OwnReach(net, a, added)
    ensures OwnReach(net, a, ips + added)
  {
    hide Reaches;
  }

  lemma {:induction false} RunInPlace(net: Network, run: seq<Step>)
    requires Run(net, run) && Separate(net)
    ensures InPlace(net, EndOf(run))
    decreases |run|
  {
    hide ControllerRuns.Valid, Separate, OwnReach, OneOf;
    if |run| > 0 {
      var n := |run| - 1;
      RunPrefix(net, run, n);
      RunInPlace(net, run[..n]);
      AtMostOne(net, run[..n], true);
      StepInPlace(net, run[n]);
    }
  }

  lemma SeparateDistinct(net: Network, run: seq<Step>)
    requires Run(net, run) && Separate(net) && |run| > 0
    ensures DistinctIps(run[|run| - 1].after.members)
  {
    RunInPlace(net, run);
    AtMostOne(net, run, true);
    var members := run[|run| - 1].after.members;
    hide Run, Reaches, OneOf, Separate;
    forall a, b, i, j | a in members && b in members && 0 <= i < |members[a].ips| && 0 <= j < |members[b].ips|
                        && members[a].ips[i] == members[b].ips[j]
      ensures a == b && i == j
    {
      assert OwnReach(net, a, members[a].ips) && OwnReach(net, b, members[b].ips);
      if a != b {
        SomeIpv6(net, run, a, i);
        NotCommon(net, a, b, members[a].ips[i]);
        assert false;
      } else {
        OneSlot(net, members[a].ips, i, j);
      }
    }
  }

  lemma OneSlot(net: Network, ips: seq<Ip>, i: nat, j: nat)
    requires OneOf(net, ips, true) && i < |ips| && j < |ips| && ips[i].V6? && ips[j].V6?
    ensures i == j
  {
    hide StaticBits;
  }

  /** Whoever holds an IPv6 address lives in a network that assigns them. */
  lemma {:induction false} SomeIpv6(net: Network, run: seq<Step>, a: Address, i: nat)
    requires Run(net, run) && |run| > 0
    requires var m := Lookup(run[|run| - 1].after.members, a); i < |m.ips| && m.ips[i].V6?
    ensures net.v6
    decreases |run|
  {
    hide ControllerRuns.Valid;
    var n := |run| - 1;
    RunPrefix(net, run, n);
    if !net.v6 {
      NoneAdded(net, run[n], a, i);
      SomeIpv6(net, run[..n], a, i);
    }
  }

  lemma NoneAdded(net: Network, t: Step, a: Address, i: nat)
    requires ControllerRuns.Valid(net, t) && !net.v6
    requires var m := Lookup(t.after.members, a); i < |m.ips| && m.ips[i].V6?
    ensures var m := Lookup(t.before.members, a); i < |m.ips| && m.ips[i].V6?
  {
    if t.event.Request? && t.reply.Config? {
      var info, m := GrantedBy(net, t);
      hide ControllerRuns.Valid, Assigned;
      NoneOfThem(net, info.taken, m, t.event.ask.from, t.event.ask.rnd);
    } else {
      IpsKept(net, t, a);
    }
  }

  lemma NoneOfThem(net: Network, taken: set<Ip>, m: Member, a: Address, rnd: Randomness)
    requires !net.v6 && |rnd| == |net.pools|
    ensures forall i | 0 <= i < |Assigned(net, taken, m, a, rnd)| :: Assigned(net, taken, m, a, rnd)[i].V4?
  {
    hide FromPools4, FromPools6, HasManaged;
  }

  /** Everything but a granted request leaves everybody's addresses alone. */
  lemma IpsKept(net: Network, t: Step, a: Address)
    requires ControllerRuns.Valid(net, t) && !(t.event.Request? && t.reply.Config?)
    ensures Lookup(t.after.members, a).ips == Lookup(t.before.members, a).ips
  {
    if t.event.Request? {
      NotGranted(net, t);
      hide ControllerRuns.Valid;
    }
  }

  // ------------------------------------------------------------------------
  // Other networks

  /** Members whose numbers agree in the low 32 bits come to the same IPv4 address. */
  lemma {:induction false} SameCounter(pools: seq<Pool>, routes: seq<Route>, taken: set<Ip>, x: Address, y: Address)
    requires W32(x) == W32(y)
    ensures FromPools4(pools, routes, taken, x) == FromPools4(pools, routes, taken, y)
  {
    hide Search4, TrialCount;
    if |pools| > 0 {
      SameCounter(pools[1..], routes, taken, x, y);
    }
  }

  lemma {:induction false} SomethingFound(pools: seq<Pool>, routes: seq<Route>, a: Address, ip: u32, i: nat)
    requires i < |pools| && Tried4(pools[i], ip) && a == ip - pools[i].start.addr && Acceptable4(routes, {}, ip)
    ensures FromPools4(pools, routes, {}, a).Some?
    decreases i
  {
    hide Acceptable4, Search4, TrialCount;
    if i == 0 {
      FirstTrial(pools[0], routes, {}, a, ip);
    } else {
      SomethingFound(pools[1..], routes, a, ip, i - 1);
    }
  }

  lemma LoneMember(members: map<Address, Member>, a: Address, now: u64)
    requires members.Keys == {a} && members[a].authorized && members[a].ips == []
    ensures Summarises(Info({}, 0, now), members)
  {
    assert AllocatedIps(members) == {};
  }

  ghost predicate GetsFirst(net: Network, a: Address, rnd: Randomness, ip: Ip)
  {
    |rnd| == |net.pools| && forall m: Member | m.ips == [] && !m.noAutoAssign :: ip in Assigned(net, {}, m, a, rnd)
  }

  /** Two members that would both be given the address, as long as nobody else is there, end up with
      it: one is de-authorised while the other asks, and authorised again. */
  lemma SharedRun(net: Network, x: Address, rx: Randomness, y: Address, ry: Randomness, ip: Ip) returns (run: seq<Step>)
    requires x != y && GetsFirst(net, x, rx, ip) && GetsFirst(net, y, ry, ip)
    ensures Run(net, run) && |run| > 0 && !LiveDistinct(run[|run| - 1].after.members)
  {
    hide ControllerRuns.Valid, Summarises, Assigned, LiveDistinct;
    var run1 := PostNext(net, [], 1, x, true);
    LoneMember(EndOf(run1).members, x, 1);
    var mx := Lookup(EndOf(run1).members, x);
    assert ip in Assigned(net, {}, mx, x, rx);
    var run2 := RequestNext(net, run1, 1, x, Info({}, 0, 1), rx);
    var run3 := PostNext(net, run2, 1, x, false);
    var run4 := PostNext(net, run3, 1, y, true);
    OneOut(EndOf(run4).members, x, y, 1);
    var my := Lookup(EndOf(run4).members, y);
    assert ip in Assigned(net, {}, my, y, ry);
    var run5 := RequestNext(net, run4, 1, y, Info({}, 1, 1), ry);
    run := PostNext(net, run5, 1, x, true);
    BothHave(EndOf(run).members, x, y, ip);
  }

  lemma BothHave(members: map<Address, Member>, x: Address, y: Address, ip: Ip)
    requires x != y && x in members && y in members && members[x].authorized && members[y].authorized
    requires ip in members[x].ips && ip in members[y].ips
    ensures !LiveDistinct(members)
  {
    var i :| 0 <= i < |members[x].ips| && members[x].ips[i] == ip;
    var j :| 0 <= j < |members[y].ips| && members[y].ips[j] == ip;
    assert members[x].ips[i] == members[y].ips[j];
  }

  lemma Gets4(net: Network, a: Address, rnd: Randomness, ip: u32)
    requires net.v4 && |rnd| == |net.pools| && FromPools4(net.pools, net.routes, {}, a) == Some(ip)
    ensures GetsFirst(net, a, rnd, V4(ip))
  {
    hide FromPools4, FromPools6, StaticBits;
    forall m: Member | m.ips == [] && !m.noAutoAssign
      ensures V4(ip) in Assigned(net, {}, m, a, rnd)
    {
      var added := Assigned(net, {}, m, a, rnd);
      assert added[|added| - 1] == V4(ip);
    }
  }

  lemma Gets6(net: Network, a: Address, rnd: Randomness, ip: Ip)
    requires net.v6 && |rnd| == |net.pools| && FromPools6(net.pools, net.routes, {}, a, rnd) == Some(ip)
    ensures GetsFirst(net, a, rnd, ip)
  {
    hide FromPools4, FromPools6, StaticBits;
    forall m: Member | m.ips == [] && !m.noAutoAssign
      ensures ip in Assigned(net, {}, m, a, rnd)
    {
      assert Assigned(net, {}, m, a, rnd)[0] == ip;
    }
  }

  lemma Shared4(net: Network, ip: u32) returns (run: seq<Step>)
    requires net.v4 && Assignable4(net, ip)
    ensures Run(net, run) && |run| > 0 && !LiveDistinct(run[|run| - 1].after.members)
  {
    hide FromPools4, RoutedBits4, Run, LiveDistinct, GetsFirst;
    var i :| 0 <= i < |net.pools| && Tried4(net.pools[i], ip);
    var x: Address := ip - net.pools[i].start.addr;
    var y: Address := x + WORD;
    SomethingFound(net.pools, net.routes, x, ip, i);
    W32Id(x);
    ModShift(x, 1, WORD);
    SameCounter(net.pools, net.routes, {}, x, y);
    var rnd: Randomness := seq(|net.pools|, _ => _ => (0, 0));
    var found := FromPools4(net.pools, net.routes, {}, x).value;
    Gets4(net, x, rnd, found);
    Gets4(net, y, rnd, found);
    run := SharedRun(net, x, rnd, y, rnd, V4(found));
  }

  lemma Shared6(net: Network, x: Address, y: Address, ip: Ip) returns (run: seq<Step>)
    requires net.v6 && Common6(net, x, y, ip)
    ensures Run(net, run) && |run| > 0 && !LiveDistinct(run[|run| - 1].after.members)
  {
    hide FromPools6, Reaches, Run, LiveDistinct, GetsFirst;
    ReachesIff(net.pools, net.routes, x, ip);
    ReachesIff(net.pools, net.routes, y, ip);
    var rx: Randomness :| |rx| == |net.pools| && FromPools6(net.pools, net.routes, {}, x, rx) == Some(ip);
    var ry: Randomness :| |ry| == |net.pools| && FromPools6(net.pools, net.routes, {}, y, ry) == Some(ip);
    Gets6(net, x, rx, ip);
    Gets6(net, y, ry, ip);
    run := SharedRun(net, x, rx, y, ry, ip);
  }

  /** Exactly in separate networks the addresses of members, and even only those of authorised
      members, are distinct after every run. */
  lemma DistinctRunsIff(net: Network)
    ensures Separate(net)
       <==> forall run: seq<Step> | Run(net, run) && |run| > 0 :: DistinctIps(run[|run| - 1].after.members)
    ensures Separate(net)
       <==> forall run: seq<Step> | Run(net, run) && |run| > 0 :: LiveDistinct(run[|run| - 1].after.members)
  {
    hide Run, DistinctIps, LiveDistinct, Common6, Assignable4;
    if Separate(net) {
      forall run: seq<Step> | Run(net, run) && |run| > 0
        ensures DistinctIps(run[|run| - 1].after.members) && LiveDistinct(run[|run| - 1].after.members)
      {
        SeparateDistinct(net, run);
        DistinctIsLive(run[|run| - 1].after.members);
      }
    } else {
      var run: seq<Step>;
      if net.v4 && exists ip: u32 :: Assignable4(net, ip) {
        var ip: u32 :| Assignable4(net, ip);
        run := Shared4(net, ip);
      } else {
        var x, y, ip :| Common6(net, x, y, ip);
        run := Shared6(net, x, y, ip);
      }
      if DistinctIps(run[|run| - 1].after.members) {
        DistinctIsLive(run[|run| - 1].after.members);
      }
    }
  }
}
