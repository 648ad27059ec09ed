/** Whole runs of the controller, one step at a time under a clock that never goes back. */
module ControllerRuns {
  import opened Options
  import opened Membership
  import opened IpAllocation
  import opened Controller

  datatype Event = Request(ask: Ask) | Post(address: Address, authorized: bool)

  /** A step: what happened when, and the states around it. */
  datatype Step = Step(now: u64, event: Event, before: State, after: State, reply: Reply)

  ghost predicate Valid(net: Network, t: Step)
  {
    match t.event
    case Request(q) => |q.rnd| == |net.pools| && Requested(net, t.before, t.now, q, t.after, t.reply)
    case Post(a, auth) => Posted(t.before, t.now, a, auth, t.after) && t.reply == Dropped
  }

  ghost predicate Run(net: Network, run: seq<Step>)
  {
    && (forall i | 0 <= i < |run| :: Valid(net, run[i]))
    && (|run| > 0 ==> run[0].before == State(map[], None, map[]))
    && (forall i | 0 < i < |run| :: run[i].before == run[i - 1].after && run[i - 1].now <= run[i].now)
  }

  lemma RunPrefix(net: Network, run: seq<Step>, n: nat)
    requires Run(net, run) && n <= |run|
    ensures Run(net, run[..n])
  {
  }

  /** What a granted request did, with the summary it used. */
  lemma GrantedBy(net: Network, t: Step) returns (info: Info, m: Member)
    requires Valid(net, t) && t.event.Request? && t.reply.Config?
    ensures var q := t.event.ask;
            && Uses(t.before, t.now, info)
            && m == Joined(net, Lookup(t.before.members, q.from).(identity := Some(q.identity)), q.token, t.now)
            && MayJoin(net, Lookup(t.before.members, q.from), q.token)
            && t.reply == Config(Required(t.now, CredentialDelta(t.now, info.mostRecentDeauth), net.nwid, q.from))
            && t.after.members
               == t.before.members[q.from := m.(ips := m.ips + Assigned(net, info.taken, m, q.from, q.rnd))]
            && t.after.cache == if Assigned(net, info.taken, m, q.from, q.rnd) == [] then Some(info) else None
  {
    var q := t.event.ask;
    var known := Lookup(t.before.members, q.from).(identity := Some(q.identity));
    m := Joined(net, known, q.token, t.now);
    var seen := if q.packetId != 0 then t.before.lastRequest[q.from := t.now] else t.before.lastRequest;
    info :| Uses(t.before, t.now, info) && Granted(net, t.before, t.now, q, m, seen, info, t.after, t.reply);
  }

  /** A request that is not granted leaves the cache and everything but the member's identity. */
  lemma NotGranted(net: Network, t: Step)
    requires Valid(net, t) && t.event.Request? && !t.reply.Config?
    ensures t.after.cache == t.before.cache
    ensures t.after.members == t.before.members
            || t.after.members == t.before.members[t.event.ask.from :=
                 Lookup(t.before.members, t.event.ask.from).(identity := Some(t.event.ask.identity))]
  {
    hide Uses, Assigned;
  }

  // ------------------------------------------------------------------------
  // Unique addresses

  /** An address from a pool that some route covers. */
  ghost predicate WellPlaced(net: Network, ip: Ip)
  {
    match ip
    case V4(a) => InPool4(net.pools, a) && RoutedBits4(net.routes, a) > 0
    case V6(hi, lo) => InPool6(net.pools, ip) && RoutedBits6(net.routes, hi, lo) > 0
  }

  ghost predicate DistinctIps(members: map<Address, Member>)
  {
    forall a, b, i, j | a in members && b in members && 0 <= i < |members[a].ips| && 0 <= j < |members[b].ips| ::
      members[a].ips[i] == members[b].ips[j] ==> a == b && i == j
  }

  ghost predicate AllPlaced(net: Network, members: map<Address, Member>)
  {
    forall a, i | a in members && 0 <= i < |members[a].ips| :: WellPlaced(net, members[a].ips[i])
  }

  ghost predicate IpInvariant(net: Network, s: State)
  {
    && (forall a | a in s.members && !s.members[a].authorized :: s.members[a].ips == [] && s.members[a].authEvents == 0)
    && DistinctIps(s.members)
    && AllPlaced(net, s.members)
    && (s.cache.Some? ==> s.cache.value.taken == AllocatedIps(s.members))
  }

  /** New addresses are in place, free and different from each other. */
  lemma AssignedFresh(net: Network, taken: set<Ip>, m: Member, a: Address, rnd: Randomness)
    requires |rnd| == |net.pools|
    ensures var added := Assigned(net, taken, m, a, rnd);
            && |added| <= 2 && (|added| == 2 ==> added[0] != added[1])
            && forall i | 0 <= i < |added| :: added[i] !in taken && WellPlaced(net, added[i])
  {
    hide FromPools4, FromPools6, InPool4, InPool6, RoutedBits4, RoutedBits6, HasManaged;
    FromPools6Sound(net.pools, net.routes, taken, a, rnd);
    FromPools4Sound(net.pools, net.routes, taken, a);
  }

  lemma TakenContains(members: map<Address, Member>, a: Address, i: nat)
    requires a in members && members[a].authorized && i < |members[a].ips|
    ensures members[a].ips[i] in AllocatedIps(members)
  {
  }

  /** Giving an authorised member addresses that nobody has keeps all addresses distinct. */
  lemma DistinctAfter(members: map<Address, Member>, a: Address, m: Member, added: seq<Ip>, taken: set<Ip>)
    requires DistinctIps(members)
    requires forall b | b in members && !members[b].authorized :: members[b].ips == []
    requires taken == AllocatedIps(members) && m.ips == Lookup(members, a).ips
    requires |added| <= 2 && (|added| == 2 ==> added[0] != added[1])
    requires forall i | 0 <= i < |added| :: added[i] !in taken
    ensures DistinctIps(members[a := m.(ips := m.ips + added)])
  {
    hide AllocatedIps;
    var n := members[a := m.(ips := m.ips + added)];
    forall b, c, i, j | b in n && c in n && 0 <= i < |n[b].ips| && 0 <= j < |n[c].ips| && n[b].ips[i] == n[c].ips[j]
      ensures b == c && i == j
    {
      OldOrNew(members, a, m, added, b, i);
      OldOrNew(members, a, m, added, c, j);
      if b == a && i >= |m.ips| && !(c == a && j >= |m.ips|) {
        TakenContains(members, c, j);
      }
      if c == a && j >= |m.ips| && !(b == a && i >= |m.ips|) {
        TakenContains(members, b, i);
      }
    }
  }

  lemma PlacedAfter(net: Network, members: map<Address, Member>, a: Address, m: Member, added: seq<Ip>)
    requires AllPlaced(net, members) && m.ips == Lookup(members, a).ips
    requires forall i | 0 <= i < |added| :: WellPlaced(net, added[i])
    ensures AllPlaced(net, members[a := m.(ips := m.ips + added)])
  {
    hide WellPlaced;
  }

  lemma OldOrNew(members: map<Address, Member>, a: Address, m: Member, added: seq<Ip>, b: Address, i: nat)
    requires m.ips == Lookup(members, a).ips
    requires forall c | c in members && !members[c].authorized :: members[c].ips == []
    requires var n := members[a := m.(ips := m.ips + added)]; b in n && i < |n[b].ips|
    ensures var n := members[a := m.(ips := m.ips + added)];
            if b == a && i >= |m.ips| then n[b].ips[i] == added[i - |m.ips|]
            else b in members && members[b].authorized && i < |members[b].ips| && n[b].ips[i] == members[b].ips[i]
  {
  }

  lemma GrantKeepsIps(net: Network, t: Step)
    requires Valid(net, t) && t.event.Request? && t.reply.Config? && IpInvariant(net, t.before)
    ensures IpInvariant(net, t.after)
  {
    var info, m := GrantedBy(net, t);
    hide Valid, WellPlaced, AllocatedIps, Assigned, DistinctIps, AllPlaced;
    var q := t.event.ask;
    var added := Assigned(net, info.taken, m, q.from, q.rnd);
    AssignedFresh(net, info.taken, m, q.from, q.rnd);
    DistinctAfter(t.before.members, q.from, m, added, info.taken);
    PlacedAfter(net, t.before.members, q.from, m, added);
    if added == [] {
      SameAllocated(t.before.members, q.from, m);
    }
  }

  /** Authorising a member without addresses, or only learning its identity, changes no allocation. */
  lemma SameAllocated(members: map<Address, Member>, a: Address, m: Member)
    requires m.ips == Lookup(members, a).ips
    requires m.authorized == Lookup(members, a).authorized || m.ips == []
    ensures AllocatedIps(members[a := m.(ips := m.ips + [])]) == AllocatedIps(members)
    ensures AllocatedIps(members[a := m]) == AllocatedIps(members)
  {
    var n := members[a := m];
    assert m.(ips := m.ips + []) == m;
    forall ip
      ensures ip in AllocatedIps(n) <==> ip in AllocatedIps(members)
    {
      if ip in AllocatedIps(members) {
        var b, i :| b in members && members[b].authorized && 0 <= i < |members[b].ips| && members[b].ips[i] == ip;
        assert n[b].ips[i] == ip;
      }
    }
  }

  lemma StepKeepsIps(net: Network, t: Step)
    requires Valid(net, t) && IpInvariant(net, t.before) && !(t.event.Post? && !t.event.authorized)
    ensures IpInvariant(net, t.after)
  {
    hide WellPlaced, AllocatedIps;
    if t.event.Post? {
      var m := Lookup(t.before.members, t.event.address);
      SameAllocated(t.before.members, t.event.address, Lookup(t.after.members, t.event.address));
    } else if t.reply.Config? {
      GrantKeepsIps(net, t);
    } else {
      NotGranted(net, t);
      SameAllocated(t.before.members, t.event.ask.from,
                    Lookup(t.before.members, t.event.ask.from).(identity := Some(t.event.ask.identity)));
    }
  }

  /** In every run whose edits only authorise, addresses of members never coincide, lie in a pool
      under a route, and the cached summary hides none of them. */
  lemma {:induction false} UniqueAddresses(net: Network, run: seq<Step>)
    requires Run(net, run) && forall i | 0 <= i < |run| && run[i].event.Post? :: run[i].event.authorized
    ensures |run| > 0 ==> IpInvariant(net, run[|run| - 1].after)
    decreases |run|
  {
    if |run| > 0 {
      var n := |run| - 1;
      hide Valid, IpInvariant;
      RunPrefix(net, run, n);
      UniqueAddresses(net, run[..n]);
      if n == 0 {
        EmptyState(net);
      }
      StepKeepsIps(net, run[n]);
    }
  }

  lemma EmptyState(net: Network)
    ensures IpInvariant(net, State(map[], None, map[]))
  {
  }

  // ------------------------------------------------------------------------
  // De-authorised members

  /** The delta falls short of the time since a de-authorisation at `d`, no earlier than MIN_DELTA
      after it, exactly when no other member was de-authorised this very millisecond or even the
      largest delta falls short. */
  lemma DeltaExcludes(now: u64, d: u64, recent: u64)
    requires d <= recent <= now && now - d > MIN_DELTA
    ensures CredentialDelta(now, recent) < now - d <==> recent != now || now - d > MAX_DELTA
  {
  }

  /** A value that some earlier de-authorisation left behind. */
  ghost predicate DeauthTime(run: seq<Step>, v: u64)
  {
    v == 0 || exists j | 0 <= j < |run| :: run[j].event.Post? && !run[j].event.authorized && run[j].now == v
  }

  lemma DeauthTimeGrows(run: seq<Step>, t: Step, v: u64)
    requires DeauthTime(run, v)
    ensures DeauthTime(run + [t], v)
  {
    if v != 0 {
      var j :| 0 <= j < |run| && run[j].event.Post? && !run[j].event.authorized && run[j].now == v;
      assert (run + [t])[j] == run[j];
    }
  }

  ghost predicate MembersDated(run: seq<Step>, members: map<Address, Member>, now: u64)
  {
    forall a | a in members :: DeauthTime(run, members[a].lastDeauthorized) && members[a].lastDeauthorized <= now
  }

  /** The summary is at least as recent as every de-authorisation still in force. */
  ghost predicate InfoDated(run: seq<Step>, info: Info, members: map<Address, Member>, now: u64)
  {
    && DeauthTime(run, info.mostRecentDeauth) && info.mostRecentDeauth <= now
    && forall a | a in members && !members[a].authorized :: members[a].lastDeauthorized <= info.mostRecentDeauth
  }

  /** Whoever got a certificate is still authorised or was de-authorised later. */
  ghost predicate HoldersDated(run: seq<Step>, members: map<Address, Member>)
  {
    forall j | 0 <= j < |run| && run[j].event.Request? && run[j].reply.Config? :: HolderDated(run[j], members)
  }

  ghost predicate HolderDated(t: Step, members: map<Address, Member>)
    requires t.event.Request?
  {
    var a := t.event.ask.from;
    a in members && (members[a].authorized || t.now <= members[a].lastDeauthorized)
  }

  ghost predicate Dated(run: seq<Step>, s: State, now: u64)
  {
    && MembersDated(run, s.members, now)
    && (s.cache.Some? ==> InfoDated(run, s.cache.value, s.members, now))
    && HoldersDated(run, s.members)
  }

  lemma UsedInfoDated(run: seq<Step>, s: State, now: u64, info: Info)
    requires Dated(run, s, now) && Uses(s, now, info)
    ensures InfoDated(run, info, s.members, now)
  {
    hide HoldersDated, DeauthTime, AllocatedIps;
    if !CacheUsable(s.cache, now) && info.mostRecentDeauth == 0 {
      assert DeauthTime(run, 0) by {
        ZeroDated(run);
      }
    }
  }

  lemma ZeroDated(run: seq<Step>)
    ensures DeauthTime(run, 0)
  {
  }

  lemma LaterDated(run: seq<Step>, s: State, now: u64, later: u64)
    requires Dated(run, s, now) && now <= later
    ensures Dated(run, s, later)
  {
  }

  /** A step that changes one member without touching its de-authorisation time, and does not
      de-authorise it. */
  lemma QuietStepDated(run: seq<Step>, t: Step, a: Address, m: Member)
    requires Dated(run, t.before, t.now)
    requires t.after.members == t.before.members[a := m]
    requires m.lastDeauthorized == Lookup(t.before.members, a).lastDeauthorized
    requires Lookup(t.before.members, a).authorized ==> m.authorized
    requires t.after.cache.Some? ==> InfoDated(run, t.after.cache.value, t.before.members, t.now)
    requires t.after.cache.Some? && a !in t.before.members ==> m.authorized || m.lastDeauthorized == 0
    requires t.event.Request? && t.reply.Config? ==> t.event.ask.from == a && m.authorized
    ensures Dated(run + [t], t.after, t.now)
  {
    hide DeauthTime;
    ZeroDated(run);
    forall v | DeauthTime(run, v)
      ensures DeauthTime(run + [t], v)
    {
      DeauthTimeGrows(run, t, v);
    }
    forall j | 0 <= j < |run + [t]| && (run + [t])[j].event.Request? && (run + [t])[j].reply.Config?
      ensures HolderDated((run + [t])[j], t.after.members)
    {
      if j < |run| {
        assert (run + [t])[j] == run[j];
        assert HolderDated(run[j], t.before.members);
      }
    }
  }

  lemma DeauthStepDated(net: Network, run: seq<Step>, t: Step)
    requires Dated(run, t.before, t.now) && Valid(net, t) && t.event.Post? && !t.event.authorized
    requires Lookup(t.before.members, t.event.address).authorized
    requires forall j | 0 <= j < |run| :: run[j].now <= t.now
    ensures Dated(run + [t], t.after, t.now)
  {
    hide DeauthTime;
    assert DeauthTime(run + [t], t.now) by {
      NewDeauth(run, t);
    }
    forall v | DeauthTime(run, v)
      ensures DeauthTime(run + [t], v)
    {
      DeauthTimeGrows(run, t, v);
    }
    forall j | 0 <= j < |run + [t]| && (run + [t])[j].event.Request? && (run + [t])[j].reply.Config?
      ensures HolderDated((run + [t])[j], t.after.members)
    {
      assert j < |run| && (run + [t])[j] == run[j];
      assert HolderDated(run[j], t.before.members);
    }
  }

  lemma NewDeauth(run: seq<Step>, t: Step)
    requires t.event.Post? && !t.event.authorized
    ensures DeauthTime(run + [t], t.now)
  {
    assert (run + [t])[|run|] == t;
  }

  lemma StepDated(net: Network, run: seq<Step>, t: Step)
    requires net.isPrivate && Valid(net, t) && Dated(run, t.before, t.now)
    requires forall j | 0 <= j < |run| :: run[j].now <= t.now
    ensures Dated(run + [t], t.after, t.now)
  {
    if t.event.Post? {
      var a := t.event.address;
      var m := Lookup(t.before.members, a);
      if t.event.authorized || !m.authorized {
        hide Dated, InfoDated;
        CacheDated(run, t);
        QuietStepDated(run, t, a, Lookup(t.after.members, a));
      } else {
        DeauthStepDated(net, run, t);
      }
    } else if t.reply.Config? {
      var info, m := GrantedBy(net, t);
      hide Valid, Dated, InfoDated, Assigned;
      UsedInfoDated(run, t.before, t.now, info);
      var q := t.event.ask;
      QuietStepDated(run, t, q.from, m.(ips := m.ips + Assigned(net, info.taken, m, q.from, q.rnd)));
    } else {
      NotGranted(net, t);
      hide Valid, Dated, InfoDated;
      CacheDated(run, t);
      RefusedDated(run, t);
    }
  }

  lemma CacheDated(run: seq<Step>, t: Step)
    requires Dated(run, t.before, t.now) && t.after.cache == t.before.cache
    ensures t.after.cache.Some? ==> InfoDated(run, t.after.cache.value, t.before.members, t.now)
  {
  }

  lemma RefusedDated(run: seq<Step>, t: Step)
    requires Dated(run, t.before, t.now) && t.event.Request? && !t.reply.Config?
    requires t.after.cache.Some? ==> InfoDated(run, t.after.cache.value, t.before.members, t.now)
    requires t.after.members == t.before.members
             || t.after.members == t.before.members[t.event.ask.from :=
                  Lookup(t.before.members, t.event.ask.from).(identity := Some(t.event.ask.identity))]
    ensures Dated(run + [t], t.after, t.now)
  {
    hide InfoDated;
    var q := t.event.ask;
    var m := Lookup(t.before.members, q.from);
    if t.after.members == t.before.members {
      UnchangedDated(run, t);
    } else {
      QuietStepDated(run, t, q.from, m.(identity := Some(q.identity)));
    }
  }

  lemma UnchangedDated(run: seq<Step>, t: Step)
    requires Dated(run, t.before, t.now) && t.event.Request? && !t.reply.Config? && t.after.members == t.before.members
    requires t.after.cache.Some? ==> InfoDated(run, t.after.cache.value, t.before.members, t.now)
    ensures Dated(run + [t], t.after, t.now)
  {
    hide DeauthTime;
    forall v | DeauthTime(run, v)
      ensures DeauthTime(run + [t], v)
    {
      DeauthTimeGrows(run, t, v);
    }
    forall j | 0 <= j < |run + [t]| && (run + [t])[j].event.Request? && (run + [t])[j].reply.Config?
      ensures HolderDated((run + [t])[j], t.after.members)
    {
      assert j < |run| && (run + [t])[j] == run[j];
      assert HolderDated(run[j], t.before.members);
    }
  }

  lemma ClockOrder(net: Network, run: seq<Step>, i: nat, j: nat)
    requires Run(net, run) && i <= j < |run|
    ensures run[i].now <= run[j].now
    decreases j
  {
    if i < j {
      ClockOrder(net, run, i, j - 1);
    }
  }

  /** What holds before step `n` of a run. */
  lemma {:induction false} DatedBefore(net: Network, run: seq<Step>, n: nat)
    requires net.isPrivate && Run(net, run) && n < |run|
    ensures Dated(run[..n], run[n].before, run[n].now)
    decreases n
  {
    hide Valid;
    if n == 0 {
      assert run[..0] == [];
    } else {
      DatedBefore(net, run, n - 1);
      hide Dated;
      var earlier := run[..n - 1];
      forall j | 0 <= j < |earlier|
        ensures earlier[j].now <= run[n - 1].now
      {
        ClockOrder(net, run, j, n - 1);
      }
      StepDated(net, earlier, run[n - 1]);
      assert run[..n] == run[..n - 1] + [run[n - 1]];
      LaterDated(run[..n], run[n].before, run[n - 1].now, run[n].now);
    }
  }

  /** In every run of a private network, a certificate issued more than MIN_DELTA after a member
      was de-authorised, that member still being so, agrees with no certificate that member ever
      got, unless some member is de-authorised in the same millisecond. */
  lemma DeauthorisedExcluded(net: Network, run: seq<Step>, n: nat, x: Address, j: nat)
    requires net.isPrivate && Run(net, run) && j < n < |run|
    requires run[n].event.Request? && run[n].reply.Config?
    requires x in run[n].before.members && !run[n].before.members[x].authorized
    requires run[n].now - run[n].before.members[x].lastDeauthorized > MIN_DELTA
    requires forall k | 0 <= k < n && run[k].event.Post? && !run[k].event.authorized :: run[k].now != run[n].now
    requires run[j].event.Request? && run[j].event.ask.from == x && run[j].reply.Config?
    ensures !CodeAgrees(run[n].reply.com, run[j].reply.com)
  {
    DatedBefore(net, run, n);
    var info, m := GrantedBy(net, run[n]);
    var info', m' := GrantedBy(net, run[j]);
    hide Valid, Documented, CodeAgrees, Assigned, Joined;
    UsedInfoDated(run[..n], run[n].before, run[n].now, info);
    var now, d, then_ := run[n].now, run[n].before.members[x].lastDeauthorized, run[j].now;
    assert run[..n][j] == run[j];
    assert HolderDated(run[j], run[n].before.members);
    assert info.mostRecentDeauth != now by {
      NoDeauthNow(run[..n], info.mostRecentDeauth, now);
    }
    DeltaExcludes(now, d, info.mostRecentDeauth);
    RequiredAgreement(now, CredentialDelta(now, info.mostRecentDeauth), net.nwid, run[n].event.ask.from,
                      then_, CredentialDelta(then_, info'.mostRecentDeauth), net.nwid, x);
  }

  lemma NoDeauthNow(run: seq<Step>, v: u64, now: u64)
    requires DeauthTime(run, v) && now > 0
    requires forall k | 0 <= k < |run| && run[k].event.Post? && !run[k].event.authorized :: run[k].now != now
    ensures v != now
  {
  }
}
