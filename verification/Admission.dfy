/** Who is let in, how often, and whose certificates agree, over whole runs of the controller. */
module Admission {
  import opened Options
  import opened Membership
  import opened MembershipSigning
  import opened IpAllocation
  import opened Controller
  import opened ControllerRuns

  // ------------------------------------------------------------------------
  // One request

  /** The request carries no packet id, or does not follow the last one with an id within a second,
      by a clock of 64 bits. */
  predicate OnTime(s: State, now: u64, q: Ask)
  {
    var last := if q.from in s.lastRequest then s.lastRequest[q.from] else 0;
    var gap: int := now as int - last as int;
    q.packetId == 0 || !(0 <= gap <= 1000 || gap + U64 <= 1000)
  }

  /** No other identity is on record for the address. */
  predicate SameIdentity(s: State, q: Ask)
  {
    q.from in s.members && s.members[q.from].identity.Some? ==> s.members[q.from].identity.value == q.identity
  }

  /** A configuration is sent exactly to those on time under their own identity who are authorised,
      bring a token or ask for a public network; the others on time get a denial. */
  lemma AdmittedIff(net: Network, t: Step)
    requires ControllerRuns.Valid(net, t) && t.event.Request?
    ensures var q := t.event.ask;
            && (t.reply == Dropped <==> !OnTime(t.before, t.now, q))
            && (t.reply.Config? <==>
                  && OnTime(t.before, t.now, q) && SameIdentity(t.before, q)
                  && (!net.isPrivate || q.token || (q.from in t.before.members && t.before.members[q.from].authorized)))
  {
    hide Uses, Assigned, CredentialDelta, Required;
    var q := t.event.ask;
    RateIs(t.before, t.now, q);
  }

  lemma RateIs(s: State, now: u64, q: Ask)
    ensures RateLimited(s, now, q) <==> !OnTime(s, now, q)
  {
  }

  /** Afterwards the member is on record as authorised exactly if it was, or brought a token to a
      private network, or is new to a public one. */
  lemma AuthorisedAfter(net: Network, t: Step)
    requires ControllerRuns.Valid(net, t) && t.event.Request? && t.reply.Config?
    ensures var a := t.event.ask.from;
            var was := a in t.before.members && t.before.members[a].authorized;
            var new_ := a !in t.before.members || t.before.members[a].authEvents == 0;
            && a in t.after.members
            && (t.after.members[a].authorized <==> was || (if net.isPrivate then t.event.ask.token else new_))
  {
    hide Uses, Assigned, CredentialDelta, Required;
    var info, m := GrantedBy(net, t);
  }

  /** A request works with the cached summary for less than a second after it was made, and with a new
      one otherwise. */
  lemma SummaryAge(s: State, now: u64, info: Info)
    requires Uses(s, now, info)
    ensures s.cache.Some? && s.cache.value.timestamp <= now < s.cache.value.timestamp as int + 1000 ==>
              info == s.cache.value
    ensures s.cache == None || now as int >= s.cache.value.timestamp as int + 1000 ==>
              Summarises(info, s.members) && info.timestamp == now
  {
    hide Summarises;
  }

  /** Whoever is not on record has no identity, history or addresses, and may be assigned some. */
  lemma NewMember(members: map<Address, Member>, a: Address)
    requires a !in members
    ensures var m := Lookup(members, a);
            && m.identity == None && !m.authorized && m.authEvents == 0 && m.lastAuthorized == 0
            && m.lastDeauthorized == 0 && m.ips == [] && !m.noAutoAssign
  {
  }

  /** A member excluded from automatic assignment is never assigned an address. */
  lemma NeverAssigned(net: Network, taken: set<Ip>, m: Member, a: Address, rnd: Randomness)
    requires |rnd| == |net.pools| && m.noAutoAssign
    ensures Assigned(net, taken, m, a, rnd) == []
  {
    hide FromPools4, FromPools6, HasManaged;
  }

  // ------------------------------------------------------------------------
  // Whole runs

  /** A request with an id that was served. */
  predicate Served(t: Step, a: Address)
  {
    t.event.Request? && t.event.ask.from == a && t.event.ask.packetId != 0 && t.reply != Dropped
  }

  lemma ServedIsNoted(net: Network, t: Step, a: Address)
    requires ControllerRuns.Valid(net, t)
    ensures Served(t, a) ==> t.after.lastRequest == t.before.lastRequest[a := t.now]
    ensures !Served(t, a) && a in t.before.lastRequest ==>
              a in t.after.lastRequest && t.after.lastRequest[a] == t.before.lastRequest[a]
  {
    hide Uses, Assigned, CredentialDelta, Required, Joined, MayJoin;
  }

  /** The time noted for an address that has been served is that of the last time. */
  lemma {:induction false} LastNoted(net: Network, run: seq<Step>, i: nat, j: nat, a: Address)
    requires Run(net, run) && i < j < |run| && Served(run[i], a)
    ensures a in run[j].before.lastRequest && run[i].now <= run[j].before.lastRequest[a] <= run[j].now
    decreases j
  {
    hide ControllerRuns.Valid, Served;
    var t := run[j - 1];
    if i < j - 1 {
      LastNoted(net, run, i, j - 1, a);
    }
    ClockOrder(net, run, i, j - 1);
    ServedIsNoted(net, t, a);
    assert run[j].before == t.after;
  }

  /** In every run, two requests of one address that are served are more than a second apart. */
  lemma RequestsSpaced(net: Network, run: seq<Step>, i: nat, j: nat, a: Address)
    requires Run(net, run) && i < j < |run| && Served(run[i], a) && Served(run[j], a)
    ensures run[j].now - run[i].now > 1000
  {
    LastNoted(net, run, i, j, a);
    assert ControllerRuns.Valid(net, run[j]);
    hide Run;
    AdmittedIff(net, run[j]);
  }

  /** The asker is heard: on time, and under the identity on record if there is one. */
  predicate Heard(t: Step, a: Address)
  {
    t.event.Request? && t.event.ask.from == a && OnTime(t.before, t.now, t.event.ask)
      && SameIdentity(t.before, t.event.ask)
  }

  /** Identities on record stay, and whoever is heard, served or not, has its own on record afterwards. */
  lemma IdentityStep(net: Network, t: Step, a: Address)
    requires ControllerRuns.Valid(net, t)
    ensures a in t.before.members && t.before.members[a].identity.Some? ==>
              a in t.after.members && t.after.members[a].identity == t.before.members[a].identity
    ensures Heard(t, a) ==> a in t.after.members && t.after.members[a].identity == Some(t.event.ask.identity)
  {
    hide Uses, Assigned, CredentialDelta, Required;
    if t.event.Request? {
      RateIs(t.before, t.now, t.event.ask);
    }
  }

  lemma {:induction false} IdentityStays(net: Network, run: seq<Step>, i: nat, j: nat, a: Address)
    requires Run(net, run) && i < j < |run| && Heard(run[i], a)
    ensures a in run[j].before.members && run[j].before.members[a].identity == Some(run[i].event.ask.identity)
    decreases j
  {
    hide ControllerRuns.Valid, Heard;
    if i < j - 1 {
      IdentityStays(net, run, i, j - 1, a);
    }
    IdentityStep(net, run[j - 1], a);
  }

  /** In every run an address is only ever served under the identity it was first heard under. */
  lemma OneIdentity(net: Network, run: seq<Step>, i: nat, j: nat, a: Address)
    requires Run(net, run) && i < j < |run| && Heard(run[i], a)
    requires run[j].event.Request? && run[j].event.ask.from == a && run[j].reply.Config?
    ensures run[i].event.ask.identity == run[j].event.ask.identity
  {
    IdentityStays(net, run, i, j, a);
    assert ControllerRuns.Valid(net, run[j]);
    hide Run;
    AdmittedIff(net, run[j]);
  }

  /** A step that turns a member's flag stamps the time of that kind and counts the event; the other
      time stays, and a step that does not turn it changes none of the three. */
  lemma FlagStamped(net: Network, t: Step, a: Address)
    requires ControllerRuns.Valid(net, t)
    ensures var m, m' := Lookup(t.before.members, a), Lookup(t.after.members, a);
            if m.authorized == m'.authorized then
              m'.authEvents == m.authEvents && m'.lastAuthorized == m.lastAuthorized
              && m'.lastDeauthorized == m.lastDeauthorized
            else
              m'.authEvents == m.authEvents + 1
              && m'.lastAuthorized == (if m'.authorized then t.now else m.lastAuthorized)
              && m'.lastDeauthorized == (if m'.authorized then m.lastDeauthorized else t.now)
  {
    hide Uses, Assigned, CredentialDelta, Required;
    if t.event.Request? && t.reply.Config? {
      var info, m := GrantedBy(net, t);
    } else if t.event.Request? {
      NotGranted(net, t);
    }
  }

  /** The certificate sent names the time, the network and the member that asked. */
  lemma IssuedToAsker(net: Network, t: Step)
    requires ControllerRuns.Valid(net, t) && t.event.Request? && t.reply.Config?
    ensures ValueOf(t.reply.com, 0).0 == t.now && NetworkIdOf(t.reply.com) == net.nwid
    ensures ValueOf(t.reply.com, 2).0 == t.event.ask.from
  {
    var info, m := GrantedBy(net, t);
    hide ControllerRuns.Valid, Uses, Assigned, Required, ValueOf, NetworkIdOf;
    RequiredSays(t.now, CredentialDelta(t.now, info.mostRecentDeauth), net.nwid, t.event.ask.from);
  }

  /** The step lets the member in, by the control plane or by a token. */
  predicate LetIn(t: Step, a: Address)
  {
    t.event == Post(a, true) || (Heard(t, a) && t.event.ask.token)
  }

  /** The last word on the member, before step n, let it in. */
  ghost predicate LastLetIn(run: seq<Step>, n: nat, a: Address)
    requires n <= |run|
  {
    exists k | 0 <= k < n :: LetIn(run[k], a) && forall j | k < j < n :: run[j].event != Post(a, false)
  }

  predicate Authorised(s: State, a: Address)
  {
    a in s.members && s.members[a].authorized
  }

  lemma AuthorisedStep(net: Network, t: Step, a: Address)
    requires net.isPrivate && ControllerRuns.Valid(net, t)
    ensures Authorised(t.after, a) <==> LetIn(t, a) || (Authorised(t.before, a) && t.event != Post(a, false))
  {
    hide Uses, Assigned, CredentialDelta, Required;
    if t.event.Request? {
      RateIs(t.before, t.now, t.event.ask);
      if t.reply.Config? {
        var info, m := GrantedBy(net, t);
      } else {
        NotGranted(net, t);
      }
    }
  }

  /** In every run of a private network a member is authorised exactly when the last word on it let it in. */
  lemma {:induction false} AuthorisedIffLetIn(net: Network, run: seq<Step>, n: nat, a: Address)
    requires net.isPrivate && Run(net, run) && n < |run|
    ensures Authorised(run[n].before, a) <==> LastLetIn(run, n, a)
    decreases n
  {
    hide ControllerRuns.Valid, LetIn, Authorised;
    if n > 0 {
      AuthorisedIffLetIn(net, run, n - 1, a);
      AuthorisedStep(net, run[n - 1], a);
      LastStep(run, n - 1, a);
    } else {
      NobodyYet(run[0].before, a);
    }
  }

  lemma NobodyYet(s: State, a: Address)
    requires s == State(map[], None, map[])
    ensures !Authorised(s, a)
  {
  }

  lemma LastStep(run: seq<Step>, n: nat, a: Address)
    requires n < |run|
    ensures LastLetIn(run, n + 1, a) <==> LetIn(run[n], a) || (LastLetIn(run, n, a) && run[n].event != Post(a, false))
  {
    hide LetIn;
    if LastLetIn(run, n, a) && run[n].event != Post(a, false) {
      var k :| 0 <= k < n && LetIn(run[k], a) && forall j | k < j < n :: run[j].event != Post(a, false);
      assert forall j | k < j < n + 1 :: run[j].event != Post(a, false);
    }
    if LastLetIn(run, n + 1, a) && !LetIn(run[n], a) {
      var k :| 0 <= k < n + 1 && LetIn(run[k], a) && forall j | k < j < n + 1 :: run[j].event != Post(a, false);
      assert k < n;
    }
  }

  /** In every run of a private network, whoever is heard is sent a configuration exactly if it brings a
      token or the last word on it let it in. */
  lemma AdmittedIffLetIn(net: Network, run: seq<Step>, n: nat, a: Address)
    requires net.isPrivate && Run(net, run) && n < |run| && Heard(run[n], a)
    ensures run[n].reply.Config? <==> run[n].event.ask.token || LastLetIn(run, n, a)
  {
    assert ControllerRuns.Valid(net, run[n]);
    AdmittedIff(net, run[n]);
    AuthorisedIffLetIn(net, run, n, a);
  }

  // ------------------------------------------------------------------------
  // Agreement of the certificates issued

  /** Three minutes and two hours are the least and the greatest delta issued, and two hours it is
      again two hours and five seconds after the last de-authorisation. */
  lemma DeltaBounds(now: u64, recent: u64)
    ensures 180000 <= CredentialDelta(now, recent) <= 7200000
    ensures recent + 7205000 <= now ==> CredentialDelta(now, recent) == 7200000
  {
  }

  /** The certificates of two times agree, the latest de-authorisation being at `recent`. */
  predicate WithinDelta(now: u64, then_: u64, recent: u64)
  {
    var apart := Distance(now, then_) as int;
    if recent >= now then apart <= 7200000
    else if now - recent < 185000 then apart <= 185000
    else apart <= 7200000 && apart + 5000 <= now - recent
  }

  lemma DeltaCovers(now: u64, then_: u64, recent: u64)
    ensures Distance(now, then_) <= CredentialDelta(now, recent) <==> WithinDelta(now, then_, recent)
  {
  }

  /** Exactly when two certificates issued in a run agree: a certificate accepts the others of its last
      185 seconds, or as far back as five seconds after the latest de-authorisation, and two hours at
      most. The de-authorisation is that of the summary the request worked with. */
  lemma IssuedAgreeIff(net: Network, run: seq<Step>, i: nat, j: nat) returns (info: Info)
    requires Run(net, run) && i < |run| && j < |run|
    requires run[i].event.Request? && run[i].reply.Config? && run[j].event.Request? && run[j].reply.Config?
    ensures Uses(run[i].before, run[i].now, info)
    ensures CodeAgrees(run[i].reply.com, run[j].reply.com)
       <==> WithinDelta(run[i].now, run[j].now, info.mostRecentDeauth)
  {
    var m, info', m';
    info, m := GrantedBy(net, run[i]);
    info', m' := GrantedBy(net, run[j]);
    hide ControllerRuns.Valid, Run, CodeAgrees, Documented, Required, Uses, Assigned, CredentialDelta, WithinDelta;
    RequiredAgreement(run[i].now, CredentialDelta(run[i].now, info.mostRecentDeauth), net.nwid, run[i].event.ask.from,
                      run[j].now, CredentialDelta(run[j].now, info'.mostRecentDeauth), net.nwid, run[j].event.ask.from);
    DeltaCovers(run[i].now, run[j].now, info.mostRecentDeauth);
  }

  /** Certificates issued within three minutes of each other always agree, whoever was de-authorised. */
  lemma CloseAgree(net: Network, run: seq<Step>, i: nat, j: nat)
    requires Run(net, run) && i < |run| && j < |run|
    requires run[i].event.Request? && run[i].reply.Config? && run[j].event.Request? && run[j].reply.Config?
    requires Distance(run[i].now, run[j].now) <= 180000
    ensures CodeAgrees(run[i].reply.com, run[j].reply.com)
  {
    hide ControllerRuns.Valid, Run, CodeAgrees, Uses;
    var info := IssuedAgreeIff(net, run, i, j);
  }

  /** In a private network where nobody was de-authorised, certificates of the last two hours agree. */
  lemma UndisturbedAgree(net: Network, run: seq<Step>, i: nat, j: nat)
    requires net.isPrivate && Run(net, run) && i < |run| && j <= i && run[i].now >= 7205000
    requires run[i].event.Request? && run[i].reply.Config? && run[j].event.Request? && run[j].reply.Config?
    requires forall k | 0 <= k < i && run[k].event.Post? :: run[k].event.authorized
    ensures CodeAgrees(run[i].reply.com, run[j].reply.com) <==> run[i].now - run[j].now <= 7200000
  {
    var info := IssuedAgreeIff(net, run, i, j);
    DatedBefore(net, run, i);
    ClockOrder(net, run, j, i);
    hide ControllerRuns.Valid, Run, CodeAgrees, Uses;
    UsedInfoDated(run[..i], run[i].before, run[i].now, info);
    assert info.mostRecentDeauth == 0;
  }
}
