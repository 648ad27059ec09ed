/** Which IPv6 address a member can be assigned at all, over every outcome of the random draws. */
module Reachability {
  import opened Words
  import opened Options
  import opened ModArith
  import opened Membership
  import opened IpAllocation
  import opened Controller

  predicate Routed6(routes: seq<Route>, ip: Ip)
  {
    ip.V6? && RoutedBits6(routes, ip.hi, ip.lo) > 0
  }

  /** What offsetting `s` at random below `e` can come to. */
  predicate InHalf(s: u64, e: u64, x: u64)
  {
    if e > s then s <= x < e else x == s
  }

  predicate Drawn(p: Pool, ip: Ip)
  {
    Usable6(p) && ip.V6? && InHalf(p.start.hi, p.end.hi, ip.hi) && InHalf(p.start.lo, p.end.lo, ip.lo)
  }

  /** The pool has room for all members, so that the first trial is the member's own place. */
  predicate Crams(p: Pool)
  {
    Usable6(p) && p.end.lo > p.start.lo && p.end.lo - p.start.lo >= 0xff_ffff_ffff
  }

  function OwnPlace(p: Pool, a: Address): Ip
    requires Crams(p)
  {
    V6(p.start.hi, p.start.lo + a)
  }

  predicate OwnPlaceRouted(p: Pool, routes: seq<Route>, a: Address)
  {
    Crams(p) && Routed6(routes, OwnPlace(p, a))
  }

  /** The pool can turn out to give this address to this member: its own place if that is routed,
      and any routed address otherwise. */
  predicate Gives(p: Pool, routes: seq<Route>, a: Address, ip: Ip)
  {
    Usable6(p) && Routed6(routes, ip) && if OwnPlaceRouted(p, routes, a) then ip == OwnPlace(p, a) else Drawn(p, ip)
  }

  /** The pool can turn out to give nothing to this member. */
  ghost predicate Passed(p: Pool, routes: seq<Route>, a: Address)
  {
    Usable6(p) ==> !OwnPlaceRouted(p, routes, a) && exists x :: Drawn(p, x) && !Routed6(routes, x)
  }

  /** Some pool can give the address and all before it can give nothing. */
  ghost predicate Reaches(pools: seq<Pool>, routes: seq<Route>, a: Address, ip: Ip)
  {
    exists i | 0 <= i < |pools| :: ReachesAt(pools, routes, a, ip, i)
  }

  ghost predicate ReachesAt(pools: seq<Pool>, routes: seq<Route>, a: Address, ip: Ip, i: nat)
    requires i < |pools|
  {
    Gives(pools[i], routes, a, ip) && forall j | 0 <= j < i :: Passed(pools[j], routes, a)
  }

  // ------------------------------------------------------------------------
  // Draws

  lemma DrawHalf(s: u64, e: u64, x: u64)
    requires InHalf(s, e, x)
    ensures Offset(s, e, x - s) == x
  {
    if e > s {
      DivModUnique(x - s, e - s, 0, x - s);
    }
  }

  lemma OffsetInHalf(s: u64, e: u64, r: u64)
    ensures InHalf(s, e, Offset(s, e, r))
  {
    OffsetRange(s, e, r);
  }

  /** The draw that makes the pool come up with the address. */
  function Draw(p: Pool, ip: Ip): (u64, u64)
    requires Drawn(p, ip)
  {
    (ip.hi - p.start.hi, ip.lo - p.start.lo)
  }

  /** Every trial is the member's own place, once and first, or a drawn address. */
  lemma TrialCases(p: Pool, a: Address, trial: nat, r: (u64, u64))
    requires Usable6(p)
    ensures if trial == 0 && Crams(p) then Trial6(p, a, trial, r) == OwnPlace(p, a)
            else Drawn(p, Trial6(p, a, trial, r))
  {
    OffsetInHalf(p.start.hi, p.end.hi, r.0);
    OffsetInHalf(p.start.lo, p.end.lo, r.1);
    hide Offset;
  }

  lemma TrialDraws(p: Pool, a: Address, trial: nat, ip: Ip)
    requires Drawn(p, ip) && !(trial == 0 && Crams(p))
    ensures Trial6(p, a, trial, Draw(p, ip)) == ip
  {
    DrawHalf(p.start.hi, p.end.hi, ip.hi);
    DrawHalf(p.start.lo, p.end.lo, ip.lo);
    hide Offset;
  }

  // ------------------------------------------------------------------------
  // One pool

  lemma AcceptableRouted(routes: seq<Route>, ip: Ip)
    requires ip.V6?
    ensures Acceptable6(routes, {}, ip) <==> Routed6(routes, ip)
  {
    hide RoutedBits6;
  }

  lemma SearchStep(p: Pool, routes: seq<Route>, a: Address, rnd: nat -> (u64, u64), trial: nat)
    requires Usable6(p)
    ensures var ip := Trial6(p, a, trial, rnd(trial));
            Search6(p, routes, {}, a, rnd, trial)
            == if trial >= TRIALS then None else if Routed6(routes, ip) then Some(ip)
               else Search6(p, routes, {}, a, rnd, trial + 1)
  {
    hide Trial6, Acceptable6, Routed6;
    AcceptableRouted(routes, Trial6(p, a, trial, rnd(trial)));
  }

  /** Drawing an address without route all the time leads nowhere. */
  lemma {:induction false} DrawsNothing(p: Pool, routes: seq<Route>, a: Address, x: Ip, rnd: nat -> (u64, u64),
                                        trial: nat)
    requires Drawn(p, x) && !Routed6(routes, x) && !OwnPlaceRouted(p, routes, a)
    requires forall t: nat :: rnd(t) == Draw(p, x)
    ensures Search6(p, routes, {}, a, rnd, trial) == None
    decreases TRIALS - trial
  {
    hide Trial6, Search6, Routed6, Drawn, Draw;
    assert rnd(trial) == Draw(p, x) && Usable6(p) by {
      DrawnUsable(p, x);
    }
    SearchStep(p, routes, a, rnd, trial);
    if trial < TRIALS {
      TrialCases(p, a, trial, rnd(trial));
      if !(trial == 0 && Crams(p)) {
        TrialDraws(p, a, trial, x);
      }
      DrawsNothing(p, routes, a, x, rnd, trial + 1);
    }
  }

  lemma DrawnUsable(p: Pool, x: Ip)
    requires Drawn(p, x)
    ensures Usable6(p)
  {
  }

  /** The draws that make the pool give the address. */
  lemma PoolGives(p: Pool, routes: seq<Route>, a: Address, ip: Ip) returns (rnd: nat -> (u64, u64))
    requires Gives(p, routes, a, ip)
    ensures Search6(p, routes, {}, a, rnd, 0) == Some(ip)
  {
    hide Trial6, Search6, Routed6;
    if OwnPlaceRouted(p, routes, a) {
      rnd := _ => (0, 0);
      TrialCases(p, a, 0, rnd(0));
      SearchStep(p, routes, a, rnd, 0);
    } else {
      var r := Draw(p, ip);
      rnd := _ => r;
      TrialCases(p, a, 0, rnd(0));
      SearchStep(p, routes, a, rnd, 0);
      SearchStep(p, routes, a, rnd, 1);
      TrialDraws(p, a, 1, ip);
      if !Crams(p) {
        TrialDraws(p, a, 0, ip);
      }
    }
  }

  /** What a search finds is something the pool can give. */
  lemma {:induction false} FoundGiven(p: Pool, routes: seq<Route>, a: Address, rnd: nat -> (u64, u64), trial: nat)
    requires Usable6(p) && (trial > 0 ==> !OwnPlaceRouted(p, routes, a))
    ensures var r := Search6(p, routes, {}, a, rnd, trial); r.Some? ==> Gives(p, routes, a, r.value)
    decreases TRIALS - trial
  {
    hide Trial6, Search6, Routed6, Drawn;
    SearchStep(p, routes, a, rnd, trial);
    if trial < TRIALS {
      TrialCases(p, a, trial, rnd(trial));
      if trial > 0 || !OwnPlaceRouted(p, routes, a) {
        FoundGiven(p, routes, a, rnd, trial + 1);
      }
    }
  }

  /** A search in vain has drawn an address without route. */
  lemma VainPassed(p: Pool, routes: seq<Route>, a: Address, rnd: nat -> (u64, u64))
    requires Usable6(p) && Search6(p, routes, {}, a, rnd, 0) == None
    ensures Passed(p, routes, a)
  {
    hide Trial6, Search6, Routed6, Drawn;
    SearchStep(p, routes, a, rnd, 0);
    SearchStep(p, routes, a, rnd, 1);
    TrialCases(p, a, 0, rnd(0));
    TrialCases(p, a, 1, rnd(1));
  }

  // ------------------------------------------------------------------------
  // All pools

  lemma {:induction false} SomeDraws(pools: seq<Pool>, routes: seq<Route>, a: Address, ip: Ip, i: nat)
    returns (rnd: Randomness)
    requires i < |pools| && ReachesAt(pools, routes, a, ip, i)
    ensures |rnd| == |pools| && FromPools6(pools, routes, {}, a, rnd) == Some(ip)
    decreases i
  {
    hide Gives, Search6;
    if i == 0 {
      var r := PoolGives(pools[0], routes, a, ip);
      GivesUsable(pools[0], routes, a, ip);
      rnd := [r] + seq(|pools| - 1, _ => _ => (0, 0));
    } else {
      assert Passed(pools[0], routes, a);
      forall j | 0 <= j < i - 1
        ensures Passed(pools[1..][j], routes, a)
      {
        assert Passed(pools[j + 1], routes, a);
      }
      assert pools[1..][i - 1] == pools[i];
      var rest := SomeDraws(pools[1..], routes, a, ip, i - 1);
      var r: nat -> (u64, u64) := _ => (0, 0);
      if Usable6(pools[0]) {
        var x :| Drawn(pools[0], x) && !Routed6(routes, x);
        var d := Draw(pools[0], x);
        r := _ => d;
        DrawsNothing(pools[0], routes, a, x, r, 0);
      }
      rnd := [r] + rest;
      assert rnd[1..] == rest;
    }
  }

  lemma GivesUsable(p: Pool, routes: seq<Route>, a: Address, ip: Ip)
    requires Gives(p, routes, a, ip)
    ensures Usable6(p)
  {
  }

  lemma {:induction false} FoundReached(pools: seq<Pool>, routes: seq<Route>, a: Address, rnd: Randomness)
    returns (i: nat)
    requires |rnd| == |pools| && FromPools6(pools, routes, {}, a, rnd).Some?
    ensures i < |pools| && ReachesAt(pools, routes, a, FromPools6(pools, routes, {}, a, rnd).value, i)
  {
    hide Gives, Passed, Search6;
    var ip := FromPools6(pools, routes, {}, a, rnd).value;
    if Usable6(pools[0]) && Search6(pools[0], routes, {}, a, rnd[0], 0).Some? {
      FoundGiven(pools[0], routes, a, rnd[0], 0);
      i := 0;
    } else {
      if Usable6(pools[0]) {
        VainPassed(pools[0], routes, a, rnd[0]);
      } else {
        UnusablePassed(pools[0], routes, a);
      }
      var k := FoundReached(pools[1..], routes, a, rnd[1..]);
      i := k + 1;
      forall j | 0 <= j < i
        ensures Passed(pools[j], routes, a)
      {
        if j > 0 {
          assert Passed(pools[1..][j - 1], routes, a);
        }
      }
    }
  }

  lemma UnusablePassed(p: Pool, routes: seq<Route>, a: Address)
    requires !Usable6(p)
    ensures Passed(p, routes, a)
  {
  }

  /** While nothing is taken, a member can be assigned an address exactly when the pools and routes
      let it reach it. */
  lemma ReachesIff(pools: seq<Pool>, routes: seq<Route>, a: Address, ip: Ip)
    ensures Reaches(pools, routes, a, ip)
       <==> exists rnd: Randomness | |rnd| == |pools| :: FromPools6(pools, routes, {}, a, rnd) == Some(ip)
  {
    hide ReachesAt, FromPools6;
    if Reaches(pools, routes, a, ip) {
      var i :| 0 <= i < |pools| && ReachesAt(pools, routes, a, ip, i);
      var rnd := SomeDraws(pools, routes, a, ip, i);
    } else if exists rnd: Randomness | |rnd| == |pools| :: FromPools6(pools, routes, {}, a, rnd) == Some(ip) {
      var rnd: Randomness :| |rnd| == |pools| && FromPools6(pools, routes, {}, a, rnd) == Some(ip);
      var i := FoundReached(pools, routes, a, rnd);
      assert false;
    }
  }

  // ------------------------------------------------------------------------
  // What is taken

  /** Taken addresses that the member does not come to change nothing. */
  lemma {:induction false} SearchIgnores(p: Pool, routes: seq<Route>, taken: set<Ip>, a: Address,
                                         rnd: nat -> (u64, u64),
                                         trial: nat)
    requires Usable6(p)
    requires var r := Search6(p, routes, {}, a, rnd, trial); r.Some? ==> r.value !in taken
    ensures Search6(p, routes, taken, a, rnd, trial) == Search6(p, routes, {}, a, rnd, trial)
    decreases TRIALS - trial
  {
    hide Trial6, RoutedBits6;
    if trial < TRIALS && !Acceptable6(routes, {}, Trial6(p, a, trial, rnd(trial))) {
      SearchIgnores(p, routes, taken, a, rnd, trial + 1);
    }
  }

  lemma {:induction false} PoolsIgnore(pools: seq<Pool>, routes: seq<Route>, taken: set<Ip>, a: Address,
                                       rnd: Randomness)
    requires |rnd| == |pools|
    requires var r := FromPools6(pools, routes, {}, a, rnd); r.Some? ==> r.value !in taken
    ensures FromPools6(pools, routes, taken, a, rnd) == FromPools6(pools, routes, {}, a, rnd)
  {
    hide Search6;
    if |pools| > 0 {
      if Usable6(pools[0]) {
        SearchIgnores(pools[0], routes, taken, a, rnd[0], 0);
        if Search6(pools[0], routes, {}, a, rnd[0], 0) == None {
          PoolsIgnore(pools[1..], routes, taken, a, rnd[1..]);
        }
      } else {
        PoolsIgnore(pools[1..], routes, taken, a, rnd[1..]);
      }
    }
  }
}
