/** Automatic IP assignment: the trial loops that pick an address from a pool. */
module IpAllocation {
  import opened Words
  import opened Options
  import opened Membership
  import opened ModArith
  import opened Bits

  type Address = a: int | 0 <= a < 0x100_0000_0000

  datatype Ip = V4(addr: u32) | V6(hi: u64, lo: u64)

  /** Start and end of a pool; pools that mix families are skipped. */
  datatype Pool = Pool(start: Ip, end: Ip)

  /** A route to `target` with a netmask length, local or through a gateway. */
  datatype Route = Route(target: Ip, bits: nat, via: bool)

  const TRIALS: nat := 1000

  // ------------------------------------------------------------------------
  // IPv4

  /** `ip & (0xffffffff << (32 - bits))` */
  function Masked(ip: u32, bits: nat): u32
    requires bits <= 32
  {
    MaskBound(ip, Pow2(32 - bits));
    ip - ip % Pow2(32 - bits)
  }

  /** The first `bits` bits are kept, the others cleared. */
  lemma MaskedBits(ip: u32, bits: nat, t: nat)
    requires bits <= 32 && t < 32
    ensures Bit(Masked(ip, bits), t) == if t >= 32 - bits then Bit(ip, t) else 0
  {
    hide Bit, Pow2, Shift;
    var n := 32 - bits;
    var w := Pow2(n);
    var q, low := ip / w, ip % w;
    Quotient(ip, w);
    if t < n {
      BitAdd(q, 0, n, t);
      ZeroBit(t);
    } else {
      Shifted(ip, n, t - n);
      Shifted(w * q, n, t - n);
      ShiftIs(ip, n);
      ShiftIs(w * q, n);
      DivModUnique(w * q, w, q, 0);
    }
  }

  lemma Quotient(v: nat, w: nat)
    requires w > 0
    ensures v / w >= 0 && v - v % w == w * (v / w)
  {
    if v / w < 0 {
      MulMonotone(v / w, -1, w);
      assert false;
    }
  }

  lemma MaskBound(v: nat, m: nat)
    requires m > 0
    ensures v % m <= v
  {
    if v < m {
      DivModUnique(v, m, 0, v);
    }
  }

  predicate Covers4(r: Route, ip: u32)
  {
    r.target.V4? && r.bits <= 32 && Masked(ip, r.bits) == r.target.addr
  }

  /** The netmask length of the first IPv4 route covering the address, -1 without one. */
  function RoutedBits4(routes: seq<Route>, ip: u32): int
  {
    if |routes| == 0 then -1
    else if Covers4(routes[0], ip) then routes[0].bits
    else RoutedBits4(routes[1..], ip)
  }

  predicate Acceptable4(routes: seq<Route>, taken: set<Ip>, ip: u32)
  {
    ip % 256 != 255 && RoutedBits4(routes, ip) > 0 && V4(ip) !in taken
  }

  /** The address tried with counter value `c`. */
  function Trial4(start: u32, end: u32, c: u32): u32
    requires start <= end
  {
    if end > start then start + c % (end - start) else start
  }

  /** The first acceptable address among `n` trials from counter `c` on; the counter wraps. */
  function Search4(start: u32, end: u32, routes: seq<Route>, taken: set<Ip>, c: u32, n: nat): Option<u32>
    requires start <= end
    decreases n
  {
    if n == 0 then None
    else if Acceptable4(routes, taken, Trial4(start, end, c)) then Some(Trial4(start, end, c))
    else Search4(start, end, routes, taken, WAdd(c, 1), n - 1)
  }

  /** As many trials as the pool has addresses and at most 1000; a pool that ends at the last
      address gets all 1000, because the loop variable then wraps. */
  function TrialCount(start: u32, end: u32): nat
    requires start <= end
  {
    if end != WORD - 1 && end - start + 1 < TRIALS then end - start + 1 else TRIALS
  }

  predicate Usable4(p: Pool)
  {
    p.start.V4? && p.end.V4? && p.start.addr <= p.end.addr && p.start.addr != 0
  }

  function FromPools4(pools: seq<Pool>, routes: seq<Route>, taken: set<Ip>, member: Address): Option<u32>
  {
    if |pools| == 0 then None
    else
      var p := pools[0];
      if !Usable4(p) then FromPools4(pools[1..], routes, taken, member)
      else
        var r := Search4(p.start.addr, p.end.addr, routes, taken, W32(member), TrialCount(p.start.addr, p.end.addr));
        if r.Some? then r else FromPools4(pools[1..], routes, taken, member)
  }

  /** The addresses of a pool that are ever tried: its last one only when it is the only one. */
  predicate Tried4(p: Pool, ip: u32)
  {
    Usable4(p) && p.start.addr <= ip && (ip < p.end.addr || p.start.addr == ip == p.end.addr)
  }

  ghost predicate InPool4(pools: seq<Pool>, ip: u32)
  {
    exists i | 0 <= i < |pools| :: Tried4(pools[i], ip)
  }

  /** An address that can be picked lies in a pool that does not start at 0.0.0.0. */
  lemma PickedFrom(pools: seq<Pool>, ip: u32)
    requires InPool4(pools, ip)
    ensures exists i | 0 <= i < |pools| :: pools[i].start.V4? && pools[i].end.V4?
                                           && 0 < pools[i].start.addr <= ip <= pools[i].end.addr
  {
    var i :| 0 <= i < |pools| && Tried4(pools[i], ip);
  }

  lemma {:induction false} Search4Sound(start: u32, end: u32, routes: seq<Route>, taken: set<Ip>, c: u32, n: nat)
    requires start <= end
    ensures var r := Search4(start, end, routes, taken, c, n);
            r.Some? ==>
              && start <= r.value && (r.value < end || start == r.value == end)
              && Acceptable4(routes, taken, r.value)
    decreases n
  {
    if n > 0 && !Acceptable4(routes, taken, Trial4(start, end, c)) {
      Search4Sound(start, end, routes, taken, WAdd(c, 1), n - 1);
    } else if n > 0 && end > start {
      var m := end - start;
      assert 0 <= c % m < m;
    }
  }

  /** An assigned IPv4 address comes from a usable pool, is routed, free, and no broadcast address. */
  lemma {:induction false} FromPools4Sound(pools: seq<Pool>, routes: seq<Route>, taken: set<Ip>, member: Address)
    ensures var r := FromPools4(pools, routes, taken, member);
            r.Some? ==> InPool4(pools, r.value) && Acceptable4(routes, taken, r.value)
  {
    if |pools| > 0 {
      var p := pools[0];
      FromPools4Sound(pools[1..], routes, taken, member);
      if Usable4(p) {
        Search4Sound(p.start.addr, p.end.addr, routes, taken, W32(member), TrialCount(p.start.addr, p.end.addr));
      }
      var r := FromPools4(pools, routes, taken, member);
      if r.Some? && InPool4(pools[1..], r.value) {
        var i :| 0 <= i < |pools[1..]| && Tried4(pools[1..][i], r.value);
        assert pools[i + 1] == pools[1..][i];
      }
    }
  }

  /** Searching in vain tries every address of a small pool, unless the counter wraps on the way:
      the last address of the pool is only tried when it is the only one. */
  lemma {:induction false} Search4Complete(start: u32, end: u32, routes: seq<Route>, taken: set<Ip>, c: u32, n: nat,
                                           ip: u32)
    requires start <= end && c + n <= WORD && (n >= end - start >= 1 || (start == end && n >= 1))
    requires start <= ip && (ip < end || start == end == ip)
    requires Search4(start, end, routes, taken, c, n) == None
    ensures !Acceptable4(routes, taken, ip)
  {
    hide Search4, Acceptable4;
    var k := if start == end then 0 else OffsetOf(end - start, c, ip - start);
    SearchFailed(start, end, routes, taken, c, n, k);
    assert Trial4(start, end, c + k) == ip;
  }

  /** If no pool yields an address, no pool of at most 1000 addresses with a start other than 0.0.0.0
      has an acceptable one, except its last, or unless the counter wraps. */
  lemma {:induction false} FromPools4Complete(pools: seq<Pool>, routes: seq<Route>, taken: set<Ip>, member: Address,
                                              i: nat, start: u32, end: u32, ip: u32)
    requires FromPools4(pools, routes, taken, member) == None && i < |pools|
    requires pools[i] == Pool(V4(start), V4(end)) && 0 < start <= end && end - start < 1000
    requires W32(member) + 1000 <= WORD && start <= ip && (ip < end || start == end == ip)
    ensures !Acceptable4(routes, taken, ip)
    decreases |pools|
  {
    hide Search4, Acceptable4, W32;
    if i > 0 {
      FromPools4Complete(pools[1..], routes, taken, member, i - 1, start, end, ip);
    } else {
      assert Usable4(pools[0]);
      Search4Complete(start, end, routes, taken, W32(member), TrialCount(start, end), ip);
    }
  }

  /** The steps from `c` to the next number congruent to `t`. */
  function OffsetOf(m: nat, c: nat, t: nat): (k: nat)
    requires t < m
    ensures k < m && (c + k) % m == t
  {
    var k := (t + m - c % m) % m;
    OffsetArith(m, c, t);
    k
  }

  lemma OffsetArith(m: nat, c: nat, t: nat)
    requires t < m
    ensures (c + (t + m - c % m) % m) % m == t
  {
    var x := c % m;
    var d := t + m - x;
    if d >= m {
      DivModUnique(d, m, 1, d - m);
      DivModUnique(c + (d - m), m, c / m, t);
    } else {
      DivModUnique(d, m, 0, d);
      DivModUnique(c + d, m, c / m + 1, t);
    }
  }

  lemma {:induction false} SearchFailed(start: u32, end: u32, routes: seq<Route>, taken: set<Ip>, c: u32, n: nat,
                                        k: nat)
    requires start <= end && c + n <= WORD && k < n
    requires Search4(start, end, routes, taken, c, n) == None
    ensures !Acceptable4(routes, taken, Trial4(start, end, c + k))
    decreases n
  {
    if k > 0 {
      W32Id(c + 1);
      SearchFailed(start, end, routes, taken, c + 1, n - 1, k - 1);
    }
  }

  /** The loops as they run. */
  method AssignV4(pools: seq<Pool>, routes: seq<Route>, taken: set<Ip>, member: Address) returns (r: Option<u32>)
    ensures r == FromPools4(pools, routes, taken, member)
  {
    r := None;
    var p := 0;
    assert pools[0..] == pools;
    while p < |pools| && r == None
      invariant 0 <= p <= |pools|
      invariant r.Some? ==> r == FromPools4(pools, routes, taken, member)
      invariant r == None ==> FromPools4(pools, routes, taken, member) == FromPools4(pools[p..], routes, taken, member)
    {
      assert pools[p..][1..] == pools[p + 1..];
      if Usable4(pools[p]) {
        r := TryPool4(pools[p].start.addr, pools[p].end.addr, routes, taken, member);
      }
      p := p + 1;
    }
  }

  lemma Increment(x: nat)
    ensures WAdd(W32(x), 1) == W32(x + 1)
  {
    ModShift(x + 1, -(x / WORD), WORD);
  }

  /** The loop condition, with its wrapping variable, counts out the trials. */
  lemma TrialsLeft(start: u32, end: u32, t: nat)
    requires start <= end && t <= TrialCount(start, end)
    ensures W32(start + t) <= end && t < TRIALS <==> t < TrialCount(start, end)
  {
    if start + t < WORD {
      W32Id(start + t);
    }
  }

  method TryPool4(start: u32, end: u32, routes: seq<Route>, taken: set<Ip>, member: Address) returns (r: Option<u32>)
    requires start <= end
    ensures r == Search4(start, end, routes, taken, W32(member), TrialCount(start, end))
  {
    hide Acceptable4, Trial4, W32, TrialCount;
    TrialsLeft(start, end, 0);
    W32Id(start);
    var counter: u32 := W32(member);
    var k: u32, trialCount := start, 0;
    ghost var n := TrialCount(start, end);
    while k <= end && trialCount < TRIALS
      invariant 0 <= trialCount <= n && k == W32(start + trialCount)
      invariant k <= end && trialCount < TRIALS <==> trialCount < n
      invariant Search4(start, end, routes, taken, W32(member), n)
                == Search4(start, end, routes, taken, counter, n - trialCount)
      decreases n - trialCount
    {
      var ip := Trial4(start, end, counter);
      if Acceptable4(routes, taken, ip) {
        return Some(ip);
      }
      counter := WAdd(counter, 1);
      Increment(start + trialCount);
      k := WAdd(k, 1);
      trialCount := trialCount + 1;
      TrialsLeft(start, end, trialCount);
    }
    return None;
  }

  // ------------------------------------------------------------------------
  // IPv6

  function Value6(hi: u64, lo: u64): nat
  {
    hi * U64 + lo
  }

  /** The address equals the target once its host bits are cleared, and the route is local. */
  predicate Covers6(r: Route, hi: u64, lo: u64)
  {
    r.target.V6? && !r.via && r.bits <= 128
    && Value6(hi, lo) - Value6(hi, lo) % Pow2(128 - r.bits) == Value6(r.target.hi, r.target.lo)
  }

  /** The netmask length of the last local IPv6 route covering the address, 0 without one. */
  function RoutedBits6(routes: seq<Route>, hi: u64, lo: u64): nat
  {
    if |routes| == 0 then 0
    else if Covers6(routes[|routes| - 1], hi, lo) then routes[|routes| - 1].bits
    else RoutedBits6(routes[..|routes| - 1], hi, lo)
  }

  predicate Acceptable6(routes: seq<Route>, taken: set<Ip>, ip: Ip)
    requires ip.V6?
  {
    RoutedBits6(routes, ip.hi, ip.lo) > 0 && ip !in taken
  }

  predicate Usable6(p: Pool)
  {
    p.start.V6? && p.end.V6?
  }

  /** A 64-bit half offset at random inside its range. */
  function Offset(s: u64, e: u64, r: u64): u64
  {
    if e > s then s + r % (e - s) else s
  }

  /** The first trial crams the member's address into the low half when the range has room. */
  function Trial6(p: Pool, member: Address, trial: nat, r: (u64, u64)): (ip: Ip)
    requires Usable6(p)
    ensures ip.V6?
  {
    if trial == 0 && p.end.lo > p.start.lo && p.end.lo - p.start.lo >= 0xff_ffff_ffff
    then V6(p.start.hi, p.start.lo + member)
    else V6(Offset(p.start.hi, p.end.hi, r.0), Offset(p.start.lo, p.end.lo, r.1))
  }

  function Search6(p: Pool, routes: seq<Route>, taken: set<Ip>, member: Address, rnd: nat -> (u64, u64),
                   trial: nat): (ip: Option<Ip>)
    requires Usable6(p)
    ensures ip.Some? ==> ip.value.V6?
    decreases TRIALS - trial
  {
    if trial >= TRIALS then None
    else
      var ip := Trial6(p, member, trial, rnd(trial));
      if Acceptable6(routes, taken, ip) then Some(ip) else Search6(p, routes, taken, member, rnd, trial + 1)
  }

  function FromPools6(pools: seq<Pool>, routes: seq<Route>, taken: set<Ip>, member: Address,
                      rnd: seq<nat -> (u64, u64)>): (ip: Option<Ip>)
    requires |rnd| == |pools|
    ensures ip.Some? ==> ip.value.V6?
  {
    if |pools| == 0 then None
    else if !Usable6(pools[0]) then FromPools6(pools[1..], routes, taken, member, rnd[1..])
    else
      var r := Search6(pools[0], routes, taken, member, rnd[0], 0);
      if r.Some? then r else FromPools6(pools[1..], routes, taken, member, rnd[1..])
  }

  lemma OffsetRange(s: u64, e: u64, r: u64)
    ensures s <= Offset(s, e, r) && (e > s ==> Offset(s, e, r) < e) && (e <= s ==> Offset(s, e, r) == s)
  {
    if e > s {
      var m := e - s;
      assert 0 <= r % m < m;
    }
  }

  /** Every trial address, as a 128-bit number, is at or after the start of the pool, and it is
      before the end exactly when the pool is not upside down. */
  lemma Trial6Range(p: Pool, member: Address, trial: nat, r: (u64, u64))
    requires Usable6(p)
    ensures var ip := Trial6(p, member, trial, r);
            var start, end := Value6(p.start.hi, p.start.lo), Value6(p.end.hi, p.end.lo);
            start <= Value6(ip.hi, ip.lo) && (Value6(ip.hi, ip.lo) <= end <==> start <= end)
  {
    OffsetRange(p.start.hi, p.end.hi, r.0);
    OffsetRange(p.start.lo, p.end.lo, r.1);
    hide Offset;
    var ip := Trial6(p, member, trial, r);
    HalvesOrder(p.start.hi, p.start.lo, ip.hi, ip.lo);
    HalvesOrder(ip.hi, ip.lo, p.end.hi, p.end.lo);
    HalvesOrder(p.start.hi, p.start.lo, p.end.hi, p.end.lo);
  }

  lemma HalvesOrder(h: u64, l: u64, h': u64, l': u64)
    ensures Value6(h, l) <= Value6(h', l') <==> h < h' || (h == h' && l <= l')
  {
    if h < h' {
      MulMonotone(h + 1, h', U64);
    } else if h > h' {
      MulMonotone(h' + 1, h, U64);
    }
  }

  ghost predicate InPool6(pools: seq<Pool>, ip: Ip)
    requires ip.V6?
  {
    exists i | 0 <= i < |pools| :: InRange6(pools[i], ip)
  }

  /** Inside the range of the pool, as far as it has one. */
  predicate InRange6(p: Pool, ip: Ip)
    requires ip.V6?
  {
    && Usable6(p)
    && Value6(p.start.hi, p.start.lo) <= Value6(ip.hi, ip.lo)
    && (Value6(p.start.hi, p.start.lo) <= Value6(p.end.hi, p.end.lo)
        ==> Value6(ip.hi, ip.lo) <= Value6(p.end.hi, p.end.lo))
  }

  lemma {:induction false} Search6Sound(p: Pool, routes: seq<Route>, taken: set<Ip>, member: Address,
                                        rnd: nat -> (u64, u64), trial: nat)
    requires Usable6(p)
    ensures var r := Search6(p, routes, taken, member, rnd, trial);
            r.Some? ==> InRange6(p, r.value) && Acceptable6(routes, taken, r.value)
    decreases TRIALS - trial
  {
    hide Trial6, Acceptable6, Value6;
    if trial < TRIALS {
      Trial6Range(p, member, trial, rnd(trial));
      Search6Sound(p, routes, taken, member, rnd, trial + 1);
    }
  }

  /** An assigned IPv6 address comes from a pool, is locally routed and free. */
  lemma {:induction false} FromPools6Sound(pools: seq<Pool>, routes: seq<Route>, taken: set<Ip>, member: Address,
                                           rnd: seq<nat -> (u64, u64)>)
    requires |rnd| == |pools|
    ensures var r := FromPools6(pools, routes, taken, member, rnd);
            r.Some? ==> InPool6(pools, r.value) && Acceptable6(routes, taken, r.value)
  {
    hide InRange6, Acceptable6, Search6;
    if |pools| > 0 {
      FromPools6Sound(pools[1..], routes, taken, member, rnd[1..]);
      if Usable6(pools[0]) {
        Search6Sound(pools[0], routes, taken, member, rnd[0], 0);
      }
      var r := FromPools6(pools, routes, taken, member, rnd);
      if r.Some? && InPool6(pools[1..], r.value) {
        var i :| 0 <= i < |pools[1..]| && InRange6(pools[1..][i], r.value);
        assert pools[i + 1] == pools[1..][i];
      }
    }
  }

  method AssignV6(pools: seq<Pool>, routes: seq<Route>, taken: set<Ip>, member: Address, rnd: seq<nat -> (u64, u64)>)
    returns (r: Option<Ip>)
    requires |rnd| == |pools|
    ensures r == FromPools6(pools, routes, taken, member, rnd)
  {
    hide Acceptable6, Trial6;
    r := None;
    var p := 0;
    assert pools[0..] == pools && rnd[0..] == rnd;
    while p < |pools| && r == None
      invariant 0 <= p <= |pools|
      invariant r.Some? ==> r == FromPools6(pools, routes, taken, member, rnd)
      invariant r == None ==>
                  FromPools6(pools, routes, taken, member, rnd)
                    == FromPools6(pools[p..], routes, taken, member, rnd[p..])
    {
      assert pools[p..][1..] == pools[p + 1..] && rnd[p..][1..] == rnd[p + 1..];
      if Usable6(pools[p]) {
        var trial := 0;
        while trial < TRIALS && r == None
          invariant 0 <= trial <= TRIALS
          invariant r == None ==>
                      Search6(pools[p], routes, taken, member, rnd[p], 0)
                      == Search6(pools[p], routes, taken, member, rnd[p], trial)
          invariant r.Some? ==> r == Search6(pools[p], routes, taken, member, rnd[p], 0)
        {
          var ip := Trial6(pools[p], member, trial, rnd[p](trial));
          if Acceptable6(routes, taken, ip) {
            r := Some(ip);
          }
          trial := trial + 1;
        }
      }
      p := p + 1;
    }
  }
}
