/** Laws of the rules engine: blocks, rule sets in a row, capabilities, and what a decision depends on. */
module FilterLaws {
  import opened Words
  import opened Options
  import opened Buffers
  import opened Bits
  import opened RuleCodec
  import opened FlowFilter

  // ------------------------------------------------------------------------
  // Extension headers

  lemma {:induction false} HeadersFrom(data: seq<byte>, pos: nat, proto: nat) returns (hs: seq<(nat, nat)>)
    requires PayloadFrom(data, pos, proto).Some?
    ensures |hs| > 0 && hs[0] == (pos, proto) && hs[|hs| - 1] == PayloadFrom(data, pos, proto).value
    ensures forall i | 0 <= i < |hs| - 1 :: Leads(data, hs[i], hs[i + 1])
    ensures hs[|hs| - 1].0 <= |data| && !Extension(hs[|hs| - 1].1)
    decreases |data| + 1 - pos
  {
    hs := [(pos, proto)];
    if Extension(proto) {
      var words: nat := data[pos + 1];
      var rest := HeadersFrom(data, pos + 8 * words + 8, data[pos]);
      hs := hs + rest;
      assert hs[1..] == rest;
      assert Leads(data, hs[0], hs[1]);
      forall i | 0 <= i < |hs| - 1
        ensures Leads(data, hs[i], hs[i + 1])
      {
        if i > 0 {
          assert Leads(data, rest[i - 1], rest[i]);
        }
      }
    }
  }

  lemma {:induction false} HeadersLead(data: seq<byte>, hs: seq<(nat, nat)>)
    requires |hs| > 0 && (forall i | 0 <= i < |hs| - 1 :: Leads(data, hs[i], hs[i + 1]))
    requires hs[|hs| - 1].0 <= |data| && !Extension(hs[|hs| - 1].1)
    ensures PayloadFrom(data, hs[0].0, hs[0].1) == Some(hs[|hs| - 1])
    decreases |hs|
  {
    if |hs| > 1 {
      assert Leads(data, hs[0], hs[1]);
      HeadersLead(data, hs[1..]);
    }
  }

  /** The payload of an IPv6 packet is found exactly at the end of a chain of extension headers. */
  lemma PayloadIff(data: seq<byte>, pos: nat, proto: nat)
    requires |data| >= 40
    ensures Payload6(data) == Some((pos, proto)) <==> exists hs :: Headers(data, hs) && hs[|hs| - 1] == (pos, proto)
  {
    if Payload6(data) == Some((pos, proto)) {
      var hs := HeadersFrom(data, 40, data[6]);
      assert Headers(data, hs);
    }
    if exists hs :: Headers(data, hs) && hs[|hs| - 1] == (pos, proto) {
      var hs :| Headers(data, hs) && hs[|hs| - 1] == (pos, proto);
      HeadersLead(data, hs);
    }
  }

  // ------------------------------------------------------------------------
  // Blocks

  /** The tests from `k` on that are joined by AND all hold, and what stands before `k` held: the
      default, or a test joined by OR. */
  ghost predicate Anchored(start: bool, ts: seq<Entry>, target: bool, k: nat)
    requires AllTests(ts) && k <= |ts|
  {
    && (if k == 0 then start else ts[k - 1].or_ && Holds(ts[k - 1], target))
    && forall m | k <= m < |ts| && !ts[m].or_ :: Holds(ts[m], target)
  }

  /** A block holds exactly when some OR of it holds, or none is needed, and all ANDs after that. */
  lemma {:induction false} FoldIff(start: bool, ts: seq<Entry>, target: bool)
    requires AllTests(ts)
    ensures Fold(start, ts, target) <==> exists k | 0 <= k <= |ts| :: Anchored(start, ts, target, k)
    decreases |ts|
  {
    if |ts| == 0 {
      assert Anchored(start, ts, target, 0) <==> start;
    } else {
      var x, rest := Holds(ts[0], target), ts[1..];
      var s := if ts[0].or_ then start || x else start && x;
      FoldIff(s, rest, target);
      if Fold(start, ts, target) {
        var k :| 0 <= k <= |rest| && Anchored(s, rest, target, k);
        FoldBack(start, ts, target, s, k);
      }
      if exists k | 0 <= k <= |ts| :: Anchored(start, ts, target, k) {
        var k :| 0 <= k <= |ts| && Anchored(start, ts, target, k);
        FoldOn(start, ts, target, s, k);
      }
    }
  }

  lemma FoldBack(start: bool, ts: seq<Entry>, target: bool, s: bool, k: nat)
    requires AllTests(ts) && 0 < |ts| && k <= |ts| - 1 && Anchored(s, ts[1..], target, k)
    requires s == if ts[0].or_ then start || Holds(ts[0], target) else start && Holds(ts[0], target)
    ensures exists j | 0 <= j <= |ts| :: Anchored(start, ts, target, j)
  {
    var rest := ts[1..];
    assert forall m | 1 <= m < |ts| :: ts[m] == rest[m - 1];
    if k > 0 || (ts[0].or_ && Holds(ts[0], target)) {
      assert Anchored(start, ts, target, k + 1);
    } else {
      assert Anchored(start, ts, target, 0);
    }
  }

  lemma FoldOn(start: bool, ts: seq<Entry>, target: bool, s: bool, k: nat)
    requires AllTests(ts) && 0 < |ts| && k <= |ts| && Anchored(start, ts, target, k)
    requires s == if ts[0].or_ then start || Holds(ts[0], target) else start && Holds(ts[0], target)
    ensures exists j | 0 <= j <= |ts[1..]| :: Anchored(s, ts[1..], target, j)
  {
    var rest := ts[1..];
    assert forall m | 0 <= m < |rest| :: rest[m] == ts[m + 1];
    assert Anchored(s, rest, target, if k == 0 then 0 else k - 1);
  }

  /** Without OR, a block is the conjunction of its tests, as documented. */
  lemma ConjunctionIff(ts: seq<Entry>, target: bool)
    requires AllTests(ts) && forall i | 0 <= i < |ts| :: !ts[i].or_
    ensures Fold(true, ts, target) <==> forall i | 0 <= i < |ts| :: Holds(ts[i], target)
  {
    FoldIff(true, ts, target);
    if forall i | 0 <= i < |ts| :: Holds(ts[i], target) {
      assert Anchored(true, ts, target, 0);
    }
  }

  /** A block of ORs only holds whatever they test, since the default before them does. */
  lemma OrsAlwaysHold(ts: seq<Entry>, target: bool)
    requires AllTests(ts) && forall i | 0 <= i < |ts| :: ts[i].or_
    ensures Fold(true, ts, target)
  {
    FoldIff(true, ts, target);
    assert Anchored(true, ts, target, 0);
  }

  // ------------------------------------------------------------------------
  // Rule sets in a row

  /** No tests are left over behind the last action. */
  predicate Closed(es: seq<Entry>)
  {
    |es| > 0 ==> es[|es| - 1].Act?
  }

  lemma TestsOf(es: seq<Entry>, more: seq<Entry>)
    requires Tests(es) < |es|
    ensures Tests(es + more) == Tests(es)
    decreases |es|
  {
    if es[0].Test? {
      TestsOf(es[1..], more);
      assert (es + more)[1..] == es[1..] + more;
    }
  }

  lemma OneBlock(f: Frame, es: seq<Entry>, target: bool, copy: Option<Copy>)
    requires Tests(es) < |es|
    ensures var n := Tests(es);
            var a, rest := es[n].action, es[n + 1..];
            Decide(f, es, true, target, copy)
            == if !Fold(true, es[..n], target) then Decide(f, rest, true, target || Targets(f, a), copy)
               else if Taken(f, a, target) != Undecided then Result(Taken(f, a, target), copy, target)
               else Decide(f, rest, true, target, Copied(f, a, copy))
  {
    hide Fold, Taken, Copied, Targets, Tests;
  }

  /** A rule set behind another decides exactly what that one leaves undecided. */
  lemma {:induction false} InARow(f: Frame, es: seq<Entry>, more: seq<Entry>, target: bool, copy: Option<Copy>)
    requires Closed(es)
    ensures var d := Decide(f, es, true, target, copy);
            Decide(f, es + more, true, target, copy)
            == if d.verdict != Undecided then d else Decide(f, more, true, d.target, d.copy)
    decreases |es|
  {
    if |es| == 0 {
      assert es + more == more;
    } else {
      var n, rest := Row(es, more);
      OneBlock(f, es, target, copy);
      OneBlock(f, es + more, target, copy);
      hide Decide, Fold, Taken, Copied, Targets, Tests, Closed, AllTests;
      var a := es[n].action;
      if !Fold(true, es[..n], target) {
        InARow(f, rest, more, target || Targets(f, a), copy);
      } else if Taken(f, a, target) == Undecided {
        InARow(f, rest, more, target, Copied(f, a, copy));
      }
    }
  }

  /** The first block of two rule sets in a row is that of the first. */
  lemma Row(es: seq<Entry>, more: seq<Entry>) returns (n: nat, rest: seq<Entry>)
    requires Closed(es) && |es| > 0
    ensures n == Tests(es) == Tests(es + more) < |es| && rest == es[n + 1..] && Closed(rest)
    ensures (es + more)[..n] == es[..n] && (es + more)[n] == es[n] && (es + more)[n + 1..] == rest + more
  {
    n := Tests(es);
    assert n < |es|;
    rest := es[n + 1..];
    TestsOf(es, more);
  }

  /** The last action without tests has the last word: DROP drops and ACCEPT accepts what no rule
      before it decided. */
  lemma LastWord(f: Frame, es: seq<Entry>, a: Action)
    requires Closed(es) && (a == Dropping || a == Accepting)
    ensures var before := Decide(f, es, true, false, None);
            var d := Decide(f, es + [Act(a)], true, false, None);
            if before.verdict != Undecided then d == before
            else d.verdict == if a == Dropping then Drop else if before.target then SuperAccept else Accept
  {
    InARow(f, es, [Act(a)], false, None);
    var before := Decide(f, es, true, false, None);
    ActFirst(f, [Act(a)], true, before.target, before.copy);
  }

  /** The first block of a rule set, given by its tests. */
  lemma FirstBlock(f: Frame, ts: seq<Entry>, a: Action, more: seq<Entry>, target: bool, copy: Option<Copy>)
    requires AllTests(ts)
    ensures Decide(f, ts + [Act(a)] + more, true, target, copy)
            == if !Fold(true, ts, target) then Decide(f, more, true, target || Targets(f, a), copy)
               else if Taken(f, a, target) != Undecided then Result(Taken(f, a, target), copy, target)
               else Decide(f, more, true, target, Copied(f, a, copy))
  {
    var es := ts + [Act(a)] + more;
    TestsAre(ts, a, more);
    assert es[..|ts|] == ts && es[|ts|] == Act(a) && es[|ts| + 1..] == more;
    OneBlock(f, es, target, copy);
  }

  lemma {:induction false} TestsAre(ts: seq<Entry>, a: Action, more: seq<Entry>)
    requires AllTests(ts)
    ensures Tests(ts + [Act(a)] + more) == |ts|
    decreases |ts|
  {
    if |ts| > 0 {
      TestsAre(ts[1..], a, more);
      assert (ts + [Act(a)] + more)[1..] == ts[1..] + [Act(a)] + more;
    }
  }

  /** A BREAK whose tests hold ends the rule set without a match, whatever follows; the copy asked for
      before it stays. */
  lemma BreakEnds(f: Frame, ts: seq<Entry>, more: seq<Entry>, target: bool, copy: Option<Copy>)
    requires AllTests(ts) && Fold(true, ts, target)
    ensures var d := Decide(f, ts + [Act(Breaking)] + more, true, target, copy);
            Reported(d.verdict) == NoMatch && d.verdict != Undecided && d.copy == copy
  {
    hide Decide, Fold;
    FirstBlock(f, ts, Breaking, more, target, copy);
  }

  /** An action that is not known does nothing, whatever its tests. */
  lemma IdleSkipped(f: Frame, ts: seq<Entry>, more: seq<Entry>, target: bool, copy: Option<Copy>)
    requires AllTests(ts)
    ensures Decide(f, ts + [Act(Idle)] + more, true, target, copy) == Decide(f, more, true, target, copy)
  {
    hide Decide, Fold;
    FirstBlock(f, ts, Idle, more, target, copy);
  }

  /** Behind a forward whose tests fail, what is accepted is accepted in spite of its addressing exactly
      if it came in and the forward was to this node, or an earlier one was. */
  lemma PassedOverIff(f: Frame, ts: seq<Entry>, a: Action, target: bool, copy: Option<Copy>)
    requires AllTests(ts) && !Fold(true, ts, target)
    ensures var v := Decide(f, ts + [Act(a)] + [Act(Accepting)], true, target, copy).verdict;
            && (v == SuperAccept || v == Accept)
            && (v == SuperAccept <==> target || (f.inbound && (a.Copying? || a.Redirecting?) && a.to == f.here))
  {
    hide Decide, Fold;
    FirstBlock(f, ts, a, [Act(Accepting)], target, copy);
    ActFirst(f, [Act(Accepting)], true, target || Targets(f, a), copy);
  }

  /** What becomes of a frame, verdict by verdict: only running off the end and BREAK leave it to the
      capabilities, and only they and DROP refuse it; 2 stands for acceptance in spite of addressing. */
  lemma Reception(v: Verdict)
    ensures Reported(v) == NoMatch <==> v == Undecided || v == Broken
    ensures Refuses(Reported(v)) <==> v == Undecided || v == Broken || v == Drop
    ensures Received(Reported(v)) == 2 <==> v == SuperAccept
    ensures Received(Reported(v)) == 1 <==> v == Accept || v == Redirect(0)
    ensures Received(Reported(v)) <= 2
    ensures forall to: nat :: Forwarded(Reported(v)) == Some(to) <==> v == Redirect(to) && to != 0
  {
  }

  /** Only the target of a forward passed over, or of one taken, super-accepts, and only what comes in. */
  lemma {:induction false} SuperNeedsTarget(f: Frame, es: seq<Entry>, start: bool, target: bool, copy: Option<Copy>)
    requires Decide(f, es, start, target, copy).verdict == SuperAccept
    ensures target || exists i | 0 <= i < |es| :: es[i].Act? && Targets(f, es[i].action)
    decreases |es|
  {
    var n := Tests(es);
    var a, rest := es[n].action, es[n + 1..];
    if Targets(f, a) {
    } else if !Fold(start, es[..n], target) {
      SuperNeedsTarget(f, rest, true, target, copy);
      Later(f, es, n + 1);
    } else if Taken(f, a, target) == Undecided {
      SuperNeedsTarget(f, rest, true, target, Copied(f, a, copy));
      Later(f, es, n + 1);
    }
  }

  lemma Later(f: Frame, es: seq<Entry>, n: nat)
    requires n <= |es|
    ensures (exists i | 0 <= i < |es[n..]| :: es[n..][i].Act? && Targets(f, es[n..][i].action))
            ==> exists i | 0 <= i < |es| :: es[i].Act? && Targets(f, es[i].action)
  {
    if exists i | 0 <= i < |es[n..]| :: es[n..][i].Act? && Targets(f, es[n..][i].action) {
      var i :| 0 <= i < |es[n..]| && es[n..][i].Act? && Targets(f, es[n..][i].action);
      assert es[n + i] == es[n..][i];
    }
  }

  // ------------------------------------------------------------------------
  // Base rules and capabilities

  /** The outcome of every rule set of a frame: the base rules are set 0, the capabilities follow. */
  ghost function OutcomeOf(node: Node, f: Frame, rules: seq<Rule>, draws: nat -> nat -> nat, k: nat): Outcome
    requires (forall i | 0 <= i < |rules| :: WellFormed(rules[i])) && |f.macDest| == 6
  {
    Reported(Decision(node, f, rules, draws(k)).verdict)
  }

  /** The copy to send; the null address stands for none. */
  function AsList(c: Option<Copy>): seq<Copy>
  {
    if c.Some? && c.value.to != 0 then [c.value] else []
  }

  /** The copy a rule set asks for. */
  ghost function Sent(node: Node, f: Frame, rules: seq<Rule>, draws: nat -> nat -> nat, k: nat): seq<Copy>
    requires (forall i | 0 <= i < |rules| :: WellFormed(rules[i])) && |f.macDest| == 6
  {
    AsList(Decision(node, f, rules, draws(k)).copy)
  }

  predicate Refuses(o: Outcome)
  {
    o == NoMatch || o == Dropped
  }

  /** How a frame is received: 2 in spite of its addressing, 1 as usual, 0 not at all; a frame that is
      redirected goes on to its new destination and not to this node. */
  function Received(o: Outcome): nat
  {
    match o
    case NoMatch => 0
    case Dropped => 0
    case Redirected(to) => if to != 0 then 0 else 1
    case Accepted => 1
    case SuperAccepted => 2
  }

  /** Where a frame that is redirected goes instead. */
  function Forwarded(o: Outcome): Option<nat>
  {
    if o.Redirected? && o.to != 0 then Some(o.to) else None
  }

  ghost predicate WellFormedSets(caps: seq<seq<Rule>>)
  {
    forall c | 0 <= c < |caps| :: forall i | 0 <= i < |caps[c]| :: WellFormed(caps[c][i])
  }

  /** `filterIncomingPacket`, and `filterOutgoingPacket` where 2 counts as 1: the base rules decide; if
      they do not match, the first capability that does not refuse does. The copies of the rule sets
      that let the frame pass are sent, and those of base rules that did not match with them; a frame
      that is redirected goes to its new destination only. */
  method FilterPacket(node: Node, f: Frame, base: seq<Rule>, caps: seq<seq<Rule>>, draws: nat -> nat -> nat)
    returns (accept: nat, cap: Option<nat>, copies: seq<Copy>, forward: Option<nat>)
    requires (forall i | 0 <= i < |base| :: WellFormed(base[i])) && WellFormedSets(caps) && |f.macDest| == 6
    ensures var o := OutcomeOf(node, f, base, draws, 0);
            && (o != NoMatch ==>
                  && cap == None && accept == Received(o) && forward == Forwarded(o)
                  && copies == if Refuses(o) then [] else Sent(node, f, base, draws, 0))
            && (o == NoMatch && cap == None ==>
                  && accept == 0 && copies == [] && forward == None
                  && forall c | 0 <= c < |caps| :: Refuses(OutcomeOf(node, f, caps[c], draws, c + 1)))
            && (o == NoMatch && cap.Some? ==>
                  && cap.value < |caps|
                  && var o' := OutcomeOf(node, f, caps[cap.value], draws, cap.value + 1);
                     && !Refuses(o') && accept == Received(o') && forward == Forwarded(o')
                     && copies == Sent(node, f, caps[cap.value], draws, cap.value + 1) + Sent(node, f, base, draws, 0)
                     && forall c | 0 <= c < cap.value :: Refuses(OutcomeOf(node, f, caps[c], draws, c + 1)))
  {
    hide Decision, WellFormed;
    var o, cc := Filter(node, f, base, draws(0));
    if o != NoMatch {
      return Received(o), None, if Refuses(o) then [] else AsList(cc), Forwarded(o);
    }
    var c := 0;
    while c < |caps|
      invariant 0 <= c <= |caps|
      invariant forall k | 0 <= k < c :: Refuses(OutcomeOf(node, f, caps[k], draws, k + 1))
    {
      var cc2;
      o, cc2 := Filter(node, f, caps[c], draws(c + 1));
      if !Refuses(o) {
        return Received(o), Some(c), AsList(cc2) + AsList(cc), Forwarded(o);
      }
      c := c + 1;
    }
    return 0, None, [], None;
  }

  // ------------------------------------------------------------------------
  // What a decision depends on

  /** An IPv4 frame that ends before the flags of its TCP header. */
  predicate CutTcp(f: Frame)
  {
    var words: nat := if |f.data| > 0 then f.data[0] % 16 else 0;
    Is4(f) && f.data[9] == 0x06 && |f.data| < 4 * words + 14
  }

  lemma SameFlags(f: Frame, g: nat -> byte)
    requires !CutTcp(f)
    ensures TcpFlags(f.(beyond := g)) == TcpFlags(f)
  {
    hide Payload6;
    var f' := f.(beyond := g);
    assert Transport(f') == Transport(f);
  }

  lemma SameMatches(node: Node, f: Frame, g: nat -> byte, target: bool, r: Rule, draw: nat)
    requires WellFormed(r) && |f.macDest| == 6 && !CutTcp(f)
    ensures Matches(node, f.(beyond := g), target, r, draw) == Matches(node, f, target, r, draw)
  {
    hide Matches, CutTcp;
    if r.t % 64 <= 34 {
      SameAddresses(node, f, g, target, r, draw);
    } else if r.t % 64 <= 40 {
      SamePayload(node, f, g, target, r, draw);
    } else {
      SameRest(node, f, g, target, r, draw);
    }
  }

  lemma SameAddresses(node: Node, f: Frame, g: nat -> byte, target: bool, r: Rule, draw: nat)
    requires WellFormed(r) && |f.macDest| == 6 && r.t % 64 <= 34
    ensures Matches(node, f.(beyond := g), target, r, draw) == Matches(node, f, target, r, draw)
  {
    hide WellFormed, Contains4, Contains6;
  }

  lemma SamePayload(node: Node, f: Frame, g: nat -> byte, target: bool, r: Rule, draw: nat)
    requires WellFormed(r) && |f.macDest| == 6 && 35 <= r.t % 64 <= 40
    ensures Matches(node, f.(beyond := g), target, r, draw) == Matches(node, f, target, r, draw)
  {
    hide WellFormed, And, PortOf, Tos, IcmpOf, ProtocolOf;
    SameViews(f, g);
  }

  lemma SameRest(node: Node, f: Frame, g: nat -> byte, target: bool, r: Rule, draw: nat)
    requires WellFormed(r) && |f.macDest| == 6 && r.t % 64 >= 41 && !CutTcp(f)
    ensures Matches(node, f.(beyond := g), target, r, draw) == Matches(node, f, target, r, draw)
  {
    SameTraits(node, f, g);
    TagsIgnore(node, f, g, target);
    hide WellFormed, And, Traits, TagsMatch, TagMatches, CutTcp;
  }

  lemma SameTraits(node: Node, f: Frame, g: nat -> byte)
    requires |f.macDest| == 6 && !CutTcp(f)
    ensures Traits(node, f.(beyond := g)) == Traits(node, f)
  {
    hide TcpFlags, SenderOf, CutTcp, Broadcast;
    SameFlags(f, g);
    SameViews(f, g);
  }

  lemma SameViews(f: Frame, g: nat -> byte)
    ensures var f' := f.(beyond := g);
            && PortOf(f', false) == PortOf(f, false) && PortOf(f', true) == PortOf(f, true) && Tos(f') == Tos(f)
            && IcmpOf(f') == IcmpOf(f) && ProtocolOf(f') == ProtocolOf(f) && SenderOf(f') == SenderOf(f)
  {
    hide Payload6;
    assert Transport(f.(beyond := g)) == Transport(f);
  }

  lemma TagsIgnore(node: Node, f: Frame, g: nat -> byte, target: bool)
    ensures forall code, id, v :: TagsMatch(node, f.(beyond := g), target, code, id, v)
                                  == TagsMatch(node, f, target, code, id, v)
  {
    hide And, Or, Xor;
  }

  lemma {:induction false} DecideIgnores(f: Frame, g: nat -> byte, es: seq<Entry>, start: bool, target: bool,
                                         copy: Option<Copy>)
    ensures Decide(f.(beyond := g), es, start, target, copy) == Decide(f, es, start, target, copy)
    decreases |es|
  {
    hide Fold;
    var n := Tests(es);
    if n < |es| {
      var a, rest := es[n].action, es[n + 1..];
      DecideIgnores(f, g, rest, true, target || Targets(f, a), copy);
      DecideIgnores(f, g, rest, true, target, Copied(f, a, copy));
    }
  }

  /** Unless a TCP header is cut off, nothing behind the frame has a part in the decision. */
  lemma FrameDecides(node: Node, f: Frame, g: nat -> byte, rules: seq<Rule>, draws: nat -> nat)
    requires (forall i | 0 <= i < |rules| :: WellFormed(rules[i])) && |f.macDest| == 6 && !CutTcp(f)
    ensures Decision(node, f.(beyond := g), rules, draws) == Decision(node, f, rules, draws)
  {
    hide WellFormed, Matches, Decide, CutTcp;
    var f' := f.(beyond := g);
    var es, es' := Entries(node, f, rules, draws), Entries(node, f', rules, draws);
    forall i | 0 <= i < |rules|
      ensures es'[i] == es[i]
    {
      SameMatches(node, f, g, false, rules[i], draws(i));
      SameMatches(node, f, g, true, rules[i], draws(i));
    }
    assert es' == es;
    DecideIgnores(f, g, es, true, false, None);
  }

  /** If it is, some rule set decides by what lies there. */
  lemma CutDecides(node: Node, f: Frame) returns (g: nat -> byte, rules: seq<Rule>)
    requires |f.macDest| == 6 && CutTcp(f)
    ensures forall i | 0 <= i < |rules| :: WellFormed(rules[i])
    ensures forall draws: nat -> nat :: Decision(node, f.(beyond := g), rules, draws) != Decision(node, f, rules, draws)
  {
    g := FlagTurns(f);
    hide *;
    rules := [Rule(41, Characteristics(1)), Rule(1, Nothing)];
    FlagRules(rules);
    forall draws: nat -> nat
      ensures Decision(node, f.(beyond := g), rules, draws) != Decision(node, f, rules, draws)
    {
      OtherDecision(node, f, f.(beyond := g), rules, draws);
    }
  }

  lemma FlagRules(rules: seq<Rule>)
    requires rules == [Rule(41, Characteristics(1)), Rule(1, Nothing)]
    ensures forall i | 0 <= i < |rules| :: WellFormed(rules[i])
  {
  }

  lemma OtherDecision(node: Node, f: Frame, f': Frame, rules: seq<Rule>, draws: nat -> nat)
    requires rules == [Rule(41, Characteristics(1)), Rule(1, Nothing)] && |f.macDest| == |f'.macDest| == 6
    requires TcpFlags(f) % 2 != TcpFlags(f') % 2
    ensures WellFormed(rules[0]) && WellFormed(rules[1])
    ensures Decision(node, f, rules, draws) != Decision(node, f', rules, draws)
  {
    hide Decision, TcpFlags, Traits, And, WellFormed;
    FlagSeen(node, f);
    FlagSeen(node, f');
    AcceptIfFlag(node, f, rules, draws);
    AcceptIfFlag(node, f', rules, draws);
  }

  lemma FlagTurns(f: Frame) returns (g: nat -> byte)
    requires CutTcp(f)
    ensures TcpFlags(f.(beyond := g)) % 2 != TcpFlags(f) % 2
  {
    hide Payload6;
    g := i => 1 - f.beyond(i) % 2;
  }

  lemma FlagSeen(node: Node, f: Frame)
    requires |f.macDest| == 6
    ensures And(Traits(node, f), 1) != 0 <==> TcpFlags(f) % 2 == 1
  {
    var v := Traits(node, f);
    hide Traits, TcpFlags;
    EvenTraits(node, f);
    AndHalves(v, 1);
    assert And(v / 2, 1 / 2) == 0;
  }

  lemma EvenTraits(node: Node, f: Frame)
    requires |f.macDest| == 6
    ensures Traits(node, f) % 2 == TcpFlags(f) % 2
  {
    hide TcpFlags, Multicast, Broadcast, IpAuthenticated;
  }

  lemma AcceptIfFlag(node: Node, f: Frame, rules: seq<Rule>, draws: nat -> nat)
    requires rules == [Rule(41, Characteristics(1)), Rule(1, Nothing)] && |f.macDest| == 6
    ensures WellFormed(rules[0]) && WellFormed(rules[1])
    ensures Decision(node, f, rules, draws).verdict
            == if And(Traits(node, f), 1) != 0 then Accept else Undecided
  {
    hide WellFormed, EntryOf, Traits, And, Decide, Fold, Tests;
    FlagTest(node, f, rules[0], draws(0));
    AcceptAct(node, f, rules[1], draws(1));
    var es := Entries(node, f, rules, draws);
    var x := And(Traits(node, f), 1) != 0;
    assert es[0] == Test(false, x, x) && es[1] == Act(Accepting);
    TestFirst(f, es, true, false, None);
    ActFirst(f, es[1..], x, false, None);
    NoneLeft(f, es[1..][1..], true, false, None);
  }

  lemma AcceptAct(node: Node, f: Frame, r: Rule, draw: nat)
    requires r == Rule(1, Nothing) && |f.macDest| == 6
    ensures WellFormed(r) && EntryOf(node, f, r, draw) == Act(Accepting)
  {
    hide Matches;
  }

  lemma FlagTest(node: Node, f: Frame, r: Rule, draw: nat)
    requires r == Rule(41, Characteristics(1)) && |f.macDest| == 6
    ensures WellFormed(r)
    ensures var x := And(Traits(node, f), 1) != 0; EntryOf(node, f, r, draw) == Test(false, x, x)
  {
    hide Traits, And;
  }
}
