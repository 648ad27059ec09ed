/** Capabilities: rules with a signed chain of custody, and their wire format. */
module Capabilities {
  import opened Words
  import opened Options
  import opened Limbs
  import opened Buffers
  import opened Identities
  import opened RuleCodec

  const MAX_RULES: nat := 64
  const MAX_CHAIN: nat := 7
  const GUARD: nat := 0x7f7f7f7f_7f7f7f7f

  datatype Custody = Custody(to: nat, from: nat, signature: seq<byte>)

  /** What a capability says: its fields, its rules and the filled part of its custody chain. */
  datatype Capability = Capability(nwid: nat, ts: nat, id: nat, maxChain: nat, rules: seq<Rule>, custody: seq<Custody>)

  predicate GoodCustody(c: Custody)
  {
    0 < c.to < 0x100_0000_0000 && c.from < 0x100_0000_0000 && |c.signature| == SIGNATURE_LEN
  }

  predicate WellFormedFields(c: Capability)
  {
    && c.nwid < 0x1_0000_0000_0000_0000 && c.ts < 0x1_0000_0000_0000_0000 && c.id < 0x1_0000_0000
    && |c.rules| <= MAX_RULES && 1 <= c.maxChain <= MAX_CHAIN
    && forall i | 0 <= i < |c.rules| :: WellFormed(c.rules[i])
  }

  predicate WellFormedCapability(c: Capability)
  {
    WellFormedFields(c) && |c.custody| <= c.maxChain && forall i | 0 <= i < |c.custody| :: GoodCustody(c.custody[i])
  }

  // ------------------------------------------------------------------------
  // Wire format

  /** The part that is the same whether it is sent or signed. */
  function Head(c: Capability): seq<byte>
    requires WellFormedFields(c)
  {
    Big(c.nwid, 8) + (Big(c.ts, 8) + (Big(c.id, 4) + (Big(|c.rules|, 2) + (RulesBytes(c.rules) + Big(c.maxChain, 1)))))
  }

  function EntryBytes(c: Custody): seq<byte>
  {
    Big(c.to, 5) + (Big(c.from, 5) + (Big(1, 1) + (Big(SIGNATURE_LEN, 2) + c.signature)))
  }

  function ChainBytes(chain: seq<Custody>): seq<byte>
  {
    if |chain| == 0 then Big(0, 5) else EntryBytes(chain[0]) + ChainBytes(chain[1..])
  }

  function CapabilityBytes(c: Capability): seq<byte>
    requires WellFormedFields(c)
  {
    Head(c) + (ChainBytes(c.custody) + Big(0, 2))
  }

  /** What every custodian signs: the chain itself is left out, so that all sign the same bytes. */
  function SignedBytes(c: Capability): seq<byte>
    requires WellFormedFields(c)
  {
    Big(GUARD, 8) + (Head(c) + (Big(0, 2) + Big(GUARD, 8)))
  }

  /** One custody entry after its recipient has been read; other signature types are skipped. */
  function ReadEntry(b: seq<byte>, p: nat, to: nat): Option<(Custody, nat)>
  {
    var from, tag, len := ReadInt(b, p, 5), ReadInt(b, p + 5, 1), ReadInt(b, p + 6, 2);
    if from == None || tag == None || len == None then None
    else if tag.value != 1 then Some((Custody(to, from.value, seq(SIGNATURE_LEN, _ => 0)), p + 8 + len.value))
    else
      var signature := ReadBytes(b, p + 8, SIGNATURE_LEN);
      if len.value != SIGNATURE_LEN || signature == None then None
      else Some((Custody(to, from.value, signature.value), p + 8 + SIGNATURE_LEN))
  }

  /** The chain ends with a zero recipient, which must come no later than `room` entries on. */
  function ReadChain(b: seq<byte>, p: nat, room: nat): Option<(seq<Custody>, nat)>
    decreases room
  {
    var to := ReadInt(b, p, 5);
    if to == None then None
    else if to.value == 0 then Some(([], p + 5))
    else if room == 0 then None
    else
      var e := ReadEntry(b, p + 5, to.value);
      if e == None then None
      else
        var rest := ReadChain(b, e.value.1, room - 1);
        if rest == None then None else Some(([e.value.0] + rest.value.0, rest.value.1))
  }

  /** The fields before the chain. */
  function ReadHead(b: seq<byte>, p: nat): Option<(Capability, nat)>
  {
    var nwid, ts, id, count := ReadInt(b, p, 8), ReadInt(b, p + 8, 8), ReadInt(b, p + 16, 4), ReadInt(b, p + 20, 2);
    if nwid == None || ts == None || id == None || count == None || count.value > MAX_RULES then None
    else
      var rules := ReadRules(b, p + 22, count.value);
      if rules == None then None
      else
        var max := ReadInt(b, rules.value.1, 1);
        if max == None || !(1 <= max.value <= MAX_CHAIN) then None
        else Some((Capability(nwid.value, ts.value, id.value, max.value, rules.value.0, []), rules.value.1 + 1))
  }

  /** The capability at a position and the number of bytes it takes, extension field included. */
  function ReadCapability(b: seq<byte>, start: nat): Option<(Capability, int)>
  {
    var head := ReadHead(b, start);
    if head == None then None
    else
      var c := head.value.0;
      var chain := ReadChain(b, head.value.1, c.maxChain);
      if chain == None then None
      else
        var extra := ReadInt(b, chain.value.1, 2);
        if extra == None || chain.value.1 + 2 + extra.value > |b| then None
        else Some((c.(custody := chain.value.0), chain.value.1 + 2 + extra.value - start))
  }

  // ------------------------------------------------------------------------
  // Round trip

  lemma EntryBack(b: seq<byte>, p: nat, c: Custody)
    requires GoodCustody(c) && At(b, p, EntryBytes(c))
    ensures ReadInt(b, p, 5) == Some(c.to) && ReadEntry(b, p + 5, c.to) == Some((c, p + 13 + SIGNATURE_LEN))
    ensures |EntryBytes(c)| == 13 + SIGNATURE_LEN
  {
    hide Big, Pow256, Number;
    Sizes();
    AtSplit(b, p, Big(c.to, 5), Big(c.from, 5) + (Big(1, 1) + (Big(SIGNATURE_LEN, 2) + c.signature)));
    AtSplit(b, p + 5, Big(c.from, 5), Big(1, 1) + (Big(SIGNATURE_LEN, 2) + c.signature));
    AtSplit(b, p + 10, Big(1, 1), Big(SIGNATURE_LEN, 2) + c.signature);
    AtSplit(b, p + 11, Big(SIGNATURE_LEN, 2), c.signature);
    ReadBack(b, p, c.to, 5);
    ReadBack(b, p + 5, c.from, 5);
    ReadBack(b, p + 10, 1, 1);
    ReadBack(b, p + 11, SIGNATURE_LEN, 2);
    assert ReadBytes(b, p + 13, SIGNATURE_LEN) == Some(c.signature);
  }

  lemma {:induction false} ChainBack(b: seq<byte>, p: nat, chain: seq<Custody>, room: nat)
    requires |chain| <= room && (forall i | 0 <= i < |chain| :: GoodCustody(chain[i])) && At(b, p, ChainBytes(chain))
    ensures ReadChain(b, p, room) == Some((chain, p + |ChainBytes(chain)|))
    decreases |chain|
  {
    hide Big, Pow256, Number, EntryBytes, ReadEntry;
    if |chain| == 0 {
      Sizes();
      ReadBack(b, p, 0, 5);
    } else {
      var c, rest := chain[0], chain[1..];
      AtSplit(b, p, EntryBytes(c), ChainBytes(rest));
      EntryBack(b, p, c);
      hide At, GoodCustody, ReadInt;
      ChainBack(b, p + |EntryBytes(c)|, rest, room - 1);
      assert chain == [c] + rest;
    }
  }

  lemma HeadBack(b: seq<byte>, p: nat, c: Capability)
    requires WellFormedFields(c) && At(b, p, Head(c))
    ensures ReadHead(b, p) == Some((c.(custody := []), p + |Head(c)|))
  {
    hide Big, Pow256, Number, RulesBytes, ReadRules, WellFormed;
    Sizes();
    var rules := RulesBytes(c.rules);
    var t5 := rules + Big(c.maxChain, 1);
    var t4 := Big(|c.rules|, 2) + t5;
    var t3 := Big(c.id, 4) + t4;
    AtSplit(b, p, Big(c.nwid, 8), Big(c.ts, 8) + t3);
    AtSplit(b, p + 8, Big(c.ts, 8), t3);
    AtSplit(b, p + 16, Big(c.id, 4), t4);
    AtSplit(b, p + 20, Big(|c.rules|, 2), t5);
    AtSplit(b, p + 22, rules, Big(c.maxChain, 1));
    hide At, ReadInt;
    ReadBack(b, p, c.nwid, 8);
    ReadBack(b, p + 8, c.ts, 8);
    ReadBack(b, p + 16, c.id, 4);
    ReadBack(b, p + 20, |c.rules|, 2);
    RulesBack(c.rules, b, p + 22);
    ReadBack(b, p + 22 + |rules|, c.maxChain, 1);
  }

  lemma CapabilityBack(b: seq<byte>, p: nat, c: Capability)
    requires WellFormedCapability(c) && At(b, p, CapabilityBytes(c))
    ensures ReadCapability(b, p) == Some((c, |CapabilityBytes(c)|))
  {
    hide Big, Pow256, Number, Head, ChainBytes, ReadHead, ReadChain, WellFormedFields, GoodCustody, At, ReadInt;
    AtSplit(b, p, Head(c), ChainBytes(c.custody) + Big(0, 2));
    AtSplit(b, p + |Head(c)|, ChainBytes(c.custody), Big(0, 2));
    HeadBack(b, p, c);
    ChainBack(b, p + |Head(c)|, c.custody, c.maxChain);
    Sizes();
    ReadBack(b, p + |Head(c)| + |ChainBytes(c.custody)|, 0, 2);
    assert c.(custody := []).(custody := c.custody) == c;
  }

  lemma Placed(before: seq<byte>, s: seq<byte>, after: seq<byte>)
    ensures At(before + s + after, |before|, s)
  {
  }

  /** A well-formed capability is read back at any position, whatever follows, and reading
      consumes exactly the bytes that were written. */
  lemma CapabilityRoundTrip(before: seq<byte>, c: Capability, after: seq<byte>)
    requires WellFormedCapability(c)
    ensures ReadCapability(before + CapabilityBytes(c) + after, |before|) == Some((c, |CapabilityBytes(c)|))
  {
    hide CapabilityBytes, ReadCapability, At, WellFormedFields;
    Placed(before, CapabilityBytes(c), after);
    CapabilityBack(before + CapabilityBytes(c) + after, |before|, c);
  }

  // ------------------------------------------------------------------------
  // Chain of custody

  datatype Verdict = Good | NeedIdentity | Bad

  /** Who must have made entry `i`. */
  function Giver(c: Capability, slots: seq<Custody>, i: nat): nat
    requires i <= |slots|
  {
    if i == 0 then ControllerFor(c.nwid) else slots[i - 1].to
  }

  /** Checks the entries from `i` on. */
  function CheckFrom(d: Directory, c: Capability, slots: seq<Custody>, m: seq<byte>, i: nat): Verdict
    requires i <= c.maxChain <= |slots|
    decreases c.maxChain - i
  {
    if i == c.maxChain then Good
    else if slots[i].to == 0 then (if i == 0 then Bad else Good)
    else if slots[i].from == 0 || slots[i].from != Giver(c, slots, i) then Bad
    else if !d.known(slots[i].from) then NeedIdentity
    else if !d.verify(slots[i].from, m, slots[i].signature) then Bad
    else CheckFrom(d, c, slots, m, i + 1)
  }

  /** The number of entries before the first empty one. */
  function Filled(slots: seq<Custody>, max: nat): (n: nat)
    requires max <= |slots|
    ensures n <= max && (forall i | 0 <= i < n :: slots[i].to != 0) && (n < max ==> slots[n].to == 0)
  {
    FilledFrom(slots, max, 0)
  }

  function FilledFrom(slots: seq<Custody>, max: nat, i: nat): (n: nat)
    requires i <= max <= |slots|
    ensures i <= n <= max && (forall j | i <= j < n :: slots[j].to != 0) && (n < max ==> slots[n].to == 0)
    decreases max - i
  {
    if i == max || slots[i].to == 0 then i else FilledFrom(slots, max, i + 1)
  }

  lemma FilledIs(slots: seq<Custody>, max: nat, n: nat)
    requires n <= max <= |slots| && (forall i | 0 <= i < n :: slots[i].to != 0) && (n < max ==> slots[n].to == 0)
    ensures Filled(slots, max) == n
  {
    var k := Filled(slots, max);
  }

  /** An unbroken chain: from the controller on, each entry signed by the previous holder. */
  ghost predicate Unbroken(d: Directory, c: Capability, slots: seq<Custody>, m: seq<byte>)
    requires c.maxChain <= |slots|
  {
    && Filled(slots, c.maxChain) > 0
    && forall i | 0 <= i < Filled(slots, c.maxChain) :: Link(d, c, slots, m, i)
  }

  ghost predicate Link(d: Directory, c: Capability, slots: seq<Custody>, m: seq<byte>, i: nat)
    requires i < |slots|
  {
    slots[i].from != 0 && slots[i].from == Giver(c, slots, i) && d.verify(slots[i].from, m, slots[i].signature)
  }

  /** Entry `i` is a link, and the identity that made it is known. */
  ghost predicate Checked(d: Directory, c: Capability, slots: seq<Custody>, m: seq<byte>, i: nat)
    requires i < |slots|
  {
    Link(d, c, slots, m, i) && d.known(slots[i].from)
  }

  lemma {:induction false} CheckIffLinks(d: Directory, c: Capability, slots: seq<Custody>, m: seq<byte>, i: nat)
    requires c.maxChain <= |slots| && 0 < i <= Filled(slots, c.maxChain)
    ensures CheckFrom(d, c, slots, m, i) == Good
            <==> forall j | i <= j < Filled(slots, c.maxChain) :: Checked(d, c, slots, m, j)
    decreases c.maxChain - i
  {
    var n := Filled(slots, c.maxChain);
    if i < n {
      CheckIffLinks(d, c, slots, m, i + 1);
      if forall j | i <= j < n :: Checked(d, c, slots, m, j) {
        assert Checked(d, c, slots, m, i);
      }
    }
  }

  /** Verification succeeds exactly on unbroken chains of known identities. */
  lemma VerifiedIffUnbroken(d: Directory, c: Capability, slots: seq<Custody>, m: seq<byte>)
    requires 0 < c.maxChain <= |slots|
    ensures CheckFrom(d, c, slots, m, 0) == Good
            <==> && Unbroken(d, c, slots, m)
                 && forall i | 0 <= i < Filled(slots, c.maxChain) :: d.known(slots[i].from)
  {
    var n := Filled(slots, c.maxChain);
    if n > 0 {
      CheckIffLinks(d, c, slots, m, 1);
      assert CheckFrom(d, c, slots, m, 0) == Good
             <==> Checked(d, c, slots, m, 0) && CheckFrom(d, c, slots, m, 1) == Good;
      hide CheckFrom, Link;
      forall j | 0 <= j < n
        ensures Checked(d, c, slots, m, j) <==> Link(d, c, slots, m, j) && d.known(slots[j].from)
      {
      }
      hide Checked;
      assert (forall j | 0 <= j < n :: Checked(d, c, slots, m, j))
          <==> Checked(d, c, slots, m, 0) && forall j | 1 <= j < n :: Checked(d, c, slots, m, j);
    }
  }

  /** From entry `i` on all is in order up to entry `j`, whose giver is the right one and not known. */
  ghost predicate Awaits(d: Directory, c: Capability, slots: seq<Custody>, m: seq<byte>, i: nat, j: nat)
    requires i <= j < |slots|
  {
    && (forall k | i <= k < j :: slots[k].to != 0 && Checked(d, c, slots, m, k))
    && slots[j].to != 0 && slots[j].from != 0 && slots[j].from == Giver(c, slots, j) && !d.known(slots[j].from)
  }

  /** An identity is asked for exactly when it is the first that is missing of a chain in order so far. */
  lemma {:induction false} AwaitsIff(d: Directory, c: Capability, slots: seq<Custody>, m: seq<byte>, i: nat)
    requires i <= c.maxChain <= |slots|
    ensures CheckFrom(d, c, slots, m, i) == NeedIdentity
            <==> exists j | i <= j < c.maxChain :: Awaits(d, c, slots, m, i, j)
    decreases c.maxChain - i
  {
    if i < c.maxChain {
      AwaitsIff(d, c, slots, m, i + 1);
      if slots[i].to != 0 && Checked(d, c, slots, m, i) {
        AwaitsNext(d, c, slots, m, i, i + 1);
      } else if CheckFrom(d, c, slots, m, i) == NeedIdentity {
        assert Awaits(d, c, slots, m, i, i);
      }
    }
  }

  lemma AwaitsNext(d: Directory, c: Capability, slots: seq<Custody>, m: seq<byte>, i: nat, next: nat)
    requires i + 1 == next <= c.maxChain <= |slots| && slots[i].to != 0 && Checked(d, c, slots, m, i)
    ensures (exists j | i <= j < c.maxChain :: Awaits(d, c, slots, m, i, j))
            <==> exists j | next <= j < c.maxChain :: Awaits(d, c, slots, m, next, j)
  {
    assert !Awaits(d, c, slots, m, i, i);
    hide Checked;
    forall j | next <= j < c.maxChain
      ensures Awaits(d, c, slots, m, i, j) <==> Awaits(d, c, slots, m, next, j)
    {
    }
    hide Awaits;
  }

  // ------------------------------------------------------------------------
  // What the signatures cover

  /** The signed bytes determine every field: network, timestamp, id, rules and length of the chain. */
  lemma SignedBytesInjective(c: Capability, e: Capability)
    requires WellFormedFields(c) && WellFormedFields(e) && SignedBytes(c) == SignedBytes(e)
    ensures c.(custody := []) == e.(custody := [])
  {
    hide Head, ReadHead, WellFormedFields, At, Big;
    HeadInside(c);
    HeadInside(e);
    HeadBack(SignedBytes(c), 8, c);
    HeadBack(SignedBytes(e), 8, e);
  }

  lemma HeadInside(c: Capability)
    requires WellFormedFields(c)
    ensures At(SignedBytes(c), 8, Head(c))
  {
    hide Head, WellFormedFields, At, Big;
    var guard, end := Big(GUARD, 8), Big(0, 2) + Big(GUARD, 8);
    Placed(guard, Head(c), end);
    assert guard + Head(c) + end == SignedBytes(c);
  }

  lemma {:induction false} GoodHasLink(d: Directory, c: Capability, slots: seq<Custody>, m: seq<byte>, i: nat, j: nat)
    requires i <= j < c.maxChain <= |slots| && CheckFrom(d, c, slots, m, i) == Good
    requires forall k | i <= k <= j :: slots[k].to != 0
    ensures Link(d, c, slots, m, j)
    decreases j - i
  {
    if i < j {
      GoodHasLink(d, c, slots, m, i + 1, j);
    }
  }

  /** A capability that verifies, with a signature anywhere in its chain that stands for one set of
      fields only, carries exactly these fields, and its first giver is the controller of its network. */
  lemma VerifiedIsGenuine(d: Directory, c: Capability, slots: seq<Custody>, signed: Capability, i: nat)
    requires WellFormedFields(c) && WellFormedFields(signed) && c.maxChain <= |slots|
    requires CheckFrom(d, c, slots, SignedBytes(c), 0) == Good && i < Filled(slots, c.maxChain)
    requires BindsTo(d, slots[i].from, slots[i].signature, SignedBytes(signed))
    ensures c.(custody := []) == signed.(custody := []) && slots[0].from == ControllerFor(signed.nwid)
  {
    hide SignedBytes, WellFormedFields;
    GoodHasLink(d, c, slots, SignedBytes(c), 0, i);
    GoodHasLink(d, c, slots, SignedBytes(c), 0, 0);
    hide CheckFrom;
    SignedBytesInjective(c, signed);
  }

  /** Whoever changes a field of a capability that was handed on is found out. */
  lemma TamperedFails(d: Directory, c: Capability, signed: Capability, recipients: seq<nat>)
    requires WellFormedFields(c) && WellFormedFields(signed) && 0 < |recipients| <= signed.maxChain
    requires forall k | 0 <= k < |recipients| :: recipients[k] != 0
    requires var a := ControllerFor(signed.nwid);
             BindsTo(d, a, d.sign(a, SignedBytes(signed)), SignedBytes(signed))
    requires c.(custody := []) != signed.(custody := [])
    ensures CheckFrom(d, c, HandedTo(d, signed, SignedBytes(signed), recipients), SignedBytes(c), 0) != Good
  {
    hide SignedBytes, ControllerFor;
    var slots := HandedTo(d, signed, SignedBytes(signed), recipients);
    HandedSlots(d, signed, SignedBytes(signed), recipients);
    hide HandedTo;
    assert slots[0] == Custody(recipients[0], Giver(signed, slots, 0),
                               d.sign(Giver(signed, slots, 0), SignedBytes(signed)));
    if CheckFrom(d, c, slots, SignedBytes(c), 0) == Good {
      GoodHasLink(d, c, slots, SignedBytes(c), 0, 0);
      hide CheckFrom, WellFormedFields;
      SignedBytesInjective(c, signed);
    }
  }

  /** The last recipient of the filled prefix. */
  function LastHolder(slots: seq<Custody>): nat
  {
    if Filled(slots, |slots|) == 0 then 0 else slots[Filled(slots, |slots|) - 1].to
  }

  lemma HeadOfValue(f: Capability, v: Capability)
    requires WellFormedFields(f) && v == f.(custody := v.custody)
    ensures WellFormedFields(v) && Head(v) == Head(f)
  {
    hide Big, RulesBytes, WellFormed;
  }

  lemma Regroup(s: seq<byte>, a: seq<byte>, b: seq<byte>, c: seq<byte>, d: seq<byte>, e: seq<byte>, f: seq<byte>)
    ensures s + a + b + c + d + e + f == s + (a + (b + (c + (d + (e + f)))))
  {
  }

  lemma FilledBeyond(slots: seq<Custody>, max: nat, i: nat)
    requires i < max <= |slots| && i <= Filled(slots, max) && slots[i].to != 0
    ensures i < Filled(slots, max)
  {
  }

  lemma FilledEnds(slots: seq<Custody>, max: nat, i: nat)
    requires i <= max <= |slots| && i <= Filled(slots, max) && (i < max ==> slots[i].to == 0)
    ensures i == Filled(slots, max)
  {
  }

  lemma HeadChain(b: seq<byte>, p: nat)
    requires ReadHead(b, p).Some?
    ensures 1 <= ReadHead(b, p).value.0.maxChain <= MAX_CHAIN && ReadHead(b, p).value.0.custody == []
  {
  }

  function PrependChain(chain: seq<Custody>, r: Option<(seq<Custody>, nat)>): Option<(seq<Custody>, nat)>
  {
    if r == None then None else Some((chain + r.value.0, r.value.1))
  }

  lemma EmptyPrefix(r: Option<(seq<Custody>, nat)>)
    ensures PrependChain([], r) == r
  {
    if r.Some? {
      assert [] + r.value.0 == r.value.0;
    }
  }

  lemma PrependEntry(chain: seq<Custody>, e: Custody, r: Option<(seq<Custody>, nat)>)
    ensures PrependChain(chain, PrependChain([e], r)) == PrependChain(chain + [e], r)
  {
    if r.Some? {
      assert chain + ([e] + r.value.0) == chain + [e] + r.value.0;
    }
  }

  /** An empty chain. */
  function NoCustody(): (slots: seq<Custody>)
    ensures |slots| == MAX_CHAIN
  {
    seq(MAX_CHAIN, _ => Custody(0, 0, []))
  }

  class CapabilityObject {
    var nwid: nat
    var ts: nat
    var id: nat
    var maxChain: nat
    var rules: seq<Rule>
    var custody: array<Custody>

    /** The fields, without the chain. */
    function Fields(): Capability
      reads this
    {
      Capability(nwid, ts, id, maxChain, rules, [])
    }

    ghost predicate Valid()
      reads this, custody
    {
      custody.Length == MAX_CHAIN && WellFormedFields(Fields())
    }

    /** The capability with the filled prefix of its chain. */
    ghost function Value(): Capability
      requires Valid()
      reads this, custody
    {
      Fields().(custody := custody[..Filled(custody[..], maxChain)])
    }

    /** Chain lengths are clamped to 1..7 and rules beyond the first 64 are dropped. */
    constructor (id_: nat, nwid_: nat, ts_: nat, mccl: nat, rules_: seq<Rule>)
      requires id_ < 0x1_0000_0000 && nwid_ < 0x1_0000_0000_0000_0000 && ts_ < 0x1_0000_0000_0000_0000
      requires forall i | 0 <= i < |rules_| :: WellFormed(rules_[i])
      ensures Valid() && fresh(custody) && custody[..] == NoCustody()
      ensures maxChain == (if mccl == 0 then 1 else if mccl < MAX_CHAIN then mccl else MAX_CHAIN)
      ensures var kept := if |rules_| < MAX_RULES then rules_ else rules_[..MAX_RULES];
              Fields() == Capability(nwid_, ts_, id_, maxChain, kept, [])
    {
      nwid, ts, id := nwid_, ts_, id_;
      maxChain := if mccl > 0 then (if mccl < MAX_CHAIN then mccl else MAX_CHAIN) else 1;
      rules := if |rules_| < MAX_RULES then rules_ else rules_[..MAX_RULES];
      custody := new Custody[MAX_CHAIN](_ => Custody(0, 0, []));
    }

    /** `serialize`, for sending. */
    method Serialize(buffer: Buffer) returns (ok: bool)
      requires Valid() && buffer.Valid()
      modifies buffer
      ensures buffer.Valid() && ok == (|old(buffer.data)| + |CapabilityBytes(Value())| <= buffer.capacity)
      ensures ok ==> buffer.data == old(buffer.data) + CapabilityBytes(Value())
    {
      hide Big, WellFormed, RulesBytes, ChainBytes;
      ghost var start := buffer.data;
      HeadOfValue(Fields(), Value());
      ok := SerializeHead(buffer);
      if !ok {
        return;
      }
      ghost var c := Value().custody;
      ok := SerializeChain(buffer);
      if !ok {
        return;
      }
      ok := buffer.AppendInt(0, 2);
      assert start + (Head(Value()) + (ChainBytes(c) + Big(0, 2))) == start + Head(Value()) + ChainBytes(c) + Big(0, 2);
    }

    method SerializeHead(buffer: Buffer) returns (ok: bool)
      requires Valid() && buffer.Valid()
      modifies buffer
      ensures buffer.Valid() && ok == (|old(buffer.data)| + |Head(Fields())| <= buffer.capacity)
      ensures ok ==> buffer.data == old(buffer.data) + Head(Fields())
    {
      hide Big, WellFormed, RulesBytes;
      ghost var start := buffer.data;
      ok := buffer.AppendInt(nwid, 8);
      if !ok { return; }
      ok := buffer.AppendInt(ts, 8);
      if !ok { return; }
      ok := buffer.AppendInt(id, 4);
      if !ok { return; }
      ok := buffer.AppendInt(|rules|, 2);
      if !ok { return; }
      ok := SerializeRules(buffer, rules);
      if !ok { return; }
      ok := buffer.AppendInt(maxChain, 1);
      Regroup(start, Big(nwid, 8), Big(ts, 8), Big(id, 4), Big(|rules|, 2), RulesBytes(rules), Big(maxChain, 1));
    }

    method SerializeChain(buffer: Buffer) returns (ok: bool)
      requires Valid() && buffer.Valid()
      modifies buffer
      ensures buffer.Valid() && ok == (|old(buffer.data)| + |ChainBytes(Value().custody)| <= buffer.capacity)
      ensures ok ==> buffer.data == old(buffer.data) + ChainBytes(Value().custody)
    {
      hide Big, WellFormed, EntryBytes;
      ghost var start := buffer.data;
      ghost var chain := custody[..Filled(custody[..], maxChain)];
      assert chain[0..] == chain;
      var i := 0;
      while i < maxChain && i < MAX_CHAIN && custody[i].to != 0
        invariant 0 <= i <= |chain| && buffer.Valid()
        invariant buffer.data + ChainBytes(chain[i..]) == start + ChainBytes(chain)
        decreases maxChain - i
      {
        FilledBeyond(custody[..], maxChain, i);
        assert chain[i..][0] == custody[i] && chain[i..][1..] == chain[i + 1..];
        ghost var before := buffer.data;
        ok := buffer.Append(EntryBytes(custody[i]));
        if !ok {
          assert |start + ChainBytes(chain)| == |before + ChainBytes(chain[i..])|;
          return;
        }
        assert before + (EntryBytes(custody[i]) + ChainBytes(chain[i + 1..]))
               == buffer.data + ChainBytes(chain[i + 1..]);
        i := i + 1;
      }
      FilledEnds(custody[..], maxChain, i);
      assert chain[i..] == [];
      assert |start + ChainBytes(chain)| == |buffer.data + Big(0, 5)|;
      ok := buffer.AppendInt(0, 5);
    }

    /** `deserialize`: either fails as the reader does, or fills in all fields and the chain. */
    method Deserialize(b: seq<byte>, start: nat) returns (len: Option<int>)
      modifies this
      ensures len.Some? <==> ReadCapability(b, start).Some?
      ensures len.Some? ==>
                var (c, n) := ReadCapability(b, start).value;
                && len.value == n && custody.Length == MAX_CHAIN && Fields() == c.(custody := [])
                && |c.custody| <= MAX_CHAIN && custody[..|c.custody|] == c.custody
                && forall i | |c.custody| <= i < MAX_CHAIN :: custody[i].to == 0
    {
      hide ReadHead, ReadChain, ReadInt;
      custody := new Custody[MAX_CHAIN](_ => Custody(0, 0, []));
      var head := ReadHead(b, start);
      if head == None {
        return None;
      }
      HeadChain(b, start);
      nwid, ts, id := head.value.0.nwid, head.value.0.ts, head.value.0.id;
      maxChain, rules := head.value.0.maxChain, head.value.0.rules;
      var p := DeserializeChain(b, head.value.1);
      if p == None {
        return None;
      }
      var extra := ReadInt(b, p.value, 2);
      if extra == None || p.value + 2 + extra.value > |b| {
        return None;
      }
      return Some(p.value + 2 + extra.value - start);
    }

    /** The custody loop of `deserialize`, over an empty chain. */
    method DeserializeChain(b: seq<byte>, start: nat) returns (end: Option<nat>)
      requires maxChain <= MAX_CHAIN && custody.Length == MAX_CHAIN
      requires forall k | 0 <= k < MAX_CHAIN :: custody[k].to == 0
      modifies custody
      ensures end.Some? <==> ReadChain(b, start, maxChain).Some?
      ensures end.Some? ==>
                var (chain, p) := ReadChain(b, start, maxChain).value;
                && end.value == p && |chain| <= MAX_CHAIN && custody[..|chain|] == chain
                && forall k | |chain| <= k < MAX_CHAIN :: custody[k].to == 0
    {
      hide ReadEntry, ReadInt;
      var p, i := start, 0;
      ghost var whole := ReadChain(b, p, maxChain);
      EmptyPrefix(whole);
      while true
        invariant 0 <= i <= maxChain
        invariant whole == PrependChain(custody[..i], ReadChain(b, p, maxChain - i))
        invariant forall k | i <= k < MAX_CHAIN :: custody[k].to == 0
        decreases maxChain - i
      {
        var to := ReadInt(b, p, 5);
        if to == None {
          return None;
        }
        if to.value == 0 {
          assert custody[..i] + [] == custody[..i];
          return Some(p + 5);
        }
        if i >= maxChain || i >= MAX_CHAIN {
          return None;
        }
        var e := ReadEntry(b, p + 5, to.value);
        if e == None {
          return None;
        }
        ghost var done := custody[..i];
        custody[i] := e.value.0;
        assert custody[..i + 1] == done + [e.value.0];
        PrependEntry(done, e.value.0, ReadChain(b, e.value.1, maxChain - i - 1));
        p := e.value.1;
        i := i + 1;
      }
    }

    /** The last recipient before the first empty entry. */
    method IssuedTo() returns (holder: nat)
      requires Valid()
      ensures holder == LastHolder(custody[..])
    {
      holder := 0;
      var i := 0;
      while i < MAX_CHAIN
        invariant 0 <= i <= MAX_CHAIN
        invariant FilledFrom(custody[..], MAX_CHAIN, 0) == FilledFrom(custody[..], MAX_CHAIN, i)
        invariant holder == if i == 0 then 0 else custody[i - 1].to
      {
        if custody[i].to == 0 {
          return;
        }
        holder := custody[i].to;
        i := i + 1;
      }
    }

    /** Fills the first empty entry, if the chain has room for one; without the secret key the entry
        names both parties, keeps the signature it had, and the result is false. */
    method Sign(d: Directory, from: nat, secret: bool, to: nat) returns (ok: bool)
      requires Valid()
      modifies custody
      ensures Valid()
      ensures var n := Filled(old(custody[..]), maxChain);
              && ok == (n < maxChain && secret)
              && (n == maxChain ==> custody[..] == old(custody[..]))
              && (n < maxChain ==>
                    var mark := if secret then d.sign(from, SignedBytes(Fields())) else old(custody[..])[n].signature;
                    custody[..] == old(custody[..])[n := Custody(to, from, mark)])
    {
      hide SignedBytes, WellFormed;
      ghost var was := custody[..];
      var i := 0;
      while i < maxChain && i < MAX_CHAIN
        invariant 0 <= i <= maxChain && custody[..] == was && Valid()
        invariant FilledFrom(was, maxChain, 0) == FilledFrom(was, maxChain, i)
      {
        if custody[i].to == 0 {
          var m := SignedBytes(Fields());
          custody[i] := Custody(to, from, custody[i].signature);
          if !secret {
            return false;
          }
          custody[i] := Custody(to, from, d.sign(from, m));
          return true;
        }
        i := i + 1;
      }
      return false;
    }

    /** Zero for a good chain, 1 while an identity is missing, -1 for a bad one. */
    method Verify(d: Directory) returns (r: int)
      requires Valid()
      ensures var v := CheckFrom(d, Fields(), custody[..], SignedBytes(Fields()), 0);
              r == if v == Good then 0 else if v == NeedIdentity then 1 else -1
    {
      hide SignedBytes, WellFormed;
      var m := SignedBytes(Fields());
      var c := 0;
      while c < maxChain
        invariant 0 <= c <= maxChain
        invariant CheckFrom(d, Fields(), custody[..], m, 0) == CheckFrom(d, Fields(), custody[..], m, c)
      {
        if c == 0 {
          if custody[c].to == 0 || custody[c].from == 0 || custody[c].from != ControllerFor(nwid) {
            return -1;
          }
        } else {
          if custody[c].to == 0 {
            return 0;
          } else if custody[c].from == 0 || custody[c].from != custody[c - 1].to {
            return -1;
          }
        }
        if d.known(custody[c].from) {
          if !d.verify(custody[c].from, m, custody[c].signature) {
            return -1;
          }
        } else {
          return 1;
        }
        c := c + 1;
      }
      return 0;
    }
  }

  // ------------------------------------------------------------------------
  // Hand-offs

  /** The slots after handing the capability to each recipient in turn, the holder signing. */
  function HandedTo(d: Directory, c: Capability, m: seq<byte>, recipients: seq<nat>): (slots: seq<Custody>)
    requires |recipients| <= MAX_CHAIN
    ensures |slots| == MAX_CHAIN
  {
    if |recipients| == 0 then NoCustody()
    else
      var n := |recipients| - 1;
      var before := HandedTo(d, c, m, recipients[..n]);
      var holder := Giver(c, before, n);
      before[n := Custody(recipients[n], holder, d.sign(holder, m))]
  }

  lemma {:induction false} HandedSlots(d: Directory, c: Capability, m: seq<byte>, recipients: seq<nat>)
    requires |recipients| <= MAX_CHAIN
    ensures var slots := HandedTo(d, c, m, recipients);
            && (forall i | 0 <= i < |recipients| ::
                  slots[i] == Custody(recipients[i], Giver(c, slots, i), d.sign(Giver(c, slots, i), m)))
            && (forall i | |recipients| <= i < MAX_CHAIN :: slots[i].to == 0)
    decreases |recipients|
  {
    if |recipients| > 0 {
      var n := |recipients| - 1;
      HandedSlots(d, c, m, recipients[..n]);
      var before, slots := HandedTo(d, c, m, recipients[..n]), HandedTo(d, c, m, recipients);
      forall i | 0 <= i < n
        ensures slots[i] == Custody(recipients[i], Giver(c, slots, i), d.sign(Giver(c, slots, i), m))
      {
        assert before[i] == Custody(recipients[..n][i], Giver(c, before, i), d.sign(Giver(c, before, i), m));
      }
    }
  }

  /** Every chain of hand-offs up to the maximum length verifies, and is issued to its last holder. */
  lemma HandedVerifies(d: Directory, c: Capability, m: seq<byte>, recipients: seq<nat>)
    requires 0 < |recipients| <= c.maxChain <= MAX_CHAIN && d.Ideal() && ControllerFor(c.nwid) != 0
    requires (forall i | 0 <= i < |recipients| :: recipients[i] != 0) && forall a :: d.known(a)
    ensures CheckFrom(d, c, HandedTo(d, c, m, recipients), m, 0) == Good
    ensures LastHolder(HandedTo(d, c, m, recipients)) == recipients[|recipients| - 1]
  {
    HandedSlots(d, c, m, recipients);
    var slots := HandedTo(d, c, m, recipients);
    forall i | 0 <= i < |recipients|
      ensures slots[i].to != 0 && Link(d, c, slots, m, i)
    {
      if i > 0 {
        assert slots[i - 1].to == recipients[i - 1];
      }
    }
    VerifiedIffUnbroken(d, c, slots, m);
    hide CheckFrom, d.Ideal, Link;
    FilledIs(slots, c.maxChain, |recipients|);
    FilledIs(slots, |slots|, |recipients|);
  }

  /** One more hand-off fills the next slot. */
  lemma HandedNext(d: Directory, c: Capability, m: seq<byte>, recipients: seq<nat>, k: nat)
    requires k < |recipients| && k < MAX_CHAIN && k < c.maxChain <= MAX_CHAIN
    requires forall i | 0 <= i < |recipients| :: recipients[i] != 0
    ensures var from := if k == 0 then ControllerFor(c.nwid) else recipients[k - 1];
            var slots := HandedTo(d, c, m, recipients[..k]);
            && Filled(slots, c.maxChain) == k
            && HandedTo(d, c, m, recipients[..k + 1]) == slots[k := Custody(recipients[k], from, d.sign(from, m))]
  {
    HandedSlots(d, c, m, recipients[..k]);
    assert recipients[..k + 1][..k] == recipients[..k];
    var slots := HandedTo(d, c, m, recipients[..k]);
    FilledIs(slots, c.maxChain, k);
  }

  lemma HandedAll(d: Directory, c: Capability, m: seq<byte>, recipients: seq<nat>)
    requires |recipients| >= c.maxChain && c.maxChain <= MAX_CHAIN
    requires forall i | 0 <= i < |recipients| :: recipients[i] != 0
    ensures Filled(HandedTo(d, c, m, recipients[..c.maxChain]), c.maxChain) == c.maxChain
  {
    HandedSlots(d, c, m, recipients[..c.maxChain]);
    FilledIs(HandedTo(d, c, m, recipients[..c.maxChain]), c.maxChain, c.maxChain);
  }

  /** Hands a new capability from the controller to each recipient in turn, every holder signing it
      over to the next, as long as there is room. Everything handed over verifies and is issued to
      the last recipient. */
  method HandAround(o: CapabilityObject, d: Directory, recipients: seq<nat>)
    returns (ok: bool, verdict: int, holder: nat)
    requires o.Valid() && o.custody[..] == NoCustody()
    requires forall i | 0 <= i < |recipients| :: recipients[i] != 0
    modifies o.custody
    ensures o.Valid() && ok == (|recipients| <= o.maxChain)
    ensures var served := if ok then recipients else recipients[..o.maxChain];
            && o.custody[..] == HandedTo(d, o.Fields(), SignedBytes(o.Fields()), served)
            && (served != [] && d.Ideal() && ControllerFor(o.nwid) != 0 && (forall a :: d.known(a))
                ==> verdict == 0 && holder == served[|served| - 1])
  {
    hide SignedBytes, HandedTo, CheckFrom, LastHolder, Filled, WellFormed;
    ghost var c, m := o.Fields(), SignedBytes(o.Fields());
    ok := true;
    var i := 0;
    assert recipients[..0] == [];
    assert HandedTo(d, c, m, []) == NoCustody() by {
      HandedToNobody(d, c, m);
    }
    while i < |recipients|
      invariant 0 <= i <= |recipients| && i <= o.maxChain && o.Valid() && o.Fields() == c
      invariant o.custody[..] == HandedTo(d, c, m, recipients[..i])
    {
      if i < o.maxChain {
        HandedNext(d, c, m, recipients, i);
      } else {
        HandedAll(d, c, m, recipients);
      }
      ok := o.Sign(d, if i == 0 then ControllerFor(o.nwid) else recipients[i - 1], true, recipients[i]);
      if !ok {
        break;
      }
      i := i + 1;
    }
    ghost var served := recipients[..i];
    assert i == |recipients| ==> served == recipients;
    verdict := o.Verify(d);
    holder := o.IssuedTo();
    if served != [] && d.Ideal() && ControllerFor(o.nwid) != 0 && forall a :: d.known(a) {
      HandedVerifies(d, c, m, served);
    }
  }

  lemma HandedToNobody(d: Directory, c: Capability, m: seq<byte>)
    ensures HandedTo(d, c, m, []) == NoCustody()
  {
  }
}
