/** What a source protects, an acceptor with the same demands and keys accepts and restores. */
module BpsecRoundTrip {
  import opened Options
  import opened BpsecBundle
  import opened BpsecPolicy
  import opened BpsecPolicySpec
  import opened BpsecEnforcement
  import opened BpsecStages
  import Accounting = BpsecAccounting

  // ---------------------------------------------------------------- demands

  predicate AllValid(rules: seq<Rule>) {
    forall r :: r in rules ==> ValidRule(r)
  }

  lemma DemandedTargets(rules: seq<Rule>, op: Operation, t: nat)
    requires AllValid(rules) && FirstDemanding(rules, op, t).Some?
    ensures t == PAYLOAD_NUMBER || (t == PRIMARY_NUMBER && op == Bib)
    ensures FirstDemanding(rules, op, t).value in rules && FirstDemanding(rules, op, t).value.operation == op
  {
    Accounting.FirstDemandingMember(rules, op, t);
    var r := FirstDemanding(rules, op, t).value;
    var i :| 0 <= i < |TargetNumbers(r)| && TargetNumbers(r)[i] == t;
    assert r.targets[i] in r.targets;
  }

  function OptAct(r: Option<Rule>, k: Kind): seq<Action> {
    if r.Some? then [Action(r.value, k)] else []
  }

  // ---------------------------------------------------------------- the source

  function SignPrimaryOf(rules: seq<Rule>): seq<Action> {
    OptAct(FirstDemanding(rules, Bib, PRIMARY_NUMBER), SignTarget(PRIMARY_NUMBER))
  }

  function SignPayloadOf(rules: seq<Rule>): seq<Action> {
    OptAct(FirstDemanding(rules, Bib, PAYLOAD_NUMBER), SignTarget(PAYLOAD_NUMBER))
  }

  function EncryptPayloadOf(rules: seq<Rule>): seq<Action> {
    OptAct(FirstDemanding(rules, Bcb, PAYLOAD_NUMBER), EncryptTarget(PAYLOAD_NUMBER))
  }

  /** All a source does, whatever the order of its rules. */
  function SourceListOf(rules: seq<Rule>, signed: set<nat>, encrypted: set<nat>): seq<Action> {
    (if PRIMARY_NUMBER in signed + encrypted then [] else SignPrimaryOf(rules))
    + (if PAYLOAD_NUMBER in signed + encrypted then [] else SignPayloadOf(rules))
    + (if PAYLOAD_NUMBER in encrypted then [] else EncryptPayloadOf(rules))
  }

  lemma SourceListMember(rules: seq<Rule>, existing: seq<SecurityBlock>, a: Action)
    requires AllValid(rules)
    ensures a in SourceListOf(rules, TargetsOf(existing, Bib), TargetsOf(existing, Bcb))
      <==> SourceDuty(rules, existing, a)
  {
    hide TargetsOf, AllValid, FirstDemanding;
    if a.kind.SignTarget? && FirstDemanding(rules, Bib, a.kind.target).Some? {
      DemandedTargets(rules, Bib, a.kind.target);
    }
    if a.kind.EncryptTarget? && FirstDemanding(rules, Bcb, a.kind.target).Some? {
      DemandedTargets(rules, Bcb, a.kind.target);
    }
  }

  lemma SourceListRanks(rules: seq<Rule>, signed: set<nat>, encrypted: set<nat>)
    ensures Strictly(SourceListOf(rules, signed, encrypted), SourceRank())
  {
    hide FirstDemanding;
  }

  lemma SourceList(rules: seq<Rule>, existing: seq<SecurityBlock>)
    requires AllValid(rules)
    ensures SourceActions(rules, existing) == SourceListOf(rules, TargetsOf(existing, Bib), TargetsOf(existing, Bcb))
  {
    hide *;
    var expected := SourceListOf(rules, TargetsOf(existing, Bib), TargetsOf(existing, Bcb));
    SourceMeaning(rules, existing);
    SourceListRanks(rules, TargetsOf(existing, Bib), TargetsOf(existing, Bcb));
    forall a: Action ensures a in expected <==> SourceDuty(rules, existing, a) {
      SourceListMember(rules, existing, a);
    }
    Pinned(SourceActions(rules, existing), expected, SourceRank(), SubjectOf());
  }

  lemma SourceListUnprotected(rules: seq<Rule>)
    requires AllValid(rules)
    ensures SourceActions(rules, []) == SignPrimaryOf(rules) + SignPayloadOf(rules) + EncryptPayloadOf(rules)
    ensures !HasDecryption(SourceActions(rules, []))
  {
    hide FirstDemanding, AllValid, SourceActions;
    SourceList(rules, []);
    NoTargets();
  }

  predicate Plain(b: Bundle) {
    Insecure(b.canonicals) && Has(b.canonicals, PAYLOAD_NUMBER)
  }

  function KeyFor(keys: KeySet, r: Rule): Key {
    if r.key in keys then keys[r.key] else []
  }

  function SignatureFor(rules: seq<Rule>, keys: KeySet, t: nat): Option<Signature> {
    match FirstDemanding(rules, Bib, t)
    case None => None
    case Some(r) => Some(Signature(KeyFor(keys, r), r.sha))
  }

  function PlanFor(b: Bundle, rules: seq<Rule>, keys: KeySet): Plan
    requires Plain(b)
  {
    var i := IndexOf(b.canonicals, PAYLOAD_NUMBER);
    Plan(b.primary, b.canonicals[..i], b.canonicals[i], b.canonicals[i + 1..],
         SignatureFor(rules, keys, PRIMARY_NUMBER), SignatureFor(rules, keys, PAYLOAD_NUMBER),
         match FirstDemanding(rules, Bcb, PAYLOAD_NUMBER)
         case None => None
         case Some(r) => Some(Sealing(KeyFor(keys, r), r.aes, r.wrapped)))
  }

  /** The keys of the rules that will be used are loaded and fit. */
  predicate KeysReady(rules: seq<Rule>, keys: KeySet, op: Operation, t: nat) {
    var r := FirstDemanding(rules, op, t);
    r.Some? ==> r.value.key in keys && (op == Bcb ==> KeyFits(keys[r.value.key], r.value.aes, r.value.wrapped))
  }

  function Start(p: Plan): Stage {
    Stage(false, false, false, false, p.primary.crc, p.payload.crc, CrcNo)
  }

  function Signed0(p: Plan): Stage {
    if p.signPrimary.Some? then Start(p).(has0 := true, primaryCrc := CrcNo) else Start(p)
  }

  function Signed1(p: Plan): Stage {
    if p.signPayload.Some? then Signed0(p).(has1 := true, payloadCrc := CrcNo, bibCrc := CrcNo) else Signed0(p)
  }

  function Hidden(p: Plan): Stage {
    if p.signPayload.Some? then Signed1(p).(hidden := true, bibCrc := CrcNo) else Signed1(p)
  }

  function Sent(p: Plan): Stage {
    if p.seal.Some? then Hidden(p).(sealed := true, payloadCrc := CrcNo) else Signed1(p)
  }

  lemma PlanStart(b: Bundle, rules: seq<Rule>, keys: KeySet)
    requires Plain(b) && KeysReady(rules, keys, Bcb, PAYLOAD_NUMBER)
    ensures var p := PlanFor(b, rules, keys);
      WellPlanned(p) && BundleAt(p, Start(p)) == b
  {
    var p := PlanFor(b, rules, keys);
    assert b.canonicals == p.before + [p.payload] + p.after;
    assert Extra(p, Start(p)) == [];
    assert PlainPart(p, Start(p)) + [] == PlainPart(p, Start(p));
  }

  lemma SignedPrimary(p: Plan, keys: KeySet, rules: seq<Rule>, b: Bundle)
    requires Plain(b) && p == PlanFor(b, rules, keys) && WellPlanned(p)
    requires KeysReady(rules, keys, Bib, PRIMARY_NUMBER)
    ensures Leads(SignPrimaryOf(rules), keys, BundleAt(p, Start(p)), BundleAt(p, Signed0(p)))
  {
    hide FirstDemanding, Sign, BundleAt, WellPlanned;
    var r := FirstDemanding(rules, Bib, PRIMARY_NUMBER);
    if r.Some? {
      SignPrimaryStep(p, Start(p));
      LeadsOne(Action(r.value, SignTarget(PRIMARY_NUMBER)), keys, BundleAt(p, Start(p)), BundleAt(p, Signed0(p)));
    }
  }

  lemma SignedPayload(p: Plan, keys: KeySet, rules: seq<Rule>, b: Bundle)
    requires Plain(b) && p == PlanFor(b, rules, keys) && WellPlanned(p)
    requires KeysReady(rules, keys, Bib, PAYLOAD_NUMBER)
    ensures Leads(SignPayloadOf(rules), keys, BundleAt(p, Signed0(p)), BundleAt(p, Signed1(p)))
  {
    hide FirstDemanding, Sign, BundleAt, WellPlanned;
    var r := FirstDemanding(rules, Bib, PAYLOAD_NUMBER);
    if r.Some? {
      SignPayloadStep(p, Signed0(p));
      LeadsOne(Action(r.value, SignTarget(PAYLOAD_NUMBER)), keys, BundleAt(p, Signed0(p)), BundleAt(p, Signed1(p)));
    }
  }

  lemma BibsOfPayload(p: Plan)
    requires WellPlanned(p)
    ensures BibsOf(BundleAt(p, Signed1(p)), PAYLOAD_NUMBER) == if p.signPayload.Some? then [N1(p)] else []
  {
    hide WellPlanned, SecurityBlocks, BundleAt;
    var s := Signed1(p);
    SeenAt(p, s);
    SeeOrdered(p, s);
  }

  /** The BIBs of the payload among what is seen before encrypting. */
  lemma SeeOrdered(p: Plan, s: Stage)
    requires !s.hidden && !s.sealed
    ensures BibsAmong(See(s, p), PAYLOAD_NUMBER) == if s.has1 then [N1(p)] else []
  {
    var x, y := See0(s, p), See1(s, p);
    assert See(s, p) == x + y;
    assert BibsAmong(y, PAYLOAD_NUMBER) == if s.has1 then [N1(p)] else [] by {
      if s.has1 {
        assert y[1..] == [];
      }
    }
    if s.has0 {
      assert (x + y)[1..] == y && (x + y)[0] == x[0];
    } else {
      assert x + y == y;
    }
  }

  lemma SealedPayload(p: Plan, keys: KeySet, rules: seq<Rule>, b: Bundle)
    requires Plain(b) && p == PlanFor(b, rules, keys) && WellPlanned(p)
    requires KeysReady(rules, keys, Bcb, PAYLOAD_NUMBER)
    ensures Leads(EncryptPayloadOf(rules), keys, BundleAt(p, Signed1(p)), BundleAt(p, Sent(p)))
  {
    hide FirstDemanding, EncryptBlock, BundleAt, WellPlanned, BibsOf;
    var r := FirstDemanding(rules, Bcb, PAYLOAD_NUMBER);
    if r.Some? {
      var b1, b2, b3, key := BundleAt(p, Signed1(p)), BundleAt(p, Hidden(p)), BundleAt(p, Sent(p)), keys[r.value.key];
      BibsOfPayload(p);
      SealStep(p, Hidden(p));
      assert [PAYLOAD_NUMBER][1..] == [];
      assert EncryptBlocks(b3, [], r.value, key) == Some(b3);
      assert EncryptBlocks(b2, [PAYLOAD_NUMBER], r.value, key) == Some(b3);
      if p.signPayload.Some? {
        HideBibStep(p, Signed1(p));
        assert [N1(p)] + [PAYLOAD_NUMBER] == [N1(p), PAYLOAD_NUMBER];
        assert [N1(p), PAYLOAD_NUMBER][1..] == [PAYLOAD_NUMBER];
        assert EncryptBlocks(b1, [N1(p), PAYLOAD_NUMBER], r.value, key) == Some(b3);
      } else {
        assert [] + [PAYLOAD_NUMBER] == [PAYLOAD_NUMBER];
      }
      LeadsOne(Action(r.value, EncryptTarget(PAYLOAD_NUMBER)), keys, b1, b3);
    }
  }

  lemma NoTargets()
    ensures TargetsOf([], Bib) == {} && TargetsOf([], Bcb) == {}
  {}

  lemma UnprotectedBundle(b: Bundle)
    requires Plain(b)
    ensures SecurityBlocks(b) == []
  {
    assert b.canonicals + [] == b.canonicals;
    SecurityBlocksOf(b, b.canonicals, []);
  }

  lemma MatchingValid(glob: Glob, rules: seq<Rule>, step: Step, b: Bundle)
    requires ValidRules(rules)
    ensures AllValid(MatchingRules(glob, rules, step, b))
  {
    Accounting.MatchingMembers(glob, rules, step, b);
  }

  /** The source's enforcement on a bundle without security blocks. */
  lemma SourceEnforced(glob: Glob, rules: seq<Rule>, keys: KeySet, b: Bundle)
    requires ValidRules(rules) && Plain(b)
    requires var matching := MatchingRules(glob, rules, Transmit, b);
      && KeysReady(matching, keys, Bib, PRIMARY_NUMBER) && KeysReady(matching, keys, Bib, PAYLOAD_NUMBER)
      && KeysReady(matching, keys, Bcb, PAYLOAD_NUMBER)
    ensures var p := PlanFor(b, MatchingRules(glob, rules, Transmit, b), keys);
      var run := Enforced(glob, rules, keys, Transmit, b);
      WellPlanned(p) && run.verdict == Process && run.bundle == BundleAt(p, Sent(p))
  {
    var matching := MatchingRules(glob, rules, Transmit, b);
    var p := PlanFor(b, matching, keys);
    StagesFine(p);
    hide *;
    var x, y, z := SignPrimaryOf(matching), SignPayloadOf(matching), EncryptPayloadOf(matching);
    TransmitIsOneRun(glob, rules, keys, b);
    PlanStart(b, matching, keys);
    SignedPrimary(p, keys, matching, b);
    SignedPayload(p, keys, matching, b);
    SealedPayload(p, keys, matching, b);
    LeadsAppend(x, y, keys, BundleAt(p, Start(p)), BundleAt(p, Signed0(p)), BundleAt(p, Signed1(p)));
    LeadsAppend(x + y, z, keys, BundleAt(p, Start(p)), BundleAt(p, Signed1(p)), BundleAt(p, Sent(p)));
    LeadsMeans(x + y + z, keys, b, BundleAt(p, Sent(p)));
  }

  lemma StagesFine(p: Plan)
    ensures StageOf(p, Start(p)) && StageOf(p, Signed0(p)) && StageOf(p, Signed1(p)) && StageOf(p, Sent(p))
  {}

  /** Without security blocks, a source's enforcement is one run of its at most three actions. */
  lemma TransmitIsOneRun(glob: Glob, rules: seq<Rule>, keys: KeySet, b: Bundle)
    requires ValidRules(rules) && Plain(b)
    ensures var m := MatchingRules(glob, rules, Transmit, b);
      Enforced(glob, rules, keys, Transmit, b)
      == RunAll(SignPrimaryOf(m) + SignPayloadOf(m) + EncryptPayloadOf(m), keys, b)
  {
    hide MatchingRules, Plain, SourceActions, SecurityBlocks, RunAll, HasDecryption, ValidRules, AllValid;
    hide SignPrimaryOf, SignPayloadOf, EncryptPayloadOf;
    UnprotectedBundle(b);
    MatchingValid(glob, rules, Transmit, b);
    SourceListUnprotected(MatchingRules(glob, rules, Transmit, b));
  }

  lemma LeadsMeans(x: seq<Action>, keys: KeySet, b: Bundle, b1: Bundle)
    requires Leads(x, keys, b, b1)
    ensures RunAll(x, keys, b).verdict == Process && RunAll(x, keys, b).bundle == b1
  {}

  // ---------------------------------------------------------------- the acceptor

  lemma CoversByMembers(r: Rule, xs: seq<SecurityBlock>, n: nat)
    ensures CoversNumber(r, xs, n) <==> exists x :: x in xs && x.number == n && Covers(r, x)
  {
    if x :| x in xs && x.number == n && Covers(r, x) {
      var i :| 0 <= i < |xs| && xs[i] == x;
    }
  }

  lemma CoversSingle(r: Rule, n: nat, op: Operation, t: nat)
    ensures Covers(r, SecurityBlock(n, op, [t], false)) <==> r.operation == op && t in TargetNumbers(r)
  {
    assert t in [t];
  }

  /** The target by which a rule finds a visible security block. */
  predicate SeenFor(p: Plan, s: Stage, n: nat, op: Operation, t: nat) {
    || (s.has0 && n == N0(p) && op == Bib && t == PRIMARY_NUMBER)
    || (s.has1 && !s.hidden && n == N1(p) && op == Bib && t == PAYLOAD_NUMBER)
    || (s.hidden && n == M1(p) && op == Bcb && t == PAYLOAD_NUMBER)
    || (s.sealed && n == M2(p) && op == Bcb && t == PAYLOAD_NUMBER)
  }

  lemma SeenUnique(p: Plan, s: Stage, n: nat, op: Operation, t: nat, op1: Operation, t1: nat)
    requires StageOf(p, s) && SeenFor(p, s, n, op, t) && SeenFor(p, s, n, op1, t1)
    ensures op == op1 && t == t1
  {}

  lemma BcbRuleTargets(r: Rule)
    requires ValidRule(r) && r.operation == Bcb
    ensures PAYLOAD_NUMBER in TargetNumbers(r)
  {
    assert r.targets[0] in r.targets;
    assert r.targets[0] == PayloadTarget;
    assert TargetNumbers(r)[0] == PAYLOAD_NUMBER;
  }

  lemma CoversSeen(p: Plan, s: Stage, r: Rule, n: nat, op: Operation, t: nat)
    requires StageOf(p, s) && ValidRule(r) && SeenFor(p, s, n, op, t)
    ensures CoversNumber(r, See(s, p), n) <==> r.operation == op && t in TargetNumbers(r)
  {
    hide See, ValidRule, TargetNumbers;
    SeeMembers(p, s);
    CoversByMembers(r, See(s, p), n);
    CoversSingle(r, n, op, t);
    if r.operation == Bcb {
      BcbRuleTargets(r);
    }
    if op == Bcb && s.hidden && n == M1(p) {
      var x := SecurityBlock(n, Bcb, [N1(p)], true);
      assert x in See(s, p);
      assert Covers(r, x) <==> r.operation == Bcb;
    } else {
      assert SecurityBlock(n, op, [t], false) in See(s, p);
    }
  }

  lemma {:induction false} FirstSeen(p: Plan, s: Stage, rules: seq<Rule>, n: nat, op: Operation, t: nat)
    requires StageOf(p, s) && AllValid(rules) && SeenFor(p, s, n, op, t)
    ensures FirstCovering(rules, See(s, p), n) == FirstDemanding(rules, op, t)
  {
    hide See, CoversNumber, ValidRule, SeenFor;
    if rules != [] {
      CoversSeen(p, s, rules[0], n, op, t);
      FirstSeen(p, s, rules[1..], n, op, t);
    }
  }

  lemma {:induction false} NothingSeen(rules: seq<Rule>, existing: seq<SecurityBlock>, n: nat)
    requires forall x :: x in existing ==> x.number != n
    ensures FirstCovering(rules, existing, n) == None
  {
    if rules != [] {
      assert forall i :: 0 <= i < |existing| ==> existing[i] in existing;
      NothingSeen(rules[1..], existing, n);
    }
  }

  predicate AllAccept(rules: seq<Rule>) {
    forall r :: r in rules ==> r.role == Acceptor
  }

  /** Accepting the BIBs, that of the primary block last. */
  function AcceptPayloadOf(p: Plan, s: Stage, rules: seq<Rule>): seq<Action> {
    if s.has1 && !s.hidden then OptAct(FirstDemanding(rules, Bib, PAYLOAD_NUMBER), AcceptBib(N1(p))) else []
  }

  function AcceptPrimaryOf(p: Plan, s: Stage, rules: seq<Rule>): seq<Action> {
    if s.has0 then OptAct(FirstDemanding(rules, Bib, PRIMARY_NUMBER), AcceptBib(N0(p))) else []
  }

  function Accepts(p: Plan, s: Stage, rules: seq<Rule>): seq<Action> {
    AcceptPayloadOf(p, s, rules) + AcceptPrimaryOf(p, s, rules)
  }

  function Reveals(p: Plan, s: Stage, rules: seq<Rule>): seq<Action> {
    if s.hidden then OptAct(FirstDemanding(rules, Bcb, PAYLOAD_NUMBER), DecryptBcb(M1(p))) else []
  }

  function Unseals(p: Plan, s: Stage, rules: seq<Rule>): seq<Action> {
    if s.sealed then OptAct(FirstDemanding(rules, Bcb, PAYLOAD_NUMBER), DecryptBcb(M2(p))) else []
  }

  /** A block is seen for a target, and a rule demands it. */
  lemma SeenDuty(p: Plan, s: Stage, rules: seq<Rule>, a: Action, n: nat)
    requires StageOf(p, s) && AllValid(rules) && AllAccept(rules)
    requires !a.kind.Missing? && SubjectOf()(a) == OfBlock(n)
    ensures ReceiverDuty(rules, See(s, p), a) <==>
      exists op, t :: SeenFor(p, s, n, op, t) && FirstDemanding(rules, op, t) == Some(a.rule)
                      && a.kind == (if op == Bcb then DecryptBcb(n) else AcceptBib(n))
  {
    hide See, FirstDemanding, FirstCovering, AllValid;
    SeeMembers(p, s);
    forall x | x in See(s, p)
      ensures exists t :: SeenFor(p, s, x.number, x.operation, t)
    {
      assert SeenFor(p, s, x.number, x.operation, if x.encryptsBibs then PAYLOAD_NUMBER else x.targets[0]);
    }
    if op, t :| SeenFor(p, s, n, op, t) {
      FirstSeen(p, s, rules, n, op, t);
      if FirstDemanding(rules, op, t).Some? {
        DemandedTargets(rules, op, t);
      }
      forall op1, t1 | SeenFor(p, s, n, op1, t1) ensures op1 == op && t1 == t {
        SeenUnique(p, s, n, op, t, op1, t1);
      }
    } else {
      NothingSeen(rules, See(s, p), n);
    }
  }

  /** The acceptor's duties at a stage, but for missing operations. */
  lemma AcceptorDuties(p: Plan, s: Stage, rules: seq<Rule>, a: Action)
    requires StageOf(p, s) && AllValid(rules) && AllAccept(rules) && !a.kind.Missing?
    ensures ReceiverDuty(rules, See(s, p), a) <==>
      a in Accepts(p, s, rules) || a in Reveals(p, s, rules) || a in Unseals(p, s, rules)
  {
    hide See, FirstDemanding, AllValid, N0, N1, M1, M2;
    var subject := SubjectOf()(a);
    if subject.OfBlock? {
      var n := subject.number;
      SeenDuty(p, s, rules, a, n);
      assert a in AcceptPrimaryOf(p, s, rules) ==> SeenFor(p, s, n, Bib, PRIMARY_NUMBER);
      assert a in AcceptPayloadOf(p, s, rules) ==> SeenFor(p, s, n, Bib, PAYLOAD_NUMBER);
      assert a in Reveals(p, s, rules) ==> SeenFor(p, s, n, Bcb, PAYLOAD_NUMBER);
      assert a in Unseals(p, s, rules) ==> SeenFor(p, s, n, Bcb, PAYLOAD_NUMBER);
    }
  }

  /** The acceptor demands what the plan protects. */
  predicate Expects(p: Plan, rules: seq<Rule>) {
    && (FirstDemanding(rules, Bib, PRIMARY_NUMBER).Some? <==> p.signPrimary.Some?)
    && (FirstDemanding(rules, Bib, PAYLOAD_NUMBER).Some? <==> p.signPayload.Some?)
    && (FirstDemanding(rules, Bcb, PAYLOAD_NUMBER).Some? <==> p.seal.Some?)
  }

  /** Nothing is missing that a BIB or, before decrypting, a BCB should provide. */
  lemma NothingMissing(p: Plan, s: Stage, rules: seq<Rule>, a: Action)
    requires StageOf(p, s) && AllValid(rules) && Expects(p, rules) && a.kind.Missing?
    requires p.signPrimary.Some? ==> s.has0
    requires p.signPayload.Some? ==> s.has1 && (s.hidden ==> s.sealed)
    requires ReceiverDuty(rules, See(s, p), a)
    ensures a.rule.operation == Bcb && p.seal.Some? && !s.sealed
  {
    hide See, FirstDemanding, AllValid, TargetsOf;
    SeeTargets(p, s);
    DemandedTargets(rules, a.rule.operation, a.kind.target);
  }

  lemma PrimaryBib(p: Plan, s: Stage, r: Rule, n: nat)
    requires StageOf(p, s) && ((s.has0 && n == N0(p)) || (s.has1 && n == N1(p)))
    ensures AcceptsPrimary(See(s, p))(Action(r, AcceptBib(n))) <==> s.has0 && n == N0(p)
  {
    hide See;
    SeeMembers(p, s);
    var existing := See(s, p);
    assert forall i :: 0 <= i < |existing| ==> existing[i] in existing;
    if s.has0 && n == N0(p) {
      var x := SecurityBlock(n, Bib, [PRIMARY_NUMBER], false);
      assert x in existing;
      var i :| 0 <= i < |existing| && existing[i] == x;
      assert PRIMARY_NUMBER in existing[i].targets;
    }
  }

  lemma AcceptRanks(p: Plan, s: Stage, rules: seq<Rule>)
    requires StageOf(p, s)
    ensures Strictly(Accepts(p, s, rules), ReceiverRank(See(s, p)))
  {
    hide See, FirstDemanding, AcceptsPrimary;
    var x, y := FirstDemanding(rules, Bib, PAYLOAD_NUMBER), FirstDemanding(rules, Bib, PRIMARY_NUMBER);
    if s.has1 && !s.hidden && s.has0 && x.Some? && y.Some? {
      PrimaryBib(p, s, x.value, N1(p));
      PrimaryBib(p, s, y.value, N0(p));
      assert Accepts(p, s, rules) == [Action(x.value, AcceptBib(N1(p))), Action(y.value, AcceptBib(N0(p)))];
    } else {
      assert |Accepts(p, s, rules)| <= 1;
    }
  }

  /** The BIB actions at a stage where the payload's BIB is visible, in the order they are carried out. */
  lemma AcceptorList(p: Plan, s: Stage, rules: seq<Rule>, actions: seq<Action>)
    requires StageOf(p, s) && AllValid(rules) && AllAccept(rules) && Expects(p, rules)
    requires s.has0 == p.signPrimary.Some? && s.has1 == p.signPayload.Some? && !s.hidden && !s.sealed
    requires actions == Filter(ReceiverActions(rules, See(s, p)), OfOperation(Bib))
             || (p.seal.None? && actions == ReceiverActions(rules, See(s, p)))
    ensures actions == Accepts(p, s, rules)
  {
    var all, rank := ReceiverActions(rules, See(s, p)), ReceiverRank(See(s, p));
    hide ReceiverActions, See, FirstDemanding, ReceiverDuty, AllValid, Filter, Ascending, DistinctKeys, Strictly;
    hide ReceiverRank, SubjectOf;
    ReceiverMeaning(rules, See(s, p));
    FilterMembers(all, OfOperation(Bib));
    FilterAscending(all, OfOperation(Bib), rank);
    FilterDistinct(all, OfOperation(Bib), SubjectOf());
    AcceptRanks(p, s, rules);
    forall a: Action ensures a in actions <==> a in Accepts(p, s, rules) {
      AcceptsOperation(p, s, rules, a);
      if a.kind.Missing? {
        if ReceiverDuty(rules, See(s, p), a) {
          NothingMissing(p, s, rules, a);
        }
      } else {
        AcceptorDuties(p, s, rules, a);
      }
    }
    Pinned(actions, Accepts(p, s, rules), rank, SubjectOf());
  }

  lemma AcceptsOperation(p: Plan, s: Stage, rules: seq<Rule>, a: Action)
    requires AllValid(rules)
    ensures a in Accepts(p, s, rules) ==> a.rule.operation == Bib && !a.kind.Missing?
  {
    if FirstDemanding(rules, Bib, PRIMARY_NUMBER).Some? {
      DemandedTargets(rules, Bib, PRIMARY_NUMBER);
    }
    if FirstDemanding(rules, Bib, PAYLOAD_NUMBER).Some? {
      DemandedTargets(rules, Bib, PAYLOAD_NUMBER);
    }
  }

  lemma DecryptsOperation(p: Plan, s: Stage, rules: seq<Rule>, a: Action)
    requires AllValid(rules)
    ensures a in Reveals(p, s, rules) || a in Unseals(p, s, rules) ==> a.rule.operation == Bcb && !a.kind.Missing?
  {
    if FirstDemanding(rules, Bcb, PAYLOAD_NUMBER).Some? {
      DemandedTargets(rules, Bcb, PAYLOAD_NUMBER);
    }
  }

  /** The decryptions of a sealed bundle. */
  lemma DecryptorMembers(p: Plan, s: Stage, rules: seq<Rule>)
    requires StageOf(p, s) && AllValid(rules) && AllAccept(rules) && Expects(p, rules)
    requires s.has0 == p.signPrimary.Some? && s.has1 == s.hidden == p.signPayload.Some? && s.sealed
    ensures var actions := Filter(ReceiverActions(rules, See(s, p)), OfOperation(Bcb));
      && DistinctKeys(actions, SubjectOf())
      && (forall a: Action :: a in actions <==> a in Reveals(p, s, rules) || a in Unseals(p, s, rules))
  {
    var all := ReceiverActions(rules, See(s, p));
    hide ReceiverActions, See, FirstDemanding, ReceiverDuty, AllValid, Filter, Ascending, DistinctKeys, SubjectOf;
    ReceiverMeaning(rules, See(s, p));
    FilterMembers(all, OfOperation(Bcb));
    FilterDistinct(all, OfOperation(Bcb), SubjectOf());
    forall a: Action ensures a in Filter(all, OfOperation(Bcb)) <==> a in Reveals(p, s, rules) || a in Unseals(p, s, rules) {
      AcceptsOperation(p, s, rules, a);
      DecryptsOperation(p, s, rules, a);
      if a.kind.Missing? {
        if ReceiverDuty(rules, See(s, p), a) {
          NothingMissing(p, s, rules, a);
          assert false;
        }
      } else {
        AcceptorDuties(p, s, rules, a);
      }
    }
  }

  // ---------------------------------------------------------------- both ends

  /** Source and acceptor demand the operation for the target alike, and share the key. */
  predicate Shared(sending: seq<Rule>, sendKeys: KeySet, rules: seq<Rule>, keys: KeySet, op: Operation, t: nat) {
    match (FirstDemanding(sending, op, t), FirstDemanding(rules, op, t))
    case (None, None) => true
    case (Some(x), Some(y)) =>
      && x.key in sendKeys && y.key in keys && sendKeys[x.key] == keys[y.key]
      && (op == Bcb ==> KeyFits(sendKeys[x.key], x.aes, x.wrapped))
    case _ => false
  }

  predicate Agree(sending: seq<Rule>, sendKeys: KeySet, rules: seq<Rule>, keys: KeySet) {
    && Shared(sending, sendKeys, rules, keys, Bib, PRIMARY_NUMBER)
    && Shared(sending, sendKeys, rules, keys, Bib, PAYLOAD_NUMBER)
    && Shared(sending, sendKeys, rules, keys, Bcb, PAYLOAD_NUMBER)
  }

  /** The keys of the acceptor are those of the plan. */
  predicate Opens(p: Plan, rules: seq<Rule>, keys: KeySet) {
    && Expects(p, rules)
    && (p.signPrimary.Some? ==> var r := FirstDemanding(rules, Bib, PRIMARY_NUMBER).value;
          r.key in keys && keys[r.key] == p.signPrimary.value.key)
    && (p.signPayload.Some? ==> var r := FirstDemanding(rules, Bib, PAYLOAD_NUMBER).value;
          r.key in keys && keys[r.key] == p.signPayload.value.key)
    && (p.seal.Some? ==> var r := FirstDemanding(rules, Bcb, PAYLOAD_NUMBER).value;
          r.key in keys && keys[r.key] == p.seal.value.key)
  }

  function Accepted1(s: Stage): Stage {
    if s.has1 then s.(has1 := false, payloadCrc := Crc32) else s
  }

  function Accepted0(s: Stage): Stage {
    if s.has0 then s.(has0 := false, primaryCrc := Crc32) else s
  }

  /** Accepting the payload's BIB and then that of the primary block succeeds. */
  lemma AcceptsLead(p: Plan, s: Stage, rules: seq<Rule>, keys: KeySet)
    requires WellPlanned(p) && StageOf(p, s) && Opens(p, rules, keys)
    requires !s.hidden && !s.sealed && s.primaryCrc == View(p).crc
    ensures Leads(Accepts(p, s, rules), keys, BundleAt(p, s), BundleAt(p, Accepted0(Accepted1(s))))
  {
    hide FirstDemanding, BundleAt, WellPlanned, Accept, Leads;
    var s1, s2 := Accepted1(s), Accepted0(Accepted1(s));
    var x, y := AcceptPayloadOf(p, s, rules), AcceptPrimaryOf(p, s, rules);
    LeadsNone(keys, BundleAt(p, s));
    LeadsNone(keys, BundleAt(p, s1));
    if s.has1 {
      AcceptPayloadStep(p, s);
      LeadsOne(x[0], keys, BundleAt(p, s), BundleAt(p, s1));
    }
    if s.has0 {
      AcceptPrimaryStep(p, s1);
      LeadsOne(y[0], keys, BundleAt(p, s1), BundleAt(p, s2));
    }
    LeadsAppend(x, y, keys, BundleAt(p, s), BundleAt(p, s1), BundleAt(p, s2));
  }

  lemma LeadsNone(keys: KeySet, b: Bundle)
    ensures Leads([], keys, b, b)
  {}

  function Opened(s: Stage): Stage {
    if s.hidden then s.(hidden := false, bibCrc := Crc32, sealed := false, payloadCrc := Crc32)
    else s.(sealed := false, payloadCrc := Crc32)
  }

  lemma {:induction false} Cardinality(xs: seq<Action>)
    requires forall i, j :: 0 <= i < j < |xs| ==> xs[i] != xs[j]
    ensures |set x | x in xs| == |xs|
  {
    if xs != [] {
      Cardinality(xs[1..]);
      HeadOrTail(xs);
      assert xs[0] !in xs[1..];
      assert (set x | x in xs) == {xs[0]} + (set x | x in xs[1..]);
    }
  }

  lemma OneOrTwo(xs: seq<Action>, a: Action, b: Action)
    requires DistinctKeys(xs, SubjectOf())
    requires forall x :: x in xs <==> x == a || x == b
    ensures a == b ==> xs == [a]
    ensures a != b ==> xs == [a, b] || xs == [b, a]
  {
    hide SubjectOf;
    assert forall i :: 0 <= i < |xs| ==> xs[i] in xs;
    assert a in xs && b in xs;
    assert forall i, j :: 0 <= i < j < |xs| ==> xs[i] != xs[j] by {
      assert forall i, j :: 0 <= i < j < |xs| ==> SubjectOf()(xs[i]) != SubjectOf()(xs[j]);
    }
    Cardinality(xs);
    assert (set x | x in xs) == {a, b};
    assert |xs| <= 2;
    if |xs| == 2 {
      assert xs == [xs[0], xs[1]];
    } else {
      assert xs == [xs[0]];
    }
  }

  predicate OpensWith(p: Plan, r: Rule, keys: KeySet) {
    p.seal.Some? && r.key in keys && keys[r.key] == p.seal.value.key
  }

  lemma RevealLeads(p: Plan, s: Stage, r: Rule, keys: KeySet)
    requires WellPlanned(p) && StageOf(p, s) && OpensWith(p, r, keys) && s.primaryCrc == View(p).crc && s.hidden
    ensures Leads([Action(r, DecryptBcb(M1(p)))], keys, BundleAt(p, s), BundleAt(p, s.(hidden := false, bibCrc := Crc32)))
  {
    RevealBibStep(p, s);
    hide Decrypt, BundleAt, M1, WellPlanned, View;
    LeadsOne(Action(r, DecryptBcb(M1(p))), keys, BundleAt(p, s), BundleAt(p, s.(hidden := false, bibCrc := Crc32)));
  }

  lemma UnsealLeads(p: Plan, s: Stage, r: Rule, keys: KeySet)
    requires WellPlanned(p) && StageOf(p, s) && OpensWith(p, r, keys) && s.primaryCrc == View(p).crc && s.sealed
    ensures Leads([Action(r, DecryptBcb(M2(p)))], keys, BundleAt(p, s), BundleAt(p, s.(sealed := false, payloadCrc := Crc32)))
  {
    UnsealStep(p, s);
    hide Decrypt, BundleAt, M2, WellPlanned, View;
    LeadsOne(Action(r, DecryptBcb(M2(p))), keys, BundleAt(p, s), BundleAt(p, s.(sealed := false, payloadCrc := Crc32)));
  }

  /** The two BCBs of a signed payload, in either order. */
  lemma BothLead(p: Plan, s: Stage, r: Rule, keys: KeySet)
    requires WellPlanned(p) && StageOf(p, s) && OpensWith(p, r, keys) && s.primaryCrc == View(p).crc
    requires s.sealed && s.hidden
    ensures var d1, d2 := Action(r, DecryptBcb(M1(p))), Action(r, DecryptBcb(M2(p)));
      && Leads([d1, d2], keys, BundleAt(p, s), BundleAt(p, Opened(s)))
      && Leads([d2, d1], keys, BundleAt(p, s), BundleAt(p, Opened(s)))
  {
    var d1, d2 := Action(r, DecryptBcb(M1(p))), Action(r, DecryptBcb(M2(p)));
    var revealed, unsealed := s.(hidden := false, bibCrc := Crc32), s.(sealed := false, payloadCrc := Crc32);
    hide Leads, BundleAt, M1, M2, WellPlanned, View;
    RevealLeads(p, s, r, keys);
    UnsealLeads(p, revealed, r, keys);
    UnsealLeads(p, s, r, keys);
    RevealLeads(p, unsealed, r, keys);
    assert [d1] + [d2] == [d1, d2] && [d2] + [d1] == [d2, d1];
    LeadsAppend([d1], [d2], keys, BundleAt(p, s), BundleAt(p, revealed), BundleAt(p, Opened(s)));
    LeadsAppend([d2], [d1], keys, BundleAt(p, s), BundleAt(p, unsealed), BundleAt(p, Opened(s)));
  }

  /** Decrypting succeeds whatever the order of the BCBs. */
  lemma DecryptsLead(p: Plan, s: Stage, rules: seq<Rule>, keys: KeySet, actions: seq<Action>)
    requires WellPlanned(p) && StageOf(p, s) && Opens(p, rules, keys) && s.primaryCrc == View(p).crc && s.sealed
    requires DistinctKeys(actions, SubjectOf())
    requires forall a: Action :: a in actions <==> a in Reveals(p, s, rules) || a in Unseals(p, s, rules)
    ensures Leads(actions, keys, BundleAt(p, s), BundleAt(p, Opened(s)))
  {
    var r := FirstDemanding(rules, Bcb, PAYLOAD_NUMBER).value;
    var d1, d2 := Action(r, DecryptBcb(M1(p))), Action(r, DecryptBcb(M2(p)));
    assert OpensWith(p, r, keys);
    assert Reveals(p, s, rules) == if s.hidden then [d1] else [];
    assert Unseals(p, s, rules) == [d2];
    hide FirstDemanding, BundleAt, WellPlanned, Leads, DistinctKeys, SubjectOf, Reveals, Unseals, OpensWith, Opens;
    if s.hidden {
      OneOrTwo(actions, d1, d2);
      BothLead(p, s, r, keys);
    } else {
      OneOrTwo(actions, d2, d2);
      UnsealLeads(p, s, r, keys);
    }
  }

  lemma {:induction false} MatchingSame(glob: Glob, rules: seq<Rule>, step: Step, b: Bundle, b1: Bundle)
    requires b.primary.source == b1.primary.source && b.primary.destination == b1.primary.destination
    ensures MatchingRules(glob, rules, step, b) == MatchingRules(glob, rules, step, b1)
  {
    if rules != [] {
      MatchingSame(glob, rules[1..], step, b, b1);
    }
  }

  /** The bundle the acceptor ends with: as it was, with a CRC where security blocks were accepted. */
  function Restored(p: Plan): Bundle {
    Bundle(if p.signPrimary.Some? then p.primary.(crc := Crc32) else p.primary,
           p.before + [if p.signPayload.Some? || p.seal.Some? then p.payload.(crc := Crc32) else p.payload] + p.after)
  }

  lemma FinalStage(p: Plan, s: Stage)
    requires s == Sent(p) || (p.seal.Some? && s == Opened(Sent(p)))
    requires p.seal.Some? ==> s == Opened(Sent(p))
    ensures BundleAt(p, Accepted0(Accepted1(s))) == Restored(p)
  {
    var e := Accepted0(Accepted1(s));
    assert Extra(p, e) == [];
    assert PlainPart(p, e) + [] == PlainPart(p, e);
  }

  lemma SentFacts(p: Plan)
    ensures var s := Sent(p);
      && StageOf(p, s) && s.primaryCrc == View(p).crc
      && s.has0 == p.signPrimary.Some? && s.has1 == p.signPayload.Some? && s.sealed == p.seal.Some?
      && s.hidden == (p.signPayload.Some? && p.seal.Some?)
  {}

  lemma EvaluateAt(glob: Glob, rules: seq<Rule>, p: Plan, s: Stage)
    requires WellPlanned(p) && StageOf(p, s)
    ensures Evaluate(glob, rules, Receive, BundleAt(p, s))
      == ReceiverActions(MatchingRules(glob, rules, Receive, BundleAt(p, s)), See(s, p))
  {
    hide See, ReceiverActions, MatchingRules, BundleAt, SecurityBlocks;
    SeenAt(p, s);
  }

  lemma NoDecryption(p: Plan, s: Stage, rules: seq<Rule>)
    ensures !HasDecryption(Accepts(p, s, rules))
  {}

  /** The acceptor without anything to decrypt. */
  lemma UnsealedReceived(glob: Glob, rules: seq<Rule>, keys: KeySet, p: Plan)
    requires WellPlanned(p) && p.seal.None?
    requires var matching := MatchingRules(glob, rules, Receive, BundleAt(p, Sent(p)));
      AllValid(matching) && AllAccept(matching) && Opens(p, matching, keys)
    ensures var run := Enforced(glob, rules, keys, Receive, BundleAt(p, Sent(p)));
      run.verdict == Process && run.bundle == Restored(p)
  {
    var s, b := Sent(p), BundleAt(p, Sent(p));
    var matching := MatchingRules(glob, rules, Receive, b);
    SentFacts(p);
    assert Expects(p, matching);
    hide MatchingRules, BundleAt, ReceiverActions, See, RunAll, AllValid, AllAccept, WellPlanned, Restored, View, Sent;
    hide Opens, Accepts, HasDecryption, Evaluate, Expects, StageOf;
    EvaluateAt(glob, rules, p, s);
    var actions := ReceiverActions(matching, See(s, p));
    AcceptorList(p, s, matching, actions);
    AcceptsLead(p, s, matching, keys);
    FinalStage(p, s);
    NoDecryption(p, s, matching);
  }

  lemma OpensSeal(p: Plan, s: Stage, rules: seq<Rule>, keys: KeySet)
    requires Opens(p, rules, keys) && p.seal.Some? && s.sealed
    ensures Expects(p, rules)
    ensures Action(FirstDemanding(rules, Bcb, PAYLOAD_NUMBER).value, DecryptBcb(M2(p))) in Unseals(p, s, rules)
  {}

  lemma DecryptionAmong(all: seq<Action>, d: Action)
    requires d in Filter(all, OfOperation(Bcb)) && d.kind.DecryptBcb?
    ensures HasDecryption(all)
  {
    FilterMembers(all, OfOperation(Bcb));
    var i :| 0 <= i < |all| && all[i] == d;
  }

  lemma FirstPhase(glob: Glob, rules: seq<Rule>, keys: KeySet, p: Plan)
    requires WellPlanned(p) && p.seal.Some?
    requires var matching := MatchingRules(glob, rules, Receive, BundleAt(p, Sent(p)));
      AllValid(matching) && AllAccept(matching) && Opens(p, matching, keys)
    ensures var all := Evaluate(glob, rules, Receive, BundleAt(p, Sent(p)));
      && HasDecryption(all)
      && Leads(Filter(all, OfOperation(Bcb)), keys, BundleAt(p, Sent(p)), BundleAt(p, Opened(Sent(p))))
  {
    SentFacts(p);
    assert StageOf(p, Opened(Sent(p)));
    hide *;
    var s := Sent(p);
    var matching := MatchingRules(glob, rules, Receive, BundleAt(p, s));
    OpensSeal(p, s, matching, keys);
    EvaluateAt(glob, rules, p, s);
    var all := ReceiverActions(matching, See(s, p));
    DecryptorMembers(p, s, matching);
    DecryptsLead(p, s, matching, keys, Filter(all, OfOperation(Bcb)));
    DecryptionAmong(all, Action(FirstDemanding(matching, Bcb, PAYLOAD_NUMBER).value, DecryptBcb(M2(p))));
  }

  lemma SecondPhase(glob: Glob, rules: seq<Rule>, keys: KeySet, p: Plan)
    requires WellPlanned(p) && p.seal.Some? && StageOf(p, Opened(Sent(p)))
    requires var matching := MatchingRules(glob, rules, Receive, BundleAt(p, Opened(Sent(p))));
      AllValid(matching) && AllAccept(matching) && Opens(p, matching, keys)
    ensures var all := Evaluate(glob, rules, Receive, BundleAt(p, Opened(Sent(p))));
      Leads(Filter(all, OfOperation(Bib)), keys, BundleAt(p, Opened(Sent(p))), Restored(p))
  {
    SentFacts(p);
    var s := Opened(Sent(p));
    assert s.primaryCrc == Sent(p).primaryCrc && !s.hidden && !s.sealed && s.has0 == Sent(p).has0 && s.has1 == Sent(p).has1;
    var matching := MatchingRules(glob, rules, Receive, BundleAt(p, s));
    assert Expects(p, matching);
    hide *;
    EvaluateAt(glob, rules, p, s);
    AcceptorList(p, s, matching, Filter(ReceiverActions(matching, See(s, p)), OfOperation(Bib)));
    AcceptsLead(p, s, matching, keys);
    FinalStage(p, s);
  }

  /** The acceptor that decrypts first. */
  lemma SealedReceived(glob: Glob, rules: seq<Rule>, keys: KeySet, p: Plan)
    requires WellPlanned(p) && p.seal.Some?
    requires var matching := MatchingRules(glob, rules, Receive, BundleAt(p, Sent(p)));
      AllValid(matching) && AllAccept(matching) && Opens(p, matching, keys)
    ensures var run := Enforced(glob, rules, keys, Receive, BundleAt(p, Sent(p)));
      run.verdict == Process && run.bundle == Restored(p)
  {
    var b, b1 := BundleAt(p, Sent(p)), BundleAt(p, Opened(Sent(p)));
    MatchingSame(glob, rules, Receive, b, b1);
    hide MatchingRules, BundleAt, RunAll, AllValid, AllAccept, WellPlanned, Restored, Sent, Opens, Evaluate, Filter;
    hide HasDecryption, Opened;
    FirstPhase(glob, rules, keys, p);
    SecondPhase(glob, rules, keys, p);
  }

  lemma PlanOpens(b: Bundle, source: seq<Rule>, sendKeys: KeySet, matching: seq<Rule>, keys: KeySet)
    requires Plain(b) && Agree(source, sendKeys, matching, keys)
    ensures KeysReady(source, sendKeys, Bib, PRIMARY_NUMBER) && KeysReady(source, sendKeys, Bib, PAYLOAD_NUMBER)
    ensures KeysReady(source, sendKeys, Bcb, PAYLOAD_NUMBER)
    ensures var p := PlanFor(b, source, sendKeys);
      && Opens(p, matching, keys) && Insecure(Restored(p).canonicals)
      && StageOf(p, Sent(p))
      && BundleAt(p, Sent(p)).primary.source == b.primary.source
      && BundleAt(p, Sent(p)).primary.destination == b.primary.destination
  {
    hide FirstDemanding;
  }

  /** For every bundle without security blocks and every list of valid source rules: the source protects it, and an
      acceptor that demands the same targets with the same keys processes it, with all content restored and no
      security block left. */
  lemma SecurityRoundTrip(glob: Glob, sending: seq<Rule>, sendKeys: KeySet, rules: seq<Rule>, keys: KeySet, b: Bundle)
    requires Plain(b) && ValidRules(sending) && ValidRules(rules)
    requires Agree(MatchingRules(glob, sending, Transmit, b), sendKeys, MatchingRules(glob, rules, Receive, b), keys)
    requires AllAccept(MatchingRules(glob, rules, Receive, b))
    ensures var sent := Enforced(glob, sending, sendKeys, Transmit, b);
      var received := Enforced(glob, rules, keys, Receive, sent.bundle);
      && sent.verdict == Process && received.verdict == Process
      && received.bundle == Restored(PlanFor(b, MatchingRules(glob, sending, Transmit, b), sendKeys))
      && Insecure(received.bundle.canonicals)
  {
    var source, matching := MatchingRules(glob, sending, Transmit, b), MatchingRules(glob, rules, Receive, b);
    var p := PlanFor(b, source, sendKeys);
    PlanOpens(b, source, sendKeys, matching, keys);
    hide MatchingRules, PlanFor, Plain, ValidRules, AllAccept, AllValid, Enforced, BundleAt, Opens, FirstDemanding;
    hide WellPlanned, Restored, KeysReady, Agree, Sent, Insecure;
    SourceEnforced(glob, sending, sendKeys, b);
    MatchingSame(glob, rules, Receive, b, BundleAt(p, Sent(p)));
    MatchingValid(glob, rules, Receive, b);
    if p.seal.Some? {
      SealedReceived(glob, rules, keys, p);
    } else {
      UnsealedReceived(glob, rules, keys, p);
    }
  }

  /** Accepting the BIB of the primary block first would make the payload's BIB fail. */
  lemma PrimaryFirstFails(p: Plan, s: Stage)
    requires WellPlanned(p) && StageOf(p, s) && s.has0 && s.has1 && !s.hidden && !s.sealed && s.primaryCrc == CrcNo
    ensures var first := Accept(BundleAt(p, s), N0(p), p.signPrimary.value.key, Crc32);
      && first.Some? && first.value.0
      && Accept(first.value.1, N1(p), p.signPayload.value.key, Crc32) == Some((false, first.value.1))
  {
    var s1 := s.(has0 := false, primaryCrc := Crc32);
    AcceptPrimaryStep(p, s);
    BibStep(p, s1, false, CrcNo);
    assert BundleAt(p, s1).primary.crc != View(p).crc;
    hide Accept, Has, Get, Put, Drop, BundleAt;
    AcceptOne(BundleAt(p, s1), N1(p), PAYLOAD_NUMBER, Asb1(p).macs[0], p.signPayload.value.key, Crc32);
  }
}
