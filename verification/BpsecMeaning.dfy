/** What the policy engine decides about a bundle, stated over the configured rules and the blocks of the bundle. */
module BpsecMeaning {
  import opened Options
  import opened BpsecBundle
  import opened BpsecPolicy
  import opened BpsecPolicySpec
  import opened BpsecStages
  import opened BpsecVisible

  /** The rule's patterns accept the endpoints of the bundle, and its role acts at the step. */
  predicate Applies(glob: Glob, r: Rule, step: Step, b: Bundle) {
    glob(r.source, b.primary.source) && glob(r.destination, b.primary.destination)
    && (r.role == Source <==> step != Receive)
  }

  /** Block 0 is the primary block and block 1 the payload. */
  predicate Wants(r: Rule, op: Operation, t: nat) {
    r.operation == op && ((t == 0 && PrimaryTarget in r.targets) || (t == 1 && PayloadTarget in r.targets))
  }

  /** A block of the operation whose data decodes as an abstract security block. */
  predicate Decodable(x: Block, op: Operation) {
    x.content.Asb? && (if op == Bib then x.blockType == Integrity else x.blockType == Confidentiality)
  }

  /** A BCB targets the number. */
  ghost predicate Encrypted(b: Bundle, t: nat) {
    exists x :: x in b.canonicals && Decodable(x, Bcb) && t in x.content.targets
  }

  /** BIBs that a BCB targets cannot be read. */
  ghost predicate Readable(b: Bundle, x: Block, op: Operation) {
    x in b.canonicals && Decodable(x, op) && (op == Bib ==> !Encrypted(b, x.number))
  }

  /** A readable BIB targets the number. */
  ghost predicate Signed(b: Bundle, t: nat) {
    exists x :: Readable(b, x, Bib) && t in x.content.targets
  }

  /** A BCB that encrypts some BIB. */
  predicate EncryptsBib(b: Bundle, x: Block) {
    x.blockType == Confidentiality && x.content.Asb?
    && exists y :: y in b.canonicals && y.blockType == Integrity && y.number in x.content.targets
  }

  /** The rule is about a readable security block with the number. */
  ghost predicate Concerns(r: Rule, b: Bundle, n: nat) {
    exists x ::
      Readable(b, x, r.operation) && x.number == n
      && (EncryptsBib(b, x) || exists t :: t in x.content.targets && Wants(r, r.operation, t))
  }

  /** Accepting a BIB of the primary block comes last. */
  ghost predicate OfPrimary(b: Bundle, n: nat) {
    exists x, op :: Readable(b, x, op) && x.number == n && 0 in x.content.targets
  }

  function Wanting(glob: Glob, step: Step, b: Bundle, op: Operation, t: nat): Rule -> bool {
    (r: Rule) => Applies(glob, r, step, b) && Wants(r, op, t)
  }

  ghost function Concerning(glob: Glob, step: Step, b: Bundle, n: nat): Rule -> bool {
    (r: Rule) => Applies(glob, r, step, b) && Concerns(r, b, n)
  }

  predicate FirstRule(rules: seq<Rule>, p: Rule -> bool, i: nat) {
    i < |rules| && p(rules[i]) && forall j :: 0 <= j < i ==> !p(rules[j])
  }

  /** The action is open in the bundle and falls to the `i`-th rule. */
  ghost predicate DueTo(glob: Glob, rules: seq<Rule>, step: Step, b: Bundle, i: nat, a: Action) {
    i < |rules| && rules[i] == a.rule
    && match a.kind
       case SignTarget(t) =>
         step != Receive && FirstRule(rules, Wanting(glob, step, b, Bib, t), i) && !Signed(b, t) && !Encrypted(b, t)
       case EncryptTarget(t) =>
         step != Receive && FirstRule(rules, Wanting(glob, step, b, Bcb, t), i) && !Encrypted(b, t)
       case Missing(t) =>
         step == Receive && FirstRule(rules, Wanting(glob, step, b, a.rule.operation, t), i)
         && !Encrypted(b, t) && (a.rule.operation == Bib ==> !Signed(b, t))
       case DecryptBcb(n) =>
         step == Receive && FirstRule(rules, Concerning(glob, step, b, n), i) && a.rule.operation == Bcb
       case VerifyBib(n) =>
         step == Receive && FirstRule(rules, Concerning(glob, step, b, n), i) && a.rule.operation == Bib
         && a.rule.role == Verifier
       case AcceptBib(n) =>
         step == Receive && FirstRule(rules, Concerning(glob, step, b, n), i) && a.rule.operation == Bib
         && a.rule.role == Acceptor
  }

  /** Missing operations, decryptions, verifications, the primary block last; at a source the primary block first. */
  ghost function Phase(b: Bundle, a: Action): nat {
    match a.kind
    case Missing(_) => 0
    case DecryptBcb(_) => 1
    case VerifyBib(_) => 2
    case AcceptBib(n) => if OfPrimary(b, n) then 3 else 2
    case SignTarget(t) => if t == 0 then 0 else 1
    case EncryptTarget(_) => 2
  }

  // ---------------------------------------------------------------- what is seen of the blocks

  lemma {:induction false} BibNumbersMembers(blocks: seq<Block>, n: nat)
    ensures n in BibNumbers(blocks) <==> exists y :: y in blocks && y.blockType == Integrity && y.number == n
  {
    if blocks != [] {
      BibNumbersMembers(blocks[1..], n);
      assert blocks == [blocks[0]] + blocks[1..];
    }
  }

  function SeenAs(b: Bundle, x: Block, op: Operation): SecurityBlock
    requires Decodable(x, op)
  {
    SecurityBlock(x.number, op, x.content.targets, EncryptsBib(b, x))
  }

  lemma DecodedAs(b: Bundle, x: Block)
    ensures DecodeOne(x, BibNumbers(b.canonicals)) ==
      if Decodable(x, Bib) then Some(SeenAs(b, x, Bib)) else if Decodable(x, Bcb) then Some(SeenAs(b, x, Bcb)) else None
  {
    if x.content.Asb? {
      forall t {
        BibNumbersMembers(b.canonicals, t);
      }
    }
  }

  lemma EncryptedExactly(b: Bundle, t: nat)
    ensures t in Enc(b) <==> Encrypted(b, t)
  {
    hide Enc;
    EncExactly(b, t);
    if Targeted(b.canonicals, t) {
      var i :| 0 <= i < |b.canonicals| && TargetedBy(b.canonicals[i], t);
      assert b.canonicals[i] in b.canonicals && Decodable(b.canonicals[i], Bcb);
    }
    if x :| x in b.canonicals && Decodable(x, Bcb) && t in x.content.targets {
      var i :| 0 <= i < |b.canonicals| && b.canonicals[i] == x;
      assert TargetedBy(b.canonicals[i], t);
    }
  }

  predicate SeenFrom(b: Bundle, s: SecurityBlock, x: Block) {
    Decodable(x, s.operation) && s == SeenAs(b, x, s.operation)
  }

  lemma SeenExactly(b: Bundle, s: SecurityBlock)
    ensures s in SecurityBlocks(b) <==> exists x :: Readable(b, x, s.operation) && SeenFrom(b, s, x)
  {
    hide SecurityBlocks, Enc, BibNumbers, DecodeOne, Encrypted, EncryptsBib;
    Seen(b, s);
    EncryptedExactly(b, s.number);
    var bibs := BibNumbers(b.canonicals);
    if Decodes(b.canonicals, bibs, s) {
      var i :| 0 <= i < |b.canonicals| && DecodeOne(b.canonicals[i], bibs) == Some(s);
      DecodedAs(b, b.canonicals[i]);
      assert SeenFrom(b, s, b.canonicals[i]);
    }
    if x :| Readable(b, x, s.operation) && SeenFrom(b, s, x) {
      DecodedAs(b, x);
      var i :| 0 <= i < |b.canonicals| && b.canonicals[i] == x;
    }
  }

  lemma SignedExactly(b: Bundle, t: nat)
    ensures t in TargetsOf(SecurityBlocks(b), Bib) <==> Signed(b, t)
  {
    hide SecurityBlocks, Readable, EncryptsBib;
    assert forall x, op :: Readable(b, x, op) ==> Decodable(x, op) by { ReadableDecodes(b); }
    TargetsByMembers(SecurityBlocks(b), Bib, t);
    if s :| s in SecurityBlocks(b) && s.operation == Bib && t in s.targets {
      SeenExactly(b, s);
    }
    if x :| Readable(b, x, Bib) && t in x.content.targets {
      SeenExactly(b, SeenAs(b, x, Bib));
      assert SeenFrom(b, SeenAs(b, x, Bib), x);
    }
  }

  lemma ReadableDecodes(b: Bundle)
    ensures forall x, op :: Readable(b, x, op) ==> Decodable(x, op)
  {}

  lemma WantsExactly(r: Rule, t: nat)
    ensures t in TargetNumbers(r) <==> Wants(r, r.operation, t)
  {
    var ns := TargetNumbers(r);
    if PrimaryTarget in r.targets {
      var i :| 0 <= i < |r.targets| && r.targets[i] == PrimaryTarget;
      assert ns[i] == 0;
    }
    if PayloadTarget in r.targets {
      var i :| 0 <= i < |r.targets| && r.targets[i] == PayloadTarget;
      assert ns[i] == 1;
    }
    if t in ns {
      var i :| 0 <= i < |ns| && ns[i] == t;
      assert r.targets[i] in r.targets;
    }
  }

  lemma CoversExactly(r: Rule, b: Bundle, x: Block)
    requires Decodable(x, r.operation)
    ensures Covers(r, SeenAs(b, x, r.operation)) <==>
      EncryptsBib(b, x) || exists t :: t in x.content.targets && Wants(r, r.operation, t)
  {
    hide EncryptsBib, Wants;
    forall t {
      WantsExactly(r, t);
    }
  }

  lemma ConcernsExactly(r: Rule, b: Bundle, n: nat)
    ensures CoversNumber(r, SecurityBlocks(b), n) <==> Concerns(r, b, n)
  {
    var existing := SecurityBlocks(b);
    hide SecurityBlocks, Readable, EncryptsBib, Wants, Covers;
    ReadableDecodes(b);
    if CoversNumber(r, existing, n) {
      var i :| 0 <= i < |existing| && existing[i].number == n && Covers(r, existing[i]);
      var s := existing[i];
      CoversOperation(r, s);
      SeenExactly(b, s);
      var x :| Readable(b, x, s.operation) && SeenFrom(b, s, x);
      CoversExactly(r, b, x);
    }
    if Concerns(r, b, n) {
      var x :| Readable(b, x, r.operation) && x.number == n
        && (EncryptsBib(b, x) || exists t :: t in x.content.targets && Wants(r, r.operation, t));
      var s := SeenAs(b, x, r.operation);
      CoversExactly(r, b, x);
      assert SeenFrom(b, s, x);
      SeenExactly(b, s);
      var i :| 0 <= i < |existing| && existing[i] == s;
    }
  }

  lemma CoversOperation(r: Rule, s: SecurityBlock)
    requires Covers(r, s)
    ensures s.operation == r.operation
  {}

  lemma PrimaryExactly(b: Bundle, a: Action)
    ensures AcceptsPrimary(SecurityBlocks(b))(a) <==> a.kind.AcceptBib? && OfPrimary(b, a.kind.bib)
  {
    var existing := SecurityBlocks(b);
    hide SecurityBlocks, Readable, EncryptsBib;
    ReadableDecodes(b);
    if a.kind.AcceptBib? {
      if AcceptsPrimary(existing)(a) {
        var i :| 0 <= i < |existing| && existing[i].number == a.kind.bib && PRIMARY_NUMBER in existing[i].targets;
        SeenExactly(b, existing[i]);
      }
      if OfPrimary(b, a.kind.bib) {
        var x, op :| Readable(b, x, op) && x.number == a.kind.bib && 0 in x.content.targets;
        var s := SeenAs(b, x, op);
        assert SeenFrom(b, s, x);
        SeenExactly(b, s);
        var i :| 0 <= i < |existing| && existing[i] == s;
      }
    }
  }

  // ---------------------------------------------------------------- the place of a rule

  /** The first rule with a property, |rules| if there is none. */
  function Place(rules: seq<Rule>, p: Rule -> bool): (i: nat)
    ensures i <= |rules|
    ensures i < |rules| ==> FirstRule(rules, p, i)
    ensures forall j :: 0 <= j < i ==> !p(rules[j])
  {
    if rules == [] || p(rules[0]) then 0 else 1 + Place(rules[1..], p)
  }

  function RuleAt(rules: seq<Rule>, i: nat): Option<Rule> {
    if i < |rules| then Some(rules[i]) else None
  }

  lemma AppliesExactly(glob: Glob, r: Rule, step: Step, b: Bundle)
    ensures AppliesAt(r.role, step) && MatchesBundle(glob, r, b) <==> Applies(glob, r, step, b)
  {}

  lemma {:induction false} FirstDemandingExactly(glob: Glob, rules: seq<Rule>, step: Step, b: Bundle, op: Operation, t: nat)
    ensures FirstDemanding(MatchingRules(glob, rules, step, b), op, t)
      == RuleAt(rules, Place(rules, Wanting(glob, step, b, op, t)))
  {
    if rules != [] {
      FirstDemandingExactly(glob, rules[1..], step, b, op, t);
      AppliesExactly(glob, rules[0], step, b);
      WantsExactly(rules[0], t);
      HeadOnly(rules[0], MatchingRules(glob, rules[1..], step, b));
      hide AppliesAt, MatchesBundle, TargetNumbers, Applies;
    }
  }

  lemma HeadOnly(r: Rule, rest: seq<Rule>)
    ensures ([r] + rest)[0] == r && ([r] + rest)[1..] == rest && [] + rest == rest
  {}

  lemma {:induction false} FirstCoveringExactly(glob: Glob, rules: seq<Rule>, step: Step, b: Bundle, n: nat)
    ensures FirstCovering(MatchingRules(glob, rules, step, b), SecurityBlocks(b), n)
      == RuleAt(rules, Place(rules, Concerning(glob, step, b, n)))
  {
    if rules != [] {
      FirstCoveringExactly(glob, rules[1..], step, b, n);
      AppliesExactly(glob, rules[0], step, b);
      ConcernsExactly(rules[0], b, n);
      HeadOnly(rules[0], MatchingRules(glob, rules[1..], step, b));
      hide AppliesAt, MatchesBundle, CoversNumber, Applies, Concerns, SecurityBlocks;
    }
  }

  /** The rule an action falls to by its kind. */
  ghost function Falls(glob: Glob, rules: seq<Rule>, step: Step, b: Bundle, a: Action): nat {
    match a.kind
    case SignTarget(t) => Place(rules, Wanting(glob, step, b, Bib, t))
    case EncryptTarget(t) => Place(rules, Wanting(glob, step, b, Bcb, t))
    case Missing(t) => Place(rules, Wanting(glob, step, b, a.rule.operation, t))
    case VerifyBib(n) => Place(rules, Concerning(glob, step, b, n))
    case AcceptBib(n) => Place(rules, Concerning(glob, step, b, n))
    case DecryptBcb(n) => Place(rules, Concerning(glob, step, b, n))
  }

  lemma FirstIsPlace(rules: seq<Rule>, p: Rule -> bool, i: nat)
    ensures FirstRule(rules, p, i) <==> i < |rules| && i == Place(rules, p)
  {}

  /** An action falls to one place. */
  lemma DueToOne(glob: Glob, rules: seq<Rule>, step: Step, b: Bundle, i: nat, a: Action)
    requires DueTo(glob, rules, step, b, i, a)
    ensures i == Falls(glob, rules, step, b, a) && RuleAt(rules, i) == Some(a.rule)
  {
    hide Wanting, Concerning, Signed, Encrypted, FirstRule, Place;
    FirstAll(rules, i);
  }

  lemma FirstAll(rules: seq<Rule>, i: nat)
    ensures forall p :: FirstRule(rules, p, i) <==> i < |rules| && i == Place(rules, p)
  {
    hide FirstRule, Place;
    forall p {
      FirstIsPlace(rules, p, i);
    }
  }

  // ---------------------------------------------------------------- what is decided

  lemma SourceDutyExactly(glob: Glob, rules: seq<Rule>, step: Step, b: Bundle, a: Action)
    requires step != Receive
    ensures SourceDuty(MatchingRules(glob, rules, step, b), SecurityBlocks(b), a)
      <==> DueTo(glob, rules, step, b, Falls(glob, rules, step, b, a), a)
  {
    hide Wanting, Concerning, Signed, Encrypted, FirstRule, Place, FirstDemanding, MatchingRules, SecurityBlocks;
    FirstAll(rules, Falls(glob, rules, step, b, a));
    if a.kind.SignTarget? || a.kind.EncryptTarget? {
      var t := a.kind.target;
      SignedExactly(b, t);
      EncryptedExactly(b, t);
      FirstDemandingExactly(glob, rules, step, b, Bib, t);
      FirstDemandingExactly(glob, rules, step, b, Bcb, t);
    }
  }

  lemma FallsToApplying(glob: Glob, rules: seq<Rule>, step: Step, b: Bundle, a: Action)
    ensures var i := Falls(glob, rules, step, b, a); i < |rules| ==> (rules[i].role == Source <==> step != Receive)
  {
    hide Signed, Encrypted, Wants, Concerns;
  }

  lemma ReceiverDutyExactly(glob: Glob, rules: seq<Rule>, b: Bundle, a: Action)
    ensures ReceiverDuty(MatchingRules(glob, rules, Receive, b), SecurityBlocks(b), a)
      <==> DueTo(glob, rules, Receive, b, Falls(glob, rules, Receive, b, a), a)
  {
    hide Wanting, Concerning, Signed, Encrypted, FirstRule, Place, FirstDemanding, FirstCovering, MatchingRules;
    hide SecurityBlocks;
    FirstAll(rules, Falls(glob, rules, Receive, b, a));
    FallsToApplying(glob, rules, Receive, b, a);
    match a.kind
    case Missing(t) =>
      SignedExactly(b, t);
      EncryptedExactly(b, t);
      FirstDemandingExactly(glob, rules, Receive, b, a.rule.operation, t);
    case VerifyBib(n) => FirstCoveringExactly(glob, rules, Receive, b, n);
    case AcceptBib(n) => FirstCoveringExactly(glob, rules, Receive, b, n);
    case DecryptBcb(n) => FirstCoveringExactly(glob, rules, Receive, b, n);
    case _ =>
  }

  /** The actions are exactly those that are open and fall to a rule of the list. */
  lemma EvaluateExactly(glob: Glob, rules: seq<Rule>, step: Step, b: Bundle)
    ensures forall a: Action ::
      a in Evaluate(glob, rules, step, b) <==> exists i: nat :: DueTo(glob, rules, step, b, i, a)
  {
    var matching, existing := MatchingRules(glob, rules, step, b), SecurityBlocks(b);
    forall a: Action
      ensures a in Evaluate(glob, rules, step, b) <==> exists i: nat :: DueTo(glob, rules, step, b, i, a)
    {
      if step == Receive {
        ReceiverMeaning(matching, existing);
        ReceiverDutyExactly(glob, rules, b, a);
      } else {
        SourceMeaning(matching, existing);
        SourceDutyExactly(glob, rules, step, b, a);
      }
      if i: nat :| DueTo(glob, rules, step, b, i, a) {
        DueToOne(glob, rules, step, b, i, a);
      }
    }
    hide MatchingRules, SecurityBlocks, ReceiverDuty, SourceDuty, DueTo, Falls, ReceiverActions, SourceActions;
    hide DistinctKeys, Ascending;
  }

  // ---------------------------------------------------------------- the order of the rules

  lemma {:induction false} MatchingSnoc(glob: Glob, rules: seq<Rule>, r: Rule, step: Step, b: Bundle)
    ensures MatchingRules(glob, rules + [r], step, b)
      == MatchingRules(glob, rules, step, b) + (if Applies(glob, r, step, b) then [r] else [])
  {
    AppliesExactly(glob, r, step, b);
    hide AppliesAt, MatchesBundle, Applies;
    if rules == [] {
      assert rules + [r] == [r];
    } else {
      MatchingSnoc(glob, rules[1..], r, step, b);
      assert (rules + [r])[1..] == rules[1..] + [r];
    }
  }

  lemma {:induction false} PlaceSnoc(rules: seq<Rule>, r: Rule, p: Rule -> bool)
    ensures Place(rules + [r], p) ==
      if Place(rules, p) < |rules| then Place(rules, p) else if p(r) then |rules| else |rules| + 1
  {
    if rules == [] {
      assert rules + [r] == [r] && [r][1..] == [];
    } else {
      PlaceSnoc(rules[1..], r, p);
      assert (rules + [r])[1..] == rules[1..] + [r];
    }
  }

  lemma OrderedAppend<T(!new)>(xs: seq<T>, ys: seq<T>, was: T -> nat, rank: T -> nat, c: nat)
    requires Ascending(xs, was)
    requires forall x :: x in xs ==> rank(x) == was(x) < c
    requires forall y :: y in ys ==> rank(y) == c
    ensures Ascending(xs + ys, rank)
  {}

  ghost function WantedAt(glob: Glob, rules: seq<Rule>, step: Step, b: Bundle, op: Operation): Demand -> nat {
    (d: Demand) => Place(rules, Wanting(glob, step, b, op, d.target))
  }

  ghost function MissedAt(glob: Glob, rules: seq<Rule>, step: Step, b: Bundle): Demand -> nat {
    (d: Demand) => Place(rules, Wanting(glob, step, b, d.rule.operation, d.target))
  }

  ghost function HandledAt(glob: Glob, rules: seq<Rule>, step: Step, b: Bundle): Handling -> nat {
    (h: Handling) => Place(rules, Concerning(glob, step, b, h.block.number))
  }

  /** One more rule leaves the place of what is already wanted. */
  lemma WantedBefore(glob: Glob, rules: seq<Rule>, r: Rule, step: Step, b: Bundle, op: Operation, t: nat)
    requires FirstDemanding(MatchingRules(glob, rules, step, b), op, t).Some?
    ensures var p := Wanting(glob, step, b, op, t); Place(rules + [r], p) == Place(rules, p) < |rules|
  {
    hide Wanting, Place, FirstDemanding, MatchingRules;
    FirstDemandingExactly(glob, rules, step, b, op, t);
    PlaceSnoc(rules, r, Wanting(glob, step, b, op, t));
  }

  lemma WantedLast(glob: Glob, rules: seq<Rule>, r: Rule, step: Step, b: Bundle, t: nat)
    requires FirstDemanding(MatchingRules(glob, rules, step, b), r.operation, t).None?
    requires Applies(glob, r, step, b) && t in TargetNumbers(r)
    ensures Place(rules + [r], Wanting(glob, step, b, r.operation, t)) == |rules|
  {
    hide Place, FirstDemanding, MatchingRules, Applies, Wants, TargetNumbers;
    FirstDemandingExactly(glob, rules, step, b, r.operation, t);
    WantsExactly(r, t);
    PlaceSnoc(rules, r, Wanting(glob, step, b, r.operation, t));
  }

  lemma DemandsSnoc(rules: seq<Rule>, r: Rule, op: Operation)
    ensures Demands(rules + [r], op) == Demands(rules, op) + (if r.operation == op then DemandsOf(r) else [])
  {
    assert (rules + [r])[..|rules|] == rules;
  }

  /** The new demands of one more rule have its place. */
  lemma ServedLast(glob: Glob, rules: seq<Rule>, r: Rule, step: Step, b: Bundle, op: Operation, seen: set<nat>)
    requires Applies(glob, r, step, b)
    ensures
      var xs := Demands(MatchingRules(glob, rules, step, b), op);
      var ys := if r.operation == op then DemandsOf(r) else [];
      forall d :: d in Firsts(ys, TargetKey(), seen + Keys(xs, TargetKey())) ==>
        WantedAt(glob, rules + [r], step, b, op)(d) == |rules|
  {
    hide Firsts, Demands, DemandsOf, MatchingRules, Place, Applies, Keys, FirstDemanding, Wanting, TargetNumbers;
    var matching := MatchingRules(glob, rules, step, b);
    var xs := Demands(matching, op);
    var ys := if r.operation == op then DemandsOf(r) else [];
    var more := seen + Keys(xs, TargetKey());
    var zs := Firsts(ys, TargetKey(), more);
    FirstsKeys(ys, TargetKey(), more);
    DemandKeys(matching, op);
    DemandsOfKeys(r);
    forall d | d in zs ensures WantedAt(glob, rules + [r], step, b, op)(d) == |rules| {
      InKeys(zs, TargetKey(), d);
      NoKeys(TargetKey());
      WantedLast(glob, rules, r, step, b, d.target);
    }
  }

  lemma InKeys<T, K(!new)>(xs: seq<T>, key: T -> K, x: T)
    requires x in xs
    ensures key(x) in Keys(xs, key)
  {
    var i :| 0 <= i < |xs| && xs[i] == x;
  }

  lemma NoKeys<T, K(!new)>(key: T -> K)
    ensures Keys([], key) == {}
  {}

  lemma {:induction false} ServedInOrder(glob: Glob, rules: seq<Rule>, step: Step, b: Bundle, op: Operation, seen: set<nat>)
    ensures Ascending(Firsts(Demands(MatchingRules(glob, rules, step, b), op), TargetKey(), seen),
                      WantedAt(glob, rules, step, b, op))
  {
    hide Demands, DemandsOf, Place, Applies, Keys, FirstDemanding, Wanting, Firsts, MatchingRules, Ascending;
    if rules == [] {
      NothingServed(glob, step, b, op, seen);
    } else {
      var k := |rules| - 1;
      var init, r := rules[..k], rules[k];
      assert rules == init + [r];
      var matching := MatchingRules(glob, init, step, b);
      var ds := Firsts(Demands(matching, op), TargetKey(), seen);
      var was, now := WantedAt(glob, init, step, b, op), WantedAt(glob, rules, step, b, op);
      ServedInOrder(glob, init, step, b, op, seen);
      ServedOnce(matching, op, seen);
      forall d | d in ds ensures now(d) == was(d) < k {
        WantedBefore(glob, init, r, step, b, op, d.target);
      }
      MatchingSnoc(glob, init, r, step, b);
      if Applies(glob, r, step, b) {
        var ys := if r.operation == op then DemandsOf(r) else [];
        ServedLast(glob, init, r, step, b, op, seen);
        DemandsSnoc(matching, r, op);
        FirstsAppend(Demands(matching, op), ys, TargetKey(), seen);
        OrderedAppend(ds, Firsts(ys, TargetKey(), seen + Keys(Demands(matching, op), TargetKey())), was, now, k);
      } else {
        assert matching + [] == matching;
        OrderedAppend(ds, [], was, now, k);
        assert ds + [] == ds;
      }
    }
  }

  lemma NothingServed(glob: Glob, step: Step, b: Bundle, op: Operation, seen: set<nat>)
    ensures Ascending(Firsts(Demands(MatchingRules(glob, [], step, b), op), TargetKey(), seen),
                      WantedAt(glob, [], step, b, op))
  {}

  // ---------------------------------------------------------------- the order of handled blocks

  lemma ConcernedBefore(glob: Glob, rules: seq<Rule>, r: Rule, step: Step, b: Bundle, n: nat)
    requires FirstCovering(MatchingRules(glob, rules, step, b), SecurityBlocks(b), n).Some?
    ensures var p := Concerning(glob, step, b, n); Place(rules + [r], p) == Place(rules, p) < |rules|
  {
    hide Concerning, Place, FirstCovering, MatchingRules, SecurityBlocks;
    FirstCoveringExactly(glob, rules, step, b, n);
    PlaceSnoc(rules, r, Concerning(glob, step, b, n));
  }

  lemma ConcernedLast(glob: Glob, rules: seq<Rule>, r: Rule, step: Step, b: Bundle, n: nat)
    requires FirstCovering(MatchingRules(glob, rules, step, b), SecurityBlocks(b), n).None?
    requires Applies(glob, r, step, b) && CoversNumber(r, SecurityBlocks(b), n)
    ensures Place(rules + [r], Concerning(glob, step, b, n)) == |rules|
  {
    hide Place, FirstCovering, MatchingRules, Applies, CoversNumber, Concerns, SecurityBlocks;
    FirstCoveringExactly(glob, rules, step, b, n);
    ConcernsExactly(r, b, n);
    PlaceSnoc(rules, r, Concerning(glob, step, b, n));
  }

  lemma HandlingsSnoc(rules: seq<Rule>, r: Rule, existing: seq<SecurityBlock>)
    ensures Handlings(rules + [r], existing) == Handlings(rules, existing) + HandlingsOf(r, existing)
  {
    assert (rules + [r])[..|rules|] == rules;
  }

  lemma HandledLast(glob: Glob, rules: seq<Rule>, r: Rule, step: Step, b: Bundle)
    requires Applies(glob, r, step, b)
    ensures
      var xs := Handlings(MatchingRules(glob, rules, step, b), SecurityBlocks(b));
      forall h :: h in Firsts(HandlingsOf(r, SecurityBlocks(b)), BlockKey(), Keys(xs, BlockKey())) ==>
        HandledAt(glob, rules + [r], step, b)(h) == |rules|
  {
    hide Firsts, Handlings, HandlingsOf, MatchingRules, Place, Applies, Keys, FirstCovering, Concerning, CoversNumber;
    hide SecurityBlocks;
    var matching, existing := MatchingRules(glob, rules, step, b), SecurityBlocks(b);
    var xs, ys := Handlings(matching, existing), HandlingsOf(r, existing);
    var zs := Firsts(ys, BlockKey(), Keys(xs, BlockKey()));
    FirstsKeys(ys, BlockKey(), Keys(xs, BlockKey()));
    HandlingKeys(matching, existing);
    HandlingsOfKeys(r, existing);
    forall h | h in zs ensures HandledAt(glob, rules + [r], step, b)(h) == |rules| {
      InKeys(zs, BlockKey(), h);
      ConcernedLast(glob, rules, r, step, b, h.block.number);
    }
  }

  lemma HandledCovering(matching: seq<Rule>, existing: seq<SecurityBlock>, h: Handling)
    requires h in FirstHandlings(matching, existing)
    ensures FirstCovering(matching, existing, h.block.number).Some?
  {
    hide FirstHandlings, FirstCovering;
    var hs := FirstHandlings(matching, existing);
    HandledOnce(matching, existing);
    var i :| 0 <= i < |hs| && hs[i] == h;
    assert HandledBy(hs, h.block.number, h.rule);
  }

  lemma FirstHandlingsSnoc(rules: seq<Rule>, r: Rule, existing: seq<SecurityBlock>)
    ensures FirstHandlings(rules + [r], existing) == FirstHandlings(rules, existing)
      + Firsts(HandlingsOf(r, existing), BlockKey(), Keys(Handlings(rules, existing), BlockKey()))
  {
    hide Firsts, Handlings, HandlingsOf, Keys;
    var xs := Handlings(rules, existing);
    HandlingsSnoc(rules, r, existing);
    FirstsAppend(xs, HandlingsOf(r, existing), BlockKey(), {});
    assert {} + Keys(xs, BlockKey()) == Keys(xs, BlockKey());
  }

  lemma {:induction false} HandledInOrder(glob: Glob, rules: seq<Rule>, step: Step, b: Bundle)
    ensures Ascending(FirstHandlings(MatchingRules(glob, rules, step, b), SecurityBlocks(b)), HandledAt(glob, rules, step, b))
  {
    hide Handlings, HandlingsOf, Place, Applies, Keys, FirstCovering, Concerning, Firsts, MatchingRules, Ascending;
    hide FirstHandlings, SecurityBlocks;
    if rules == [] {
      NothingHandled(glob, step, b);
    } else {
      var k := |rules| - 1;
      var init, r := rules[..k], rules[k];
      assert rules == init + [r];
      var matching, existing := MatchingRules(glob, init, step, b), SecurityBlocks(b);
      var hs := FirstHandlings(matching, existing);
      var was, now := HandledAt(glob, init, step, b), HandledAt(glob, rules, step, b);
      HandledInOrder(glob, init, step, b);
      forall h | h in hs ensures now(h) == was(h) < k {
        HandledCovering(matching, existing, h);
        ConcernedBefore(glob, init, r, step, b, h.block.number);
      }
      MatchingSnoc(glob, init, r, step, b);
      if Applies(glob, r, step, b) {
        HandledLast(glob, init, r, step, b);
        FirstHandlingsSnoc(matching, r, existing);
        OrderedAppend(hs, Firsts(HandlingsOf(r, existing), BlockKey(), Keys(Handlings(matching, existing), BlockKey())),
                      was, now, k);
      } else {
        assert matching + [] == matching;
        OrderedAppend(hs, [], was, now, k);
        assert hs + [] == hs;
      }
    }
  }

  lemma NothingHandled(glob: Glob, step: Step, b: Bundle)
    ensures Ascending(FirstHandlings(MatchingRules(glob, [], step, b), SecurityBlocks(b)), HandledAt(glob, [], step, b))
  {}

  // ---------------------------------------------------------------- the order of missing operations

  lemma MissedLast(glob: Glob, rules: seq<Rule>, r: Rule, step: Step, b: Bundle)
    requires Applies(glob, r, step, b)
    ensures
      var xs := Unprotected(MatchingRules(glob, rules, step, b), SecurityBlocks(b));
      var ys := UnprotectedOf(r, TargetNumbers(r), SecurityBlocks(b));
      forall d :: d in Firsts(ys, MissingKey(), Keys(xs, MissingKey())) ==> MissedAt(glob, rules + [r], step, b)(d) == |rules|
  {
    hide Firsts, Unprotected, UnprotectedOf, MatchingRules, Place, Applies, Keys, FirstDemanding, Wanting, Protected;
    hide SecurityBlocks, TargetNumbers;
    var matching, existing := MatchingRules(glob, rules, step, b), SecurityBlocks(b);
    var xs, ys := Unprotected(matching, existing), UnprotectedOf(r, TargetNumbers(r), existing);
    var zs := Firsts(ys, MissingKey(), Keys(xs, MissingKey()));
    FirstsKeys(ys, MissingKey(), Keys(xs, MissingKey()));
    UnprotectedKeys(matching, existing);
    UnprotectedOfMembers(r, TargetNumbers(r), existing);
    forall d | d in zs ensures MissedAt(glob, rules + [r], step, b)(d) == |rules| {
      InKeys(zs, MissingKey(), d);
      assert MissingKey()(d) == (r.operation, d.target);
      assert !Lacks(matching, existing, r.operation, d.target);
      WantedLast(glob, rules, r, step, b, d.target);
    }
  }

  lemma MissingDemandsSnoc(rules: seq<Rule>, r: Rule, existing: seq<SecurityBlock>)
    ensures MissingDemands(rules + [r], existing) == MissingDemands(rules, existing)
      + Firsts(UnprotectedOf(r, TargetNumbers(r), existing), MissingKey(), Keys(Unprotected(rules, existing), MissingKey()))
  {
    var xs := Unprotected(rules, existing);
    assert (rules + [r])[..|rules|] == rules;
    assert Unprotected(rules + [r], existing) == xs + UnprotectedOf(r, TargetNumbers(r), existing);
    hide Firsts, Unprotected, UnprotectedOf, Keys;
    FirstsAppend(xs, UnprotectedOf(r, TargetNumbers(r), existing), MissingKey(), {});
    assert {} + Keys(xs, MissingKey()) == Keys(xs, MissingKey());
  }

  lemma {:induction false} MissedInOrder(glob: Glob, rules: seq<Rule>, step: Step, b: Bundle)
    ensures Ascending(MissingDemands(MatchingRules(glob, rules, step, b), SecurityBlocks(b)), MissedAt(glob, rules, step, b))
  {
    hide Unprotected, UnprotectedOf, Place, Applies, Keys, FirstDemanding, Wanting, Firsts, MatchingRules, Ascending;
    hide MissingDemands, SecurityBlocks, Protected;
    if rules == [] {
      NothingMissed(glob, step, b);
    } else {
      var k := |rules| - 1;
      var init, r := rules[..k], rules[k];
      assert rules == init + [r];
      var matching, existing := MatchingRules(glob, init, step, b), SecurityBlocks(b);
      var ds := MissingDemands(matching, existing);
      var was, now := MissedAt(glob, init, step, b), MissedAt(glob, rules, step, b);
      MissedInOrder(glob, init, step, b);
      MissedOnce(matching, existing);
      forall d | d in ds ensures now(d) == was(d) < k {
        WantedBefore(glob, init, r, step, b, d.rule.operation, d.target);
      }
      MatchingSnoc(glob, init, r, step, b);
      if Applies(glob, r, step, b) {
        MissedLast(glob, init, r, step, b);
        MissingDemandsSnoc(matching, r, existing);
        var ys := UnprotectedOf(r, TargetNumbers(r), existing);
        OrderedAppend(ds, Firsts(ys, MissingKey(), Keys(Unprotected(matching, existing), MissingKey())), was, now, k);
      } else {
        assert matching + [] == matching;
        OrderedAppend(ds, [], was, now, k);
        assert ds + [] == ds;
      }
    }
  }

  lemma NothingMissed(glob: Glob, step: Step, b: Bundle)
    ensures Ascending(MissingDemands(MatchingRules(glob, [], step, b), SecurityBlocks(b)), MissedAt(glob, [], step, b))
  {}

  // ---------------------------------------------------------------- the order of the actions

  ghost function Falling(glob: Glob, rules: seq<Rule>, step: Step, b: Bundle): Action -> nat {
    (a: Action) => Falls(glob, rules, step, b, a)
  }

  ghost function Phases(b: Bundle): Action -> nat {
    (a: Action) => Phase(b, a)
  }

  /** Within each phase the order of the rules. */
  predicate KeptWithin<T(!new)>(xs: seq<T>, phase: T -> nat, fall: T -> nat) {
    forall p, q :: 0 <= p < q < |xs| && phase(xs[p]) == phase(xs[q]) ==> fall(xs[p]) <= fall(xs[q])
  }

  lemma JoinKept<T(!new)>(xs: seq<T>, ys: seq<T>, phase: T -> nat, fall: T -> nat)
    requires KeptWithin(xs, phase, fall) && KeptWithin(ys, phase, fall)
    requires forall x, y :: x in xs && y in ys ==> phase(x) < phase(y)
    ensures KeptWithin(xs + ys, phase, fall)
  {
    var zs := xs + ys;
    forall p, q | 0 <= p < |xs| <= q < |zs| ensures phase(zs[p]) < phase(zs[q]) {
      assert xs[p] in xs && ys[q - |xs|] in ys;
    }
  }

  lemma {:induction false} FilterAscending<T(!new)>(xs: seq<T>, p: T -> bool, rank: T -> nat)
    requires Ascending(xs, rank)
    ensures Ascending(Filter(xs, p), rank)
  {
    if xs != [] {
      FilterAscending(xs[1..], p, rank);
      FilterMembers(xs[1..], p);
      var rest := Filter(xs[1..], p);
      forall i | 0 <= i < |rest| ensures rank(xs[0]) <= rank(rest[i]) {
        assert rest[i] in xs[1..];
        var j :| 0 <= j < |xs[1..]| && xs[1..][j] == rest[i];
        assert xs[j + 1] == rest[i];
      }
    }
  }

  lemma KeptSorted<T(!new)>(xs: seq<T>, flag: T -> bool, phase: T -> nat, fall: T -> nat)
    requires Ascending(xs, fall)
    requires forall x, y :: x in xs && y in xs && flag(x) && !flag(y) ==> phase(y) < phase(x)
    ensures KeptWithin(SortByFlag(xs, flag), phase, fall)
    ensures forall x :: x in SortByFlag(xs, flag) <==> x in xs
  {
    var other := x => !flag(x);
    FilterAscending(xs, flag, fall);
    FilterAscending(xs, other, fall);
    FilterMembers(xs, flag);
    FilterMembers(xs, other);
    var ys, zs := Filter(xs, other), Filter(xs, flag);
    assert SortByFlag(xs, flag) == ys + zs;
    hide SortByFlag;
    JoinKept(ys, zs, phase, fall);
  }

  lemma SignsKept(glob: Glob, rules: seq<Rule>, step: Step, b: Bundle)
    requires step != Receive
    ensures
      var signs := Signs(FirstSigns(MatchingRules(glob, rules, step, b), SecurityBlocks(b)));
      && Ascending(signs, Falling(glob, rules, step, b))
      && (forall a :: a in signs ==> a.kind.SignTarget?)
  {
    hide MatchingRules, SecurityBlocks, Place, Wanting, Firsts;
    var matching, existing := MatchingRules(glob, rules, step, b), SecurityBlocks(b);
    var ds := FirstSigns(matching, existing);
    ServedInOrder(glob, rules, step, b, Bib, TargetsOf(existing, Bib) + TargetsOf(existing, Bcb));
    assert forall i :: 0 <= i < |ds| ==>
        Falling(glob, rules, step, b)(Signs(ds)[i]) == WantedAt(glob, rules, step, b, Bib)(ds[i]);
  }

  lemma EncryptionsKept(glob: Glob, rules: seq<Rule>, step: Step, b: Bundle)
    requires step != Receive
    ensures
      var encryptions := Encryptions(FirstEncryptions(MatchingRules(glob, rules, step, b), SecurityBlocks(b)));
      && Ascending(encryptions, Falling(glob, rules, step, b))
      && (forall a :: a in encryptions ==> a.kind.EncryptTarget?)
  {
    hide MatchingRules, SecurityBlocks, Place, Wanting, Firsts;
    var matching, existing := MatchingRules(glob, rules, step, b), SecurityBlocks(b);
    var ds := FirstEncryptions(matching, existing);
    ServedInOrder(glob, rules, step, b, Bcb, TargetsOf(existing, Bcb));
    assert forall i :: 0 <= i < |ds| ==>
        Falling(glob, rules, step, b)(Encryptions(ds)[i]) == WantedAt(glob, rules, step, b, Bcb)(ds[i]);
  }

  lemma AscendingKept(xs: seq<Action>, phase: Action -> nat, fall: Action -> nat)
    requires Ascending(xs, fall)
    ensures KeptWithin(xs, phase, fall)
  {}

  lemma SourceKept(glob: Glob, rules: seq<Rule>, step: Step, b: Bundle)
    requires step != Receive
    ensures KeptWithin(SourceActions(MatchingRules(glob, rules, step, b), SecurityBlocks(b)), Phases(b),
                       Falling(glob, rules, step, b))
  {
    var matching, existing := MatchingRules(glob, rules, step, b), SecurityBlocks(b);
    var signs, encryptions := Signs(FirstSigns(matching, existing)), Encryptions(FirstEncryptions(matching, existing));
    assert SourceActions(matching, existing) == SortByFlag(signs, NotPrimary()) + encryptions;
    hide MatchingRules, SecurityBlocks, Signs, FirstSigns, Encryptions, FirstEncryptions, SourceActions, SortByFlag;
    hide Falls, Ascending, KeptWithin;
    var phase, fall := Phases(b), Falling(glob, rules, step, b);
    SignsKept(glob, rules, step, b);
    EncryptionsKept(glob, rules, step, b);
    KeptSorted(signs, NotPrimary(), phase, fall);
    AscendingKept(encryptions, phase, fall);
    JoinKept(SortByFlag(signs, NotPrimary()), encryptions, phase, fall);
  }

  lemma MissingKept(glob: Glob, rules: seq<Rule>, b: Bundle)
    ensures
      var missing := MissingActions(MissingDemands(MatchingRules(glob, rules, Receive, b), SecurityBlocks(b)));
      && Ascending(missing, Falling(glob, rules, Receive, b))
      && (forall a :: a in missing ==> a.kind.Missing?)
  {
    hide MatchingRules, SecurityBlocks, Place, Wanting, MissingDemands;
    var matching, existing := MatchingRules(glob, rules, Receive, b), SecurityBlocks(b);
    var ds := MissingDemands(matching, existing);
    MissedInOrder(glob, rules, Receive, b);
    assert forall i :: 0 <= i < |ds| ==>
        Falling(glob, rules, Receive, b)(MissingActions(ds)[i]) == MissedAt(glob, rules, Receive, b)(ds[i]);
  }

  lemma HandledKept(glob: Glob, rules: seq<Rule>, b: Bundle)
    ensures
      var handled := HandlingActions(FirstHandlings(MatchingRules(glob, rules, Receive, b), SecurityBlocks(b)));
      && Ascending(handled, Falling(glob, rules, Receive, b))
      && (forall a :: a in handled ==> HandlesBy(a))
  {
    hide MatchingRules, SecurityBlocks, Place, Concerning, FirstHandlings;
    var matching, existing := MatchingRules(glob, rules, Receive, b), SecurityBlocks(b);
    var hs := FirstHandlings(matching, existing);
    HandledInOrder(glob, rules, Receive, b);
    assert forall i :: 0 <= i < |hs| ==>
        Falling(glob, rules, Receive, b)(HandlingActions(hs)[i]) == HandledAt(glob, rules, Receive, b)(hs[i]);
  }

  predicate HandlesBy(a: Action) {
    if a.rule.operation == Bcb then a.kind.DecryptBcb? else a.kind.VerifyBib? || a.kind.AcceptBib?
  }

  lemma PhaseOfHandling(b: Bundle, a: Action)
    ensures HandlesBy(a) && a.rule.operation == Bcb ==> Phase(b, a) == 1
    ensures HandlesBy(a) && a.rule.operation == Bib ==>
      Phase(b, a) == if AcceptsPrimary(SecurityBlocks(b))(a) then 3 else 2
  {
    PrimaryExactly(b, a);
    hide SecurityBlocks, OfPrimary;
  }

  lemma PhasesOf(b: Bundle)
    ensures forall a: Action :: a.kind.Missing? ==> Phase(b, a) == 0
    ensures forall a: Action :: HandlesBy(a) ==>
      Phase(b, a) == if a.rule.operation == Bcb then 1 else if AcceptsPrimary(SecurityBlocks(b))(a) then 3 else 2
  {
    hide SecurityBlocks, OfPrimary, AcceptsPrimary;
    forall a: Action | HandlesBy(a)
      ensures Phase(b, a) == if a.rule.operation == Bcb then 1 else if AcceptsPrimary(SecurityBlocks(b))(a) then 3 else 2
    {
      PhaseOfHandling(b, a);
    }
  }

  lemma ReceiverKept(glob: Glob, rules: seq<Rule>, b: Bundle)
    ensures KeptWithin(ReceiverActions(MatchingRules(glob, rules, Receive, b), SecurityBlocks(b)), Phases(b),
                       Falling(glob, rules, Receive, b))
  {
    var matching, existing := MatchingRules(glob, rules, Receive, b), SecurityBlocks(b);
    var handled := HandlingActions(FirstHandlings(matching, existing));
    var missing := MissingActions(MissingDemands(matching, existing));
    var bcbs, bibs := Filter(handled, OfOperation(Bcb)), Filter(handled, OfOperation(Bib));
    var sorted := SortByFlag(bibs, AcceptsPrimary(existing));
    var phase, fall := Phases(b), Falling(glob, rules, Receive, b);
    ReceiverParts(matching, existing);
    hide MatchingRules, SecurityBlocks, HandlingActions, FirstHandlings, MissingActions, MissingDemands, Filter;
    hide SortByFlag, AcceptsPrimary, ReceiverActions, Falls, Ascending, KeptWithin, Phase;
    MissingKept(glob, rules, b);
    HandledKept(glob, rules, b);
    FilterAscending(handled, OfOperation(Bcb), fall);
    FilterAscending(handled, OfOperation(Bib), fall);
    FilterMembers(handled, OfOperation(Bcb));
    FilterMembers(handled, OfOperation(Bib));
    PhasesOf(b);
    AscendingKept(missing, phase, fall);
    AscendingKept(bcbs, phase, fall);
    KeptSorted(bibs, AcceptsPrimary(existing), phase, fall);
    JoinKept(missing, bcbs, phase, fall);
    JoinKept(missing + bcbs, sorted, phase, fall);
  }

  /** Actions come phase by phase, each once, and within a phase in the order of the rules they fall to. */
  lemma RuleOrderKept(glob: Glob, rules: seq<Rule>, step: Step, b: Bundle, p: nat, q: nat, i: nat, j: nat)
    requires p < q < |Evaluate(glob, rules, step, b)|
    requires DueTo(glob, rules, step, b, i, Evaluate(glob, rules, step, b)[p])
    requires DueTo(glob, rules, step, b, j, Evaluate(glob, rules, step, b)[q])
    ensures var x, y := Evaluate(glob, rules, step, b)[p], Evaluate(glob, rules, step, b)[q];
      && x != y && Phase(b, x) <= Phase(b, y)
      && (Phase(b, x) == Phase(b, y) ==> i <= j)
  {
    var matching, existing := MatchingRules(glob, rules, step, b), SecurityBlocks(b);
    var actions := Evaluate(glob, rules, step, b);
    var x, y := actions[p], actions[q];
    DueToOne(glob, rules, step, b, i, x);
    DueToOne(glob, rules, step, b, j, y);
    PhaseAsRank(b, x, step);
    PhaseAsRank(b, y, step);
    if step == Receive {
      ReceiverMeaning(matching, existing);
      ReceiverKept(glob, rules, b);
    } else {
      SourceMeaning(matching, existing);
      SourceKept(glob, rules, step, b);
    }
    hide MatchingRules, SecurityBlocks, ReceiverActions, SourceActions, Falls, DueTo, Phase, ReceiverDuty, SourceDuty;
    hide SubjectOf, ReceiverRank, SourceRank;
  }

  lemma PhaseAsRank(b: Bundle, a: Action, step: Step)
    ensures step == Receive && !a.kind.SignTarget? && !a.kind.EncryptTarget? ==>
      Phase(b, a) == ReceiverRank(SecurityBlocks(b))(a)
    ensures step != Receive && (a.kind.SignTarget? || a.kind.EncryptTarget?) ==> Phase(b, a) == SourceRank()(a)
  {
    PrimaryExactly(b, a);
    hide SecurityBlocks, OfPrimary;
  }
}
