/** The security blocks of a bundle and the statistics of its enforcement always add up. */
module BpsecAccounting {
  import opened Options
  import opened BpsecBundle
  import opened BpsecPolicy
  import opened BpsecPolicySpec
  import opened BpsecStatistics
  import opened BpsecEnforcement

  /** BIBs removed because their check failed, as the statistics show them. */
  function Removed(log: seq<Record>): nat {
    if log == [] then 0
    else
      var n := |log| - 1;
      Removed(log[..n]) + (if log[n].event == Failed && log[n].rule.onFailure == RemoveOperation then log[n].count else 0)
  }

  lemma {:induction false} RemovedAppend(x: seq<Record>, y: seq<Record>)
    ensures Removed(x + y) == Removed(x) + Removed(y)
    decreases |y|
  {
    if y == [] {
      assert x + y == x;
    } else {
      var n := |y| - 1;
      RemovedAppend(x, y[..n]);
      assert (x + y)[..|x + y| - 1] == x + y[..n];
    }
  }

  /** The books of a run that led from one bundle to another. */
  predicate Balanced(b: Bundle, b1: Bundle, log: seq<Record>) {
    && Count(b1, Confidentiality) + Total(log, Decrypted) == Count(b, Confidentiality) + Total(log, Encrypted)
    && Count(b1, Integrity) + Total(log, Accepted) + Removed(log) == Count(b, Integrity) + Total(log, Signed)
  }

  lemma BalancedTransitive(b: Bundle, b1: Bundle, b2: Bundle, x: seq<Record>, y: seq<Record>)
    requires Balanced(b, b1, x) && Balanced(b1, b2, y)
    ensures Balanced(b, b2, x + y)
  {
    TotalAppend(x, y, Decrypted);
    TotalAppend(x, y, Encrypted);
    TotalAppend(x, y, Accepted);
    TotalAppend(x, y, Signed);
    RemovedAppend(x, y);
  }

  // ---------------------------------------------------------------- one action

  predicate IsBibNumber(b: Bundle, n: nat) {
    (n, Integrity) in Shape(b.canonicals)
  }

  /** Numbers stay unique and every BIB but the action's own stays. */
  ghost predicate Keeps(b: Bundle, b1: Bundle, except: Subject) {
    && (UniqueNumbers(b.canonicals) ==> UniqueNumbers(b1.canonicals))
    && (forall n :: IsBibNumber(b, n) && OfBlock(n) != except ==> IsBibNumber(b1, n))
  }

  ghost predicate Changes(b: Bundle, b1: Bundle, bibs: int, bcbs: int) {
    Count(b1, Integrity) == Count(b, Integrity) + bibs && Count(b1, Confidentiality) == Count(b, Confidentiality) + bcbs
  }

  lemma AppendChanges(b: Bundle, block: Block, s: Subject)
    requires block.number == FreshNumber(b)
    ensures Keeps(b, Append(b, block), s)
    ensures Changes(b, Append(b, block), if block.blockType == Integrity then 1 else 0,
                    if block.blockType == Confidentiality then 1 else 0)
  {
    AppendShape(b, block, Integrity);
    AppendShape(b, block, Confidentiality);
  }

  lemma SameShapeChanges(b: Bundle, b1: Bundle, s: Subject)
    requires Shape(b.canonicals) == Shape(b1.canonicals)
    ensures Keeps(b, b1, s) && Changes(b, b1, 0, 0)
  {
    if UniqueNumbers(b.canonicals) {
      UniqueByShape(b.canonicals, b1.canonicals);
    }
  }

  lemma DropChanges(b: Bundle, n: nat)
    requires Has(b.canonicals, n)
    ensures var b1 := b.(canonicals := Drop(b.canonicals, n));
      var t := Get(b.canonicals, n).blockType;
      && Keeps(b, b1, OfBlock(n))
      && Changes(b, b1, if t == Integrity then -1 else 0, if t == Confidentiality then -1 else 0)
  {
    DropShape(b.canonicals, n);
    CountDrop(b.canonicals, n, Integrity);
    CountDrop(b.canonicals, n, Confidentiality);
  }

  lemma EncryptBlockChanges(b: Bundle, target: nat, key: Key, aes: AesVariant, wrapped: bool, s: Subject)
    ensures var r := EncryptBlock(b, target, key, aes, wrapped);
      r.Some? ==> Keeps(b, r.value, s) && Changes(b, r.value, 0, 1)
  {
    if EncryptBlock(b, target, key, aes, wrapped).Some? {
      var block := Get(b.canonicals, target);
      var cipher := block.(content := Cipher(key, wrapped, b.primary, block.content), crc := CrcNo);
      var b1 := b.(canonicals := Put(b.canonicals, target, cipher));
      PutShape(b.canonicals, target, cipher);
      SameShapeChanges(b, b1, s);
      FreshByShape(b, b1);
      AppendChanges(b1, Block(FreshNumber(b), Confidentiality, Asb([target], []), CrcNo), s);
    }
  }

  lemma {:induction false} MaxByShape(x: seq<Block>, y: seq<Block>)
    requires Shape(x) == Shape(y)
    ensures MaxNumber(x) == MaxNumber(y)
  {
    if x != [] {
      assert Shape(x)[0] == Shape(y)[0];
      assert Shape(x[1..]) == Shape(x)[1..] == Shape(y[1..]);
      MaxByShape(x[1..], y[1..]);
    }
  }

  lemma FreshByShape(b: Bundle, b1: Bundle)
    requires Shape(b.canonicals) == Shape(b1.canonicals)
    ensures FreshNumber(b) == FreshNumber(b1)
  {
    MaxByShape(b.canonicals, b1.canonicals);
  }

  lemma {:induction false} EncryptBlocksChanges(b: Bundle, blocks: seq<nat>, r: Rule, key: Key, s: Subject)
    ensures var e := EncryptBlocks(b, blocks, r, key);
      e.Some? ==> Keeps(b, e.value, s) && Changes(b, e.value, 0, |blocks|)
    decreases |blocks|
  {
    if blocks != [] && EncryptBlocks(b, blocks, r, key).Some? {
      EncryptBlockChanges(b, blocks[0], key, r.aes, r.wrapped, s);
      EncryptBlocksChanges(EncryptBlock(b, blocks[0], key, r.aes, r.wrapped).value, blocks[1..], r, key, s);
    }
  }

  lemma SignChanges(b: Bundle, target: nat, key: Key, sha: ShaVariant, s: Subject)
    ensures var r := Sign(b, target, key, sha);
      r.Some? ==> Keeps(b, r.value, s) && Changes(b, r.value, 1, 0)
  {
    var b1 := SetCrc(b, target, CrcNo);
    SetCrcShape(b, target, CrcNo);
    SameShapeChanges(b, b1, s);
    var n := FreshNumber(b1);
    AppendChanges(b1, Block(n, Integrity, Asb([target], [Mac(key, sha, b1.primary, target, CoveredBy(b1, target), n)]), CrcNo), s);
  }

  lemma AcceptChanges(b: Bundle, n: nat, key: Key, crc: CrcType)
    ensures match Accept(b, n, key, crc)
      case None => true
      case Some((ok, b1)) => if ok then Keeps(b, b1, OfBlock(n)) && Changes(b, b1, -1, 0) else b1 == b
  {
    if IsBib(b, n) {
      DropChanges(b, n);
      var b1 := b.(canonicals := Drop(b.canonicals, n));
      var targets := Get(b.canonicals, n).content.targets;
      SetCrcsShape(b1, targets, crc);
      SameShapeChanges(b1, SetCrcs(b1, targets, crc), OfBlock(n));
    }
  }

  lemma DecryptChanges(b: Bundle, n: nat, key: Key, crc: CrcType)
    ensures var r := Decrypt(b, n, key, crc);
      r.Some? ==> Keeps(b, r.value, OfBlock(n)) && Changes(b, r.value, 0, -1)
  {
    var r := Decrypt(b, n, key, crc);
    if r.Some? {
      DropChanges(b, n);
      var b1 := b.(canonicals := Drop(b.canonicals, n));
      DecryptTargetsShape(b1, Get(b.canonicals, n).content.targets, key, crc);
      SameShapeChanges(b1, r.value, OfBlock(n));
    }
  }

  /** What a successful action does to the numbers of security blocks. */
  lemma AppliedChanges(a: Action, keys: KeySet, b: Bundle)
    ensures match Applied(a, keys, b)
      case Fails(_) => true
      case Done(b1, blocks) =>
        && Keeps(b, b1, SubjectOf()(a))
        && (a.kind.EncryptTarget? || blocks == 1)
        && Changes(b, b1, if a.kind.SignTarget? then 1 else if a.kind.AcceptBib? then -1 else 0,
                   if a.kind.EncryptTarget? then blocks else if a.kind.DecryptBcb? then -1 else 0)
  {
    hide Keeps, Changes, Sign, Accept, Decrypt, EncryptBlocks;
    SameShapeChanges(b, b, SubjectOf()(a));
    if a.rule.key in keys {
      var key := keys[a.rule.key];
      match a.kind {
        case SignTarget(t) => SignChanges(b, t, key, a.rule.sha, SubjectOf()(a));
        case EncryptTarget(t) => EncryptBlocksChanges(b, BibsOf(b, t) + [t], a.rule, key, SubjectOf()(a));
        case DecryptBcb(n) => DecryptChanges(b, n, key, ACCEPTED_TARGET_CRC);
        case AcceptBib(n) => AcceptChanges(b, n, key, ACCEPTED_TARGET_CRC);
        case _ =>
      }
    }
  }

  /** A rule that removes failed operations only checks BIBs, and those are there. */
  predicate Ready(a: Action, b: Bundle) {
    && (a.kind.VerifyBib? || a.kind.AcceptBib? ==> IsBibNumber(b, a.kind.bib))
    && (a.rule.onFailure == RemoveOperation ==> a.kind.Missing? || a.kind.VerifyBib? || a.kind.AcceptBib?)
  }

  lemma RemoveChanges(b: Bundle, n: nat)
    requires UniqueNumbers(b.canonicals) && IsBibNumber(b, n)
    ensures var r := RemoveBlock(b, n);
      r.Some? && Keeps(b, r.value, OfBlock(n)) && Changes(b, r.value, -1, 0)
  {
    var i :| 0 <= i < |b.canonicals| && Shape(b.canonicals)[i] == (n, Integrity);
    assert IndexOf(b.canonicals, n) == i;
    DropChanges(b, n);
  }

  lemma OneRecord(x: Record)
    ensures forall e :: Total([x], e) == if x.event == e then x.count else 0
    ensures Removed([x]) == if x.event == Failed && x.rule.onFailure == RemoveOperation then x.count else 0
  {
    assert [x][..0] == [];
  }

  lemma TwoRecords(x: Record, y: Record)
    ensures forall e :: Total([x, y], e) == Total([x], e) + Total([y], e)
    ensures Removed([x, y]) == Removed([x]) + Removed([y])
  {
    assert [x, y] == [x] + [y];
    forall e {
      TotalAppend([x], [y], e);
    }
    RemovedAppend([x], [y]);
  }

  lemma StepBalanced(a: Action, keys: KeySet, b: Bundle)
    requires UniqueNumbers(b.canonicals) && Ready(a, b)
    ensures var run := CarriedOut(a, keys, b);
      && Balanced(b, run.bundle, run.log)
      && Keeps(b, run.bundle, SubjectOf()(a))
      && Total(run.log, Dropped) == (if run.verdict == Process then 0 else 1)
  {
    hide Keeps, Applied, IsBibNumber, RemoveBlock, UniqueNumbers, Count, Total, Removed;
    var run := CarriedOut(a, keys, b);
    SameShapeChanges(b, b, SubjectOf()(a));
    AppliedChanges(a, keys, b);
    match Applied(a, keys, b) {
      case Done(b1, blocks) =>
        assert SuccessEvent(a.kind).Some? by { SuccessIsReal(a, keys, b); }
        OneRecord(Record(a.rule, SuccessEvent(a.kind).value, blocks));
      case Fails(f) =>
        OneRecord(Record(a.rule, FailureEvent(f), 1));
        OneRecord(Record(a.rule, Dropped, 1));
        TwoRecords(Record(a.rule, FailureEvent(f), 1), Record(a.rule, Dropped, 1));
        MissingFailure(a, keys, b);
        if a.rule.onFailure == RemoveOperation && !a.kind.Missing? {
          RemoveChanges(b, a.kind.bib);
        }
    }
  }

  lemma SuccessIsReal(a: Action, keys: KeySet, b: Bundle)
    requires Applied(a, keys, b).Done?
    ensures !a.kind.Missing?
  {}

  lemma MissingFailure(a: Action, keys: KeySet, b: Bundle)
    requires Applied(a, keys, b).Fails?
    ensures Applied(a, keys, b).failure == LacksOperation <==> a.kind.Missing?
  {}

  // ---------------------------------------------------------------- all actions

  lemma {:induction false} RunBalanced(actions: seq<Action>, keys: KeySet, b: Bundle)
    requires UniqueNumbers(b.canonicals) && DistinctKeys(actions, SubjectOf())
    requires forall i :: 0 <= i < |actions| ==> Ready(actions[i], b)
    ensures var run := RunAll(actions, keys, b);
      && Balanced(b, run.bundle, run.log)
      && UniqueNumbers(run.bundle.canonicals)
      && Total(run.log, Dropped) == (if run.verdict == Process then 0 else 1)
    decreases |actions|
  {
    hide CarriedOut, Count, UniqueNumbers, SubjectOf, IsBibNumber;
    if actions == [] {
    } else {
      var first := CarriedOut(actions[0], keys, b);
      StepBalanced(actions[0], keys, b);
      if first.verdict == Process {
        var rest := actions[1..];
        assert DistinctKeys(rest, SubjectOf());
        forall i | 0 <= i < |rest| ensures Ready(rest[i], first.bundle) {
          assert rest[i] == actions[i + 1];
          assert SubjectOf()(actions[0]) != SubjectOf()(actions[i + 1]);
          ReadySubject(rest[i]);
        }
        RunBalanced(rest, keys, first.bundle);
        var second := RunAll(rest, keys, first.bundle);
        BalancedTransitive(b, first.bundle, second.bundle, first.log, second.log);
        TotalAppend(first.log, second.log, Dropped);
      }
    }
  }

  lemma ReadySubject(a: Action)
    ensures a.kind.VerifyBib? || a.kind.AcceptBib? ==> SubjectOf()(a) == OfBlock(a.kind.bib)
  {}

  // ---------------------------------------------------------------- actions of the policy

  lemma {:induction false} MatchingMembers(glob: Glob, rules: seq<Rule>, step: Step, b: Bundle)
    ensures forall r :: r in MatchingRules(glob, rules, step, b) <==>
      r in rules && AppliesAt(r.role, step) && MatchesBundle(glob, r, b)
  {
    if rules != [] {
      MatchingMembers(glob, rules[1..], step, b);
      assert rules == [rules[0]] + rules[1..];
    }
  }

  lemma {:induction false} FirstDemandingMember(rules: seq<Rule>, op: Operation, t: nat)
    ensures var r := FirstDemanding(rules, op, t);
      r.Some? ==> r.value in rules && r.value.operation == op && t in TargetNumbers(r.value)
  {
    if rules != [] {
      FirstDemandingMember(rules[1..], op, t);
      assert rules == [rules[0]] + rules[1..];
    }
  }

  lemma {:induction false} FirstCoveringMember(rules: seq<Rule>, existing: seq<SecurityBlock>, n: nat)
    ensures var r := FirstCovering(rules, existing, n);
      r.Some? ==> r.value in rules && CoversNumber(r.value, existing, n)
  {
    if rules != [] {
      FirstCoveringMember(rules[1..], existing, n);
      assert rules == [rules[0]] + rules[1..];
    }
  }

  function TypeOf(op: Operation): BlockType {
    if op == Bib then Integrity else Confidentiality
  }

  lemma {:induction false} DecodedShape(blocks: seq<Block>, bibs: set<nat>)
    ensures forall s :: s in Decoded(blocks, bibs) ==> (s.number, TypeOf(s.operation)) in Shape(blocks)
  {
    if blocks != [] {
      DecodedShape(blocks[1..], bibs);
      assert Shape(blocks) == [(blocks[0].number, blocks[0].blockType)] + Shape(blocks[1..]);
    }
  }

  lemma {:induction false} VisibleMembers(decoded: seq<SecurityBlock>, encrypted: set<nat>)
    ensures forall s :: s in Visible(decoded, encrypted) <==>
      s in decoded && (s.operation == Bcb || s.number !in encrypted)
  {
    if decoded != [] {
      VisibleMembers(decoded[1..], encrypted);
      assert decoded == [decoded[0]] + decoded[1..];
    }
  }

  /** Every security block the policy sees is a block of that type in the bundle. */
  lemma SecurityBlockShape(b: Bundle, s: SecurityBlock)
    requires s in SecurityBlocks(b)
    ensures (s.number, TypeOf(s.operation)) in Shape(b.canonicals)
  {
    var decoded := Decoded(b.canonicals, BibNumbers(b.canonicals));
    VisibleMembers(decoded, TargetsOf(decoded, Bcb));
    DecodedShape(b.canonicals, BibNumbers(b.canonicals));
  }

  lemma ReceiverReady(rules: seq<Rule>, b: Bundle, a: Action)
    requires ReceiverDuty(rules, SecurityBlocks(b), a)
    requires forall r :: r in rules ==> ValidRule(r)
    ensures Ready(a, b) && a.rule in rules
    ensures a.kind.DecryptBcb? ==> a.rule.operation == Bcb
  {
    hide SecurityBlocks;
    if a.kind.Missing? {
      FirstDemandingMember(rules, a.rule.operation, a.kind.target);
    } else {
      var existing := SecurityBlocks(b);
      var n := SubjectOf()(a).number;
      FirstCoveringMember(rules, existing, n);
      var i :| 0 <= i < |existing| && existing[i].number == n && Covers(a.rule, existing[i]);
      assert existing[i] in existing;
      SecurityBlockShape(b, existing[i]);
    }
  }

  lemma SourceReady(rules: seq<Rule>, b: Bundle, a: Action)
    requires SourceDuty(rules, SecurityBlocks(b), a)
    requires forall r :: r in rules ==> ValidRule(r) && r.role == Source
    ensures Ready(a, b) && a.rule in rules && !a.kind.DecryptBcb?
  {
    FirstDemandingMember(rules, if a.kind.SignTarget? then Bib else Bcb, a.kind.target);
  }

  /** What the accounting needs to know about a list of actions. */
  ghost predicate Sane(actions: seq<Action>, rules: seq<Rule>, b: Bundle) {
    && DistinctKeys(actions, SubjectOf())
    && forall i :: 0 <= i < |actions| ==>
         && Ready(actions[i], b) && actions[i].rule in rules
         && (actions[i].kind.DecryptBcb? ==> actions[i].rule.operation == Bcb)
  }

  lemma EvaluateSane(glob: Glob, rules: seq<Rule>, step: Step, b: Bundle)
    requires ValidRules(rules)
    ensures Sane(Evaluate(glob, rules, step, b), rules, b)
  {
    hide Ready, DistinctKeys, SecurityBlocks, ReceiverActions, SourceActions, ReceiverDuty, SourceDuty, MatchingRules;
    hide ValidRule;
    var matching := MatchingRules(glob, rules, step, b);
    MatchingMembers(glob, rules, step, b);
    var actions := Evaluate(glob, rules, step, b);
    if step == Receive {
      ReceiverMeaning(matching, SecurityBlocks(b));
      forall i | 0 <= i < |actions|
        ensures Ready(actions[i], b) && actions[i].rule in rules
        ensures actions[i].kind.DecryptBcb? ==> actions[i].rule.operation == Bcb
      {
        assert actions[i] in actions;
        ReceiverReady(matching, b, actions[i]);
      }
    } else {
      SourceMeaning(matching, SecurityBlocks(b));
      forall i | 0 <= i < |actions|
        ensures Ready(actions[i], b) && actions[i].rule in rules
        ensures actions[i].kind.DecryptBcb? ==> actions[i].rule.operation == Bcb
      {
        assert actions[i] in actions;
        SourceReady(matching, b, actions[i]);
      }
    }
  }

  lemma FilterSane(actions: seq<Action>, rules: seq<Rule>, b: Bundle, op: Operation)
    requires Sane(actions, rules, b)
    ensures Sane(Filter(actions, OfOperation(op)), rules, b)
  {
    FilterDistinct(actions, OfOperation(op), SubjectOf());
    FilterMembers(actions, OfOperation(op));
    var kept := Filter(actions, OfOperation(op));
    forall i | 0 <= i < |kept| ensures kept[i] in actions {
      assert kept[i] in kept;
    }
  }

  // ---------------------------------------------------------------- attempts

  /** Every action that was tried is one of the list, in its order. */
  lemma {:induction false} AttemptedPrefix(actions: seq<Action>, keys: KeySet, b: Bundle)
    ensures var run := RunAll(actions, keys, b);
      && |run.attempted| <= |actions| && run.attempted == actions[..|run.attempted|]
      && (run.verdict == Process ==> run.attempted == actions)
    decreases |actions|
  {
    TriedOne(actions, keys, b);
    hide CarriedOut;
    if actions != [] {
      var first := CarriedOut(actions[0], keys, b);
      AttemptedPrefix(actions[1..], keys, first.bundle);
    }
  }

  lemma TriedOne(actions: seq<Action>, keys: KeySet, b: Bundle)
    ensures actions != [] ==> CarriedOut(actions[0], keys, b).attempted == [actions[0]]
  {
    hide Applied;
  }

  /** What an attempt is about, with the operation of its rule. */
  function AttemptOf(): Action -> (Operation, Subject) {
    (a: Action) => (a.rule.operation, SubjectOf()(a))
  }

  lemma PhasesApart(xs: seq<Action>, ys: seq<Action>)
    requires DistinctKeys(xs, SubjectOf()) && DistinctKeys(ys, SubjectOf())
    requires forall a :: a in xs ==> a.rule.operation == Bcb
    requires forall a :: a in ys ==> a.rule.operation == Bib
    ensures DistinctKeys(xs + ys, AttemptOf())
  {
    hide SubjectOf;
    forall i, j | 0 <= i < j < |xs + ys| ensures AttemptOf()((xs + ys)[i]) != AttemptOf()((xs + ys)[j]) {
      if i < |xs| <= j {
        assert xs[i] in xs && ys[j - |xs|] in ys;
      }
    }
  }

  // ---------------------------------------------------------------- whole enforcements

  ghost predicate LogOf(log: seq<Record>, rules: seq<Rule>) {
    forall i :: 0 <= i < |log| ==> log[i].rule in rules
  }

  lemma {:induction false} RunLog(actions: seq<Action>, keys: KeySet, b: Bundle, rules: seq<Rule>)
    requires forall i :: 0 <= i < |actions| ==> actions[i].rule in rules
    ensures LogOf(RunAll(actions, keys, b).log, rules)
    decreases |actions|
  {
    hide CarriedOut;
    if actions != [] {
      LogOfOne(actions[0], keys, b, rules);
      RunLog(actions[1..], keys, CarriedOut(actions[0], keys, b).bundle, rules);
    }
  }

  lemma LogOfOne(a: Action, keys: KeySet, b: Bundle, rules: seq<Rule>)
    requires a.rule in rules
    ensures LogOf(CarriedOut(a, keys, b).log, rules)
  {
    hide Applied;
  }

  /** A run of a sane list of actions. */
  lemma SaneRun(actions: seq<Action>, keys: KeySet, b: Bundle, rules: seq<Rule>)
    requires UniqueNumbers(b.canonicals) && Sane(actions, rules, b)
    ensures var run := RunAll(actions, keys, b);
      && Balanced(b, run.bundle, run.log)
      && UniqueNumbers(run.bundle.canonicals)
      && Total(run.log, Dropped) == (if run.verdict == Process then 0 else 1)
      && LogOf(run.log, rules)
      && DistinctKeys(run.attempted, SubjectOf())
      && (forall a :: a in run.attempted ==> a in actions)
  {
    hide RunAll, Balanced, UniqueNumbers, Total, SubjectOf;
    RunBalanced(actions, keys, b);
    RunLog(actions, keys, b, rules);
    AttemptedPrefix(actions, keys, b);
  }

  /** In every enforcement, whatever fails: security blocks and statistics add up, no block is tried twice, and the
      bundle counts as dropped exactly when the verdict says so. */
  lemma Accounting(glob: Glob, rules: seq<Rule>, keys: KeySet, step: Step, b: Bundle)
    requires ValidRules(rules) && UniqueNumbers(b.canonicals)
    ensures var run := Enforced(glob, rules, keys, step, b);
      && Balanced(b, run.bundle, run.log)
      && UniqueNumbers(run.bundle.canonicals)
      && Total(run.log, Dropped) == (if run.verdict == Process then 0 else 1)
      && LogOf(run.log, rules)
      && DistinctKeys(run.attempted, AttemptOf())
  {
    hide Evaluate, RunAll, Filter, Balanced, UniqueNumbers, Total, LogOf, DistinctKeys, Sane, ValidRules;
    var actions := Evaluate(glob, rules, step, b);
    EvaluateSane(glob, rules, step, b);
    if HasDecryption(actions) {
      var bcbs := Filter(actions, OfOperation(Bcb));
      FilterSane(actions, rules, b, Bcb);
      FilterMembers(actions, OfOperation(Bcb));
      SaneRun(bcbs, keys, b, rules);
      var first := RunAll(bcbs, keys, b);
      assert first.attempted + [] == first.attempted;
      assert DistinctKeys([], SubjectOf()) by { NothingTwice(); }
      if first.verdict == Process {
        var again := Evaluate(glob, rules, step, first.bundle);
        EvaluateSane(glob, rules, step, first.bundle);
        FilterSane(again, rules, first.bundle, Bib);
        FilterMembers(again, OfOperation(Bib));
        var bibs := Filter(again, OfOperation(Bib));
        SaneRun(bibs, keys, first.bundle, rules);
        var second := RunAll(bibs, keys, first.bundle);
        BalancedTransitive(b, first.bundle, second.bundle, first.log, second.log);
        TotalAppend(first.log, second.log, Dropped);
        LogAppend(first.log, second.log, rules);
        PhasesApart(first.attempted, second.attempted);
      } else {
        PhasesApart(first.attempted, []);
      }
    } else {
      SaneRun(actions, keys, b, rules);
      AttemptsApart(RunAll(actions, keys, b).attempted);
    }
  }

  lemma NothingTwice()
    ensures DistinctKeys([], SubjectOf())
  {}

  lemma LogAppend(x: seq<Record>, y: seq<Record>, rules: seq<Rule>)
    requires LogOf(x, rules) && LogOf(y, rules)
    ensures LogOf(x + y, rules)
  {}

  lemma AttemptsApart(xs: seq<Action>)
    requires DistinctKeys(xs, SubjectOf())
    ensures DistinctKeys(xs, AttemptOf())
  {
    hide SubjectOf;
  }

  // ---------------------------------------------------------------- the books in the statistics

  /** A counter summed over the rules. */
  function SumOver(t: Table, rules: seq<Rule>, e: Event, p: Rule -> bool): nat {
    if rules == [] then 0
    else (if p(rules[0]) then Counter(RuleOf(t, rules[0].name), e) else 0) + SumOver(t, rules[1..], e, p)
  }

  function AnyRule(): Rule -> bool {
    (r: Rule) => true
  }

  function RemovingRule(): Rule -> bool {
    (r: Rule) => r.onFailure == RemoveOperation
  }

  predicate UniqueNames(rules: seq<Rule>) {
    forall i, j :: 0 <= i < j < |rules| ==> rules[i].name != rules[j].name
  }

  lemma RecordedCounter(t: Table, x: Record, name: string, e: Event)
    ensures Counter(RuleOf(Recorded(t, x.rule.name, x.event, x.count), name), e)
      == Counter(RuleOf(t, name), e) + (if name == x.rule.name && e == x.event then x.count else 0)
  {}

  lemma {:induction false} SumOthers(t: Table, rules: seq<Rule>, x: Record, e: Event, p: Rule -> bool)
    requires forall i :: 0 <= i < |rules| ==> rules[i].name != x.rule.name
    ensures SumOver(Recorded(t, x.rule.name, x.event, x.count), rules, e, p) == SumOver(t, rules, e, p)
    decreases |rules|
  {
    hide Recorded, RuleOf, Counter;
    if rules != [] {
      SumOthers(t, rules[1..], x, e, p);
      RecordedCounter(t, x, rules[0].name, e);
    }
  }

  /** One record of a rule counts once in the sum over all rules. */
  lemma {:induction false} SumRecorded(t: Table, rules: seq<Rule>, x: Record, e: Event, p: Rule -> bool)
    requires UniqueNames(rules) && x.rule in rules
    ensures SumOver(Recorded(t, x.rule.name, x.event, x.count), rules, e, p)
      == SumOver(t, rules, e, p) + (if p(x.rule) && x.event == e then x.count else 0)
    decreases |rules|
  {
    var i :| 0 <= i < |rules| && rules[i] == x.rule;
    var t1 := Recorded(t, x.rule.name, x.event, x.count);
    hide Recorded, RuleOf, Counter;
    RecordedCounter(t, x, rules[0].name, e);
    if i == 0 {
      assert forall k :: 0 <= k < |rules[1..]| ==> rules[1..][k].name != x.rule.name;
      SumOthers(t, rules[1..], x, e, p);
    } else {
      assert rules[1..][i - 1] == x.rule;
      assert UniqueNames(rules[1..]);
      SumRecorded(t, rules[1..], x, e, p);
      assert rules[0].name != x.rule.name;
    }
    hide UniqueNames;
  }

  lemma {:induction false} SumTallied(t: Table, rules: seq<Rule>, log: seq<Record>)
    requires UniqueNames(rules) && LogOf(log, rules)
    ensures forall e :: SumOver(Tallied(t, log), rules, e, AnyRule()) == SumOver(t, rules, e, AnyRule()) + Total(log, e)
    ensures SumOver(Tallied(t, log), rules, Failed, RemovingRule())
      == SumOver(t, rules, Failed, RemovingRule()) + Removed(log)
  {
    hide Recorded;
    if log != [] {
      var n := |log| - 1;
      SumTallied(t, rules, log[..n]);
      var t1 := Tallied(t, log[..n]);
      forall e ensures SumOver(Tallied(t, log), rules, e, AnyRule()) == SumOver(t, rules, e, AnyRule()) + Total(log, e) {
        SumRecorded(t1, rules, log[n], e, AnyRule());
      }
      SumRecorded(t1, rules, log[n], Failed, RemovingRule());
    }
  }

  /** The accounting as the statistics of one bundle show it, which start empty. */
  lemma StatisticsBalance(glob: Glob, rules: seq<Rule>, keys: KeySet, step: Step, b: Bundle)
    requires ValidRules(rules) && UniqueNumbers(b.canonicals)
    ensures var run := Enforced(glob, rules, keys, step, b);
      var t := Tallied(map[], run.log);
      && Count(run.bundle, Confidentiality) + SumOver(t, rules, Decrypted, AnyRule())
         == Count(b, Confidentiality) + SumOver(t, rules, Encrypted, AnyRule())
      && Count(run.bundle, Integrity) + SumOver(t, rules, Accepted, AnyRule())
           + SumOver(t, rules, Failed, RemovingRule())
         == Count(b, Integrity) + SumOver(t, rules, Signed, AnyRule())
      && SumOver(t, rules, Dropped, AnyRule()) == (if run.verdict == Process then 0 else 1)
  {
    hide Enforced, Count, Tallied, Total, Removed, UniqueNumbers, LogOf;
    Accounting(glob, rules, keys, step, b);
    SumTallied(map[], rules, Enforced(glob, rules, keys, step, b).log);
    forall e, p {
      SumEmpty(rules, e, p);
    }
  }

  lemma {:induction false} SumEmpty(rules: seq<Rule>, e: Event, p: Rule -> bool)
    ensures SumOver(map[], rules, e, p) == 0
  {
    if rules != [] {
      SumEmpty(rules[1..], e, p);
    }
  }

  // ---------------------------------------------------------------- a node and its bundles

  /** A bundle to enforce the rules on, at a step. */
  datatype Case = Case(step: Step, bundle: Bundle)

  /** The statistics of each bundle on its own. */
  function Tables(glob: Glob, rules: seq<Rule>, keys: KeySet, cases: seq<Case>): seq<Table> {
    if cases == [] then []
    else [Tallied(map[], Enforced(glob, rules, keys, cases[0].step, cases[0].bundle).log)]
         + Tables(glob, rules, keys, cases[1..])
  }

  function DropCount(glob: Glob, rules: seq<Rule>, keys: KeySet, cases: seq<Case>): nat {
    if cases == [] then 0
    else (if Enforced(glob, rules, keys, cases[0].step, cases[0].bundle).verdict == Process then 0 else 1)
         + DropCount(glob, rules, keys, cases[1..])
  }

  function CountBefore(cases: seq<Case>, t: BlockType): nat {
    if cases == [] then 0 else Count(cases[0].bundle, t) + CountBefore(cases[1..], t)
  }

  function CountAfter(glob: Glob, rules: seq<Rule>, keys: KeySet, cases: seq<Case>, t: BlockType): nat {
    if cases == [] then 0
    else Count(Enforced(glob, rules, keys, cases[0].step, cases[0].bundle).bundle, t)
         + CountAfter(glob, rules, keys, cases[1..], t)
  }

  lemma {:induction false} SumMerged(t: Table, other: Table, rules: seq<Rule>, e: Event, p: Rule -> bool)
    ensures SumOver(Merged(t, other), rules, e, p) == SumOver(t, rules, e, p) + SumOver(other, rules, e, p)
    decreases |rules|
  {
    hide Merged, RuleOf, Counter;
    if rules != [] {
      SumMerged(t, other, rules[1..], e, p);
      MergedCounter(t, other, rules[0].name, e);
    }
  }

  /** The balance of a node's statistics `t`, given what they were at first and the bundles since. */
  ghost predicate NodeBalanced(glob: Glob, rules: seq<Rule>, keys: KeySet, cases: seq<Case>, t0: Table, t: Table) {
    && CountAfter(glob, rules, keys, cases, Confidentiality)
         + SumOver(t, rules, Decrypted, AnyRule()) + SumOver(t0, rules, Encrypted, AnyRule())
       == CountBefore(cases, Confidentiality)
         + SumOver(t, rules, Encrypted, AnyRule()) + SumOver(t0, rules, Decrypted, AnyRule())
    && CountAfter(glob, rules, keys, cases, Integrity) + SumOver(t, rules, Accepted, AnyRule())
         + SumOver(t, rules, Failed, RemovingRule()) + SumOver(t0, rules, Signed, AnyRule())
       == CountBefore(cases, Integrity) + SumOver(t, rules, Signed, AnyRule())
         + SumOver(t0, rules, Accepted, AnyRule()) + SumOver(t0, rules, Failed, RemovingRule())
    && SumOver(t, rules, Dropped, AnyRule()) == SumOver(t0, rules, Dropped, AnyRule()) + DropCount(glob, rules, keys, cases)
  }

  /** A node's merged statistics balance over all its bundles, in whatever order their statistics are merged. */
  lemma NodeAccounting(glob: Glob, rules: seq<Rule>, keys: KeySet, cases: seq<Case>, t0: Table, merged: seq<Table>)
    requires ValidRules(rules) && forall i :: 0 <= i < |cases| ==> UniqueNumbers(cases[i].bundle.canonicals)
    requires multiset(merged) == multiset(Tables(glob, rules, keys, cases))
    ensures NodeBalanced(glob, rules, keys, cases, t0, MergedAll(t0, merged))
  {
    hide *;
    MergeOrderIndependent(t0, merged, Tables(glob, rules, keys, cases));
    NodeInOrder(glob, rules, keys, cases, t0);
  }

  lemma {:induction false} NodeInOrder(glob: Glob, rules: seq<Rule>, keys: KeySet, cases: seq<Case>, t0: Table)
    requires ValidRules(rules) && forall i :: 0 <= i < |cases| ==> UniqueNumbers(cases[i].bundle.canonicals)
    ensures NodeBalanced(glob, rules, keys, cases, t0, MergedAll(t0, Tables(glob, rules, keys, cases)))
    decreases |cases|
  {
    hide Enforced, Tallied, SumOver, Count, UniqueNumbers, ValidRules, Merged;
    if cases != [] {
      var c := cases[0];
      var one := Tallied(map[], Enforced(glob, rules, keys, c.step, c.bundle).log);
      assert Tables(glob, rules, keys, cases)[1..] == Tables(glob, rules, keys, cases[1..]);
      NodeInOrder(glob, rules, keys, cases[1..], Merged(t0, one));
      StatisticsBalance(glob, rules, keys, c.step, c.bundle);
      forall e {
        SumMerged(t0, one, rules, e, AnyRule());
      }
      SumMerged(t0, one, rules, Failed, RemovingRule());
    }
  }
}
