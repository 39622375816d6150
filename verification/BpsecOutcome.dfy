/** What an enforcement tries, records and answers, stated over the rules, the keys and the blocks of the bundle. */
module BpsecOutcome {
  import opened Options
  import opened BpsecBundle
  import opened BpsecPolicy
  import opened BpsecPolicySpec
  import opened BpsecStatistics
  import opened BpsecEnforcement
  import Accounting = BpsecAccounting
  import Meaning = BpsecMeaning

  // ---------------------------------------------------------------- one action

  predicate IsCheck(k: Kind) {
    k.VerifyBib? || k.AcceptBib?
  }

  /** The key is loaded and the BIB can be checked, but does not match its targets. */
  predicate Broken(a: Action, keys: KeySet, b: Bundle) {
    IsCheck(a.kind) && a.rule.key in keys && IsBib(b, a.kind.bib) && !Authentic(b, a.kind.bib, keys[a.rule.key])
  }

  /** bp7 cannot carry the operation out. */
  predicate Stuck(k: Kind, r: Rule, key: Key, b: Bundle) {
    match k
    case SignTarget(t) => Sign(b, t, key, r.sha) == None
    case EncryptTarget(t) => EncryptBlocks(b, BibsOf(b, t) + [t], r, key) == None
    case VerifyBib(n) => !IsBib(b, n)
    case AcceptBib(n) => !IsBib(b, n)
    case DecryptBcb(n) => Decrypt(b, n, key, Crc32) == None
    case Missing(_) => false
  }

  predicate Impossible(a: Action, keys: KeySet, b: Bundle) {
    a.rule.key in keys && Stuck(a.kind, a.rule, keys[a.rule.key], b)
  }

  /** Why an action fails, by the reason a status report would give. */
  predicate FailsFor(a: Action, keys: KeySet, b: Bundle, reason: Reason) {
    match reason
    case MissingOperation => a.kind.Missing?
    case FailedOperation => !a.kind.Missing? && (a.rule.key !in keys || Broken(a, keys, b))
    case Bp7Reason => Impossible(a, keys, b)
  }

  /** The first block with the number is at `i`, |blocks| if there is none. */
  predicate FirstNumbered(blocks: seq<Block>, n: nat, i: nat) {
    i <= |blocks| && (i < |blocks| ==> blocks[i].number == n) && forall j :: 0 <= j < i ==> blocks[j].number != n
  }

  /** The first block with the number is gone, everything else stays. */
  predicate Without(b: Bundle, b1: Bundle, n: nat) {
    var blocks := b.canonicals;
    b1.primary == b.primary
    && exists i :: 0 <= i <= |blocks| && FirstNumbered(blocks, n, i)
                   && b1.canonicals == if i < |blocks| then blocks[..i] + blocks[i + 1..] else blocks
  }

  /** A failure is recorded under its event; the rule decides about the bundle. */
  predicate Fallen(run: Run, a: Action, b: Bundle, event: Event, reason: Reason) {
    run.attempted == [a]
    && match a.rule.onFailure
       case DropBundle =>
         run.bundle == b && run.verdict == DropFor(reason)
         && run.log == [Record(a.rule, event, 1), Record(a.rule, Dropped, 1)]
       case RemoveOperation =>
         run.verdict == Process && run.log == [Record(a.rule, event, 1)]
         && (if IsCheck(a.kind) then Without(b, run.bundle, a.kind.bib) else run.bundle == b)
       case LogOnly => run.verdict == Process && run.log == [Record(a.rule, event, 1)] && run.bundle == b
  }

  predicate Carried(run: Run, a: Action, b1: Bundle, event: Event, count: nat) {
    run == Run(b1, [Record(a.rule, event, count)], Process, [a])
  }

  lemma RemovedWithout(b: Bundle, n: nat)
    ensures Without(b, match RemoveBlock(b, n) case None => b case Some(b1) => b1, n)
  {
    assert FirstNumbered(b.canonicals, n, IndexOf(b.canonicals, n));
  }

  lemma FallenFor(a: Action, keys: KeySet, b: Bundle, f: Failure)
    requires Applied(a, keys, b) == Fails(f)
    ensures Fallen(CarriedOut(a, keys, b), a, b, if f == LacksOperation then MissingEvent else Failed,
                   if f == LacksOperation then MissingOperation else if f == Rejected then Bp7Reason else FailedOperation)
  {
    if IsCheck(a.kind) {
      RemovedWithout(b, a.kind.bib);
    }
    hide Applied, RemoveBlock, Without;
  }

  lemma BrokenFails(a: Action, keys: KeySet, b: Bundle)
    requires Broken(a, keys, b)
    ensures Applied(a, keys, b) == Fails(NotVerified)
  {
    hide IsBib, Authentic;
  }

  lemma ImpossibleFails(a: Action, keys: KeySet, b: Bundle)
    requires Impossible(a, keys, b)
    ensures Applied(a, keys, b) == Fails(Rejected)
  {
    hide Sign, EncryptBlocks, BibsOf, Decrypt, IsBib, Authentic;
  }

  lemma EarlyFailure(a: Action, keys: KeySet, b: Bundle)
    ensures a.kind.Missing? ==> Applied(a, keys, b) == Fails(LacksOperation)
    ensures !a.kind.Missing? && a.rule.key !in keys ==> Applied(a, keys, b) == Fails(UnknownKey)
  {
    hide Sign, EncryptWithBibs, Decrypt, Verify, Accept;
  }

  /** Every failure has its own event and reason. */
  lemma FailureReported(a: Action, keys: KeySet, b: Bundle)
    ensures a.kind.Missing? ==> Fallen(CarriedOut(a, keys, b), a, b, MissingEvent, MissingOperation)
    ensures !a.kind.Missing? && a.rule.key !in keys ==> Fallen(CarriedOut(a, keys, b), a, b, Failed, FailedOperation)
    ensures Broken(a, keys, b) ==> Fallen(CarriedOut(a, keys, b), a, b, Failed, FailedOperation)
    ensures Impossible(a, keys, b) ==> Fallen(CarriedOut(a, keys, b), a, b, Failed, Bp7Reason)
  {
    hide *;
    EarlyFailure(a, keys, b);
    if Broken(a, keys, b) {
      BrokenFails(a, keys, b);
    }
    if Impossible(a, keys, b) {
      ImpossibleFails(a, keys, b);
    }
    if Applied(a, keys, b).Fails? {
      FallenFor(a, keys, b, Applied(a, keys, b).failure);
    }
  }

  /** Whatever else succeeds, recorded under the event of its kind with the number of security blocks concerned. */
  lemma SuccessReported(a: Action, keys: KeySet, b: Bundle)
    requires !a.kind.Missing? && a.rule.key in keys && !Broken(a, keys, b) && !Impossible(a, keys, b)
    ensures a.kind.SignTarget? ==>
      Carried(CarriedOut(a, keys, b), a, Sign(b, a.kind.target, keys[a.rule.key], a.rule.sha).value, Signed, 1)
    ensures a.kind.EncryptTarget? ==>
      var blocks := BibsOf(b, a.kind.target) + [a.kind.target];
      Carried(CarriedOut(a, keys, b), a, EncryptBlocks(b, blocks, a.rule, keys[a.rule.key]).value, Encrypted, |blocks|)
    ensures a.kind.VerifyBib? ==> Carried(CarriedOut(a, keys, b), a, b, Verified, 1)
    ensures a.kind.AcceptBib? ==>
      Carried(CarriedOut(a, keys, b), a, Accept(b, a.kind.bib, keys[a.rule.key], Crc32).value.1, Accepted, 1)
    ensures a.kind.DecryptBcb? ==>
      Carried(CarriedOut(a, keys, b), a, Decrypt(b, a.kind.bcb, keys[a.rule.key], Crc32).value, Decrypted, 1)
  {
    hide Sign, EncryptBlocks, BibsOf, Decrypt, IsBib, Authentic;
  }

  // ---------------------------------------------------------------- whole enforcements

  /** A failure of this action would drop the bundle, and it did not fail for want of an operation or a key. */
  predicate Survived(a: Action, keys: KeySet) {
    a.rule.onFailure == DropBundle ==> !a.kind.Missing? && a.rule.key in keys
  }

  /** The verdict is that of the last action tried. */
  predicate VerdictOf(run: Run, keys: KeySet) {
    var n := |run.attempted|;
    match run.verdict
    case Process => forall i :: 0 <= i < n ==> Survived(run.attempted[i], keys)
    case DropFor(reason) =>
      n > 0 && run.attempted[n - 1].rule.onFailure == DropBundle && FailsFor(run.attempted[n - 1], keys, run.bundle, reason)
      && forall i :: 0 <= i < n - 1 ==> Survived(run.attempted[i], keys)
  }

  lemma OneVerdict(a: Action, keys: KeySet, b: Bundle)
    ensures VerdictOf(CarriedOut(a, keys, b), keys) && CarriedOut(a, keys, b).attempted == [a]
  {
    FailureReported(a, keys, b);
    if !a.kind.Missing? && a.rule.key in keys && !Broken(a, keys, b) && !Impossible(a, keys, b) {
      SuccessReported(a, keys, b);
    }
    hide CarriedOut, Sign, EncryptBlocks, BibsOf, Decrypt, Accept, IsBib, Authentic, Without;
  }

  lemma ThenVerdict(x: Run, y: Run, keys: KeySet)
    requires VerdictOf(x, keys) && VerdictOf(y, keys)
    ensures VerdictOf(Then(x, y), keys)
  {
    hide FailsFor, Survived;
    if x.verdict == Process && y.verdict != Process {
      assert (x.attempted + y.attempted)[|x.attempted| + |y.attempted| - 1] == y.attempted[|y.attempted| - 1];
    }
  }

  lemma {:induction false} RunVerdict(actions: seq<Action>, keys: KeySet, b: Bundle)
    ensures VerdictOf(RunAll(actions, keys, b), keys)
    decreases |actions|
  {
    hide VerdictOf, CarriedOut, Then;
    if actions == [] {
      NothingTried(b, keys);
    } else {
      var first := CarriedOut(actions[0], keys, b);
      OneVerdict(actions[0], keys, b);
      RunVerdict(actions[1..], keys, first.bundle);
      ThenVerdict(first, RunAll(actions[1..], keys, first.bundle), keys);
    }
  }

  lemma NothingTried(b: Bundle, keys: KeySet)
    ensures VerdictOf(Run(b, [], Process, []), keys)
  {}

  /** A bundle is dropped for the failure of the last action tried, whose rule drops bundles, and for its reason; it
      passes only if no operation demanded by a dropping rule is missing and no key of one. */
  lemma VerdictHonest(glob: Glob, rules: seq<Rule>, keys: KeySet, step: Step, b: Bundle)
    ensures VerdictOf(Enforced(glob, rules, keys, step, b), keys)
  {
    hide VerdictOf, RunAll, Evaluate, Filter, Then;
    var actions := Evaluate(glob, rules, step, b);
    RunVerdict(actions, keys, b);
    var bcbs := Filter(actions, OfOperation(Bcb));
    RunVerdict(bcbs, keys, b);
    var first := RunAll(bcbs, keys, b);
    var bibs := Filter(Evaluate(glob, rules, step, first.bundle), OfOperation(Bib));
    RunVerdict(bibs, keys, first.bundle);
    ThenVerdict(first, RunAll(bibs, keys, first.bundle), keys);
  }

  ghost predicate Due(glob: Glob, rules: seq<Rule>, step: Step, b: Bundle, a: Action) {
    exists i: nat :: Meaning.DueTo(glob, rules, step, b, i, a)
  }

  /** The due actions of one operation, each once. */
  ghost predicate AllDue(xs: seq<Action>, glob: Glob, rules: seq<Rule>, step: Step, b: Bundle, op: Operation) {
    (forall a: Action :: a in xs <==> a.rule.operation == op && Due(glob, rules, step, b, a))
    && forall i, j :: 0 <= i < j < |xs| ==> xs[i] != xs[j]
  }

  /** First what is due by rules for BCBs, then what is due by rules for BIBs in the bundle this leads to. */
  ghost predicate InTwoPhases(run: Run, glob: Glob, rules: seq<Rule>, keys: KeySet, step: Step, b: Bundle, n: nat) {
    n <= |run.attempted|
    && var first := RunAll(run.attempted[..n], keys, b);
    && AllDue(run.attempted[..n], glob, rules, step, b, Bcb)
    && AllDue(run.attempted[n..], glob, rules, step, first.bundle, Bib)
    && run == Then(first, RunAll(run.attempted[n..], keys, first.bundle))
  }

  lemma FilteredDue(glob: Glob, rules: seq<Rule>, step: Step, b: Bundle, op: Operation)
    ensures AllDue(Filter(Evaluate(glob, rules, step, b), OfOperation(op)), glob, rules, step, b, op)
  {
    var actions := Evaluate(glob, rules, step, b);
    Meaning.EvaluateExactly(glob, rules, step, b);
    EvaluateDistinct(glob, rules, step, b);
    FilterMembers(actions, OfOperation(op));
    FilterDistinct(actions, OfOperation(op), SubjectOf());
    hide Evaluate, Filter, SubjectOf, Meaning.DueTo;
  }

  lemma EvaluateDistinct(glob: Glob, rules: seq<Rule>, step: Step, b: Bundle)
    ensures DistinctKeys(Evaluate(glob, rules, step, b), SubjectOf())
  {
    var matching := MatchingRules(glob, rules, step, b);
    ReceiverMeaning(matching, SecurityBlocks(b));
    SourceMeaning(matching, SecurityBlocks(b));
    hide ReceiverActions, SourceActions, SecurityBlocks, MatchingRules, DistinctKeys, ReceiverDuty, SourceDuty, SubjectOf;
  }

  /** A bundle that passes has had every action tried that was due; with something to decrypt, the BIBs only after. */
  lemma AttemptedExactly(glob: Glob, rules: seq<Rule>, keys: KeySet, step: Step, b: Bundle)
    ensures var run := Enforced(glob, rules, keys, step, b);
      run.verdict == Process ==>
        if exists a: Action :: a.kind.DecryptBcb? && Due(glob, rules, step, b, a) then
          exists n: nat :: InTwoPhases(run, glob, rules, keys, step, b, n)
        else
          forall a: Action :: a in run.attempted <==> Due(glob, rules, step, b, a)
  {
    var run := Enforced(glob, rules, keys, step, b);
    var actions := Evaluate(glob, rules, step, b);
    Meaning.EvaluateExactly(glob, rules, step, b);
    DecryptionDue(actions);
    hide Evaluate, Filter, RunAll, Meaning.DueTo, AllDue, HasDecryption;
    if run.verdict == Process {
      if HasDecryption(actions) {
        var bcbs := Filter(actions, OfOperation(Bcb));
        var first := RunAll(bcbs, keys, b);
        var bibs := Filter(Evaluate(glob, rules, step, first.bundle), OfOperation(Bib));
        FilteredDue(glob, rules, step, b, Bcb);
        FilteredDue(glob, rules, step, first.bundle, Bib);
        Accounting.AttemptedPrefix(bcbs, keys, b);
        Accounting.AttemptedPrefix(bibs, keys, first.bundle);
        var n := |bcbs|;
        assert run.attempted == bcbs + bibs;
        assert run.attempted[..n] == bcbs && run.attempted[n..] == bibs;
        assert InTwoPhases(run, glob, rules, keys, step, b, n);
      } else {
        Accounting.AttemptedPrefix(actions, keys, b);
      }
    }
  }

  lemma DecryptionDue(actions: seq<Action>)
    ensures HasDecryption(actions) <==> exists a: Action :: a in actions && a.kind.DecryptBcb?
  {
    if a: Action :| a in actions && a.kind.DecryptBcb? {
      var i :| 0 <= i < |actions| && actions[i] == a;
    }
  }
}
