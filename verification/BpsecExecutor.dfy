/** The executor of the security actions, which changes a bundle and the statistics in place. */
module BpsecExecutor {
  import opened Options
  import opened BpsecBundle
  import opened BpsecPolicy
  import opened BpsecStatistics
  import opened BpsecEnforcement
  import Engine = BpsecEngine
  import Meaning = BpsecMeaning

  /** The bundle the caller lends. */
  class BundleCell {
    var bundle: Bundle

    constructor (b: Bundle)
      ensures bundle == b
    {
      bundle := b;
    }
  }

  method EvaluatePolicy(glob: Glob, rules: seq<Rule>, step: Step, b: Bundle) returns (actions: seq<Action>)
    ensures actions == Evaluate(glob, rules, step, b)
    ensures forall a: Action :: a in actions <==> exists i: nat :: Meaning.DueTo(glob, rules, step, b, i, a)
  {
    Meaning.EvaluateExactly(glob, rules, step, b);
    var matching := MatchingRules(glob, rules, step, b);
    var existing := SecurityBlocks(b);
    match step {
      case Receive => actions := Engine.ComputeReceiverActions(matching, existing);
      case _ => actions := Engine.ComputeSourceActions(matching, existing);
    }
  }

  /** Encrypts on a copy, so that a failure leaves no BIB encrypted without its target. */
  method Encrypt(cell: BundleCell, target: nat, r: Rule, key: Key) returns (blocks: Option<nat>)
    modifies cell
    ensures match EncryptWithBibs(old(cell.bundle), target, r, key)
      case Fails(f) => f == Rejected && blocks == None && cell.bundle == old(cell.bundle)
      case Done(b, n) => blocks == Some(n) && cell.bundle == b
  {
    hide BibsOf, EncryptBlock;
    var bibs := BibsOf(cell.bundle, target);
    var all := bibs + [target];
    if bibs == [] {
      assert all == [target] && all[1..] == [];
      match EncryptBlock(cell.bundle, target, key, r.aes, r.wrapped) {
        case None => return None;
        case Some(b) =>
          assert EncryptBlocks(cell.bundle, [target], r, key) == EncryptBlocks(b, [], r, key);
          cell.bundle := b;
          return Some(1);
      }
    }
    var copy := cell.bundle;
    for i := 0 to |all|
      invariant cell.bundle == old(cell.bundle)
      invariant EncryptBlocks(old(cell.bundle), all, r, key) == EncryptBlocks(copy, all[i..], r, key)
    {
      assert all[i..][1..] == all[i + 1..];
      match EncryptBlock(copy, all[i], key, r.aes, r.wrapped) {
        case None => return None;
        case Some(b) => copy := b;
      }
    }
    cell.bundle := copy;
    return Some(|all|);
  }

  /** Carries out an action on the bundle; a failed action leaves it unchanged. */
  method Apply(a: Action, keys: KeySet, cell: BundleCell) returns (blocks: nat, failure: Option<Failure>)
    modifies cell
    ensures match Applied(a, keys, old(cell.bundle))
      case Fails(f) => failure == Some(f) && cell.bundle == old(cell.bundle)
      case Done(b, n) => failure == None && blocks == n && cell.bundle == b
  {
    hide Sign, Verify, Accept, Decrypt, EncryptWithBibs;
    if a.kind.Missing? {
      return 0, Some(LacksOperation);
    }
    if a.rule.key !in keys {
      return 0, Some(UnknownKey);
    }
    var key := keys[a.rule.key];
    match a.kind {
      case SignTarget(t) =>
        match Sign(cell.bundle, t, key, a.rule.sha) {
          case None => return 0, Some(Rejected);
          case Some(b) => cell.bundle := b; return 1, None;
        }
      case VerifyBib(n) =>
        match Verify(cell.bundle, n, key) {
          case None => return 0, Some(Rejected);
          case Some(ok) => return 1, if ok then None else Some(NotVerified);
        }
      case AcceptBib(n) =>
        match Accept(cell.bundle, n, key, ACCEPTED_TARGET_CRC) {
          case None => return 0, Some(Rejected);
          case Some((ok, b)) =>
            if ok {
              cell.bundle := b;
              return 1, None;
            }
            return 0, Some(NotVerified);
        }
      case EncryptTarget(t) =>
        var encrypted := Encrypt(cell, t, a.rule, key);
        match encrypted {
          case None => return 0, Some(Rejected);
          case Some(n) => return n, None;
        }
      case DecryptBcb(n) =>
        match Decrypt(cell.bundle, n, key, ACCEPTED_TARGET_CRC) {
          case None => return 0, Some(Rejected);
          case Some(b) => cell.bundle := b; return 1, None;
        }
    }
  }

  /** Carries out an action and handles its failure; the verdict is not Process if the bundle is to be dropped. */
  method CarryOut(a: Action, keys: KeySet, cell: BundleCell, statistics: Statistics) returns (verdict: Verdict)
    modifies cell, statistics
    ensures var run := CarriedOut(a, keys, old(cell.bundle));
      && cell.bundle == run.bundle && verdict == run.verdict
      && statistics.rules == Tallied(old(statistics.rules), run.log)
  {
    hide Applied, Recorded;
    ghost var before := statistics.rules;
    var blocks, failure := Apply(a, keys, cell);
    if failure == None {
      match SuccessEvent(a.kind) {
        case Some(event) =>
          statistics.RecordN(a.rule.name, event, blocks);
          TallyOne(before, Record(a.rule, event, blocks));
        case None =>
      }
      return Process;
    }
    var event := FailureEvent(failure.value);
    statistics.Record(a.rule.name, event);
    ghost var record := Record(a.rule, event, 1);
    TallyOne(before, record);
    match a.rule.onFailure {
      case DropBundle =>
        statistics.Record(a.rule.name, Dropped);
        TallyTwo(before, record, Record(a.rule, Dropped, 1));
        return DropFor(FailureReason(failure.value));
      case RemoveOperation =>
        cell.bundle := RemoveFailed(a.kind, cell.bundle);
        return Process;
      case LogOnly =>
        return Process;
    }
  }

  lemma TallyNone(t: Table)
    ensures Tallied(t, []) == t
  {}

  lemma TallyOne(t: Table, x: Record)
    ensures Tallied(t, [x]) == Recorded(t, x.rule.name, x.event, x.count)
  {
    assert [x][..0] == [];
    assert Tallied(t, []) == t;
  }

  lemma TallyTwo(t: Table, x: Record, y: Record)
    ensures Tallied(t, [x, y])
      == Recorded(Recorded(t, x.rule.name, x.event, x.count), y.rule.name, y.event, y.count)
  {
    TallyOne(t, x);
    assert [x, y][..1] == [x];
  }

  /** The loop over the actions, stopped by a verdict to drop. */
  method CarryOutAll(actions: seq<Action>, keys: KeySet, cell: BundleCell, statistics: Statistics)
    returns (verdict: Verdict)
    modifies cell, statistics
    ensures var run := RunAll(actions, keys, old(cell.bundle));
      && cell.bundle == run.bundle && verdict == run.verdict
      && statistics.rules == Tallied(old(statistics.rules), run.log)
  {
    hide CarriedOut, Tallied;
    ghost var all := RunAll(actions, keys, cell.bundle);
    ghost var done := Run(cell.bundle, [], Process, []);
    TallyNone(statistics.rules);
    verdict := Process;
    for i := 0 to |actions|
      invariant done.verdict == Process && verdict == Process && cell.bundle == done.bundle
      invariant statistics.rules == Tallied(old(statistics.rules), done.log)
      invariant all == Then(done, RunAll(actions[i..], keys, cell.bundle))
    {
      ghost var step := CarriedOut(actions[i], keys, cell.bundle);
      assert actions[i..][1..] == actions[i + 1..];
      ThenAssociative(done, step, RunAll(actions[i + 1..], keys, step.bundle));
      TalliedAppend(old(statistics.rules), done.log, step.log);
      done := Then(done, step);
      verdict := CarryOut(actions[i], keys, cell, statistics);
      if verdict != Process {
        return;
      }
    }
    assert done.log + [] == done.log;
  }

  method Enforce(glob: Glob, rules: seq<Rule>, keys: KeySet, step: Step, cell: BundleCell, statistics: Statistics)
    returns (verdict: Verdict)
    modifies cell, statistics
    ensures var run := Enforced(glob, rules, keys, step, old(cell.bundle));
      && cell.bundle == run.bundle && verdict == run.verdict
      && statistics.rules == Tallied(old(statistics.rules), run.log)
  {
    hide Evaluate, Filter, Tallied;
    TallyNone(statistics.rules);
    var actions := EvaluatePolicy(glob, rules, step, cell.bundle);
    if actions == [] {
      return Process;
    }
    if exists i :: 0 <= i < |actions| && actions[i].kind.DecryptBcb? {
      ghost var first := RunAll(Filter(actions, OfOperation(Bcb)), keys, cell.bundle);
      ghost var before := statistics.rules;
      verdict := CarryOutAll(Filter(actions, OfOperation(Bcb)), keys, cell, statistics);
      if verdict != Process {
        return;
      }
      actions := EvaluatePolicy(glob, rules, step, cell.bundle);
      actions := Filter(actions, OfOperation(Bib));
      TalliedAppend(before, first.log, RunAll(actions, keys, cell.bundle).log);
    }
    verdict := CarryOutAll(actions, keys, cell, statistics);
  }

  lemma NoRules(glob: Glob, keys: KeySet, step: Step, b: Bundle)
    ensures Enforced(glob, [], keys, step, b) == Run(b, [], Process, [])
  {
    assert MatchingRules(glob, [], step, b) == [];
    assert Evaluate(glob, [], step, b) == [];
  }

  lemma MergeNothing(t: Table)
    ensures Merged(t, map[]) == t
  {}

  /** What a node does with a bundle: its statistics are counted apart and merged at the end. */
  method EnforceCounted(glob: Glob, rules: seq<Rule>, keys: KeySet, step: Step, cell: BundleCell, total: Statistics)
    returns (verdict: Verdict)
    modifies cell, total
    ensures var run := Enforced(glob, rules, keys, step, old(cell.bundle));
      && cell.bundle == run.bundle && verdict == run.verdict
      && total.rules == Merged(old(total.rules), Tallied(map[], run.log))
  {
    hide Evaluate, RunAll, Merged, Enforced, Tallied;
    if rules == [] {
      NoRules(glob, keys, step, cell.bundle);
      TallyNone(map[]);
      MergeNothing(total.rules);
      return Process;
    }
    var statistics := new Statistics();
    verdict := Enforce(glob, rules, keys, step, cell, statistics);
    total.Merge(statistics);
  }
}
