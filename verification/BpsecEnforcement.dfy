/** What enforcing the security rules on a bundle does: the specification the executor is proved against. */
module BpsecEnforcement {
  import opened Options
  import opened BpsecBundle
  import opened BpsecPolicy
  import opened BpsecStatistics

  type KeySet = map<string, Key>

  datatype Failure = LacksOperation | NotVerified | UnknownKey | Rejected

  /** Status report reasons; `Bp7Reason` is the one bp7 gives for its own errors. */
  datatype Reason = MissingOperation | FailedOperation | Bp7Reason

  datatype Verdict = Process | DropFor(reason: Reason)

  datatype Outcome = Done(bundle: Bundle, blocks: nat) | Fails(failure: Failure)

  const ACCEPTED_TARGET_CRC := Crc32

  function FailureEvent(f: Failure): Event {
    if f == LacksOperation then MissingEvent else Failed
  }

  function FailureReason(f: Failure): Reason {
    match f
    case LacksOperation => MissingOperation
    case NotVerified => FailedOperation
    case UnknownKey => FailedOperation
    case Rejected => Bp7Reason
  }

  /** Encrypts the blocks one after the other, all or none. */
  function EncryptBlocks(b: Bundle, blocks: seq<nat>, r: Rule, key: Key): Option<Bundle>
    decreases |blocks|
  {
    if blocks == [] then Some(b)
    else
      match EncryptBlock(b, blocks[0], key, r.aes, r.wrapped)
      case None => None
      case Some(b1) => EncryptBlocks(b1, blocks[1..], r, key)
  }

  /** A target is encrypted after the BIBs protecting it, each block with a BCB of its own. */
  function EncryptWithBibs(b: Bundle, target: nat, r: Rule, key: Key): Outcome {
    var blocks := BibsOf(b, target) + [target];
    match EncryptBlocks(b, blocks, r, key)
    case None => Fails(Rejected)
    case Some(b1) => Done(b1, |blocks|)
  }

  function OrRejected(b: Option<Bundle>): Outcome {
    match b case None => Fails(Rejected) case Some(b1) => Done(b1, 1)
  }

  function Applied(a: Action, keys: KeySet, b: Bundle): Outcome {
    if a.kind.Missing? then Fails(LacksOperation)
    else if a.rule.key !in keys then Fails(UnknownKey)
    else
      var key := keys[a.rule.key];
      match a.kind
      case SignTarget(t) => OrRejected(Sign(b, t, key, a.rule.sha))
      case EncryptTarget(t) => EncryptWithBibs(b, t, a.rule, key)
      case DecryptBcb(n) => OrRejected(Decrypt(b, n, key, ACCEPTED_TARGET_CRC))
      case VerifyBib(n) =>
        (match Verify(b, n, key)
         case None => Fails(Rejected)
         case Some(ok) => if ok then Done(b, 1) else Fails(NotVerified))
      case AcceptBib(n) =>
        (match Accept(b, n, key, ACCEPTED_TARGET_CRC)
         case None => Fails(Rejected)
         case Some((ok, b1)) => if ok then Done(b1, 1) else Fails(NotVerified))
  }

  function SuccessEvent(k: Kind): Option<Event> {
    match k
    case SignTarget(_) => Some(Signed)
    case EncryptTarget(_) => Some(Encrypted)
    case VerifyBib(_) => Some(Verified)
    case AcceptBib(_) => Some(Accepted)
    case DecryptBcb(_) => Some(Decrypted)
    case Missing(_) => None
  }

  function RemoveFailed(k: Kind, b: Bundle): Bundle {
    if k.VerifyBib? || k.AcceptBib? then
      match RemoveBlock(b, k.bib)
      case None => b
      case Some(b1) => b1
    else b
  }

  /** One entry of the statistics. */
  datatype Record = Record(rule: Rule, event: Event, count: nat)

  /** What carrying out actions did: the bundle, the recorded events, the verdict and the actions tried. */
  datatype Run = Run(bundle: Bundle, log: seq<Record>, verdict: Verdict, attempted: seq<Action>)

  function CarriedOut(a: Action, keys: KeySet, b: Bundle): Run {
    match Applied(a, keys, b)
    case Done(b1, blocks) =>
      Run(b1, if SuccessEvent(a.kind).Some? then [Record(a.rule, SuccessEvent(a.kind).value, blocks)] else [],
          Process, [a])
    case Fails(f) =>
      var failure := Record(a.rule, FailureEvent(f), 1);
      match a.rule.onFailure
      case DropBundle => Run(b, [failure, Record(a.rule, Dropped, 1)], DropFor(FailureReason(f)), [a])
      case RemoveOperation => Run(RemoveFailed(a.kind, b), [failure], Process, [a])
      case LogOnly => Run(b, [failure], Process, [a])
  }

  /** A run continued by another one that started from its bundle, unless it dropped the bundle. */
  function Then(x: Run, y: Run): Run {
    if x.verdict == Process then Run(y.bundle, x.log + y.log, y.verdict, x.attempted + y.attempted) else x
  }

  function RunAll(actions: seq<Action>, keys: KeySet, b: Bundle): Run
    decreases |actions|
  {
    if actions == [] then Run(b, [], Process, [])
    else
      var first := CarriedOut(actions[0], keys, b);
      Then(first, RunAll(actions[1..], keys, first.bundle))
  }

  predicate HasDecryption(actions: seq<Action>) {
    exists i :: 0 <= i < |actions| && actions[i].kind.DecryptBcb?
  }

  /** BCB actions first if there is anything to decrypt, then the BIB actions for what has become visible. */
  function Enforced(glob: Glob, rules: seq<Rule>, keys: KeySet, step: Step, b: Bundle): Run {
    var actions := Evaluate(glob, rules, step, b);
    if HasDecryption(actions) then
      var first := RunAll(Filter(actions, OfOperation(Bcb)), keys, b);
      Then(first, RunAll(Filter(Evaluate(glob, rules, step, first.bundle), OfOperation(Bib)), keys, first.bundle))
    else RunAll(actions, keys, b)
  }

  // ---------------------------------------------------------------- runs and logs

  lemma ThenAssociative(x: Run, y: Run, z: Run)
    ensures Then(Then(x, y), z) == Then(x, Then(y, z))
  {
    assert (x.log + y.log) + z.log == x.log + (y.log + z.log);
    assert (x.attempted + y.attempted) + z.attempted == x.attempted + (y.attempted + z.attempted);
  }

  /** The statistics after recording a log. */
  function Tallied(t: Table, log: seq<Record>): Table {
    if log == [] then t
    else
      var n := |log| - 1;
      Recorded(Tallied(t, log[..n]), log[n].rule.name, log[n].event, log[n].count)
  }

  lemma {:induction false} TalliedAppend(t: Table, x: seq<Record>, y: seq<Record>)
    ensures Tallied(t, x + y) == Tallied(Tallied(t, x), y)
    decreases |y|
  {
    if y == [] {
      assert x + y == x;
    } else {
      var n := |y| - 1;
      TalliedAppend(t, x, y[..n]);
      assert (x + y)[..|x + y| - 1] == x + y[..n];
    }
  }

  /** How often a log records an event. */
  function Total(log: seq<Record>, e: Event): nat {
    if log == [] then 0
    else
      var n := |log| - 1;
      Total(log[..n], e) + (if log[n].event == e then log[n].count else 0)
  }

  lemma {:induction false} TotalAppend(x: seq<Record>, y: seq<Record>, e: Event)
    ensures Total(x + y, e) == Total(x, e) + Total(y, e)
    decreases |y|
  {
    if y == [] {
      assert x + y == x;
    } else {
      var n := |y| - 1;
      TotalAppend(x, y[..n], e);
      assert (x + y)[..|x + y| - 1] == x + y[..n];
    }
  }
}
