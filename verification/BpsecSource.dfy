/** Source enforcement on any bundle: when it keeps the block-interaction rule of section 3.9 of RFC 9172, and when
    enforcing again finds nothing to do. */
module BpsecSource {
  import opened Options
  import opened BpsecBundle
  import opened BpsecPolicy
  import opened BpsecPolicySpec
  import opened BpsecStatistics
  import opened BpsecEnforcement
  import opened BpsecStages
  import opened BpsecRoundTrip
  import opened BpsecVisible
  import Accounting = BpsecAccounting

  // ---------------------------------------------------------------- what a source will do

  /** The actions for the bundle, each list of them empty or of one element. */
  function PrimarySigns(m: seq<Rule>, b: Bundle): seq<Action> {
    if PRIMARY_NUMBER in Sig(b) + Enc(b) then [] else SignPrimaryOf(m)
  }

  function PayloadSigns(m: seq<Rule>, b: Bundle): seq<Action> {
    if PAYLOAD_NUMBER in Sig(b) + Enc(b) then [] else SignPayloadOf(m)
  }

  function PayloadEncryptions(m: seq<Rule>, b: Bundle): seq<Action> {
    if PAYLOAD_NUMBER in Enc(b) then [] else EncryptPayloadOf(m)
  }

  predicate Loaded(x: seq<Action>, keys: KeySet) {
    x != [] && x[0].rule.key in keys
  }

  /** The key for encrypting is loaded and has a length its cipher takes. */
  predicate Fits(x: seq<Action>, keys: KeySet) {
    Loaded(x, keys) && KeyFits(keys[x[0].rule.key], x[0].rule.aes, x[0].rule.wrapped)
  }

  /** Signing fails for lack of a key, and its rule drops the bundle. */
  predicate Stops(x: seq<Action>, keys: KeySet) {
    x != [] && x[0].rule.key !in keys && x[0].rule.onFailure == DropBundle
  }

  predicate SignsPrimary(m: seq<Rule>, keys: KeySet, b: Bundle) {
    Loaded(PrimarySigns(m, b), keys)
  }

  predicate SignsPayload(m: seq<Rule>, keys: KeySet, b: Bundle) {
    !Stops(PrimarySigns(m, b), keys) && Loaded(PayloadSigns(m, b), keys)
  }

  predicate Seals(m: seq<Rule>, keys: KeySet, b: Bundle) {
    !Stops(PrimarySigns(m, b), keys) && !Stops(PayloadSigns(m, b), keys) && Fits(PayloadEncryptions(m, b), keys)
  }

  /** All keys that are needed are there. */
  predicate NothingFails(m: seq<Rule>, keys: KeySet, b: Bundle) {
    && (PrimarySigns(m, b) == [] || Loaded(PrimarySigns(m, b), keys))
    && (PayloadSigns(m, b) == [] || Loaded(PayloadSigns(m, b), keys))
    && (PayloadEncryptions(m, b) == [] || Fits(PayloadEncryptions(m, b), keys))
  }

  /** The number the payload's new BIB gets. */
  function PayloadBibNumber(b: Bundle, primarySigned: bool): nat {
    FreshNumber(b) + (if primarySigned then 1 else 0)
  }

  predicate NewPrimaryBib(b: Bundle, x: SecurityBlock) {
    x == NewBib(FreshNumber(b), PRIMARY_NUMBER) && FreshNumber(b) !in Enc(b)
  }

  predicate NewPayloadBib(b: Bundle, primarySigned: bool, x: SecurityBlock) {
    var n := PayloadBibNumber(b, primarySigned);
    x == NewBib(n, PAYLOAD_NUMBER) && n !in Enc(b)
  }

  /** `c` is `b` after signing the primary block, the payload or both; a new BIB is visible unless a BCB already targets
      its number. */
  ghost predicate Grown(b: Bundle, c: Bundle, s0: bool, s1: bool) {
    && Sound(c) && Has(c.canonicals, PAYLOAD_NUMBER)
    && MaxNumber(c.canonicals) == MaxNumber(b.canonicals) + (if s0 then 1 else 0) + (if s1 then 1 else 0)
    && c.primary.source == b.primary.source && c.primary.destination == b.primary.destination
    && Enc(c) == Enc(b)
    && forall x :: VisibleBib(c, x) <==>
         VisibleBib(b, x) || (s0 && NewPrimaryBib(b, x)) || (s1 && NewPayloadBib(b, s0, x))
  }

  lemma SignKeepsPayload(b: Bundle, t: nat, key: Key, sha: ShaVariant)
    requires Sign(b, t, key, sha).Some? && Has(b.canonicals, PAYLOAD_NUMBER)
    ensures Has(Sign(b, t, key, sha).value.canonicals, PAYLOAD_NUMBER)
    ensures var p := Sign(b, t, key, sha).value.primary;
      p.source == b.primary.source && p.destination == b.primary.destination
  {
    var b1 := Sign(b, t, key, sha).value;
    var i := IndexOf(b.canonicals, PAYLOAD_NUMBER);
    assert b1.canonicals[i].number == PAYLOAD_NUMBER;
  }

  lemma SignSucceeds(b: Bundle, t: nat, key: Key, sha: ShaVariant)
    requires t == PRIMARY_NUMBER || Has(b.canonicals, t)
    ensures Sign(b, t, key, sha).Some?
  {}

  lemma PayloadBelowMax(b: Bundle)
    requires Has(b.canonicals, PAYLOAD_NUMBER)
    ensures PAYLOAD_NUMBER <= MaxNumber(b.canonicals)
  {
    assert b.canonicals[IndexOf(b.canonicals, PAYLOAD_NUMBER)].number <= MaxNumber(b.canonicals);
  }

  lemma SignPrimaryGrows(b: Bundle, key: Key, sha: ShaVariant)
    requires Grown(b, b, false, false)
    ensures Sign(b, PRIMARY_NUMBER, key, sha).Some?
    ensures Grown(b, Sign(b, PRIMARY_NUMBER, key, sha).value, true, false)
  {
    hide Sign, Sound, VisibleBib, Enc, Has, MaxNumber;
    SignSucceeds(b, PRIMARY_NUMBER, key, sha);
    PayloadBelowMax(b);
    SignKeepsPayload(b, PRIMARY_NUMBER, key, sha);
    SignSees(b, PRIMARY_NUMBER, key, sha);
  }

  lemma SignPayloadGrows(b: Bundle, c: Bundle, s0: bool, key: Key, sha: ShaVariant)
    requires Grown(b, c, s0, false)
    ensures Sign(c, PAYLOAD_NUMBER, key, sha).Some?
    ensures Grown(b, Sign(c, PAYLOAD_NUMBER, key, sha).value, s0, true)
  {
    hide Sign, Sound, VisibleBib, Enc, Has, MaxNumber;
    SignSucceeds(c, PAYLOAD_NUMBER, key, sha);
    PayloadBelowMax(c);
    SignKeepsPayload(c, PAYLOAD_NUMBER, key, sha);
    SignSees(c, PAYLOAD_NUMBER, key, sha);
  }

  // ---------------------------------------------------------------- what it does

  lemma RunOfOne(a: Action, keys: KeySet, b: Bundle)
    ensures RunAll([a], keys, b) == CarriedOut(a, keys, b)
  {
    var first := CarriedOut(a, keys, b);
    hide CarriedOut;
    assert [a][1..] == [];
    assert RunAll([], keys, first.bundle) == Run(first.bundle, [], Process, []);
    assert first.log + [] == first.log && first.attempted + [] == first.attempted;
  }

  lemma Unsuccessful(a: Action, keys: KeySet, b: Bundle)
    requires (a.kind.SignTarget? || a.kind.EncryptTarget?) && Applied(a, keys, b).Fails?
    ensures var run := RunAll([a], keys, b);
      && run.bundle == b && Total(run.log, Failed) > 0 && Total(run.log, Encrypted) == 0
      && (run.verdict == Process <==> a.rule.onFailure != DropBundle)
  {
    Accounting.MissingFailure(a, keys, b);
    hide RunAll, Applied, Total;
    RunOfOne(a, keys, b);
    Accounting.OneRecord(Record(a.rule, Failed, 1));
    Accounting.OneRecord(Record(a.rule, Dropped, 1));
    Accounting.TwoRecords(Record(a.rule, Failed, 1), Record(a.rule, Dropped, 1));
  }

  lemma Successful(a: Action, keys: KeySet, b: Bundle)
    requires (a.kind.SignTarget? || a.kind.EncryptTarget?) && Applied(a, keys, b).Done?
    ensures var run := RunAll([a], keys, b);
      && run.bundle == Applied(a, keys, b).bundle && run.verdict == Process && Total(run.log, Failed) == 0
      && Total(run.log, Encrypted) == if a.kind.EncryptTarget? then Applied(a, keys, b).blocks else 0
  {
    hide RunAll, Applied, Total;
    RunOfOne(a, keys, b);
    Accounting.OneRecord(CarriedOut(a, keys, b).log[0]);
  }

  /** At most one action signing the target. */
  predicate SignsAt(x: seq<Action>, t: nat) {
    x == [] || (|x| == 1 && x[0].kind == SignTarget(t))
  }

  /** What a run that signs at most once says about itself. */
  ghost predicate SignReport(x: seq<Action>, keys: KeySet, run: Run) {
    && Total(run.log, Encrypted) == 0
    && (Total(run.log, Failed) == 0 <==> x == [] || Loaded(x, keys))
    && (run.verdict == Process <==> !Stops(x, keys))
  }

  lemma PrimaryRun(b: Bundle, x: seq<Action>, keys: KeySet)
    requires Grown(b, b, false, false) && SignsAt(x, PRIMARY_NUMBER)
    ensures SignReport(x, keys, RunAll(x, keys, b))
    ensures Grown(b, RunAll(x, keys, b).bundle, Loaded(x, keys), false)
  {
    hide Grown, Sign;
    if x != [] {
      var a := x[0];
      assert x == [a];
      if Loaded(x, keys) {
        SignPrimaryGrows(b, keys[a.rule.key], a.rule.sha);
        Successful(a, keys, b);
      } else {
        Unsuccessful(a, keys, b);
      }
    }
  }

  lemma PayloadRun(b: Bundle, c: Bundle, s0: bool, x: seq<Action>, keys: KeySet)
    requires Grown(b, c, s0, false) && SignsAt(x, PAYLOAD_NUMBER)
    ensures SignReport(x, keys, RunAll(x, keys, c))
    ensures Grown(b, RunAll(x, keys, c).bundle, s0, Loaded(x, keys))
  {
    hide Grown, Sign;
    if x != [] {
      var a := x[0];
      assert x == [a];
      if Loaded(x, keys) {
        SignPayloadGrows(b, c, s0, keys[a.rule.key], a.rule.sha);
        Successful(a, keys, c);
      } else {
        Unsuccessful(a, keys, c);
      }
    }
  }

  ghost predicate SealedInto(c: Bundle, d: Bundle) {
    exists r, key ::
      EncryptWithBibs(c, PAYLOAD_NUMBER, r, key).Done? && EncryptWithBibs(c, PAYLOAD_NUMBER, r, key).bundle == d
  }

  ghost predicate SealReport(x: seq<Action>, keys: KeySet, c: Bundle, run: Run) {
    && (Total(run.log, Encrypted) > 0 <==> Fits(x, keys))
    && (Total(run.log, Failed) == 0 <==> x == [] || Fits(x, keys))
    && (if Fits(x, keys) then SealedInto(c, run.bundle) else run.bundle == c)
  }

  lemma SealRun(c: Bundle, x: seq<Action>, keys: KeySet)
    requires Sound(c) && Has(c.canonicals, PAYLOAD_NUMBER)
    requires x == [] || (|x| == 1 && x[0].kind == EncryptTarget(PAYLOAD_NUMBER))
    ensures SealReport(x, keys, c, RunAll(x, keys, c))
  {
    hide Sound, EncryptWithBibs, KeyFits;
    if x != [] {
      var a := x[0];
      assert x == [a];
      if Loaded(x, keys) {
        EncryptSucceeds(c, a.rule, keys[a.rule.key]);
      }
      if Fits(x, keys) {
        Successful(a, keys, c);
      } else {
        Unsuccessful(a, keys, c);
      }
    }
  }

  lemma {:induction false} RunAppend(x: seq<Action>, y: seq<Action>, keys: KeySet, b: Bundle)
    ensures RunAll(x + y, keys, b) == Then(RunAll(x, keys, b), RunAll(y, keys, RunAll(x, keys, b).bundle))
    decreases |x|
  {
    hide CarriedOut;
    if x == [] {
      assert x + y == y;
      var r := RunAll(y, keys, b);
      assert [] + r.log == r.log && [] + r.attempted == r.attempted;
    } else {
      var first := CarriedOut(x[0], keys, b);
      RunAppend(x[1..], y, keys, first.bundle);
      assert (x + y)[1..] == x[1..] + y;
      ThenAssociative(first, RunAll(x[1..], keys, first.bundle),
                      RunAll(y, keys, RunAll(x[1..], keys, first.bundle).bundle));
    }
  }

  /** What signing and then encrypting leads to, by the keys alone. */
  ghost predicate SourceOutcome(b: Bundle, run: Run, x: seq<Action>, y: seq<Action>, z: seq<Action>, keys: KeySet, c: Bundle) {
    var s1 := !Stops(x, keys) && Loaded(y, keys);
    var sealed := !Stops(x, keys) && !Stops(y, keys) && Fits(z, keys);
    && Grown(b, c, Loaded(x, keys), s1)
    && (Total(run.log, Encrypted) > 0 <==> sealed)
    && (if sealed then SealedInto(c, run.bundle) else run.bundle == c)
    && (Total(run.log, Failed) == 0 <==>
          (x == [] || Loaded(x, keys)) && (y == [] || Loaded(y, keys)) && (z == [] || Fits(z, keys)))
  }

  lemma StopsUnloaded(x: seq<Action>, keys: KeySet)
    ensures Stops(x, keys) ==> x != [] && !Loaded(x, keys)
  {}

  lemma GrownSound(b: Bundle, c: Bundle, s0: bool, s1: bool)
    requires Grown(b, c, s0, s1)
    ensures Sound(c) && Has(c.canonicals, PAYLOAD_NUMBER)
  {}

  lemma ThreeRuns(b: Bundle, x: seq<Action>, y: seq<Action>, z: seq<Action>, keys: KeySet) returns (c: Bundle)
    requires Grown(b, b, false, false) && SignsAt(x, PRIMARY_NUMBER) && SignsAt(y, PAYLOAD_NUMBER)
    requires z == [] || (|z| == 1 && z[0].kind == EncryptTarget(PAYLOAD_NUMBER))
    ensures SourceOutcome(b, RunAll(x + y + z, keys, b), x, y, z, keys, c)
  {
    hide Grown, RunAll, Total, SealedInto, Stops, Loaded, Fits, Sound, Has, SignsAt;
    StopsUnloaded(x, keys);
    StopsUnloaded(y, keys);
    RunAppend(x, y, keys, b);
    RunAppend(x + y, z, keys, b);
    var r1 := RunAll(x, keys, b);
    PrimaryRun(b, x, keys);
    c := r1.bundle;
    if r1.verdict == Process {
      var r2 := RunAll(y, keys, c);
      PayloadRun(b, c, Loaded(x, keys), y, keys);
      TotalAppend(r1.log, r2.log, Failed);
      TotalAppend(r1.log, r2.log, Encrypted);
      c := r2.bundle;
      if r2.verdict == Process {
        var r3 := RunAll(z, keys, c);
        GrownSound(b, c, Loaded(x, keys), Loaded(y, keys));
        SealRun(c, z, keys);
        TotalAppend(r1.log + r2.log, r3.log, Failed);
        TotalAppend(r1.log + r2.log, r3.log, Encrypted);
      }
    }
  }

  lemma SourceEvaluated(glob: Glob, rules: seq<Rule>, step: Step, b: Bundle)
    requires ValidRules(rules) && step != Receive
    ensures var m := MatchingRules(glob, rules, step, b);
      Evaluate(glob, rules, step, b) == PrimarySigns(m, b) + PayloadSigns(m, b) + PayloadEncryptions(m, b)
  {
    var m := MatchingRules(glob, rules, step, b);
    hide SourceActions, MatchingRules, SecurityBlocks, FirstDemanding, AllValid, TargetsOf, ValidRules;
    hide SignPrimaryOf, SignPayloadOf, EncryptPayloadOf;
    MatchingValid(glob, rules, step, b);
    SourceList(m, SecurityBlocks(b));
  }

  lemma SourceIsOneRun(glob: Glob, rules: seq<Rule>, keys: KeySet, step: Step, b: Bundle)
    requires ValidRules(rules) && step != Receive
    ensures var m := MatchingRules(glob, rules, step, b);
      Enforced(glob, rules, keys, step, b)
      == RunAll(PrimarySigns(m, b) + PayloadSigns(m, b) + PayloadEncryptions(m, b), keys, b)
  {
    var m := MatchingRules(glob, rules, step, b);
    hide Evaluate, RunAll, PrimarySigns, PayloadSigns, PayloadEncryptions, HasDecryption, MatchingRules, ValidRules;
    NoneDecrypts(m, b);
    SourceEvaluated(glob, rules, step, b);
  }

  lemma NoneDecrypts(m: seq<Rule>, b: Bundle)
    ensures !HasDecryption(PrimarySigns(m, b) + PayloadSigns(m, b) + PayloadEncryptions(m, b))
  {
    hide FirstDemanding, Sig, Enc;
  }

  lemma ListShape(m: seq<Rule>, b: Bundle)
    ensures SignsAt(PrimarySigns(m, b), PRIMARY_NUMBER) && SignsAt(PayloadSigns(m, b), PAYLOAD_NUMBER)
    ensures var z := PayloadEncryptions(m, b); z == [] || (|z| == 1 && z[0].kind == EncryptTarget(PAYLOAD_NUMBER))
    ensures PrimarySigns(m, b) != [] ==> PRIMARY_NUMBER !in Sig(b) + Enc(b)
    ensures PayloadSigns(m, b) != [] ==> PAYLOAD_NUMBER !in Sig(b) + Enc(b)
  {
    hide FirstDemanding, Sig, Enc;
  }

  lemma GrownStart(b: Bundle)
    requires Sound(b) && Has(b.canonicals, PAYLOAD_NUMBER)
    ensures Grown(b, b, false, false)
  {}

  /** All a source's enforcement leads to, given by its rules, keys and bundle: whom it signs, whether it encrypts and
      whether anything fails. */
  lemma SourceRun(glob: Glob, rules: seq<Rule>, keys: KeySet, step: Step, b: Bundle) returns (c: Bundle)
    requires ValidRules(rules) && step != Receive && Sound(b) && Has(b.canonicals, PAYLOAD_NUMBER)
    ensures var run := Enforced(glob, rules, keys, step, b);
      var m := MatchingRules(glob, rules, step, b);
      && Grown(b, c, SignsPrimary(m, keys, b), SignsPayload(m, keys, b))
      && (if Seals(m, keys, b) then SealedInto(c, run.bundle) else run.bundle == c)
      && (Total(run.log, Encrypted) > 0 <==> Seals(m, keys, b))
      && (Total(run.log, Failed) == 0 <==> NothingFails(m, keys, b))
  {
    var m := MatchingRules(glob, rules, step, b);
    hide Grown, Total, SealedInto, Sound, Has, MatchingRules, Enforced, RunAll, ValidRules, Stops, Loaded, Fits;
    hide PrimarySigns, PayloadSigns, PayloadEncryptions, SignsAt;
    GrownStart(b);
    SourceIsOneRun(glob, rules, keys, step, b);
    ListShape(m, b);
    c := ThreeRuns(b, PrimarySigns(m, b), PayloadSigns(m, b), PayloadEncryptions(m, b), keys);
  }

  // ---------------------------------------------------------------- the block-interaction rule

  /** A visible BIB that does not cover the payload targets a BIB that does. */
  ghost predicate Nested(b: Bundle) {
    exists x, y :: VisibleBib(b, x) && PAYLOAD_NUMBER !in x.targets && PayloadBib(b, y) && y.number in x.targets
  }

  /** A visible BIB that does not cover the payload targets the number that the payload's new BIB will get. */
  ghost predicate NestsNew(b: Bundle, primarySigned: bool) {
    exists x :: VisibleBib(b, x) && PAYLOAD_NUMBER !in x.targets && PayloadBibNumber(b, primarySigned) in x.targets
  }

  lemma GrownInteraction(b: Bundle, c: Bundle, s0: bool, s1: bool)
    requires Grown(b, c, s0, s1) && Interaction(b)
    requires (s0 ==> PRIMARY_NUMBER !in Enc(b)) && (s1 ==> PAYLOAD_NUMBER !in Enc(b))
    ensures Interaction(c)
  {
    hide Sound, VisibleBib, Enc, Sig;
    forall t | t in Sig(c) ensures t !in Enc(c) {
      SigMember(c, t);
      SigMember(b, t);
    }
  }

  /** Encrypting the payload keeps the rule exactly when no BIB is nested. */
  lemma SealedInteraction(c: Bundle, d: Bundle)
    requires Sound(c) && Has(c.canonicals, PAYLOAD_NUMBER) && Interaction(c) && SealedInto(c, d)
    ensures Interaction(d) <==> !Nested(c)
  {
    hide Sound, Enc, Sig, VisibleBib, EncryptWithBibs, Has;
    var r, key :|
      EncryptWithBibs(c, PAYLOAD_NUMBER, r, key).Done? && EncryptWithBibs(c, PAYLOAD_NUMBER, r, key).bundle == d;
    EncryptSees(c, r, key);
    forall t | t in Sig(d) && t in Enc(d) ensures Nested(c) {
      SigMember(d, t);
      SigMember(c, t);
      var x :| VisibleBib(d, x) && t in x.targets;
      assert t in Sig(c) && t !in Enc(c);
      var y :| PayloadBib(c, y) && y.number == t;
    }
    if x, y :| VisibleBib(c, x) && PAYLOAD_NUMBER !in x.targets && PayloadBib(c, y) && y.number in x.targets {
      SigMember(d, y.number);
      assert VisibleBib(d, x);
      assert y.number in Sig(d) && y.number in Enc(d);
    }
  }

  lemma NestedKept(b: Bundle, c: Bundle, s0: bool, s1: bool)
    requires Grown(b, c, s0, s1) && Nested(b)
    ensures Nested(c)
  {
    hide Sound, VisibleBib, Has, MaxNumber, Enc, Sig, NewPrimaryBib, NewPayloadBib;
    var x, y :| VisibleBib(b, x) && PAYLOAD_NUMBER !in x.targets && PayloadBib(b, y) && y.number in x.targets;
    assert VisibleBib(c, x) && PayloadBib(c, y);
  }

  lemma NewlyNested(b: Bundle, c: Bundle, s0: bool)
    requires Grown(b, c, s0, true) && Interaction(b) && NestsNew(b, s0)
    ensures Nested(c)
  {
    hide Sound, VisibleBib, Has, MaxNumber, Enc, Sig, NewPrimaryBib;
    var n := PayloadBibNumber(b, s0);
    var x :| VisibleBib(b, x) && PAYLOAD_NUMBER !in x.targets && n in x.targets;
    SigMember(b, n);
    var y := NewBib(n, PAYLOAD_NUMBER);
    assert NewPayloadBib(b, s0, y) && VisibleBib(c, y);
    assert VisibleBib(c, x) && PayloadBib(c, y);
  }

  lemma NestedBefore(b: Bundle, c: Bundle, s0: bool, s1: bool)
    requires Grown(b, c, s0, s1) && Nested(c)
    ensures Nested(b) || (s1 && NestsNew(b, s0))
  {
    hide Sound, VisibleBib, Has, MaxNumber, Enc, Sig, FreshNumber;
    var x, y :| VisibleBib(c, x) && PAYLOAD_NUMBER !in x.targets && PayloadBib(c, y) && y.number in x.targets;
    BibNotPayload(c, y);
    assert VisibleBib(b, x);
    if VisibleBib(b, y) {
      assert PayloadBib(b, y);
    }
  }

  lemma NestedGrown(b: Bundle, c: Bundle, s0: bool, s1: bool)
    requires Grown(b, c, s0, s1) && Interaction(b)
    ensures Nested(c) <==> Nested(b) || (s1 && NestsNew(b, s0))
  {
    hide *;
    if Nested(b) {
      NestedKept(b, c, s0, s1);
    }
    if s1 && NestsNew(b, s0) {
      NewlyNested(b, c, s0);
    }
    if Nested(c) {
      NestedBefore(b, c, s0, s1);
    }
  }

  /** Source enforcement keeps the block-interaction rule exactly when it does not encrypt the payload or no BIB that
      stays visible targets a BIB that is encrypted with the payload, be it there already or added by this enforcement. */
  lemma InteractionExactly(glob: Glob, rules: seq<Rule>, keys: KeySet, step: Step, b: Bundle)
    requires ValidRules(rules) && step != Receive && Sound(b) && Has(b.canonicals, PAYLOAD_NUMBER) && Interaction(b)
    ensures var m := MatchingRules(glob, rules, step, b);
      Interaction(Enforced(glob, rules, keys, step, b).bundle) <==>
        !Seals(m, keys, b)
        || !(Nested(b) || (SignsPayload(m, keys, b) && NestsNew(b, SignsPrimary(m, keys, b))))
  {
    var m := MatchingRules(glob, rules, step, b);
    SignsUnencrypted(m, keys, b);
    hide *;
    var c := SourceRun(glob, rules, keys, step, b);
    GrownSound(b, c, SignsPrimary(m, keys, b), SignsPayload(m, keys, b));
    GrownInteraction(b, c, SignsPrimary(m, keys, b), SignsPayload(m, keys, b));
    NestedGrown(b, c, SignsPrimary(m, keys, b), SignsPayload(m, keys, b));
    if Seals(m, keys, b) {
      SealedInteraction(c, Enforced(glob, rules, keys, step, b).bundle);
    }
  }

  lemma SignsUnencrypted(m: seq<Rule>, keys: KeySet, b: Bundle)
    ensures SignsPrimary(m, keys, b) ==> PRIMARY_NUMBER !in Sig(b) && PRIMARY_NUMBER !in Enc(b)
    ensures SignsPayload(m, keys, b) ==> PAYLOAD_NUMBER !in Sig(b) && PAYLOAD_NUMBER !in Enc(b)
  {
    hide Sig, Enc, SignPrimaryOf, SignPayloadOf;
  }

  /** Visible BIBs only target the primary block and blocks that are there and are no security blocks, as section 3.7 of
      RFC 9172 demands of security sources. */
  ghost predicate TargetsData(b: Bundle) {
    forall x, t :: VisibleBib(b, x) && t in x.targets ==>
      t == PRIMARY_NUMBER
      || (Has(b.canonicals, t) && Get(b.canonicals, t).blockType != Integrity
          && Get(b.canonicals, t).blockType != Confidentiality)
  }

  lemma TargetsDataUnnested(b: Bundle, primarySigned: bool)
    requires Sound(b) && TargetsData(b)
    ensures !Nested(b) && !NestsNew(b, primarySigned)
  {
    assert UniqueNumbers(b.canonicals);
    hide VisibleBib, Sound;
    forall x, y | VisibleBib(b, x) && PAYLOAD_NUMBER !in x.targets && PayloadBib(b, y) ensures y.number !in x.targets {
      BibNotPayload(b, y);
      BibIntegrity(b, y);
    }
    forall x | VisibleBib(b, x) && PAYLOAD_NUMBER !in x.targets ensures PayloadBibNumber(b, primarySigned) !in x.targets {
      assert forall i :: 0 <= i < |b.canonicals| ==> b.canonicals[i].number <= MaxNumber(b.canonicals);
      assert !Has(b.canonicals, PayloadBibNumber(b, primarySigned));
    }
  }

  lemma BibIntegrity(b: Bundle, x: SecurityBlock)
    requires Sound(b) && VisibleBib(b, x)
    ensures Has(b.canonicals, x.number) && Get(b.canonicals, x.number).blockType == Integrity
  {
    hide SecurityBlocks;
    Accounting.SecurityBlockShape(b, x);
    var i :| 0 <= i < |b.canonicals| && Shape(b.canonicals)[i] == (x.number, Integrity);
    UniqueIndex(b.canonicals, i);
  }

  /** Bundles whose BIBs keep to what RFC 9172 lets them target keep the rule, whatever the rules and keys. */
  lemma InteractionKept(glob: Glob, rules: seq<Rule>, keys: KeySet, step: Step, b: Bundle)
    requires ValidRules(rules) && step != Receive && Sound(b) && Has(b.canonicals, PAYLOAD_NUMBER) && Interaction(b)
    requires TargetsData(b)
    ensures Interaction(Enforced(glob, rules, keys, step, b).bundle)
  {
    hide *;
    InteractionExactly(glob, rules, keys, step, b);
    TargetsDataUnnested(b, SignsPrimary(MatchingRules(glob, rules, step, b), keys, b));
  }

  // ---------------------------------------------------------------- enforcing again

  /** Every visible BIB of the primary block also covers the payload, and there is one. */
  ghost predicate Shares(b: Bundle) {
    && PRIMARY_NUMBER in Sig(b) && PRIMARY_NUMBER !in Enc(b)
    && forall x :: VisibleBib(b, x) && PRIMARY_NUMBER in x.targets ==> PAYLOAD_NUMBER in x.targets
  }

  /** A BCB targets the number a new BIB will get, so that this BIB counts as encrypted at once. */
  predicate HidesNew(m: seq<Rule>, b: Bundle) {
    || (PrimarySigns(m, b) != [] && FreshNumber(b) in Enc(b))
    || (PayloadSigns(m, b) != [] && PayloadEncryptions(m, b) == []
        && PayloadBibNumber(b, PrimarySigns(m, b) != []) in Enc(b))
  }

  /** Encrypting the payload will hide the only BIBs of a primary block that has to be signed. */
  ghost predicate HidesOld(m: seq<Rule>, b: Bundle) {
    PayloadEncryptions(m, b) != [] && Shares(b) && FirstDemanding(m, Bib, PRIMARY_NUMBER).Some?
  }

  /** What has to be covered so that a source finds nothing to do. */
  predicate Covered(m: seq<Rule>, d: Bundle) {
    && (FirstDemanding(m, Bib, PRIMARY_NUMBER).Some? ==> PRIMARY_NUMBER in Sig(d) || PRIMARY_NUMBER in Enc(d))
    && (FirstDemanding(m, Bib, PAYLOAD_NUMBER).Some? ==> PAYLOAD_NUMBER in Sig(d) || PAYLOAD_NUMBER in Enc(d))
    && (FirstDemanding(m, Bcb, PAYLOAD_NUMBER).Some? ==> PAYLOAD_NUMBER in Enc(d))
  }

  lemma NothingLeft(m: seq<Rule>, d: Bundle)
    ensures PrimarySigns(m, d) + PayloadSigns(m, d) + PayloadEncryptions(m, d) == [] <==> Covered(m, d)
  {
    hide FirstDemanding, Sig, Enc;
    var x, y, z := PrimarySigns(m, d), PayloadSigns(m, d), PayloadEncryptions(m, d);
    assert |x + y + z| == |x| + |y| + |z|;
  }

  lemma GrownSigns(b: Bundle, c: Bundle, s0: bool, s1: bool)
    requires Grown(b, c, s0, s1)
    ensures PRIMARY_NUMBER in Sig(c) <==> PRIMARY_NUMBER in Sig(b) || (s0 && FreshNumber(b) !in Enc(b))
    ensures PAYLOAD_NUMBER in Sig(c) <==> PAYLOAD_NUMBER in Sig(b) || (s1 && PayloadBibNumber(b, s0) !in Enc(b))
  {
    hide Sound, VisibleBib, Enc, Sig, Has, MaxNumber;
    SigMember(c, PRIMARY_NUMBER);
    SigMember(b, PRIMARY_NUMBER);
    SigMember(c, PAYLOAD_NUMBER);
    SigMember(b, PAYLOAD_NUMBER);
    var x, y := NewBib(FreshNumber(b), PRIMARY_NUMBER), NewBib(PayloadBibNumber(b, s0), PAYLOAD_NUMBER);
    assert PRIMARY_NUMBER in x.targets && PAYLOAD_NUMBER in y.targets;
    assert s0 && FreshNumber(b) !in Enc(b) ==> VisibleBib(c, x);
    assert s1 && PayloadBibNumber(b, s0) !in Enc(b) ==> VisibleBib(c, y);
  }

  /** The primary block after sealing: covered by what a BIB that does not cover the payload, or a BCB, gives it. */
  lemma PrimaryAfterSealing(b: Bundle, c: Bundle, s0: bool, s1: bool, d: Bundle)
    requires Grown(b, c, s0, s1) && SealedInto(c, d)
    ensures PAYLOAD_NUMBER in Enc(d)
    ensures PRIMARY_NUMBER in Enc(d) <==> PRIMARY_NUMBER in Enc(b)
    ensures PRIMARY_NUMBER in Sig(d) <==>
      || (s0 && FreshNumber(b) !in Enc(b))
      || exists x :: VisibleBib(b, x) && PRIMARY_NUMBER in x.targets && PAYLOAD_NUMBER !in x.targets
  {
    hide Sound, Enc, Sig, VisibleBib, EncryptWithBibs, Has, MaxNumber;
    var r, key :|
      EncryptWithBibs(c, PAYLOAD_NUMBER, r, key).Done? && EncryptWithBibs(c, PAYLOAD_NUMBER, r, key).bundle == d;
    EncryptSees(c, r, key);
    SigMember(d, PRIMARY_NUMBER);
    forall x | PayloadBib(c, x) ensures x.number != PRIMARY_NUMBER {
      BibNotPayload(c, x);
    }
    if s0 && FreshNumber(b) !in Enc(b) {
      var x := NewBib(FreshNumber(b), PRIMARY_NUMBER);
      assert NewPrimaryBib(b, x) && VisibleBib(c, x) && VisibleBib(d, x) && PRIMARY_NUMBER in x.targets;
    }
    if x :| VisibleBib(b, x) && PRIMARY_NUMBER in x.targets && PAYLOAD_NUMBER !in x.targets {
      assert VisibleBib(c, x) && VisibleBib(d, x);
    }
  }

  lemma CoveredUnsealed(m: seq<Rule>, b: Bundle, c: Bundle)
    requires Grown(b, c, PrimarySigns(m, b) != [], PayloadSigns(m, b) != []) && PayloadEncryptions(m, b) == []
    ensures Covered(m, c) <==> !HidesNew(m, b)
  {
    GrownSigns(b, c, PrimarySigns(m, b) != [], PayloadSigns(m, b) != []);
    assert Enc(c) == Enc(b);
    hide Grown, Sig, Enc, FirstDemanding, FreshNumber;
  }

  lemma CoveredSealed(m: seq<Rule>, b: Bundle, c: Bundle, d: Bundle)
    requires Grown(b, c, PrimarySigns(m, b) != [], PayloadSigns(m, b) != []) && PayloadEncryptions(m, b) != []
    requires SealedInto(c, d)
    ensures Covered(m, d) <==> !HidesNew(m, b) && !HidesOld(m, b)
  {
    hide Grown, Sig, Enc, FirstDemanding, FreshNumber, VisibleBib, SealedInto;
    PrimaryAfterSealing(b, c, PrimarySigns(m, b) != [], PayloadSigns(m, b) != [], d);
    SigMember(b, PRIMARY_NUMBER);
  }

  lemma {:induction false} EncryptBlocksPrimary(b: Bundle, ks: seq<nat>, r: Rule, key: Key)
    requires EncryptBlocks(b, ks, r, key).Some?
    ensures EncryptBlocks(b, ks, r, key).value.primary == b.primary
    decreases |ks|
  {
    if ks != [] {
      EncryptBlocksPrimary(EncryptBlock(b, ks[0], key, r.aes, r.wrapped).value, ks[1..], r, key);
    }
  }

  lemma {:induction false} MatchingStep(glob: Glob, rules: seq<Rule>, step: Step, b: Bundle)
    requires step != Receive
    ensures MatchingRules(glob, rules, step, b) == MatchingRules(glob, rules, Forward, b)
  {
    if rules != [] {
      MatchingStep(glob, rules[1..], step, b);
    }
  }

  lemma MatchingAgain(glob: Glob, rules: seq<Rule>, step: Step, b: Bundle, c: Bundle, s0: bool, s1: bool, d: Bundle)
    requires step != Receive && Grown(b, c, s0, s1) && (d == c || SealedInto(c, d))
    ensures MatchingRules(glob, rules, Forward, d) == MatchingRules(glob, rules, step, b)
  {
    assert b.primary.source == c.primary.source && b.primary.destination == c.primary.destination;
    hide Grown, MatchingRules, EncryptBlocks, BibsOf;
    if d != c {
      var r, key :|
        EncryptWithBibs(c, PAYLOAD_NUMBER, r, key).Done? && EncryptWithBibs(c, PAYLOAD_NUMBER, r, key).bundle == d;
      EncryptBlocksPrimary(c, BibsOf(c, PAYLOAD_NUMBER) + [PAYLOAD_NUMBER], r, key);
    }
    MatchingStep(glob, rules, step, b);
    MatchingSame(glob, rules, Forward, b, d);
  }

  lemma AllLoaded(m: seq<Rule>, keys: KeySet, b: Bundle)
    requires NothingFails(m, keys, b)
    ensures SignsPrimary(m, keys, b) <==> PrimarySigns(m, b) != []
    ensures SignsPayload(m, keys, b) <==> PayloadSigns(m, b) != []
    ensures Seals(m, keys, b) <==> PayloadEncryptions(m, b) != []
  {
    hide PrimarySigns, PayloadSigns, PayloadEncryptions;
  }

  /** If nothing fails, enforcing the source rules again at Forward finds nothing to do, unless a new BIB is hidden by a
      BCB for its number, or the old BIBs of the primary block by encrypting the payload. */
  lemma IdempotentExactly(glob: Glob, rules: seq<Rule>, keys: KeySet, step: Step, b: Bundle)
    requires ValidRules(rules) && step != Receive && Sound(b) && Has(b.canonicals, PAYLOAD_NUMBER)
    ensures var run := Enforced(glob, rules, keys, step, b);
      var m := MatchingRules(glob, rules, step, b);
      && (Total(run.log, Failed) == 0 <==> NothingFails(m, keys, b))
      && (NothingFails(m, keys, b) ==>
            (Evaluate(glob, rules, Forward, run.bundle) == [] <==> !HidesNew(m, b) && !HidesOld(m, b)))
  {
    var run := Enforced(glob, rules, keys, step, b);
    var m := MatchingRules(glob, rules, step, b);
    hide *;
    var c := SourceRun(glob, rules, keys, step, b);
    if NothingFails(m, keys, b) {
      AllLoaded(m, keys, b);
      MatchingAgain(glob, rules, step, b, c, SignsPrimary(m, keys, b), SignsPayload(m, keys, b), run.bundle);
      SourceEvaluated(glob, rules, Forward, run.bundle);
      NothingLeft(m, run.bundle);
      if Seals(m, keys, b) {
        CoveredSealed(m, b, c, run.bundle);
      } else {
        CoveredUnsealed(m, b, c);
        HidesOldSeals(m, b);
      }
    }
  }

  lemma HidesOldSeals(m: seq<Rule>, b: Bundle)
    ensures HidesOld(m, b) ==> PayloadEncryptions(m, b) != []
  {}

  /** With one target per BIB, a source whose operations succeed has something left to do only if a BCB targets the
      number of a new BIB. */
  lemma IdempotentForSingleTargets(glob: Glob, rules: seq<Rule>, keys: KeySet, step: Step, b: Bundle)
    requires ValidRules(rules) && step != Receive && Sound(b) && Has(b.canonicals, PAYLOAD_NUMBER)
    requires forall x :: VisibleBib(b, x) ==> |x.targets| == 1
    ensures var run := Enforced(glob, rules, keys, step, b);
      var m := MatchingRules(glob, rules, step, b);
      NothingFails(m, keys, b) ==> (Evaluate(glob, rules, Forward, run.bundle) == [] <==> !HidesNew(m, b))
  {
    hide Sound, ValidRules, Has, Enforced, VisibleBib, Shares, FirstDemanding, MatchingRules, Evaluate, HidesNew;
    hide NothingFails, PayloadEncryptions;
    IdempotentExactly(glob, rules, keys, step, b);
    SingleTargets(b);
  }

  lemma SingleTargets(b: Bundle)
    requires forall x :: VisibleBib(b, x) ==> |x.targets| == 1
    ensures !Shares(b)
  {
    hide VisibleBib, Enc, Sig;
    SigMember(b, PRIMARY_NUMBER);
    if x :| VisibleBib(b, x) && PRIMARY_NUMBER in x.targets {
      assert x.targets == [PRIMARY_NUMBER];
      assert PAYLOAD_NUMBER !in x.targets;
    }
  }
}
