/** Bundles on which source enforcement breaks the block-interaction rule, or has to be repeated. */
module BpsecWitness {
  import opened Options
  import opened BpsecBundle
  import opened BpsecPolicy
  import opened BpsecPolicySpec
  import opened BpsecEnforcement
  import opened BpsecStages
  import opened BpsecRoundTrip
  import opened BpsecVisible
  import opened BpsecSource

  const PRIMARY := Primary(0, "dtn://a/x", "dtn://b/y", Crc32)

  const PAYLOAD := Block(1, Payload, Bytes([]), Crc32)

  /** A BIB for one target, with one result. */
  function BibBlock(n: nat, target: nat): Block {
    Block(n, Integrity, Asb([target], [Mac([], Sha384, PRIMARY, target, Nothing, n)]), CrcNo)
  }

  /** A payload, a BIB for it, and a BIB for that BIB. */
  const NESTED := Bundle(PRIMARY, [PAYLOAD, BibBlock(2, 1), BibBlock(3, 2)])

  /** A payload and a BIB for a block that is not there any more. */
  const DANGLING_BIB := Bundle(PRIMARY, [PAYLOAD, BibBlock(2, 3)])

  /** A payload and a BCB for a block that is not there any more. */
  const DANGLING_BCB := Bundle(PRIMARY, [PAYLOAD, BcbFor(2, 3)])

  const SIGN_RULE := Rule("sign", Source, "*", "*", Bib, [PayloadTarget], "k", Sha384, Aes128, false, DropBundle)

  const SEAL_RULE :=
    Rule("seal", Source, "*", "*", Operation.Bcb, [PayloadTarget], "k", Sha384, Aes128, false, DropBundle)

  const KEYS: KeySet := map["k" := seq(16, _ => 0)]

  /** The glob matcher takes "*" for everything here. */
  predicate StarMatches(glob: Glob) {
    glob("*", PRIMARY.source) && glob("*", PRIMARY.destination)
  }

  // ---------------------------------------------------------------- rules

  lemma OneMatches(glob: Glob, r: Rule, b: Bundle)
    requires StarMatches(glob) && b.primary == PRIMARY && (r == SIGN_RULE || r == SEAL_RULE)
    ensures MatchingRules(glob, [r], Transmit, b) == [r] && ValidRules([r])
  {
    assert [r][1..] == [];
  }

  lemma BothMatch(glob: Glob, b: Bundle)
    requires StarMatches(glob) && b.primary == PRIMARY
    ensures MatchingRules(glob, [SIGN_RULE, SEAL_RULE], Transmit, b) == [SIGN_RULE, SEAL_RULE]
    ensures ValidRules([SIGN_RULE, SEAL_RULE])
  {
    assert [SIGN_RULE, SEAL_RULE][1..] == [SEAL_RULE];
    OneMatches(glob, SEAL_RULE, b);
  }

  lemma Demands(op: Operation, t: nat)
    ensures FirstDemanding([SIGN_RULE], op, t) == if op == Bib && t == PAYLOAD_NUMBER then Some(SIGN_RULE) else None
    ensures FirstDemanding([SEAL_RULE], op, t)
      == if op == Operation.Bcb && t == PAYLOAD_NUMBER then Some(SEAL_RULE) else None
    ensures FirstDemanding([SIGN_RULE, SEAL_RULE], op, t)
      == if t != PAYLOAD_NUMBER then None else if op == Bib then Some(SIGN_RULE) else Some(SEAL_RULE)
  {
    assert [SIGN_RULE][1..] == [] && [SEAL_RULE][1..] == [] && [SIGN_RULE, SEAL_RULE][1..] == [SEAL_RULE];
    assert TargetNumbers(SIGN_RULE) == [PAYLOAD_NUMBER] && TargetNumbers(SEAL_RULE) == [PAYLOAD_NUMBER];
  }

  // ---------------------------------------------------------------- what the policy sees

  lemma NestedSeen()
    ensures Enc(NESTED) == {} && VisibleBib(NESTED, NewBib(2, 1)) && VisibleBib(NESTED, NewBib(3, 2))
    ensures forall x :: VisibleBib(NESTED, x) ==> x == NewBib(2, 1) || x == NewBib(3, 2)
  {
    hide VisibleBib, Enc;
    forall t ensures t !in Enc(NESTED) {
      EncExactly(NESTED, t);
    }
    assert BibOf(NESTED.canonicals[1]) == Some(NewBib(2, 1)) && BibOf(NESTED.canonicals[2]) == Some(NewBib(3, 2));
    forall x {
      VisibleExactly(NESTED, x);
    }
  }

  lemma DanglingBibSeen()
    ensures Enc(DANGLING_BIB) == {} && VisibleBib(DANGLING_BIB, NewBib(2, 3))
    ensures forall x :: VisibleBib(DANGLING_BIB, x) ==> x == NewBib(2, 3)
  {
    hide VisibleBib, Enc;
    forall t ensures t !in Enc(DANGLING_BIB) {
      EncExactly(DANGLING_BIB, t);
    }
    assert BibOf(DANGLING_BIB.canonicals[1]) == Some(NewBib(2, 3));
    forall x {
      VisibleExactly(DANGLING_BIB, x);
    }
  }

  lemma DanglingBcbSeen()
    ensures Enc(DANGLING_BCB) == {3} && forall x :: !VisibleBib(DANGLING_BCB, x)
  {
    hide VisibleBib, Enc;
    assert 3 in [3] && TargetedBy(DANGLING_BCB.canonicals[1], 3);
    forall t ensures t in Enc(DANGLING_BCB) <==> t == 3 {
      EncExactly(DANGLING_BCB, t);
    }
    forall x {
      VisibleExactly(DANGLING_BCB, x);
    }
  }

  lemma WellFormedBundles()
    ensures Sound(NESTED) && Sound(DANGLING_BIB) && Sound(DANGLING_BCB)
    ensures Has(NESTED.canonicals, PAYLOAD_NUMBER) && Has(DANGLING_BIB.canonicals, PAYLOAD_NUMBER)
    ensures Has(DANGLING_BCB.canonicals, PAYLOAD_NUMBER)
    ensures FreshNumber(DANGLING_BIB) == 3 && FreshNumber(DANGLING_BCB) == 3
  {
    assert NESTED.canonicals[0].number == DANGLING_BIB.canonicals[0].number == DANGLING_BCB.canonicals[0].number == 1;
    assert DANGLING_BIB.canonicals[1..][1..] == [] && DANGLING_BCB.canonicals[1..][1..] == [];
    assert MaxNumber(DANGLING_BIB.canonicals[1..]) == 2 && MaxNumber(DANGLING_BCB.canonicals[1..]) == 2;
  }

  // ---------------------------------------------------------------- the rule broken

  lemma NestedSealed()
    ensures Seals([SEAL_RULE], KEYS, NESTED)
  {
    hide Enc, Sig, FirstDemanding;
    NestedSeen();
    Demands(Bib, PRIMARY_NUMBER);
    Demands(Bib, PAYLOAD_NUMBER);
    Demands(Operation.Bcb, PAYLOAD_NUMBER);
  }

  lemma NestedNested()
    ensures Nested(NESTED) && Interaction(NESTED)
  {
    hide VisibleBib, Enc, Sig;
    NestedSeen();
    var x, y := NewBib(3, 2), NewBib(2, 1);
    assert PayloadBib(NESTED, y) && y.number in x.targets && PAYLOAD_NUMBER !in x.targets;
  }

  /** A BIB of the payload's BIB stays visible while its target is encrypted with the payload. */
  lemma InteractionCanFail(glob: Glob)
    requires StarMatches(glob)
    ensures Interaction(NESTED) && ValidRules([SEAL_RULE])
    ensures !Interaction(Enforced(glob, [SEAL_RULE], KEYS, Transmit, NESTED).bundle)
  {
    OneMatches(glob, SEAL_RULE, NESTED);
    hide *;
    WellFormedBundles();
    NestedSealed();
    NestedNested();
    InteractionExactly(glob, [SEAL_RULE], KEYS, Transmit, NESTED);
  }

  lemma DanglingSealed()
    ensures var m := [SIGN_RULE, SEAL_RULE];
      Seals(m, KEYS, DANGLING_BIB) && SignsPayload(m, KEYS, DANGLING_BIB) && !SignsPrimary(m, KEYS, DANGLING_BIB)
  {
    hide FirstDemanding, Enc, Sig, VisibleBib;
    DanglingBibSeen();
    SigMember(DANGLING_BIB, PAYLOAD_NUMBER);
    Demands(Bib, PRIMARY_NUMBER);
    Demands(Bib, PAYLOAD_NUMBER);
    Demands(Operation.Bcb, PAYLOAD_NUMBER);
  }

  lemma DanglingNests()
    ensures Interaction(DANGLING_BIB) && !Nested(DANGLING_BIB) && NestsNew(DANGLING_BIB, false)
  {
    hide VisibleBib, Enc, Sig, FreshNumber;
    DanglingBibSeen();
    WellFormedBundles();
    var x := NewBib(2, 3);
    assert PAYLOAD_NUMBER !in x.targets && PayloadBibNumber(DANGLING_BIB, false) in x.targets;
  }

  /** The payload's new BIB gets the number that a BIB still targets, and is encrypted with the payload. */
  lemma DanglingTargetBreaks(glob: Glob)
    requires StarMatches(glob)
    ensures Interaction(DANGLING_BIB) && !Nested(DANGLING_BIB) && ValidRules([SIGN_RULE, SEAL_RULE])
    ensures !Interaction(Enforced(glob, [SIGN_RULE, SEAL_RULE], KEYS, Transmit, DANGLING_BIB).bundle)
  {
    BothMatch(glob, DANGLING_BIB);
    hide *;
    WellFormedBundles();
    DanglingSealed();
    DanglingNests();
    InteractionExactly(glob, [SIGN_RULE, SEAL_RULE], KEYS, Transmit, DANGLING_BIB);
  }

  // ---------------------------------------------------------------- enforcing again

  lemma DanglingHides()
    ensures var m := [SIGN_RULE];
      NothingFails(m, KEYS, DANGLING_BCB) && HidesNew(m, DANGLING_BCB)
  {
    hide FirstDemanding, Enc, Sig, VisibleBib, FreshNumber;
    DanglingBcbSeen();
    WellFormedBundles();
    SigMember(DANGLING_BCB, PAYLOAD_NUMBER);
    Demands(Bib, PRIMARY_NUMBER);
    Demands(Bib, PAYLOAD_NUMBER);
    Demands(Operation.Bcb, PAYLOAD_NUMBER);
  }

  /** The payload's new BIB gets a number that a BCB still targets and counts as encrypted, so that the payload has to be
      signed again. */
  lemma DanglingTargetRepeats(glob: Glob)
    requires StarMatches(glob)
    ensures (forall x :: !VisibleBib(DANGLING_BCB, x)) && ValidRules([SIGN_RULE])
    ensures NothingFails([SIGN_RULE], KEYS, DANGLING_BCB)
    ensures Evaluate(glob, [SIGN_RULE], Forward, Enforced(glob, [SIGN_RULE], KEYS, Transmit, DANGLING_BCB).bundle) != []
  {
    OneMatches(glob, SIGN_RULE, DANGLING_BCB);
    hide *;
    WellFormedBundles();
    DanglingBcbSeen();
    DanglingHides();
    IdempotentExactly(glob, [SIGN_RULE], KEYS, Transmit, DANGLING_BCB);
  }
}
