/** The loops of the policy engine, proved to compute the actions the specification names. */
module BpsecEngine {
  import opened BpsecBundle
  import opened BpsecPolicy

  lemma DemandsPrefix(rules: seq<Rule>, i: nat, op: Operation)
    requires i < |rules|
    ensures Demands(rules[..i + 1], op)
      == Demands(rules[..i], op) + (if rules[i].operation == op then DemandsOf(rules[i]) else [])
  {
    assert rules[..i + 1][..i] == rules[..i];
  }

  /** One more target for the loops of the source: `done` are the demands met so far. */
  lemma ServeOne(done: seq<Demand>, d: Demand, seen: set<nat>)
    ensures Firsts(done + [d], TargetKey(), seen)
      == Firsts(done, TargetKey(), seen) + (if d.target in seen + Keys(done, TargetKey()) then [] else [d])
    ensures Keys(done + [d], TargetKey()) == Keys(done, TargetKey()) + {d.target}
  {
    FirstsSnoc(done, d, TargetKey(), seen);
    KeysSnoc(done, d, TargetKey());
  }

  /** Signs the targets of one BIB rule that are neither encrypted nor signed yet. */
  method SignRule(r: Rule, ghost done: seq<Demand>, ghost existing: seq<SecurityBlock>, alreadyEncrypted: set<nat>,
                  signed0: set<nat>, signs0: seq<Action>)
    returns (signed: set<nat>, signs: seq<Action>)
    requires alreadyEncrypted == TargetsOf(existing, Bcb)
    requires signed0 == TargetsOf(existing, Bib) + (Keys(done, TargetKey()) - alreadyEncrypted)
    requires signs0 == Signs(Firsts(done, TargetKey(), TargetsOf(existing, Bib) + alreadyEncrypted))
    ensures signed == TargetsOf(existing, Bib) + (Keys(done + DemandsOf(r), TargetKey()) - alreadyEncrypted)
    ensures signs == Signs(Firsts(done + DemandsOf(r), TargetKey(), TargetsOf(existing, Bib) + alreadyEncrypted))
  {
    hide TargetsOf, Firsts, Keys, TargetNumbers;
    signed, signs := signed0, signs0;
    var targets := TargetNumbers(r);
    ghost var seen := TargetsOf(existing, Bib) + alreadyEncrypted;
    assert done + DemandsOf(r)[..0] == done;
    for j := 0 to |targets|
      invariant signed == TargetsOf(existing, Bib) + (Keys(done + DemandsOf(r)[..j], TargetKey()) - alreadyEncrypted)
      invariant signs == Signs(Firsts(done + DemandsOf(r)[..j], TargetKey(), seen))
    {
      var target := targets[j];
      ghost var before := done + DemandsOf(r)[..j];
      ServeOne(before, Demand(r, target), seen);
      assert before + [Demand(r, target)] == done + DemandsOf(r)[..j + 1];
      if target !in alreadyEncrypted && target !in signed {
        signed := signed + {target};
        signs := signs + [Action(r, SignTarget(target))];
      }
    }
    assert DemandsOf(r)[..|targets|] == DemandsOf(r);
  }

  /** Encrypts the targets of one BCB rule that are not encrypted yet. */
  method EncryptRule(r: Rule, ghost done: seq<Demand>, ghost seen: set<nat>, encrypted0: set<nat>,
                     encryptions0: seq<Action>)
    returns (encrypted: set<nat>, encryptions: seq<Action>)
    requires encrypted0 == seen + Keys(done, TargetKey())
    requires encryptions0 == Encryptions(Firsts(done, TargetKey(), seen))
    ensures encrypted == seen + Keys(done + DemandsOf(r), TargetKey())
    ensures encryptions == Encryptions(Firsts(done + DemandsOf(r), TargetKey(), seen))
  {
    hide Firsts, Keys, TargetNumbers;
    encrypted, encryptions := encrypted0, encryptions0;
    var targets := TargetNumbers(r);
    assert done + DemandsOf(r)[..0] == done;
    for j := 0 to |targets|
      invariant encrypted == seen + Keys(done + DemandsOf(r)[..j], TargetKey())
      invariant encryptions == Encryptions(Firsts(done + DemandsOf(r)[..j], TargetKey(), seen))
    {
      var target := targets[j];
      ghost var before := done + DemandsOf(r)[..j];
      ServeOne(before, Demand(r, target), seen);
      assert before + [Demand(r, target)] == done + DemandsOf(r)[..j + 1];
      if target !in encrypted {
        encrypted := encrypted + {target};
        encryptions := encryptions + [Action(r, EncryptTarget(target))];
      }
    }
    assert DemandsOf(r)[..|targets|] == DemandsOf(r);
  }

  method ComputeSourceActions(rules: seq<Rule>, existing: seq<SecurityBlock>) returns (actions: seq<Action>)
    ensures actions == SourceActions(rules, existing)
  {
    var signed := TargetsOf(existing, Bib);
    var alreadyEncrypted := TargetsOf(existing, Bcb);
    var encrypted := alreadyEncrypted;
    var signs, encryptions := [], [];
    ghost var seen := TargetsOf(existing, Bib) + alreadyEncrypted;
    for i := 0 to |rules|
      invariant signed == TargetsOf(existing, Bib) + (Keys(Demands(rules[..i], Bib), TargetKey()) - alreadyEncrypted)
      invariant signs == Signs(Firsts(Demands(rules[..i], Bib), TargetKey(), seen))
      invariant encrypted == alreadyEncrypted + Keys(Demands(rules[..i], Bcb), TargetKey())
      invariant encryptions == Encryptions(Firsts(Demands(rules[..i], Bcb), TargetKey(), alreadyEncrypted))
    {
      hide TargetsOf, Firsts, Keys, Demands, DemandsOf, Signs, Encryptions;
      DemandsPrefix(rules, i, Bib);
      DemandsPrefix(rules, i, Bcb);
      assert Demands(rules[..i], Bib) + [] == Demands(rules[..i], Bib);
      assert Demands(rules[..i], Bcb) + [] == Demands(rules[..i], Bcb);
      match rules[i].operation {
        case Bib =>
          signed, signs :=
            SignRule(rules[i], Demands(rules[..i], Bib), existing, alreadyEncrypted, signed, signs);
        case Bcb =>
          encrypted, encryptions :=
            EncryptRule(rules[i], Demands(rules[..i], Bcb), alreadyEncrypted, encrypted, encryptions);
      }
    }
    assert rules[..|rules|] == rules;
    actions := SortByFlag(signs, NotPrimary()) + encryptions;
  }

  // ---------------------------------------------------------------- receiver

  lemma HandleOne(done: seq<Handling>, h: Handling)
    ensures Firsts(done + [h], BlockKey(), {})
      == Firsts(done, BlockKey(), {}) + (if h.block.number in Keys(done, BlockKey()) then [] else [h])
    ensures Keys(done + [h], BlockKey()) == Keys(done, BlockKey()) + {h.block.number}
  {
    FirstsSnoc(done, h, BlockKey(), {});
    KeysSnoc(done, h, BlockKey());
  }

  lemma {:induction false} FilterSnoc<T>(xs: seq<T>, x: T, p: T -> bool)
    ensures Filter(xs + [x], p) == Filter(xs, p) + (if p(x) then [x] else [])
  {
    if xs == [] {
      assert xs + [x] == [x];
    } else {
      FilterSnoc(xs[1..], x, p);
      assert (xs + [x])[1..] == xs[1..] + [x];
    }
  }

  /** The actions of an operation among those of the handlings. */
  ghost function ActionsOf(hs: seq<Handling>, op: Operation): seq<Action> {
    Filter(HandlingActions(Firsts(hs, BlockKey(), {})), OfOperation(op))
  }

  lemma ActionsOfSnoc(done: seq<Handling>, h: Handling, op: Operation)
    ensures ActionsOf(done + [h], op)
      == ActionsOf(done, op)
         + (if h.block.number in Keys(done, BlockKey()) || h.rule.operation != op then [] else [HandlingAction(h)])
  {
    HandleOne(done, h);
    var hs := Firsts(done, BlockKey(), {});
    if h.block.number !in Keys(done, BlockKey()) {
      assert HandlingActions(hs + [h]) == HandlingActions(hs) + [HandlingAction(h)];
      FilterSnoc(HandlingActions(hs), HandlingAction(h), OfOperation(op));
    } else {
      assert Firsts(done + [h], BlockKey(), {}) == hs;
    }
  }

  /** Handles the blocks a rule covers that no earlier rule handled. */
  method HandleBlocks(r: Rule, existing: seq<SecurityBlock>, ghost done: seq<Handling>, handled0: set<nat>,
                      decryptions0: seq<Action>, verifications0: seq<Action>)
    returns (handled: set<nat>, decryptions: seq<Action>, verifications: seq<Action>)
    requires handled0 == Keys(done, BlockKey())
    requires decryptions0 == ActionsOf(done, Bcb) && verifications0 == ActionsOf(done, Bib)
    ensures handled == Keys(done + HandlingsOf(r, existing), BlockKey())
    ensures decryptions == ActionsOf(done + HandlingsOf(r, existing), Bcb)
    ensures verifications == ActionsOf(done + HandlingsOf(r, existing), Bib)
  {
    hide ActionsOf, Keys, Covers;
    handled, decryptions, verifications := handled0, decryptions0, verifications0;
    assert done + HandlingsOf(r, existing[..0]) == done;
    for j := 0 to |existing|
      invariant handled == Keys(done + HandlingsOf(r, existing[..j]), BlockKey())
      invariant decryptions == ActionsOf(done + HandlingsOf(r, existing[..j]), Bcb)
      invariant verifications == ActionsOf(done + HandlingsOf(r, existing[..j]), Bib)
    {
      var block := existing[j];
      ghost var before := done + HandlingsOf(r, existing[..j]);
      assert existing[..j + 1][..j] == existing[..j];
      if Covers(r, block) {
        ghost var h := Handling(r, block);
        assert before + [h] == done + HandlingsOf(r, existing[..j + 1]);
        HandleOne(before, h);
        ActionsOfSnoc(before, h, Bcb);
        ActionsOfSnoc(before, h, Bib);
        if block.number !in handled {
          handled := handled + {block.number};
          match (r.operation, r.role) {
            case (Bcb, _) => decryptions := decryptions + [Action(r, DecryptBcb(block.number))];
            case (Bib, Acceptor) => verifications := verifications + [Action(r, AcceptBib(block.number))];
            case (Bib, _) => verifications := verifications + [Action(r, VerifyBib(block.number))];
          }
        }
      } else {
        assert HandlingsOf(r, existing[..j + 1]) == HandlingsOf(r, existing[..j]);
      }
    }
    assert existing[..|existing|] == existing;
  }

  lemma MissOne(done: seq<Demand>, d: Demand)
    ensures Firsts(done + [d], MissingKey(), {})
      == Firsts(done, MissingKey(), {}) + (if MissingKey()(d) in Keys(done, MissingKey()) then [] else [d])
    ensures Keys(done + [d], MissingKey()) == Keys(done, MissingKey()) + {MissingKey()(d)}
  {
    FirstsSnoc(done, d, MissingKey(), {});
    KeysSnoc(done, d, MissingKey());
  }

  /** Reports the targets of a rule that have no protection and were not reported for the operation yet. */
  method ReportMissing(r: Rule, existing: seq<SecurityBlock>, encrypted: set<nat>, ghost done: seq<Demand>,
                       reported0: set<(Operation, nat)>, missing0: seq<Action>)
    returns (reported: set<(Operation, nat)>, missing: seq<Action>)
    requires encrypted == TargetsOf(existing, Bcb)
    requires reported0 == Keys(done, MissingKey())
    requires missing0 == MissingActions(Firsts(done, MissingKey(), {}))
    ensures var all := done + UnprotectedOf(r, TargetNumbers(r), existing);
      reported == Keys(all, MissingKey()) && missing == MissingActions(Firsts(all, MissingKey(), {}))
  {
    hide Firsts, Keys, TargetNumbers;
    reported, missing := reported0, missing0;
    var targets := TargetNumbers(r);
    assert done + UnprotectedOf(r, targets[..0], existing) == done;
    for j := 0 to |targets|
      invariant reported == Keys(done + UnprotectedOf(r, targets[..j], existing), MissingKey())
      invariant missing == MissingActions(Firsts(done + UnprotectedOf(r, targets[..j], existing), MissingKey(), {}))
    {
      var target := targets[j];
      ghost var before := done + UnprotectedOf(r, targets[..j], existing);
      assert targets[..j + 1][..j] == targets[..j];
      var protected :=
        (exists i :: 0 <= i < |existing| && existing[i].operation == r.operation && target in existing[i].targets)
        || (r.operation == Bib && target in encrypted);
      assert protected == Protected(existing, r.operation, target);
      if !protected {
        ghost var d := Demand(r, target);
        assert before + [d] == done + UnprotectedOf(r, targets[..j + 1], existing);
        MissOne(before, d);
        if (r.operation, target) !in reported {
          reported := reported + {(r.operation, target)};
          missing := missing + [Action(r, Missing(target))];
        }
      } else {
        assert UnprotectedOf(r, targets[..j + 1], existing) == UnprotectedOf(r, targets[..j], existing);
      }
    }
    assert targets[..|targets|] == targets;
  }

  lemma RulesPrefix(rules: seq<Rule>, i: nat, existing: seq<SecurityBlock>)
    requires i < |rules|
    ensures Handlings(rules[..i + 1], existing) == Handlings(rules[..i], existing) + HandlingsOf(rules[i], existing)
    ensures Unprotected(rules[..i + 1], existing)
      == Unprotected(rules[..i], existing) + UnprotectedOf(rules[i], TargetNumbers(rules[i]), existing)
  {
    assert rules[..i + 1][..i] == rules[..i];
  }

  method ComputeReceiverActions(rules: seq<Rule>, existing: seq<SecurityBlock>) returns (actions: seq<Action>)
    ensures actions == ReceiverActions(rules, existing)
  {
    var encrypted := TargetsOf(existing, Bcb);
    var handled: set<nat>, reported: set<(Operation, nat)> := {}, {};
    var missing, decryptions, verifications := [], [], [];
    for i := 0 to |rules|
      invariant handled == Keys(Handlings(rules[..i], existing), BlockKey())
      invariant decryptions == ActionsOf(Handlings(rules[..i], existing), Bcb)
      invariant verifications == ActionsOf(Handlings(rules[..i], existing), Bib)
      invariant reported == Keys(Unprotected(rules[..i], existing), MissingKey())
      invariant missing == MissingActions(Firsts(Unprotected(rules[..i], existing), MissingKey(), {}))
    {
      hide *;
      RulesPrefix(rules, i, existing);
      handled, decryptions, verifications :=
        HandleBlocks(rules[i], existing, Handlings(rules[..i], existing), handled, decryptions, verifications);
      reported, missing :=
        ReportMissing(rules[i], existing, encrypted, Unprotected(rules[..i], existing), reported, missing);
    }
    assert rules[..|rules|] == rules;
    actions := missing + decryptions + SortByFlag(verifications, AcceptsPrimary(existing));
  }
}
