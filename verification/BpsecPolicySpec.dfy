/** What the policy engine decides, stated over rules and blocks instead of loops, and the loops proved to decide it. */
module BpsecPolicySpec {
  import opened Options
  import opened BpsecBundle
  import opened BpsecPolicy

  // ---------------------------------------------------------------- first matching rules

  /** The rule covers a visible security block with the number. */
  predicate CoversNumber(r: Rule, existing: seq<SecurityBlock>, n: nat) {
    exists i :: 0 <= i < |existing| && existing[i].number == n && Covers(r, existing[i])
  }

  /** The first rule that covers a security block with the number. */
  function FirstCovering(rules: seq<Rule>, existing: seq<SecurityBlock>, n: nat): Option<Rule> {
    if rules == [] then None
    else if CoversNumber(rules[0], existing, n) then Some(rules[0])
    else FirstCovering(rules[1..], existing, n)
  }

  /** The first rule that demands an operation for a target. */
  function FirstDemanding(rules: seq<Rule>, op: Operation, target: nat): Option<Rule> {
    if rules == [] then None
    else if rules[0].operation == op && target in TargetNumbers(rules[0]) then Some(rules[0])
    else FirstDemanding(rules[1..], op, target)
  }

  lemma {:induction false} FirstCoveringSnoc(rules: seq<Rule>, r: Rule, existing: seq<SecurityBlock>, n: nat)
    ensures FirstCovering(rules + [r], existing, n)
      == if FirstCovering(rules, existing, n).Some? then FirstCovering(rules, existing, n)
         else if CoversNumber(r, existing, n) then Some(r) else None
  {
    if rules == [] {
      assert rules + [r] == [r];
    } else {
      FirstCoveringSnoc(rules[1..], r, existing, n);
      assert (rules + [r])[1..] == rules[1..] + [r];
    }
  }

  lemma {:induction false} FirstDemandingSnoc(rules: seq<Rule>, r: Rule, op: Operation, target: nat)
    ensures FirstDemanding(rules + [r], op, target)
      == if FirstDemanding(rules, op, target).Some? then FirstDemanding(rules, op, target)
         else if r.operation == op && target in TargetNumbers(r) then Some(r) else None
  {
    if rules == [] {
      assert rules + [r] == [r];
    } else {
      FirstDemandingSnoc(rules[1..], r, op, target);
      assert (rules + [r])[1..] == rules[1..] + [r];
    }
  }

  // ---------------------------------------------------------------- lemmas about Firsts

  lemma {:induction false} FirstsAppend<T, K(!new)>(xs: seq<T>, ys: seq<T>, key: T -> K, seen: set<K>)
    ensures Firsts(xs + ys, key, seen) == Firsts(xs, key, seen) + Firsts(ys, key, seen + Keys(xs, key))
    decreases |ys|
  {
    if ys == [] {
      assert xs + ys == xs;
    } else {
      var y, rest := ys[0], ys[1..];
      var s := seen + Keys(xs, key);
      FirstsAppend(xs + [y], rest, key, seen);
      assert (xs + [y]) + rest == xs + ys;
      FirstsSnoc(xs, y, key, seen);
      KeysSnoc(xs, y, key);
      assert seen + Keys(xs + [y], key) == s + {key(y)};
      FirstsHead(ys, key, s);
      hide Firsts, Keys;
    }
  }

  lemma FirstsHead<T, K(!new)>(ys: seq<T>, key: T -> K, s: set<K>)
    requires ys != []
    ensures Firsts(ys, key, s) == (if key(ys[0]) in s then [] else [ys[0]]) + Firsts(ys[1..], key, s + {key(ys[0])})
  {
    if key(ys[0]) in s {
      assert s + {key(ys[0])} == s;
    }
  }

  lemma KeysAppend<T, K(!new)>(xs: seq<T>, ys: seq<T>, key: T -> K)
    ensures Keys(xs + ys, key) == Keys(xs, key) + Keys(ys, key)
  {
    var zs := xs + ys;
    forall k ensures k in Keys(zs, key) <==> k in Keys(xs, key) + Keys(ys, key) {
      if k in Keys(xs, key) {
        var i :| 0 <= i < |xs| && key(xs[i]) == k;
        assert zs[i] == xs[i];
      }
      if k in Keys(ys, key) {
        var i :| 0 <= i < |ys| && key(ys[i]) == k;
        assert zs[|xs| + i] == ys[i];
      }
    }
  }

  lemma {:induction false} FirstIndex<T, K>(xs: seq<T>, key: T -> K, i: nat) returns (k: nat)
    requires i < |xs|
    ensures k <= i && key(xs[k]) == key(xs[i]) && FirstAt(xs, key, k)
    decreases i
  {
    k := i;
    if j :| 0 <= j < i && key(xs[j]) == key(xs[i]) {
      k := FirstIndex(xs, key, j);
    }
  }

  /** `Firsts` keeps one element for each new key. */
  lemma FirstsKeys<T(!new), K(!new)>(xs: seq<T>, key: T -> K, seen: set<K>)
    ensures var r := Firsts(xs, key, seen);
      && (forall x :: x in r ==> x in xs)
      && (forall k :: k in Keys(r, key) <==> k in Keys(xs, key) && k !in seen)
      && (forall i, j :: 0 <= i < j < |r| ==> key(r[i]) != key(r[j]))
  {
    var r := Firsts(xs, key, seen);
    FirstsMeaning(xs, key, seen);
    forall k | k in Keys(xs, key) && k !in seen ensures k in Keys(r, key) {
      var i :| 0 <= i < |xs| && key(xs[i]) == k;
      var f := FirstIndex(xs, key, i);
      assert xs[f] in r;
    }
    forall k | k in Keys(r, key) ensures k in Keys(xs, key) && k !in seen {
      var i :| 0 <= i < |r| && key(r[i]) == k;
      assert r[i] in r;
    }
  }

  // ---------------------------------------------------------------- handled blocks

  lemma {:induction false} HandlingsOfMembers(r: Rule, existing: seq<SecurityBlock>)
    ensures forall h :: h in HandlingsOf(r, existing) <==> h.rule == r && h.block in existing && Covers(r, h.block)
  {
    if existing != [] {
      var n := |existing| - 1;
      HandlingsOfMembers(r, existing[..n]);
      assert existing == existing[..n] + [existing[n]];
    }
  }

  lemma HandlingsOfKeys(r: Rule, existing: seq<SecurityBlock>)
    ensures forall n :: n in Keys(HandlingsOf(r, existing), BlockKey()) <==> CoversNumber(r, existing, n)
  {
    HandlingsOfMembers(r, existing);
    var hs := HandlingsOf(r, existing);
    forall n ensures n in Keys(hs, BlockKey()) <==> CoversNumber(r, existing, n) {
      if n in Keys(hs, BlockKey()) {
        var i :| 0 <= i < |hs| && BlockKey()(hs[i]) == n;
        assert hs[i] in hs;
      }
      if i :| 0 <= i < |existing| && existing[i].number == n && Covers(r, existing[i]) {
        var h := Handling(r, existing[i]);
        assert h in hs;
        assert BlockKey()(h) == n;
      }
    }
  }

  lemma {:induction false} HandlingKeys(rules: seq<Rule>, existing: seq<SecurityBlock>)
    ensures forall n :: n in Keys(Handlings(rules, existing), BlockKey()) <==> FirstCovering(rules, existing, n).Some?
  {
    if rules != [] {
      var k := |rules| - 1;
      var init, r := rules[..k], rules[k];
      assert rules == init + [r];
      HandlingKeys(init, existing);
      HandlingsOfKeys(r, existing);
      KeysAppend(Handlings(init, existing), HandlingsOf(r, existing), BlockKey());
      forall n {
        FirstCoveringSnoc(init, r, existing, n);
      }
    }
  }

  predicate HandledBy(hs: seq<Handling>, n: nat, r: Rule) {
    exists i :: 0 <= i < |hs| && hs[i].block.number == n && hs[i].rule == r
  }

  /** Each number of a visible security block that some rule covers is handled once, by the first such rule. */
  lemma {:induction false} HandledOnce(rules: seq<Rule>, existing: seq<SecurityBlock>)
    ensures var hs := FirstHandlings(rules, existing);
      && (forall n, r :: HandledBy(hs, n, r) <==> FirstCovering(rules, existing, n) == Some(r))
      && (forall i, j :: 0 <= i < j < |hs| ==> hs[i].block.number != hs[j].block.number)
  {
    var hs := FirstHandlings(rules, existing);
    FirstsMeaning(Handlings(rules, existing), BlockKey(), {});
    assert forall i, j :: 0 <= i < j < |hs| ==> BlockKey()(hs[i]) != BlockKey()(hs[j]);
    if rules != [] {
      var k := |rules| - 1;
      var init, last := rules[..k], rules[k];
      assert rules == init + [last];
      HandledOnce(init, existing);
      var xs, ys := Handlings(init, existing), HandlingsOf(last, existing);
      HandlingKeys(init, existing);
      HandlingsOfMembers(last, existing);
      HandlingsOfKeys(last, existing);
      FirstsAppend(xs, ys, BlockKey(), {});
      assert {} + Keys(xs, BlockKey()) == Keys(xs, BlockKey());
      FirstsKeys(ys, BlockKey(), Keys(xs, BlockKey()));
      forall n, r ensures HandledBy(hs, n, r) <==> FirstCovering(rules, existing, n) == Some(r) {
        FirstCoveringSnoc(init, last, existing, n);
        HandledSplit(FirstHandlings(init, existing), Firsts(ys, BlockKey(), Keys(xs, BlockKey())), last, n, r);
      }
    }
  }

  lemma HandledSplit(xs: seq<Handling>, ys: seq<Handling>, last: Rule, n: nat, r: Rule)
    requires forall h :: h in ys ==> h.rule == last
    ensures HandledBy(xs + ys, n, r) <==> HandledBy(xs, n, r) || (r == last && n in Keys(ys, BlockKey()))
  {
    var zs := xs + ys;
    if HandledBy(zs, n, r) {
      var i :| 0 <= i < |zs| && zs[i].block.number == n && zs[i].rule == r;
      if i >= |xs| {
        assert zs[i] == ys[i - |xs|] && BlockKey()(ys[i - |xs|]) == n;
      }
    }
    if HandledBy(xs, n, r) {
      var i :| 0 <= i < |xs| && xs[i].block.number == n && xs[i].rule == r;
      assert zs[i] == xs[i];
    }
    if n in Keys(ys, BlockKey()) {
      var i :| 0 <= i < |ys| && BlockKey()(ys[i]) == n;
      assert zs[|xs| + i] == ys[i];
    }
  }

  // ---------------------------------------------------------------- demanded targets

  lemma {:induction false} DemandKeys(rules: seq<Rule>, op: Operation)
    ensures forall t :: t in Keys(Demands(rules, op), TargetKey()) <==> FirstDemanding(rules, op, t).Some?
  {
    if rules != [] {
      var k := |rules| - 1;
      var init, r := rules[..k], rules[k];
      assert rules == init + [r];
      DemandKeys(init, op);
      DemandsOfKeys(r);
      KeysAppend(Demands(init, op), if r.operation == op then DemandsOf(r) else [], TargetKey());
      forall t {
        FirstDemandingSnoc(init, r, op, t);
      }
    }
  }

  lemma DemandsOfKeys(r: Rule)
    ensures forall t :: t in Keys(DemandsOf(r), TargetKey()) <==> t in TargetNumbers(r)
  {
    var ds := DemandsOf(r);
    forall t | t in TargetNumbers(r) ensures t in Keys(ds, TargetKey()) {
      var i :| 0 <= i < |TargetNumbers(r)| && TargetNumbers(r)[i] == t;
      assert TargetKey()(ds[i]) == t;
    }
  }

  /** Of all that is demanded, each target not in `seen` is served once, for the first rule demanding it. */
  lemma {:induction false} ServedOnce(rules: seq<Rule>, op: Operation, seen: set<nat>)
    ensures var ds := Firsts(Demands(rules, op), TargetKey(), seen);
      && (forall d :: d in ds <==> d.target !in seen && FirstDemanding(rules, op, d.target) == Some(d.rule))
      && (forall i, j :: 0 <= i < j < |ds| ==> ds[i].target != ds[j].target)
  {
    var ds := Firsts(Demands(rules, op), TargetKey(), seen);
    FirstsMeaning(Demands(rules, op), TargetKey(), seen);
    assert forall i, j :: 0 <= i < j < |ds| ==> TargetKey()(ds[i]) != TargetKey()(ds[j]);
    if rules != [] {
      var k := |rules| - 1;
      var init, last := rules[..k], rules[k];
      assert rules == init + [last];
      ServedOnce(init, op, seen);
      DemandKeys(init, op);
      DemandsOfKeys(last);
      var xs, ys := Demands(init, op), if last.operation == op then DemandsOf(last) else [];
      var more := seen + Keys(xs, TargetKey());
      FirstsAppend(xs, ys, TargetKey(), seen);
      FirstsKeys(ys, TargetKey(), more);
      forall d ensures d in ds <==> d.target !in seen && FirstDemanding(rules, op, d.target) == Some(d.rule) {
        FirstDemandingSnoc(init, last, op, d.target);
        DemandAmong(Firsts(ys, TargetKey(), more), last, d);
      }
    }
  }

  lemma DemandAmong(ys: seq<Demand>, last: Rule, d: Demand)
    requires forall y :: y in ys ==> y.rule == last
    ensures d in ys <==> d.rule == last && d.target in Keys(ys, TargetKey())
  {
    if d in ys {
      var i :| 0 <= i < |ys| && ys[i] == d;
      assert TargetKey()(ys[i]) == d.target;
    }
    if d.rule == last && d.target in Keys(ys, TargetKey()) {
      var i :| 0 <= i < |ys| && TargetKey()(ys[i]) == d.target;
      assert ys[i] in ys;
    }
  }

  // ---------------------------------------------------------------- missing operations

  lemma {:induction false} UnprotectedOfMembers(r: Rule, targets: seq<nat>, existing: seq<SecurityBlock>)
    ensures forall d ::
      d in UnprotectedOf(r, targets, existing)
      <==> d.rule == r && d.target in targets && !Protected(existing, r.operation, d.target)
  {
    if targets != [] {
      var n := |targets| - 1;
      UnprotectedOfMembers(r, targets[..n], existing);
      assert targets == targets[..n] + [targets[n]];
    }
  }

  ghost predicate Lacks(rules: seq<Rule>, existing: seq<SecurityBlock>, op: Operation, target: nat) {
    !Protected(existing, op, target) && FirstDemanding(rules, op, target).Some?
  }

  lemma {:induction false} UnprotectedKeys(rules: seq<Rule>, existing: seq<SecurityBlock>)
    ensures forall op, t: nat :: (op, t) in Keys(Unprotected(rules, existing), MissingKey()) <==> Lacks(rules, existing, op, t)
  {
    if rules != [] {
      var k := |rules| - 1;
      var init, r := rules[..k], rules[k];
      assert rules == init + [r];
      UnprotectedKeys(init, existing);
      UnprotectedOfMembers(r, TargetNumbers(r), existing);
      var xs, ys := Unprotected(init, existing), UnprotectedOf(r, TargetNumbers(r), existing);
      KeysAppend(xs, ys, MissingKey());
      forall op, t: nat ensures (op, t) in Keys(xs + ys, MissingKey()) <==> Lacks(rules, existing, op, t) {
        FirstDemandingSnoc(init, r, op, t);
        LackAmong(ys, r, Demand(r, t), op);
      }
    }
  }

  lemma LackAmong(ys: seq<Demand>, last: Rule, d: Demand, op: Operation)
    requires forall y :: y in ys ==> y.rule == last
    requires d.rule == last
    ensures (op, d.target) in Keys(ys, MissingKey()) <==> op == last.operation && d in ys
  {
    if (op, d.target) in Keys(ys, MissingKey()) {
      var i :| 0 <= i < |ys| && MissingKey()(ys[i]) == (op, d.target);
      assert ys[i] in ys;
    }
    if d in ys && op == last.operation {
      var i :| 0 <= i < |ys| && ys[i] == d;
      assert MissingKey()(ys[i]) == (op, d.target);
    }
  }

  function MissingDemands(rules: seq<Rule>, existing: seq<SecurityBlock>): seq<Demand> {
    Firsts(Unprotected(rules, existing), MissingKey(), {})
  }

  /** Each demanded operation a bundle lacks is missed once, by the first rule demanding it. */
  lemma {:induction false} MissedOnce(rules: seq<Rule>, existing: seq<SecurityBlock>)
    ensures var ds := MissingDemands(rules, existing);
      && (forall d :: d in ds <==> !Protected(existing, d.rule.operation, d.target)
                                   && FirstDemanding(rules, d.rule.operation, d.target) == Some(d.rule))
      && (forall i, j :: 0 <= i < j < |ds| ==> MissingKey()(ds[i]) != MissingKey()(ds[j]))
  {
    var ds := MissingDemands(rules, existing);
    FirstsMeaning(Unprotected(rules, existing), MissingKey(), {});
    if rules != [] {
      var k := |rules| - 1;
      var init, last := rules[..k], rules[k];
      assert rules == init + [last];
      MissedOnce(init, existing);
      UnprotectedKeys(init, existing);
      UnprotectedOfMembers(last, TargetNumbers(last), existing);
      var xs, ys := Unprotected(init, existing), UnprotectedOf(last, TargetNumbers(last), existing);
      FirstsAppend(xs, ys, MissingKey(), {});
      assert {} + Keys(xs, MissingKey()) == Keys(xs, MissingKey());
      var zs := Firsts(ys, MissingKey(), Keys(xs, MissingKey()));
      FirstsKeys(ys, MissingKey(), Keys(xs, MissingKey()));
      forall d ensures d in ds <==> !Protected(existing, d.rule.operation, d.target)
                                    && FirstDemanding(rules, d.rule.operation, d.target) == Some(d.rule) {
        FirstDemandingSnoc(init, last, d.rule.operation, d.target);
        if d.rule == last {
          LackAmong(ys, last, d, d.rule.operation);
          LackAmong(zs, last, d, d.rule.operation);
        }
      }
    }
  }

  // ---------------------------------------------------------------- order of the actions

  lemma {:induction false} FilterMembers<T(!new)>(xs: seq<T>, p: T -> bool)
    ensures forall x :: x in Filter(xs, p) <==> x in xs && p(x)
  {
    if xs != [] {
      FilterMembers(xs[1..], p);
      assert xs == [xs[0]] + xs[1..];
    }
  }

  lemma {:induction false} FilterDistinct<T(!new), K(!new)>(xs: seq<T>, p: T -> bool, key: T -> K)
    requires DistinctKeys(xs, key)
    ensures DistinctKeys(Filter(xs, p), key)
  {
    if xs != [] {
      FilterDistinct(xs[1..], p, key);
      FilterMembers(xs[1..], p);
      var rest := Filter(xs[1..], p);
      forall i | 0 <= i < |rest| ensures key(rest[i]) != key(xs[0]) {
        assert rest[i] in xs[1..];
        var j :| 0 <= j < |xs[1..]| && xs[1..][j] == rest[i];
        assert xs[j + 1] == rest[i];
      }
    }
  }

  predicate DistinctKeys<T, K(==)>(xs: seq<T>, key: T -> K) {
    forall i, j :: 0 <= i < j < |xs| ==> key(xs[i]) != key(xs[j])
  }

  predicate Ascending<T(!new)>(xs: seq<T>, rank: T -> nat) {
    forall i, j :: 0 <= i < j < |xs| ==> rank(xs[i]) <= rank(xs[j])
  }

  /** Two lists whose keys differ and whose ranks do not mix. */
  lemma JoinLists<T(!new), K(!new)>(xs: seq<T>, ys: seq<T>, key: T -> K, rank: T -> nat)
    requires DistinctKeys(xs, key) && DistinctKeys(ys, key) && Ascending(xs, rank) && Ascending(ys, rank)
    requires forall x, y :: x in xs && y in ys ==> key(x) != key(y) && rank(x) <= rank(y)
    ensures DistinctKeys(xs + ys, key) && Ascending(xs + ys, rank)
  {
    forall i, j | 0 <= i < j < |xs + ys|
      ensures key((xs + ys)[i]) != key((xs + ys)[j]) && rank((xs + ys)[i]) <= rank((xs + ys)[j])
    {
      if i < |xs| <= j {
        assert xs[i] in xs && ys[j - |xs|] in ys;
      }
    }
  }

  lemma ConstantRank<T(!new)>(xs: seq<T>, rank: T -> nat, c: nat)
    requires forall x :: x in xs ==> rank(x) == c
    ensures Ascending(xs, rank)
  {
    assert forall i :: 0 <= i < |xs| ==> xs[i] in xs;
  }

  /** Sorting by a flag keeps the elements and puts the flagged ones last. */
  lemma SortedByFlag<T(!new), K(!new)>(xs: seq<T>, flag: T -> bool, key: T -> K, rank: T -> nat, low: nat)
    requires DistinctKeys(xs, key)
    requires forall x :: x in xs ==> rank(x) == if flag(x) then low + 1 else low
    ensures forall x :: x in SortByFlag(xs, flag) <==> x in xs
    ensures DistinctKeys(SortByFlag(xs, flag), key) && Ascending(SortByFlag(xs, flag), rank)
  {
    var other := x => !flag(x);
    FilterMembers(xs, flag);
    FilterMembers(xs, other);
    FilterDistinct(xs, flag, key);
    FilterDistinct(xs, other, key);
    var ys, zs := Filter(xs, other), Filter(xs, flag);
    assert forall i :: 0 <= i < |ys| ==> ys[i] in ys;
    assert forall i :: 0 <= i < |zs| ==> zs[i] in zs;
    forall x, y | x in ys && y in zs ensures key(x) != key(y) {
      var i :| 0 <= i < |xs| && xs[i] == x;
      var j :| 0 <= j < |xs| && xs[j] == y;
      assert i < j || j < i;
    }
    JoinLists(ys, zs, key, rank);
  }

  // ---------------------------------------------------------------- the receiver

  /** What an action is about: one security block, or one operation for one target. */
  datatype Subject = OfBlock(number: nat) | OfDemand(operation: Operation, target: nat)

  function SubjectOf(): Action -> Subject {
    (a: Action) =>
      match a.kind
      case SignTarget(t) => OfDemand(Bib, t)
      case EncryptTarget(t) => OfDemand(Bcb, t)
      case VerifyBib(n) => OfBlock(n)
      case AcceptBib(n) => OfBlock(n)
      case DecryptBcb(n) => OfBlock(n)
      case Missing(t) => OfDemand(a.rule.operation, t)
  }

  /** How a verifier or acceptor rule treats a security block it covers. */
  function Treatment(r: Rule, n: nat): Kind {
    if r.operation == Bcb then DecryptBcb(n) else if r.role == Acceptor then AcceptBib(n) else VerifyBib(n)
  }

  /** The receiver's duty, rule by rule and block by block. */
  predicate ReceiverDuty(rules: seq<Rule>, existing: seq<SecurityBlock>, a: Action) {
    match a.kind
    case SignTarget(_) => false
    case EncryptTarget(_) => false
    case Missing(t) =>
      !Protected(existing, a.rule.operation, t) && FirstDemanding(rules, a.rule.operation, t) == Some(a.rule)
    case VerifyBib(n) => FirstCovering(rules, existing, n) == Some(a.rule) && a.kind == Treatment(a.rule, n)
    case AcceptBib(n) => FirstCovering(rules, existing, n) == Some(a.rule) && a.kind == Treatment(a.rule, n)
    case DecryptBcb(n) => FirstCovering(rules, existing, n) == Some(a.rule) && a.kind == Treatment(a.rule, n)
  }

  /** Missing operations, then decryptions, then verifications, accepting BIBs of the primary block last. */
  function ReceiverRank(existing: seq<SecurityBlock>): Action -> nat {
    (a: Action) =>
      if a.kind.Missing? then 0
      else if a.kind.DecryptBcb? then 1
      else if AcceptsPrimary(existing)(a) then 3
      else 2
  }

  /** The action for a handling is the treatment of its block by its rule. */
  lemma HandlingAsDuty(rules: seq<Rule>, existing: seq<SecurityBlock>, h: Handling)
    requires FirstCovering(rules, existing, h.block.number) == Some(h.rule)
    ensures var a := HandlingAction(h);
      !a.kind.Missing? && ReceiverDuty(rules, existing, a) && SubjectOf()(a) == OfBlock(h.block.number)
  {
    hide FirstCovering;
  }

  lemma DutyAsHandling(rules: seq<Rule>, existing: seq<SecurityBlock>, a: Action, h: Handling)
    requires !a.kind.Missing? && ReceiverDuty(rules, existing, a)
    requires SubjectOf()(a) == OfBlock(h.block.number) && h.rule == a.rule
    ensures a == HandlingAction(h)
  {
    hide FirstCovering;
  }

  lemma DutySubject(rules: seq<Rule>, existing: seq<SecurityBlock>, a: Action)
    requires !a.kind.Missing? && ReceiverDuty(rules, existing, a)
    ensures var s := SubjectOf()(a);
      s.OfBlock? && FirstCovering(rules, existing, s.number) == Some(a.rule)
  {
    hide FirstCovering;
  }

  lemma HandlingActionsMembers(rules: seq<Rule>, existing: seq<SecurityBlock>)
    ensures var actions := HandlingActions(FirstHandlings(rules, existing));
      && (forall a: Action :: a in actions <==> !a.kind.Missing? && ReceiverDuty(rules, existing, a))
      && DistinctKeys(actions, SubjectOf())
  {
    hide FirstCovering, ReceiverDuty, SubjectOf, FirstHandlings, HandlingAction;
    var hs := FirstHandlings(rules, existing);
    var actions := HandlingActions(hs);
    HandledOnce(rules, existing);
    forall i | 0 <= i < |hs|
      ensures !actions[i].kind.Missing? && ReceiverDuty(rules, existing, actions[i])
      ensures SubjectOf()(actions[i]) == OfBlock(hs[i].block.number)
    {
      assert HandledBy(hs, hs[i].block.number, hs[i].rule);
      HandlingAsDuty(rules, existing, hs[i]);
    }
    forall a: Action | !a.kind.Missing? && ReceiverDuty(rules, existing, a) ensures a in actions {
      DutySubject(rules, existing, a);
      var n := SubjectOf()(a).number;
      assert HandledBy(hs, n, a.rule);
      var i :| 0 <= i < |hs| && hs[i].block.number == n && hs[i].rule == a.rule;
      DutyAsHandling(rules, existing, a, hs[i]);
      assert actions[i] == a;
    }
  }

  lemma MissingActionsMembers(rules: seq<Rule>, existing: seq<SecurityBlock>)
    ensures var actions := MissingActions(MissingDemands(rules, existing));
      && (forall a: Action :: a in actions <==> a.kind.Missing? && ReceiverDuty(rules, existing, a))
      && DistinctKeys(actions, SubjectOf())
  {
    var ds := MissingDemands(rules, existing);
    var actions := MissingActions(ds);
    MissedOnce(rules, existing);
    forall a | a in actions ensures a.kind.Missing? && ReceiverDuty(rules, existing, a) {
      var i :| 0 <= i < |actions| && actions[i] == a;
      assert ds[i] in ds;
    }
    forall a: Action | a.kind.Missing? && ReceiverDuty(rules, existing, a) ensures a in actions {
      assert Demand(a.rule, a.kind.target) in ds;
      var i :| 0 <= i < |ds| && ds[i] == Demand(a.rule, a.kind.target);
      assert actions[i] == a;
    }
    forall i, j | 0 <= i < j < |actions| ensures SubjectOf()(actions[i]) != SubjectOf()(actions[j]) {
      assert MissingKey()(ds[i]) != MissingKey()(ds[j]);
    }
  }

  /** The handling actions of one operation. */
  lemma HandledOf(rules: seq<Rule>, existing: seq<SecurityBlock>, op: Operation)
    ensures var actions := Filter(HandlingActions(FirstHandlings(rules, existing)), OfOperation(op));
      && (forall a: Action :: a in actions <==>
            !a.kind.Missing? && a.rule.operation == op && ReceiverDuty(rules, existing, a))
      && DistinctKeys(actions, SubjectOf())
  {
    hide ReceiverDuty, HandlingActions, FirstHandlings, Filter;
    HandlingActionsMembers(rules, existing);
    FilterMembers(HandlingActions(FirstHandlings(rules, existing)), OfOperation(op));
    FilterDistinct(HandlingActions(FirstHandlings(rules, existing)), OfOperation(op), SubjectOf());
  }

  /** Treatments of blocks by rules of different operations are about different blocks. */
  lemma DutiesDiffer(rules: seq<Rule>, existing: seq<SecurityBlock>, x: Action, y: Action)
    requires ReceiverDuty(rules, existing, x) && ReceiverDuty(rules, existing, y)
    requires !x.kind.Missing? && !y.kind.Missing? && x.rule.operation != y.rule.operation
    ensures SubjectOf()(x) != SubjectOf()(y)
  {}

  lemma DutyShape(rules: seq<Rule>, existing: seq<SecurityBlock>, a: Action)
    requires ReceiverDuty(rules, existing, a)
    ensures a.kind.Missing? <==> SubjectOf()(a).OfDemand?
    ensures !a.kind.Missing? ==> (a.kind.DecryptBcb? <==> a.rule.operation == Bcb)
  {}

  /** The decryptions, and the verifications after sorting. */
  lemma DecryptionsRanked(rules: seq<Rule>, existing: seq<SecurityBlock>)
    ensures var actions := Filter(HandlingActions(FirstHandlings(rules, existing)), OfOperation(Bcb));
      forall a: Action :: a in actions ==> ReceiverRank(existing)(a) == 1 && SubjectOf()(a).OfBlock?
  {
    HandledOf(rules, existing, Bcb);
  }

  lemma VerificationsSorted(rules: seq<Rule>, existing: seq<SecurityBlock>)
    ensures var actions :=
        SortByFlag(Filter(HandlingActions(FirstHandlings(rules, existing)), OfOperation(Bib)), AcceptsPrimary(existing));
      && (forall a: Action :: a in actions <==>
            !a.kind.Missing? && a.rule.operation == Bib && ReceiverDuty(rules, existing, a))
      && (forall a: Action :: a in actions ==> ReceiverRank(existing)(a) >= 2 && SubjectOf()(a).OfBlock?)
      && DistinctKeys(actions, SubjectOf())
      && Ascending(actions, ReceiverRank(existing))
  {
    hide ReceiverDuty, HandlingActions, FirstHandlings, Filter, SortByFlag, DistinctKeys, Ascending;
    HandledOf(rules, existing, Bib);
    forall a: Action | ReceiverDuty(rules, existing, a) {
      DutyShape(rules, existing, a);
    }
    SortedByFlag(Filter(HandlingActions(FirstHandlings(rules, existing)), OfOperation(Bib)), AcceptsPrimary(existing),
                 SubjectOf(), ReceiverRank(existing), 2);
  }

  lemma HandledApart(rules: seq<Rule>, existing: seq<SecurityBlock>, xs: seq<Action>, ys: seq<Action>)
    requires forall a: Action :: a in xs ==>
      !a.kind.Missing? && a.rule.operation == Bcb && ReceiverDuty(rules, existing, a)
    requires forall a: Action :: a in ys ==>
      !a.kind.Missing? && a.rule.operation == Bib && ReceiverDuty(rules, existing, a)
    ensures forall x: Action, y: Action :: x in xs && y in ys ==> SubjectOf()(x) != SubjectOf()(y)
  {
    hide ReceiverDuty, SubjectOf;
    forall x: Action, y: Action | x in xs && y in ys ensures SubjectOf()(x) != SubjectOf()(y) {
      DutiesDiffer(rules, existing, x, y);
    }
  }

  /** The missing operations. */
  lemma MissingRanked(rules: seq<Rule>, existing: seq<SecurityBlock>)
    ensures var actions := MissingActions(MissingDemands(rules, existing));
      forall a: Action :: a in actions ==> ReceiverRank(existing)(a) == 0 && SubjectOf()(a).OfDemand?
  {}

  /** Decryptions and sorted verifications after the missing operations. */
  lemma JoinedInOrder(rules: seq<Rule>, existing: seq<SecurityBlock>, missing: seq<Action>, bcbs: seq<Action>,
                      sorted: seq<Action>)
    requires forall a: Action :: a in missing ==> ReceiverRank(existing)(a) == 0 && SubjectOf()(a).OfDemand?
    requires forall a: Action :: a in bcbs ==> ReceiverRank(existing)(a) == 1 && SubjectOf()(a).OfBlock?
    requires forall a: Action :: a in sorted ==> ReceiverRank(existing)(a) >= 2 && SubjectOf()(a).OfBlock?
    requires DistinctKeys(missing, SubjectOf()) && DistinctKeys(bcbs, SubjectOf()) && DistinctKeys(sorted, SubjectOf())
    requires Ascending(sorted, ReceiverRank(existing))
    requires forall x: Action, y: Action :: x in bcbs && y in sorted ==> SubjectOf()(x) != SubjectOf()(y)
    ensures DistinctKeys(missing + bcbs + sorted, SubjectOf())
    ensures Ascending(missing + bcbs + sorted, ReceiverRank(existing))
  {
    hide *;
    ConstantRank(missing, ReceiverRank(existing), 0);
    ConstantRank(bcbs, ReceiverRank(existing), 1);
    JoinLists(missing, bcbs, SubjectOf(), ReceiverRank(existing));
    JoinLists(missing + bcbs, sorted, SubjectOf(), ReceiverRank(existing));
  }

  lemma ReceiverParts(rules: seq<Rule>, existing: seq<SecurityBlock>)
    ensures ReceiverActions(rules, existing)
      == MissingActions(MissingDemands(rules, existing))
         + Filter(HandlingActions(FirstHandlings(rules, existing)), OfOperation(Bcb))
         + SortByFlag(Filter(HandlingActions(FirstHandlings(rules, existing)), OfOperation(Bib)), AcceptsPrimary(existing))
  {}

  /** The receiver's actions are exactly its duties, each subject once, in the order that keeps checks possible. */
  lemma ReceiverMeaning(rules: seq<Rule>, existing: seq<SecurityBlock>)
    ensures var actions := ReceiverActions(rules, existing);
      && (forall a: Action :: a in actions <==> ReceiverDuty(rules, existing, a))
      && DistinctKeys(actions, SubjectOf())
      && Ascending(actions, ReceiverRank(existing))
  {
    hide *;
    var handled := HandlingActions(FirstHandlings(rules, existing));
    var missing := MissingActions(MissingDemands(rules, existing));
    var bcbs := Filter(handled, OfOperation(Bcb));
    var sorted := SortByFlag(Filter(handled, OfOperation(Bib)), AcceptsPrimary(existing));
    ReceiverParts(rules, existing);
    MissingActionsMembers(rules, existing);
    MissingRanked(rules, existing);
    DecryptionsRanked(rules, existing);
    HandledOf(rules, existing, Bcb);
    VerificationsSorted(rules, existing);
    HandledApart(rules, existing, bcbs, sorted);
    JoinedInOrder(rules, existing, missing, bcbs, sorted);
  }

  // ---------------------------------------------------------------- the source

  /** The source's duty: protect each demanded target once, never signing what is encrypted. */
  predicate SourceDuty(rules: seq<Rule>, existing: seq<SecurityBlock>, a: Action) {
    match a.kind
    case SignTarget(t) =>
      t !in TargetsOf(existing, Bib) && t !in TargetsOf(existing, Bcb) && FirstDemanding(rules, Bib, t) == Some(a.rule)
    case EncryptTarget(t) =>
      t !in TargetsOf(existing, Bcb) && FirstDemanding(rules, Bcb, t) == Some(a.rule)
    case _ => false
  }

  /** The primary block is signed first, and all is signed before anything is encrypted. */
  function SourceRank(): Action -> nat {
    (a: Action) => if a.kind == SignTarget(PRIMARY_NUMBER) then 0 else if a.kind.SignTarget? then 1 else 2
  }

  lemma SignsMembers(rules: seq<Rule>, existing: seq<SecurityBlock>)
    ensures var actions := Signs(FirstSigns(rules, existing));
      && (forall a: Action :: a in actions <==> a.kind.SignTarget? && SourceDuty(rules, existing, a))
      && DistinctKeys(actions, SubjectOf())
  {
    var ds := FirstSigns(rules, existing);
    var actions := Signs(ds);
    ServedOnce(rules, Bib, TargetsOf(existing, Bib) + TargetsOf(existing, Bcb));
    forall a: Action | a in actions ensures a.kind.SignTarget? && SourceDuty(rules, existing, a) {
      var i :| 0 <= i < |actions| && actions[i] == a;
      assert ds[i] in ds;
    }
    forall a: Action | a.kind.SignTarget? && SourceDuty(rules, existing, a) ensures a in actions {
      assert Demand(a.rule, a.kind.target) in ds;
      var i :| 0 <= i < |ds| && ds[i] == Demand(a.rule, a.kind.target);
      assert actions[i] == a;
    }
  }

  lemma EncryptionsMembers(rules: seq<Rule>, existing: seq<SecurityBlock>)
    ensures var actions := Encryptions(FirstEncryptions(rules, existing));
      && (forall a: Action :: a in actions <==> a.kind.EncryptTarget? && SourceDuty(rules, existing, a))
      && DistinctKeys(actions, SubjectOf())
  {
    var ds := FirstEncryptions(rules, existing);
    var actions := Encryptions(ds);
    ServedOnce(rules, Bcb, TargetsOf(existing, Bcb));
    forall a: Action | a in actions ensures a.kind.EncryptTarget? && SourceDuty(rules, existing, a) {
      var i :| 0 <= i < |actions| && actions[i] == a;
      assert ds[i] in ds;
    }
    forall a: Action | a.kind.EncryptTarget? && SourceDuty(rules, existing, a) ensures a in actions {
      assert Demand(a.rule, a.kind.target) in ds;
      var i :| 0 <= i < |ds| && ds[i] == Demand(a.rule, a.kind.target);
      assert actions[i] == a;
    }
  }

  /** The source's actions are exactly its duties, each subject once, signing the primary block first. */
  lemma SourceMeaning(rules: seq<Rule>, existing: seq<SecurityBlock>)
    ensures var actions := SourceActions(rules, existing);
      && (forall a: Action :: a in actions <==> SourceDuty(rules, existing, a))
      && DistinctKeys(actions, SubjectOf())
      && Ascending(actions, SourceRank())
  {
    var signs, encryptions := Signs(FirstSigns(rules, existing)), Encryptions(FirstEncryptions(rules, existing));
    var sorted := SortByFlag(signs, NotPrimary());
    assert SourceActions(rules, existing) == sorted + encryptions;
    assert forall a: Action :: SourceDuty(rules, existing, a) ==> a.kind.SignTarget? || a.kind.EncryptTarget?;
    hide SourceDuty, Signs, FirstSigns, Encryptions, FirstEncryptions, SortByFlag, SourceActions;
    hide DistinctKeys, Ascending;
    SignsMembers(rules, existing);
    EncryptionsMembers(rules, existing);
    SortedByFlag(signs, NotPrimary(), SubjectOf(), SourceRank(), 0);
    ConstantRank(encryptions, SourceRank(), 2);
    JoinLists(sorted, encryptions, SubjectOf(), SourceRank());
  }
}
