/** The BPSec policy engine: which security operations a bundle needs at a processing step, and in what order. */
module BpsecPolicy {
  import opened Options
  import opened BpsecBundle

  datatype Role = Source | Verifier | Acceptor

  datatype Operation = Bib | Bcb

  datatype Target = PrimaryTarget | PayloadTarget

  datatype FailureAction = DropBundle | RemoveOperation | LogOnly

  datatype Rule = Rule(
    name: string, role: Role, source: string, destination: string, operation: Operation, targets: seq<Target>,
    key: string, sha: ShaVariant, aes: AesVariant, wrapped: bool, onFailure: FailureAction)

  datatype Step = Transmit | Receive | Forward

  datatype Kind =
    | SignTarget(target: nat)
    | EncryptTarget(target: nat)
    | VerifyBib(bib: nat)
    | AcceptBib(bib: nat)
    | DecryptBcb(bcb: nat)
    | Missing(target: nat)

  datatype Action = Action(rule: Rule, kind: Kind)

  /** A security block in the bundle; `encryptsBibs` is only set for BCBs. */
  datatype SecurityBlock = SecurityBlock(number: nat, operation: Operation, targets: seq<nat>, encryptsBibs: bool)

  /** What the configuration check demands of a rule. */
  predicate ValidRule(r: Rule) {
    && r.targets != []
    && (forall i, j :: 0 <= i < j < |r.targets| ==> r.targets[i] != r.targets[j])
    && (r.operation == Bcb ==>
          PrimaryTarget !in r.targets && r.role != Verifier && r.onFailure != RemoveOperation)
    && (r.role == Source ==> r.onFailure != RemoveOperation)
  }

  predicate ValidRules(rules: seq<Rule>) {
    && (forall i :: 0 <= i < |rules| ==> ValidRule(rules[i]))
    && (forall i, j :: 0 <= i < j < |rules| ==> rules[i].name != rules[j].name)
  }

  predicate AppliesAt(role: Role, step: Step) {
    if role == Source then step != Receive else step == Receive
  }

  function NumberOf(t: Target): nat {
    match t case PrimaryTarget => PRIMARY_NUMBER case PayloadTarget => PAYLOAD_NUMBER
  }

  function TargetNumbers(r: Rule): (ns: seq<nat>)
    ensures |ns| == |r.targets| && forall i :: 0 <= i < |ns| ==> ns[i] == NumberOf(r.targets[i])
  {
    seq(|r.targets|, i requires 0 <= i < |r.targets| => NumberOf(r.targets[i]))
  }

  /** The glob matcher is an external library. */
  type Glob = (string, string) -> bool

  predicate MatchesBundle(glob: Glob, r: Rule, b: Bundle) {
    glob(r.source, b.primary.source) && glob(r.destination, b.primary.destination)
  }

  function MatchingRules(glob: Glob, rules: seq<Rule>, step: Step, b: Bundle): seq<Rule> {
    if rules == [] then []
    else
      (if AppliesAt(rules[0].role, step) && MatchesBundle(glob, rules[0], b) then [rules[0]] else [])
      + MatchingRules(glob, rules[1..], step, b)
  }

  // ---------------------------------------------------------------- security blocks of a bundle

  function BibNumbers(blocks: seq<Block>): set<nat> {
    if blocks == [] then {}
    else (if blocks[0].blockType == Integrity then {blocks[0].number} else {}) + BibNumbers(blocks[1..])
  }

  function OperationOf(t: BlockType): Operation
    requires t == Integrity || t == Confidentiality
  {
    if t == Integrity then Bib else Bcb
  }

  /** The security block a block decodes to. */
  function DecodeOne(x: Block, bibs: set<nat>): Option<SecurityBlock> {
    if (x.blockType == Integrity || x.blockType == Confidentiality) && x.content.Asb? then
      Some(SecurityBlock(x.number, OperationOf(x.blockType), x.content.targets,
        x.blockType == Confidentiality && exists t :: t in x.content.targets && t in bibs))
    else None
  }

  function Listed<T>(o: Option<T>): seq<T> {
    match o case None => [] case Some(x) => [x]
  }

  /** The decodable security blocks; undecodable ones, such as encrypted BIBs, are skipped. */
  function Decoded(blocks: seq<Block>, bibs: set<nat>): seq<SecurityBlock> {
    if blocks == [] then [] else Listed(DecodeOne(blocks[0], bibs)) + Decoded(blocks[1..], bibs)
  }

  function TargetsOf(blocks: seq<SecurityBlock>, op: Operation): (ts: set<nat>)
    ensures forall t :: t in ts <==> exists i :: 0 <= i < |blocks| && blocks[i].operation == op && t in blocks[i].targets
  {
    set i, t | 0 <= i < |blocks| && blocks[i].operation == op && t in blocks[i].targets :: t
  }

  /** A BIB that a BCB targets counts as encrypted even if its ciphertext happens to decode. */
  function Visible(decoded: seq<SecurityBlock>, encrypted: set<nat>): seq<SecurityBlock> {
    if decoded == [] then []
    else
      (if decoded[0].operation == Bcb || decoded[0].number !in encrypted then [decoded[0]] else [])
      + Visible(decoded[1..], encrypted)
  }

  /** The visible security blocks among some blocks. */
  function BlocksAmong(blocks: seq<Block>): seq<SecurityBlock> {
    var decoded := Decoded(blocks, BibNumbers(blocks));
    Visible(decoded, TargetsOf(decoded, Bcb))
  }

  function SecurityBlocks(b: Bundle): seq<SecurityBlock> {
    BlocksAmong(b.canonicals)
  }

  /** The numbers of the visible BIBs protecting a target. */
  function BibsAmong(blocks: seq<SecurityBlock>, target: nat): seq<nat> {
    if blocks == [] then []
    else
      (if blocks[0].operation == Bib && target in blocks[0].targets then [blocks[0].number] else [])
      + BibsAmong(blocks[1..], target)
  }

  function BibsOf(b: Bundle, target: nat): seq<nat> {
    BibsAmong(SecurityBlocks(b), target)
  }

  // ---------------------------------------------------------------- first come, first served

  /** The elements whose key is neither in `seen` nor the key of an earlier element. */
  function Firsts<T, K(==)>(xs: seq<T>, key: T -> K, seen: set<K>): seq<T> {
    if xs == [] then []
    else if key(xs[0]) in seen then Firsts(xs[1..], key, seen)
    else [xs[0]] + Firsts(xs[1..], key, seen + {key(xs[0])})
  }

  function Keys<T, K(==,!new)>(xs: seq<T>, key: T -> K): (ks: set<K>)
    ensures forall k :: k in ks <==> exists i :: 0 <= i < |xs| && key(xs[i]) == k
  {
    set i | 0 <= i < |xs| :: key(xs[i])
  }

  /** What a loop with `seen.insert(key)` as its guard does with one more element. */
  lemma {:induction false} FirstsSnoc<T, K(!new)>(xs: seq<T>, x: T, key: T -> K, seen: set<K>)
    ensures Firsts(xs + [x], key, seen)
      == Firsts(xs, key, seen) + (if key(x) in seen + Keys(xs, key) then [] else [x])
  {
    if xs == [] {
      assert xs + [x] == [x];
      assert Firsts([], key, seen + {key(x)}) == [];
    } else {
      var more := if key(xs[0]) in seen then seen else seen + {key(xs[0])};
      FirstsSnoc(xs[1..], x, key, more);
      assert (xs + [x])[1..] == xs[1..] + [x];
      assert seen + Keys(xs, key) == more + Keys(xs[1..], key) by {
        assert forall i :: 1 <= i < |xs| ==> xs[i] == xs[1..][i - 1];
      }
    }
  }

  lemma KeysSnoc<T, K(!new)>(xs: seq<T>, x: T, key: T -> K)
    ensures Keys(xs + [x], key) == Keys(xs, key) + {key(x)}
  {
    var ys := xs + [x];
    assert ys[|xs|] == x;
    forall k | k in Keys(xs, key) ensures k in Keys(ys, key) {
      var i :| 0 <= i < |xs| && key(xs[i]) == k;
      assert ys[i] == xs[i];
    }
  }

  /** `xs[i]` is the first element with its key. */
  predicate FirstAt<T, K(==)>(xs: seq<T>, key: T -> K, i: nat)
    requires i < |xs|
  {
    forall j :: 0 <= j < i ==> key(xs[j]) != key(xs[i])
  }

  /** The declarative meaning of `Firsts`. */
  lemma {:induction false} FirstsMeaning<T(!new), K>(xs: seq<T>, key: T -> K, seen: set<K>)
    ensures var r := Firsts(xs, key, seen);
      && (forall x :: x in r <==> exists i :: 0 <= i < |xs| && xs[i] == x && key(x) !in seen && FirstAt(xs, key, i))
      && (forall i, j :: 0 <= i < j < |r| ==> key(r[i]) != key(r[j]))
  {
    var r := Firsts(xs, key, seen);
    if xs != [] {
      var skip := key(xs[0]) in seen;
      var more := if skip then seen else seen + {key(xs[0])};
      var tail := Firsts(xs[1..], key, more);
      FirstsMeaning(xs[1..], key, more);
      assert r == if skip then tail else [xs[0]] + tail;
      forall x | x in r ensures exists i :: 0 <= i < |xs| && xs[i] == x && key(x) !in seen && FirstAt(xs, key, i) {
        if x in tail {
          var i :| 0 <= i < |xs[1..]| && xs[1..][i] == x && key(x) !in more && FirstAt(xs[1..], key, i);
          assert xs[i + 1] == x;
          assert forall j :: 1 <= j < i + 1 ==> xs[j] == xs[1..][j - 1];
          assert FirstAt(xs, key, i + 1);
        } else {
          assert x == xs[0] && FirstAt(xs, key, 0);
        }
      }
      forall i | 0 <= i < |xs| && key(xs[i]) !in seen && FirstAt(xs, key, i) ensures xs[i] in r {
        if i > 0 {
          assert xs[1..][i - 1] == xs[i];
          assert FirstAt(xs[1..], key, i - 1);
        }
      }
      forall j | 0 <= j < |tail| ensures key(tail[j]) !in more {
        assert tail[j] in tail;
      }
    }
  }

  // ---------------------------------------------------------------- source actions

  datatype Demand = Demand(rule: Rule, target: nat)

  function TargetKey(): Demand -> nat {
    (d: Demand) => d.target
  }

  function DemandsOf(r: Rule): seq<Demand> {
    var ns := TargetNumbers(r);
    seq(|ns|, i requires 0 <= i < |ns| => Demand(r, ns[i]))
  }

  /** Everything the rules of an operation demand, in rule and target order. */
  function Demands(rules: seq<Rule>, op: Operation): seq<Demand> {
    if rules == [] then []
    else
      var n := |rules| - 1;
      Demands(rules[..n], op) + (if rules[n].operation == op then DemandsOf(rules[n]) else [])
  }

  function Signs(ds: seq<Demand>): seq<Action> {
    seq(|ds|, i requires 0 <= i < |ds| => Action(ds[i].rule, SignTarget(ds[i].target)))
  }

  function Encryptions(ds: seq<Demand>): seq<Action> {
    seq(|ds|, i requires 0 <= i < |ds| => Action(ds[i].rule, EncryptTarget(ds[i].target)))
  }

  function Filter<T>(xs: seq<T>, p: T -> bool): seq<T> {
    if xs == [] then [] else (if p(xs[0]) then [xs[0]] else []) + Filter(xs[1..], p)
  }

  /** A stable sort by a boolean key, false first. */
  function SortByFlag<T>(xs: seq<T>, flag: T -> bool): seq<T> {
    Filter(xs, x => !flag(x)) + Filter(xs, flag)
  }

  function NotPrimary(): Action -> bool {
    (a: Action) => a.kind != SignTarget(PRIMARY_NUMBER)
  }

  function FirstSigns(rules: seq<Rule>, existing: seq<SecurityBlock>): seq<Demand> {
    Firsts(Demands(rules, Bib), TargetKey(), TargetsOf(existing, Bib) + TargetsOf(existing, Bcb))
  }

  function FirstEncryptions(rules: seq<Rule>, existing: seq<SecurityBlock>): seq<Demand> {
    Firsts(Demands(rules, Bcb), TargetKey(), TargetsOf(existing, Bcb))
  }

  /** Each target once, for the first rule demanding it, unless protected or, for BIBs, encrypted; the primary block
      is signed first and all signing comes before all encrypting. */
  function SourceActions(rules: seq<Rule>, existing: seq<SecurityBlock>): seq<Action> {
    SortByFlag(Signs(FirstSigns(rules, existing)), NotPrimary()) + Encryptions(FirstEncryptions(rules, existing))
  }

  // ---------------------------------------------------------------- receiver actions

  datatype Handling = Handling(rule: Rule, block: SecurityBlock)

  predicate Covers(r: Rule, block: SecurityBlock) {
    block.operation == r.operation
    && (block.encryptsBibs || exists t :: t in block.targets && t in TargetNumbers(r))
  }

  function HandlingsOf(r: Rule, existing: seq<SecurityBlock>): seq<Handling> {
    if existing == [] then []
    else
      var n := |existing| - 1;
      HandlingsOf(r, existing[..n]) + (if Covers(r, existing[n]) then [Handling(r, existing[n])] else [])
  }

  function Handlings(rules: seq<Rule>, existing: seq<SecurityBlock>): seq<Handling> {
    if rules == [] then []
    else
      var n := |rules| - 1;
      Handlings(rules[..n], existing) + HandlingsOf(rules[n], existing)
  }

  function BlockKey(): Handling -> nat {
    (h: Handling) => h.block.number
  }

  predicate Protected(existing: seq<SecurityBlock>, op: Operation, target: nat) {
    target in TargetsOf(existing, op) || (op == Bib && target in TargetsOf(existing, Bcb))
  }

  function UnprotectedOf(r: Rule, targets: seq<nat>, existing: seq<SecurityBlock>): seq<Demand> {
    if targets == [] then []
    else
      var n := |targets| - 1;
      UnprotectedOf(r, targets[..n], existing)
      + (if Protected(existing, r.operation, targets[n]) then [] else [Demand(r, targets[n])])
  }

  function Unprotected(rules: seq<Rule>, existing: seq<SecurityBlock>): seq<Demand> {
    if rules == [] then []
    else
      var n := |rules| - 1;
      Unprotected(rules[..n], existing) + UnprotectedOf(rules[n], TargetNumbers(rules[n]), existing)
  }

  function MissingKey(): Demand -> (Operation, nat) {
    (d: Demand) => (d.rule.operation, d.target)
  }

  function MissingActions(ds: seq<Demand>): seq<Action> {
    seq(|ds|, i requires 0 <= i < |ds| => Action(ds[i].rule, Missing(ds[i].target)))
  }

  function HandlingAction(h: Handling): Action {
    Action(h.rule,
      if h.rule.operation == Bcb then DecryptBcb(h.block.number)
      else if h.rule.role == Acceptor then AcceptBib(h.block.number)
      else VerifyBib(h.block.number))
  }

  function HandlingActions(hs: seq<Handling>): seq<Action> {
    seq(|hs|, i requires 0 <= i < |hs| => HandlingAction(hs[i]))
  }

  function OfOperation(op: Operation): Action -> bool {
    (a: Action) => a.rule.operation == op
  }

  /** The acceptance of a BIB that covers the primary block. */
  function AcceptsPrimary(existing: seq<SecurityBlock>): Action -> bool {
    (a: Action) => a.kind.AcceptBib?
      && exists i :: 0 <= i < |existing| && existing[i].number == a.kind.bib && PRIMARY_NUMBER in existing[i].targets
  }

  function FirstHandlings(rules: seq<Rule>, existing: seq<SecurityBlock>): seq<Handling> {
    Firsts(Handlings(rules, existing), BlockKey(), {})
  }

  function ReceiverActions(rules: seq<Rule>, existing: seq<SecurityBlock>): seq<Action> {
    var handled := HandlingActions(FirstHandlings(rules, existing));
    MissingActions(Firsts(Unprotected(rules, existing), MissingKey(), {}))
    + Filter(handled, OfOperation(Bcb))
    + SortByFlag(Filter(handled, OfOperation(Bib)), AcceptsPrimary(existing))
  }

  function Evaluate(glob: Glob, rules: seq<Rule>, step: Step, b: Bundle): seq<Action> {
    var matching := MatchingRules(glob, rules, step, b);
    if step == Receive then ReceiverActions(matching, SecurityBlocks(b)) else SourceActions(matching, SecurityBlocks(b))
  }
}
