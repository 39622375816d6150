/** Counters of the security operations per security rule. */
module BpsecStatistics {
  datatype Event = Signed | Verified | Accepted | Encrypted | Decrypted | MissingEvent | Failed | Dropped

  datatype RuleStatistics = RuleStatistics(
    signed: nat, verified: nat, accepted: nat, encrypted: nat, decrypted: nat, missing: nat, failed: nat, dropped: nat)

  const ZERO := RuleStatistics(0, 0, 0, 0, 0, 0, 0, 0)

  type Table = map<string, RuleStatistics>

  /** One counter. */
  function Counter(s: RuleStatistics, e: Event): nat {
    match e
    case Signed => s.signed
    case Verified => s.verified
    case Accepted => s.accepted
    case Encrypted => s.encrypted
    case Decrypted => s.decrypted
    case MissingEvent => s.missing
    case Failed => s.failed
    case Dropped => s.dropped
  }

  function AddEvents(s: RuleStatistics, e: Event, count: nat): (r: RuleStatistics)
    ensures forall f :: Counter(r, f) == Counter(s, f) + (if f == e then count else 0)
  {
    match e
    case Signed => s.(signed := s.signed + count)
    case Verified => s.(verified := s.verified + count)
    case Accepted => s.(accepted := s.accepted + count)
    case Encrypted => s.(encrypted := s.encrypted + count)
    case Decrypted => s.(decrypted := s.decrypted + count)
    case MissingEvent => s.(missing := s.missing + count)
    case Failed => s.(failed := s.failed + count)
    case Dropped => s.(dropped := s.dropped + count)
  }

  function Add(s: RuleStatistics, other: RuleStatistics): (r: RuleStatistics)
    ensures forall f :: Counter(r, f) == Counter(s, f) + Counter(other, f)
  {
    RuleStatistics(s.signed + other.signed, s.verified + other.verified, s.accepted + other.accepted,
      s.encrypted + other.encrypted, s.decrypted + other.decrypted, s.missing + other.missing,
      s.failed + other.failed, s.dropped + other.dropped)
  }

  lemma SameCounters(x: RuleStatistics, y: RuleStatistics)
    requires forall e :: Counter(x, e) == Counter(y, e)
    ensures x == y
  {
    assert Counter(x, Signed) == Counter(y, Signed) && Counter(x, Verified) == Counter(y, Verified);
    assert Counter(x, Accepted) == Counter(y, Accepted) && Counter(x, Encrypted) == Counter(y, Encrypted);
    assert Counter(x, Decrypted) == Counter(y, Decrypted) && Counter(x, MissingEvent) == Counter(y, MissingEvent);
    assert Counter(x, Failed) == Counter(y, Failed) && Counter(x, Dropped) == Counter(y, Dropped);
  }

  /** The counters of a rule, zero for a rule that recorded nothing. */
  function RuleOf(t: Table, rule: string): RuleStatistics {
    if rule in t then t[rule] else ZERO
  }

  function Recorded(t: Table, rule: string, e: Event, count: nat): Table {
    t[rule := AddEvents(RuleOf(t, rule), e, count)]
  }

  function Merged(t: Table, other: Table): Table {
    map rule | rule in t.Keys + other.Keys ::
      if rule in other then Add(RuleOf(t, rule), other[rule]) else t[rule]
  }

  class Statistics {
    var rules: Table

    constructor ()
      ensures rules == map[]
    {
      rules := map[];
    }

    method RecordN(rule: string, e: Event, count: nat)
      modifies this
      ensures rules == Recorded(old(rules), rule, e, count)
    {
      var entry := if rule in rules then rules[rule] else ZERO;
      rules := rules[rule := AddEvents(entry, e, count)];
    }

    method Record(rule: string, e: Event)
      modifies this
      ensures rules == Recorded(old(rules), rule, e, 1)
    {
      RecordN(rule, e, 1);
    }

    function Rule(rule: string): (s: RuleStatistics)
      reads this
      ensures s == RuleOf(rules, rule)
    {
      if rule in rules then rules[rule] else ZERO
    }

    /** Adds the counters of other statistics, whatever the order its rules are visited in. */
    method Merge(other: Statistics)
      requires other != this
      modifies this
      ensures rules == Merged(old(rules), other.rules)
    {
      var todo := other.rules.Keys;
      ghost var before := rules;
      while todo != {}
        invariant todo <= other.rules.Keys && other.rules == old(other.rules)
        invariant rules.Keys == before.Keys + (other.rules.Keys - todo)
        invariant forall r :: r in rules ==>
          rules[r] == if r in other.rules && r !in todo then Add(RuleOf(before, r), other.rules[r]) else before[r]
      {
        var rule :| rule in todo;
        var entry := if rule in rules then rules[rule] else ZERO;
        rules := rules[rule := Add(entry, other.rules[rule])];
        todo := todo - {rule};
      }
    }
  }

  // ---------------------------------------------------------------- totals

  /** The statistics after merging those of one bundle after another. */
  function MergedAll(t: Table, parts: seq<Table>): Table
    decreases |parts|
  {
    if parts == [] then t else MergedAll(Merged(t, parts[0]), parts[1..])
  }

  function SumOf(parts: seq<Table>, rule: string, e: Event): nat {
    if parts == [] then 0 else Counter(RuleOf(parts[0], rule), e) + SumOf(parts[1..], rule, e)
  }

  function AllRules(parts: seq<Table>): set<string> {
    set p, r | p in parts && r in p :: r
  }

  lemma MergedCounter(t: Table, other: Table, rule: string, e: Event)
    ensures Counter(RuleOf(Merged(t, other), rule), e) == Counter(RuleOf(t, rule), e) + Counter(RuleOf(other, rule), e)
  {}

  /** Merged totals are the sums over the bundles. */
  lemma {:induction false} TotalsAreSums(t: Table, parts: seq<Table>)
    ensures MergedAll(t, parts).Keys == t.Keys + AllRules(parts)
    ensures forall rule, e ::
      Counter(RuleOf(MergedAll(t, parts), rule), e) == Counter(RuleOf(t, rule), e) + SumOf(parts, rule, e)
    decreases |parts|
  {
    if parts != [] {
      var t1 := Merged(t, parts[0]);
      TotalsAreSums(t1, parts[1..]);
      assert AllRules(parts) == parts[0].Keys + AllRules(parts[1..]) by {
        assert parts == [parts[0]] + parts[1..];
      }
      forall rule, e {
        MergedCounter(t, parts[0], rule, e);
      }
    }
  }

  lemma {:induction false} SumAppend(x: seq<Table>, y: seq<Table>, rule: string, e: Event)
    ensures SumOf(x + y, rule, e) == SumOf(x, rule, e) + SumOf(y, rule, e)
  {
    if x == [] {
      assert x + y == y;
    } else {
      SumAppend(x[1..], y, rule, e);
      assert (x + y)[1..] == x[1..] + y;
    }
  }

  lemma SplitAt<T(!new)>(y: seq<T>, x: T) returns (pre: seq<T>, post: seq<T>)
    requires x in multiset(y)
    ensures y == pre + [x] + post && multiset(pre + post) == multiset(y) - multiset{x}
  {
    var i :| 0 <= i < |y| && y[i] == x;
    pre, post := y[..i], y[i + 1..];
    assert y == pre + [x] + post;
  }

  lemma HeadSplit<T(!new)>(x: seq<T>)
    requires x != []
    ensures multiset(x) == multiset{x[0]} + multiset(x[1..])
  {
    assert x == [x[0]] + x[1..];
  }

  lemma {:induction false} SumPermuted(x: seq<Table>, y: seq<Table>, rule: string, e: Event)
    requires multiset(x) == multiset(y)
    ensures SumOf(x, rule, e) == SumOf(y, rule, e)
    decreases |x|
  {
    hide Counter, RuleOf;
    if x == [] {
      assert |y| == |multiset(y)| == 0;
    } else {
      HeadSplit(x);
      var pre, post := SplitAt(y, x[0]);
      SumPermuted(x[1..], pre + post, rule, e);
      SumAppend(pre + [x[0]], post, rule, e);
      SumAppend(pre, [x[0]], rule, e);
      SumAppend(pre, post, rule, e);
    }
  }

  lemma AllRulesPermuted(x: seq<Table>, y: seq<Table>)
    requires multiset(x) == multiset(y)
    ensures AllRules(x) == AllRules(y)
  {
    assert forall p :: p in x <==> p in multiset(x);
    assert forall p :: p in y <==> p in multiset(y);
  }

  /** Whatever the order in which the bundles are merged, the totals are the same. */
  lemma MergeOrderIndependent(t: Table, x: seq<Table>, y: seq<Table>)
    requires multiset(x) == multiset(y)
    ensures MergedAll(t, x) == MergedAll(t, y)
  {
    hide MergedAll, SumOf, AllRules, Counter;
    TotalsAreSums(t, x);
    TotalsAreSums(t, y);
    AllRulesPermuted(x, y);
    var mx, my := MergedAll(t, x), MergedAll(t, y);
    forall r | r in mx ensures mx[r] == my[r] {
      forall e ensures Counter(mx[r], e) == Counter(my[r], e) {
        SumPermuted(x, y, r, e);
        assert mx[r] == RuleOf(mx, r) && my[r] == RuleOf(my, r);
      }
      SameCounters(mx[r], my[r]);
    }
  }
}
