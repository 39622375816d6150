/** Receiving bundles concurrently: every interleaving of receive tasks with other users of the store. */
module ReceiveGate {
  import opened Options
  import opened BundleStore

  /** The store, the counters, and the receive tasks that have passed the gate but not counted yet. `admitted` and
      `calls` record the run: the IDs the gate admitted for, and the calls decided so far. */
  datatype System = System(
    store: Store, incoming: nat, dups: nat, broken: nat, owesIncoming: nat, owesDups: nat,
    admitted: seq<string>, calls: nat)

  /** `Reject` and `Gate` are the first lock-protected steps of a receive task, the two `Count` steps its second. */
  datatype Event =
    | Reject
    | Gate(bundle: Bundle, now: nat)
    | CountIncoming
    | CountDup
    | Other(op: Op)

  predicate Enabled(s: System, e: Event) {
    match e
    case CountIncoming => s.owesIncoming > 0
    case CountDup => s.owesDups > 0
    case _ => true
  }

  function Next(s: System, e: Event): System
    requires Enabled(s, e)
  {
    match e
    case Reject => s.(broken := s.broken + 1, calls := s.calls + 1)
    case Gate(b, now) =>
      if Known(s.store, b.id) then s.(owesDups := s.owesDups + 1, calls := s.calls + 1)
      else
        s.(store := Pushed(s.store, b, now), owesIncoming := s.owesIncoming + 1, admitted := s.admitted + [b.id],
           calls := s.calls + 1)
    case CountIncoming => s.(owesIncoming := s.owesIncoming - 1, incoming := s.incoming + 1)
    case CountDup => s.(owesDups := s.owesDups - 1, dups := s.dups + 1)
    case Other(op) => s.(store := Do(s.store, op))
  }

  predicate Runs(s: System, es: seq<Event>)
    decreases |es|
  {
    es == [] || (Enabled(s, es[0]) && Runs(Next(s, es[0]), es[1..]))
  }

  function After(s: System, es: seq<Event>): System
    requires Runs(s, es)
    decreases |es|
  {
    if es == [] then s else After(Next(s, es[0]), es[1..])
  }

  function Start(store: Store): System {
    System(store, 0, 0, 0, 0, 0, [], 0)
  }

  /** The gate admitted once for each of the IDs, and all counters are accounted for. */
  ghost predicate Inv(first: Store, s: System) {
    && Filed(s.store)
    && (forall id :: Known(first, id) ==> Known(s.store, id))
    && (forall i :: 0 <= i < |s.admitted| ==> Known(s.store, s.admitted[i]) && !Known(first, s.admitted[i]))
    && (forall i, j :: 0 <= i < j < |s.admitted| ==> s.admitted[i] != s.admitted[j])
    && s.incoming + s.owesIncoming == |s.admitted|
    && s.incoming + s.dups + s.broken + s.owesIncoming + s.owesDups == s.calls
  }

  lemma NextKeeps(first: Store, s: System, e: Event)
    requires Inv(first, s) && Enabled(s, e)
    ensures Inv(first, Next(s, e))
    ensures forall id :: Known(s.store, id) ==> Known(Next(s, e).store, id)
  {
    var t := Next(s, e);
    match e {
      case Gate(b, now) =>
        DoKeeps(s.store, DoPush(b, now));
        if !Known(s.store, b.id) {
          assert forall i :: 0 <= i < |s.admitted| ==> s.admitted[i] != b.id;
        }
      case Other(op) => DoKeeps(s.store, op);
      case _ =>
    }
  }

  lemma {:induction false} RunInv(first: Store, s: System, es: seq<Event>)
    requires Inv(first, s) && Runs(s, es)
    ensures Inv(first, After(s, es))
    ensures forall id :: Known(s.store, id) ==> Known(After(s, es).store, id)
    decreases |es|
  {
    if es != [] {
      NextKeeps(first, s, es[0]);
      RunInv(first, Next(s, es[0]), es[1..]);
    }
  }

  lemma {:induction false} Split(s: System, xs: seq<Event>, ys: seq<Event>)
    requires Runs(s, xs + ys)
    ensures Runs(s, xs) && Runs(After(s, xs), ys) && After(s, xs + ys) == After(After(s, xs), ys)
    decreases |xs|
  {
    if xs == [] {
      assert xs + ys == ys;
    } else {
      assert (xs + ys)[1..] == xs[1..] + ys;
      Split(Next(s, xs[0]), xs[1..], ys);
    }
  }

  /** In every interleaving: what is known stays known, the gate opens at most once for an ID and never for one known at
      the start, and once all calls have counted the counters add up to the calls. */
  lemma DuplicateSuppression(first: Store, xs: seq<Event>, ys: seq<Event>)
    requires Filed(first) && Runs(Start(first), xs + ys)
    ensures Runs(Start(first), xs) && Runs(After(Start(first), xs), ys)
    ensures var mid, end := After(Start(first), xs), After(Start(first), xs + ys);
      && (forall id :: Known(mid.store, id) ==> Known(end.store, id))
      && (forall i, j :: 0 <= i < j < |end.admitted| ==> end.admitted[i] != end.admitted[j])
      && (forall i :: 0 <= i < |end.admitted| ==> !Known(first, end.admitted[i]) && Known(end.store, end.admitted[i]))
      && end.incoming + end.owesIncoming == |end.admitted|
      && end.incoming + end.dups + end.broken + end.owesIncoming + end.owesDups == end.calls
  {
    Split(Start(first), xs, ys);
    RunInv(first, Start(first), xs);
    RunInv(first, After(Start(first), xs), ys);
  }

  function Rejects(es: seq<Event>): nat {
    if es == [] then 0 else (if es[0].Reject? then 1 else 0) + Rejects(es[1..])
  }

  function Gates(es: seq<Event>): nat {
    if es == [] then 0 else (if es[0].Gate? then 1 else 0) + Gates(es[1..])
  }

  /** Broken counts the rejected calls, incoming those the gate opened for, and dups the other ones at the gate. */
  lemma {:induction false} CountersExactly(s: System, es: seq<Event>)
    requires Runs(s, es)
    ensures var t := After(s, es);
      && t.broken == s.broken + Rejects(es)
      && t.incoming + t.owesIncoming + |s.admitted| == s.incoming + s.owesIncoming + |t.admitted|
      && t.dups + t.owesDups + |t.admitted| == s.dups + s.owesDups + |s.admitted| + Gates(es)
    decreases |es|
  {
    if es != [] {
      CountersExactly(Next(s, es[0]), es[1..]);
    }
  }
}
