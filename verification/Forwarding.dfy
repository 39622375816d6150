/** Forwarding a bundle: the guard against forwarding it twice at a time, and one attempt to forward it. */
module Forwarding {
  import opened Options
  import opened BundleStore

  // ---------------------------------------------------------------- the forwarding guard

  /** IDs of the bundles being forwarded. */
  class ForwardingIds {
    var ids: set<string>

    constructor ()
      ensures ids == {}
    {
      ids := {};
    }

    /** A guard for the bundle, unless it is already being forwarded. */
    method Acquire(id: string) returns (guard: Option<string>)
      modifies this
      ensures guard == if id in old(ids) then None else Some(id)
      ensures ids == old(ids) + {id}
    {
      if id !in ids {
        ids := ids + {id};
        return Some(id);
      }
      return None;
    }

    /** Dropping a guard. */
    method Release(guard: string)
      modifies this
      ensures ids == old(ids) - {guard}
    {
      ids := ids - {guard};
    }
  }

  /** The set and the guards that are alive, by their holder. */
  datatype Guards = Guards(ids: set<string>, live: map<nat, string>)

  datatype GuardEvent = TryAcquire(task: nat, id: string) | DropGuard(task: nat)

  predicate GuardEnabled(g: Guards, e: GuardEvent) {
    match e
    case TryAcquire(t, _) => t !in g.live
    case DropGuard(t) => t in g.live
  }

  function GuardNext(g: Guards, e: GuardEvent): Guards
    requires GuardEnabled(g, e)
  {
    match e
    case TryAcquire(t, id) => if id in g.ids then g else Guards(g.ids + {id}, g.live[t := id])
    case DropGuard(t) => Guards(g.ids - {g.live[t]}, g.live - {t})
  }

  predicate GuardRuns(g: Guards, es: seq<GuardEvent>)
    decreases |es|
  {
    es == [] || (GuardEnabled(g, es[0]) && GuardRuns(GuardNext(g, es[0]), es[1..]))
  }

  function GuardAfter(g: Guards, es: seq<GuardEvent>): Guards
    requires GuardRuns(g, es)
    decreases |es|
  {
    if es == [] then g else GuardAfter(GuardNext(g, es[0]), es[1..])
  }

  /** The set is exactly the IDs of the live guards, and no two guards share an ID. */
  ghost predicate Exclusive(g: Guards) {
    && (forall id :: id in g.ids <==> exists t :: t in g.live && g.live[t] == id)
    && (forall t, u :: t in g.live && u in g.live && g.live[t] == g.live[u] ==> t == u)
  }

  lemma GuardStep(g: Guards, e: GuardEvent)
    requires Exclusive(g) && GuardEnabled(g, e)
    ensures Exclusive(GuardNext(g, e))
  {
    var h := GuardNext(g, e);
    match e {
      case TryAcquire(t, id) =>
        if id !in g.ids {
          forall x ensures x in h.ids <==> exists u :: u in h.live && h.live[u] == x {
            if x in g.ids {
              var u :| u in g.live && g.live[u] == x;
              assert u in h.live && h.live[u] == x;
            } else if x == id {
              assert t in h.live && h.live[t] == x;
            }
          }
        }
      case DropGuard(t) =>
        forall x ensures x in h.ids <==> exists u :: u in h.live && h.live[u] == x {
          if x in h.ids {
            var u :| u in g.live && g.live[u] == x;
            assert u in h.live && h.live[u] == x;
          }
        }
    }
  }

  /** In every interleaving the set equals the IDs of the live guards, each held once; and a task keeps its guard, and
      nobody else gets one for the ID, until it drops it itself. */
  lemma {:induction false} ForwardingExclusion(g: Guards, es: seq<GuardEvent>, task: nat)
    requires Exclusive(g) && GuardRuns(g, es)
    ensures Exclusive(GuardAfter(g, es))
    ensures task in g.live && DropGuard(task) !in es ==>
      && task in GuardAfter(g, es).live && GuardAfter(g, es).live[task] == g.live[task]
      && forall u :: u in GuardAfter(g, es).live && GuardAfter(g, es).live[u] == g.live[task] ==> u == task
    decreases |es|
  {
    if es != [] {
      GuardStep(g, es[0]);
      ForwardingExclusion(GuardNext(g, es[0]), es[1..], task);
      assert es == [es[0]] + es[1..];
    }
  }

  // ---------------------------------------------------------------- preparing the copy that is sent

  /** What an attempt depends on: the time, whether the primary lifetime has passed, the security policy for the copy,
      the routing agent's answer and the outcome of each transfer. */
  datatype Attempt = Attempt(now: nat, expired: bool, secure: Bundle -> Option<Bundle>, nodes: seq<string>,
                             deleteAfterwards: bool, outcomes: seq<bool>)

  function Elapsed(from: nat, to: nat): nat {
    if from <= to then to - from else 0
  }

  /** One more hop, unless that exceeds the limit. */
  function HopCounted(b: Bundle): Option<Bundle> {
    match b.hops
    case None => Some(b)
    case Some((limit, count)) =>
      if count + 1 > limit then None else Some(b.(hops := Some((limit, count + 1))))
  }

  /** The age with the time spent on this node, if the bundle has an age block; zero leaves the block as it is. */
  function Aged(b: Bundle, meta: Option<BundlePack>, now: nat): (Bundle, Option<nat>) {
    if b.age.Some? && meta.Some? then
      var age := b.age.value + Elapsed(meta.value.received, now);
      if age != 0 then (b.(age := Some(age)), Some(age)) else (b, None)
    else (b, None)
  }

  function AgeChecked(b: Bundle, meta: Option<BundlePack>, now: nat): Option<Bundle> {
    var (aged, age) := Aged(b, meta, now);
    if age.Some? && age.value >= b.lifetime then None else Some(aged)
  }

  function MetaOf(s: Store, id: string): Option<BundlePack> {
    if id in s.metadata then Some(s.metadata[id]) else None
  }

  /** The copy to send: None if the bundle is to be deleted for its lifetime, its hop limit or its age. */
  function Prepared(s: Store, b: Bundle, node: string, a: Attempt): Option<Bundle> {
    if a.expired then None
    else
      match HopCounted(b)
      case None => None
      case Some(counted) => AgeChecked(counted.(previousNode := Some(node)), MetaOf(s, b.id), a.now)
  }

  // ---------------------------------------------------------------- one attempt

  /** The store afterwards, the copy sent if any transfer was tried, whether one succeeded, and whether all went well. */
  datatype Result = Result(store: Store, sent: Option<Bundle>, delivered: bool, ok: bool)

  predicate AnySuccess(outcomes: seq<bool>, n: nat) {
    exists i :: 0 <= i < n && i < |outcomes| && outcomes[i]
  }

  function Marked(p: BundlePack): BundlePack {
    WithoutConstraint(With(p, ForwardPending), DispatchPending)
  }

  function Finished(s: Store, p: BundlePack, copy: Bundle, a: Attempt): Result {
    if !AnySuccess(a.outcomes, |a.nodes|) then Result(s, Some(copy), false, true)
    else if a.deleteAfterwards then Result(Removed(s, p.id), Some(copy), true, p.id in s.bundles)
    else if copy.administrative then
      Result(Synced(s, With(p, Contraindicated)), Some(copy), true, SyncOk(s, With(p, Contraindicated)))
    else Result(s, Some(copy), true, true)
  }

  function Forwarded(s: Store, bp: BundlePack, node: string, a: Attempt): Result {
    var p := Marked(bp);
    var s1 := Synced(s, p);
    if !SyncOk(s, p) then Result(s1, None, false, false)
    else if a.nodes == [] then
      if a.deleteAfterwards then Result(Removed(s1, p.id), None, false, p.id in s1.bundles) else Result(s1, None, false, true)
    else if p.id !in s1.bundles then Result(s1, None, false, false)
    else
      match Prepared(s1, s1.bundles[p.id], node, a)
      case None => Result(Removed(s1, p.id), None, false, false)
      case Some(copy) =>
        match a.secure(copy)
        case None => Result(Synced(s1, Cleared(p)), None, false, false)
        case Some(secured) => Finished(s1, p, secured, a)
  }

  method DeleteBundle(store: InMemoryBundleStore, p: BundlePack)
    requires Filed(store.Contents()) && p.id in store.bundles
    modifies store
    ensures store.Contents() == Synced(old(store.Contents()), Cleared(p))
  {
    var _ := store.Sync(Cleared(p));
  }

  lemma FiledSynced(s: Store, p: BundlePack)
    requires Filed(s)
    ensures Filed(Synced(s, p))
  {}

  method PrepareCopy(store: InMemoryBundleStore, b: Bundle, node: string, a: Attempt) returns (copy: Option<Bundle>)
    requires Filed(store.Contents()) && b.id in store.bundles
    modifies store
    ensures copy == Prepared(old(store.Contents()), b, node, a)
    ensures store.Contents() == if copy.Some? then old(store.Contents()) else Removed(old(store.Contents()), b.id)
  {
    if a.expired {
      DeleteBundle(store, PackOf(b, a.now));
      return None;
    }
    var bundle := b;
    match b.hops {
      case None =>
      case Some((limit, count)) =>
        bundle := b.(hops := Some((limit, count + 1)));
        if count + 1 > limit {
          DeleteBundle(store, PackOf(b, a.now));
          return None;
        }
    }
    bundle := bundle.(previousNode := Some(node));
    if bundle.age.Some? && b.id in store.metadata {
      var age := bundle.age.value + Elapsed(store.metadata[b.id].received, a.now);
      if age != 0 {
        bundle := bundle.(age := Some(age));
        if age >= bundle.lifetime {
          DeleteBundle(store, PackOf(b, a.now));
          return None;
        }
      }
    }
    return Some(bundle);
  }

  method Forward(store: InMemoryBundleStore, bp: BundlePack, node: string, a: Attempt)
    returns (sent: Option<Bundle>, delivered: bool, ok: bool)
    requires Filed(store.Contents()) && |a.outcomes| == |a.nodes|
    modifies store
    ensures Result(store.Contents(), sent, delivered, ok) == Forwarded(old(store.Contents()), bp, node, a)
  {
    sent, delivered := None, false;
    var p := bp;
    p := With(p, ForwardPending);
    p := WithoutConstraint(p, DispatchPending);
    ghost var s0 := store.Contents();
    FiledSynced(s0, p);
    ok := store.Sync(p);
    if !ok {
      return;
    }
    if a.nodes == [] {
      if a.deleteAfterwards {
        ok := store.Remove(p.id);
      }
      return;
    }
    if p.id !in store.bundles {
      return None, false, false;
    }
    ghost var s1 := store.Contents();
    var copy := PrepareCopy(store, store.bundles[p.id], node, a);
    if copy.None? {
      return None, false, false;
    }
    var secured := a.secure(copy.value);
    if secured.None? {
      DeleteBundle(store, p);
      return None, false, false;
    }
    sent := secured;
    for i := 0 to |a.nodes|
      invariant store.Contents() == s1
      invariant delivered == AnySuccess(a.outcomes, i)
    {
      if a.outcomes[i] {
        delivered := true;
      }
    }
    if delivered {
      if a.deleteAfterwards {
        ok := store.Remove(p.id);
      } else if secured.value.administrative {
        ok := store.Sync(With(p, Contraindicated));
      }
    }
  }

  /** An attempt under the guard: without one nothing happens, and the guard is dropped on every path. */
  method ForwardGuarded(guards: ForwardingIds, store: InMemoryBundleStore, bp: BundlePack, node: string, a: Attempt)
    returns (sent: Option<Bundle>, delivered: bool, ok: bool)
    requires Filed(store.Contents()) && |a.outcomes| == |a.nodes|
    modifies guards, store
    ensures guards.ids == old(guards.ids)
    ensures Result(store.Contents(), sent, delivered, ok)
      == if bp.id in old(guards.ids) then Result(old(store.Contents()), None, false, true)
         else Forwarded(old(store.Contents()), bp, node, a)
  {
    hide Forwarded;
    var guard := guards.Acquire(bp.id);
    if guard.None? {
      return None, false, true;
    }
    sent, delivered, ok := Forward(store, bp, node, a);
    guards.Release(guard.value);
  }

  // ---------------------------------------------------------------- attempts never change the stored bundle

  /** The bundle of `s` is the same in `t` or gone, it was received at `r`, and other bundles are untouched. */
  ghost predicate KeepsStored(s: Store, t: Store, id: string, r: nat) {
    && Filed(t)
    && (id in t.bundles ==> id in s.bundles && t.bundles[id] == s.bundles[id])
    && id in t.metadata && t.metadata[id].received == r
    && (forall other :: other != id ==>
          (other in t.bundles <==> other in s.bundles)
          && (other in s.bundles ==> t.bundles[other] == s.bundles[other]))
  }

  lemma FirstSync(s: Store, p: BundlePack)
    requires Filed(s) && p.id in s.bundles && p.constraints != {}
    ensures KeepsStored(s, Synced(s, p), p.id, p.received)
  {}

  lemma FurtherSync(s: Store, t: Store, p: BundlePack)
    requires KeepsStored(s, t, p.id, p.received)
    ensures KeepsStored(s, Synced(t, p), p.id, p.received) && KeepsStored(s, Removed(t, p.id), p.id, p.received)
  {}

  /** An attempt either keeps the stored bundle as it was or removes it, and keeps the reception time. */
  lemma AttemptKeepsStored(s: Store, bp: BundlePack, node: string, a: Attempt)
    requires Filed(s) && bp.id in s.bundles
    ensures KeepsStored(s, Forwarded(s, bp, node, a).store, bp.id, bp.received)
  {
    var p := Marked(bp);
    assert ForwardPending in p.constraints;
    hide KeepsStored, Synced, Removed, Prepared, AnySuccess;
    FirstSync(s, p);
    FurtherSync(s, Synced(s, p), p);
    FurtherSync(s, Synced(s, p), Cleared(p));
    FurtherSync(s, Synced(s, p), With(p, Contraindicated));
  }

  /** A bundle that is not deleted on the way leaves the store only if it was delivered and is deleted afterwards, or
      there was nobody to send it to; otherwise it is pending again. */
  lemma RemovedOnlyDelivered(s: Store, bp: BundlePack, node: string, a: Attempt)
    requires Filed(s) && bp.id in s.bundles && a.nodes != []
    ensures var r := Forwarded(s, bp, node, a);
      r.sent.Some? ==>
        && (bp.id !in r.store.bundles <==> r.delivered && a.deleteAfterwards)
        && (bp.id in r.store.bundles ==> ForwardPending in r.store.metadata[bp.id].constraints)
        && (r.delivered <==> AnySuccess(a.outcomes, |a.nodes|))
  {}
}
