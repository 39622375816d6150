/** A bundle on its way through several nodes, each trying to forward it as often as it likes. */
module Journey {
  import opened Options
  import opened BundleStore
  import opened Forwarding

  /** One node of the path: when it received the bundle, what was in its store, and its attempts to forward it with the
      constraints each of them starts from. The last attempt reaches the next node. */
  datatype Stay = Stay(node: string, store: Store, received: nat, attempts: seq<(set<Constraint>, Attempt)>)

  /** The security policy leaves the hop count and bundle age blocks alone. */
  ghost predicate KeepsCounts(a: Attempt) {
    forall b :: a.secure(b).Some? ==>
      a.secure(b).value.hops == b.hops && a.secure(b).value.age == b.age && a.secure(b).value.id == b.id
  }

  function RunAttempts(s: Store, id: string, stay: Stay, n: nat): Store
    requires n <= |stay.attempts|
  {
    if n == 0 then s
    else
      var (constraints, a) := stay.attempts[n - 1];
      Forwarded(RunAttempts(s, id, stay, n - 1), BundlePack(id, stay.received, constraints), stay.node, a).store
  }

  function LastAttempt(b: Bundle, stay: Stay): Result
    requires stay.attempts != []
  {
    var n := |stay.attempts| - 1;
    var (constraints, a) := stay.attempts[n];
    Forwarded(RunAttempts(Pushed(stay.store, b, stay.received), b.id, stay, n),
              BundlePack(b.id, stay.received, constraints), stay.node, a)
  }

  /** The node receives `b` as a new bundle, and its last attempt delivers `c`. */
  ghost predicate Carries(b: Bundle, stay: Stay, c: Bundle) {
    && Filed(stay.store) && !Known(stay.store, b.id)
    && stay.attempts != [] && (forall i :: 0 <= i < |stay.attempts| ==> KeepsCounts(stay.attempts[i].1))
    && LastAttempt(b, stay).delivered && LastAttempt(b, stay).sent == Some(c)
  }

  ghost predicate Travels(trail: seq<Bundle>, stays: seq<Stay>) {
    |trail| == |stays| + 1 && forall i :: 0 <= i < |stays| ==> Carries(trail[i], stays[i], trail[i + 1])
  }

  /** The time the bundle spent at a node before it left; a clock set back counts as no time. */
  function Residence(stay: Stay): nat {
    if stay.attempts == [] then 0 else TimeSince(stay.received, stay.attempts[|stay.attempts| - 1].1.now)
  }

  function TimeSince(received: nat, now: nat): nat {
    if now < received then 0 else now - received
  }

  function TotalResidence(stays: seq<Stay>): nat {
    if stays == [] then 0
    else
      var n := |stays| - 1;
      TotalResidence(stays[..n]) + Residence(stays[n])
  }

  /** What all attempts at a node start from. */
  predicate Holds(s: Store, b: Bundle) {
    Filed(s) && b.id in s.metadata && (b.id in s.bundles ==> s.bundles[b.id] == b)
  }

  lemma HoldsKept(s: Store, b: Bundle, p: BundlePack, node: string, a: Attempt)
    requires Holds(s, b) && p.id == b.id
    ensures Holds(Forwarded(s, p, node, a).store, b)
  {
    if b.id in s.bundles {
      AttemptKeepsStored(s, p, node, a);
    }
  }

  lemma {:induction false} AttemptsHold(s: Store, b: Bundle, stay: Stay, n: nat)
    requires Holds(s, b) && n <= |stay.attempts|
    ensures Holds(RunAttempts(s, b.id, stay, n), b)
  {
    if n > 0 {
      AttemptsHold(s, b, stay, n - 1);
      var (constraints, a) := stay.attempts[n - 1];
      HoldsKept(RunAttempts(s, b.id, stay, n - 1), b, BundlePack(b.id, stay.received, constraints), stay.node, a);
    }
  }

  function Plus(age: Option<nat>, t: nat): Option<nat> {
    match age case None => None case Some(x) => Some(x + t)
  }

  function MoreHops(hops: Option<(nat, nat)>, n: nat): Option<(nat, nat)> {
    match hops case None => None case Some((limit, count)) => Some((limit, count + n))
  }

  /** The copy an attempt sends is one hop and the time since reception on from the stored bundle. */
  lemma CopySent(s: Store, b: Bundle, p: BundlePack, node: string, a: Attempt)
    requires Holds(s, b) && p.id == b.id && KeepsCounts(a)
    requires Forwarded(s, p, node, a).delivered && Forwarded(s, p, node, a).sent.Some?
    ensures var c := Forwarded(s, p, node, a).sent.value;
      c.hops == MoreHops(b.hops, 1) && c.age == Plus(b.age, TimeSince(p.received, a.now)) && c.id == b.id
  {
    var m := Marked(p);
    assert ForwardPending in m.constraints;
    var s1 := Synced(s, m);
    assert s1.metadata[b.id].received == p.received;
  }

  lemma CarriedOnce(b: Bundle, stay: Stay, c: Bundle)
    requires Carries(b, stay, c)
    ensures c.hops == MoreHops(b.hops, 1) && c.age == Plus(b.age, Residence(stay)) && c.id == b.id
  {
    hide Forwarded;
    var s := Pushed(stay.store, b, stay.received);
    var n := |stay.attempts| - 1;
    AttemptsHold(s, b, stay, n);
    var (constraints, a) := stay.attempts[n];
    CopySent(RunAttempts(s, b.id, stay, n), b, BundlePack(b.id, stay.received, constraints), stay.node, a);
  }

  /** However often each node tried: the delivered copy has one hop per forwarding node more than the original, and its
      age has grown by the residence times. */
  lemma {:induction false} RetriesDoNotAccumulate(trail: seq<Bundle>, stays: seq<Stay>)
    requires Travels(trail, stays)
    ensures var b, c := trail[0], trail[|stays|];
      c.hops == MoreHops(b.hops, |stays|) && c.age == Plus(b.age, TotalResidence(stays)) && c.id == b.id
    decreases |stays|
  {
    hide Carries;
    if stays != [] {
      var n := |stays| - 1;
      assert Travels(trail[..n + 1], stays[..n]);
      RetriesDoNotAccumulate(trail[..n + 1], stays[..n]);
      CarriedOnce(trail[n], stays[n], trail[n + 1]);
    }
  }

  /** On the way no count exceeds its limit and no age reaches the lifetime. */
  lemma CarriedWithinLimits(b: Bundle, stay: Stay, c: Bundle)
    requires Carries(b, stay, c)
    ensures c.hops.Some? ==> c.hops.value.1 <= c.hops.value.0
    ensures b.age.Some? && c.age.Some? && c.age != Some(0) ==> c.age.value < b.lifetime
  {
    hide Forwarded;
    var s := Pushed(stay.store, b, stay.received);
    var n := |stay.attempts| - 1;
    AttemptsHold(s, b, stay, n);
    var (constraints, a) := stay.attempts[n];
    WithinLimits(RunAttempts(s, b.id, stay, n), b, BundlePack(b.id, stay.received, constraints), stay.node, a);
    CarriedOnce(b, stay, c);
  }

  lemma WithinLimits(s: Store, b: Bundle, p: BundlePack, node: string, a: Attempt)
    requires Holds(s, b) && p.id == b.id && KeepsCounts(a)
    requires Forwarded(s, p, node, a).sent.Some?
    ensures var c := Forwarded(s, p, node, a).sent.value;
      && (c.hops.Some? ==> c.hops.value.1 <= c.hops.value.0)
      && (b.age.Some? && c.age.Some? && c.age != Some(0) ==> c.age.value < b.lifetime)
  {
    var m := Marked(p);
    assert ForwardPending in m.constraints;
  }

  // ---------------------------------------------------------------- one attempt in all its cases

  /** The bundle may still be sent: its lifetime has not passed, it has a hop left and its age is below its lifetime. */
  predicate MaySend(b: Bundle, received: nat, a: Attempt) {
    && !a.expired
    && (b.hops.Some? ==> b.hops.value.1 < b.hops.value.0)
    && (b.age.Some? ==>
          var age := b.age.value + TimeSince(received, a.now);
          age == 0 || age < b.lifetime)
  }

  /** The copy for the next node, before the security policy. */
  function NextCopy(b: Bundle, received: nat, node: string, a: Attempt): Bundle {
    b.(hops := MoreHops(b.hops, 1), age := Plus(b.age, TimeSince(received, a.now)), previousNode := Some(node))
  }

  /** The constraints of a bundle that is being forwarded. */
  function WhileForwarding(p: BundlePack): set<Constraint> {
    p.constraints + {ForwardPending} - {DispatchPending}
  }

  predicate AnyDelivered(a: Attempt) {
    exists i :: 0 <= i < |a.nodes| && i < |a.outcomes| && a.outcomes[i]
  }

  /** Without metadata, without a peer or without the bundle nothing is sent. */
  lemma NothingToSend(s: Store, p: BundlePack, node: string, a: Attempt)
    requires Filed(s) && (p.id !in s.bundles || a.nodes == [])
    ensures var r := Forwarded(s, p, node, a);
      && r.sent == None && !r.delivered
      && (p.id !in s.metadata ==> r.store == s && !r.ok)
      && (p.id in s.metadata && a.nodes != [] ==> !r.ok)
      && (p.id in s.metadata && !(a.nodes == [] && a.deleteAfterwards) ==>
            r.store.bundles == s.bundles && r.store.metadata[p.id].constraints == WhileForwarding(p))
      && (p.id in s.metadata && a.nodes == [] && a.deleteAfterwards ==>
            r.store.bundles == s.bundles - {p.id} && Deleted in r.store.metadata[p.id].constraints)
  {
    assert ForwardPending in Marked(p).constraints;
  }

  /** A bundle that may not be sent is removed, marked as deleted, and nothing is sent. */
  lemma UnfitIsDeleted(s: Store, p: BundlePack, node: string, a: Attempt)
    requires Filed(s) && p.id in s.bundles && a.nodes != [] && !MaySend(s.bundles[p.id], p.received, a)
    ensures var r := Forwarded(s, p, node, a);
      && r.sent == None && !r.delivered && !r.ok
      && r.store.bundles == s.bundles - {p.id} && Deleted in r.store.metadata[p.id].constraints
  {
    StoredCopy(s, p, node, a);
    hide Prepared, Filed;
    FirstSync(s, Marked(p));
  }

  /** What the copy is prepared from, and what becomes of it. */
  lemma StoredCopy(s: Store, p: BundlePack, node: string, a: Attempt)
    requires Filed(s) && p.id in s.bundles
    ensures var s1 := Synced(s, Marked(p));
      && s1 == s.(metadata := s.metadata[p.id := Marked(p)]) && SyncOk(s, Marked(p))
      && Prepared(s1, s.bundles[p.id], node, a)
         == if MaySend(s.bundles[p.id], p.received, a) then Some(NextCopy(s.bundles[p.id], p.received, node, a)) else None
  {
    assert ForwardPending in Marked(p).constraints;
  }

  /** A bundle that may be sent goes through the security policy, which can still stop it; what is sent is the next copy
      as secured, and the stored bundle stays unless it was delivered and is to be deleted afterwards. */
  lemma FitIsSent(s: Store, p: BundlePack, node: string, a: Attempt)
    requires Filed(s) && p.id in s.bundles && a.nodes != [] && MaySend(s.bundles[p.id], p.received, a)
    ensures var r, secured := Forwarded(s, p, node, a), a.secure(NextCopy(s.bundles[p.id], p.received, node, a));
      r.sent == secured && (r.ok <==> secured.Some?) && (r.delivered <==> secured.Some? && AnyDelivered(a))
    ensures var r := Forwarded(s, p, node, a);
      r.sent.None? ==>
        && r.store.bundles == (if LocalEndpoint in p.constraints then s.bundles else s.bundles - {p.id})
        && ForwardPending !in r.store.metadata[p.id].constraints
    ensures var r := Forwarded(s, p, node, a);
      r.sent.Some? && r.delivered && a.deleteAfterwards ==>
        r.store.bundles == s.bundles - {p.id} && Deleted in r.store.metadata[p.id].constraints
    ensures var r := Forwarded(s, p, node, a);
      r.sent.Some? && !(r.delivered && a.deleteAfterwards) ==>
        && r.store.bundles == s.bundles
        && r.store.metadata[p.id].constraints == WhileForwarding(p)
             + (if r.delivered && r.sent.value.administrative then {Contraindicated} else {})
  {
    StoredCopy(s, p, node, a);
    hide Prepared, MaySend, NextCopy;
    assert AnySuccess(a.outcomes, |a.nodes|) <==> AnyDelivered(a);
  }

  /** What stays after an attempt that sends is tried again, unless it waits for reassembly. */
  lemma TriedAgain(s: Store, p: BundlePack, node: string, a: Attempt)
    requires Filed(s) && p.id in s.bundles && a.nodes != [] && MaySend(s.bundles[p.id], p.received, a)
    requires Forwarded(s, p, node, a).sent.Some?
    ensures var r := Forwarded(s, p, node, a);
      p.id in Pending(r.store) <==> p.id in r.store.bundles && ReassemblyPending !in p.constraints
  {
    FitIsSent(s, p, node, a);
    AttemptKeepsStored(s, p, node, a);
    RemovedOnlyDelivered(s, p, node, a);
    hide Forwarded, MaySend, NextCopy;
  }

  /** No delivery is of a bundle whose lifetime has passed. */
  lemma CarriedUnexpired(b: Bundle, stay: Stay, c: Bundle)
    requires Carries(b, stay, c)
    ensures !stay.attempts[|stay.attempts| - 1].1.expired
    ensures var a := stay.attempts[|stay.attempts| - 1].1;
      (forall x :: a.secure(x).Some? ==> a.secure(x).value.previousNode == x.previousNode) ==>
        c.previousNode == Some(stay.node)
  {
    hide Forwarded;
    var s := Pushed(stay.store, b, stay.received);
    var n := |stay.attempts| - 1;
    AttemptsHold(s, b, stay, n);
    var (constraints, a) := stay.attempts[n];
    var t, p := RunAttempts(s, b.id, stay, n), BundlePack(b.id, stay.received, constraints);
    if p.id in t.bundles && a.nodes != [] {
      if MaySend(b, p.received, a) {
        FitIsSent(t, p, stay.node, a);
      } else {
        UnfitIsDeleted(t, p, stay.node, a);
      }
    } else {
      NothingToSend(t, p, stay.node, a);
    }
  }
}
