/** The in-memory bundle store and the retention constraints of its bundles. */
module BundleStore {
  import opened Options

  datatype Constraint = DispatchPending | ForwardPending | ReassemblyPending | Contraindicated | LocalEndpoint | Deleted

  /** A bundle as far as storing and forwarding look at it: `hops` is the limit and count of its hop count block, `age`
      the milliseconds of its bundle age block, if it has these blocks. */
  datatype Bundle = Bundle(id: string, administrative: bool, lifetime: nat, hops: Option<(nat, nat)>, age: Option<nat>,
                           previousNode: Option<string>)

  datatype BundlePack = BundlePack(id: string, received: nat, constraints: set<Constraint>)

  function PackOf(b: Bundle, now: nat): BundlePack {
    BundlePack(b.id, now, {})
  }

  /** All constraints but that of a local endpoint, which only the endpoint removes. */
  function Cleared(p: BundlePack): BundlePack {
    p.(constraints := if LocalEndpoint in p.constraints then {LocalEndpoint} else {})
  }

  function With(p: BundlePack, c: Constraint): BundlePack {
    p.(constraints := p.constraints + {c})
  }

  function WithoutConstraint(p: BundlePack, c: Constraint): BundlePack {
    p.(constraints := p.constraints - {c})
  }

  datatype Store = Store(bundles: map<string, Bundle>, metadata: map<string, BundlePack>)

  predicate Known(s: Store, id: string) {
    id in s.metadata
  }

  function Pushed(s: Store, b: Bundle, now: nat): Store {
    Store(s.bundles[b.id := b], if b.id in s.bundles then s.metadata else s.metadata[b.id := PackOf(b, now)])
  }

  /** The store after a metadata update; an unknown bundle is an error that changes nothing. */
  function Updated(s: Store, p: BundlePack): Store {
    if p.id in s.metadata then s.(metadata := s.metadata[p.id := p]) else s
  }

  /** Removing keeps the metadata, marked as deleted. */
  function Removed(s: Store, id: string): Store {
    if id !in s.metadata then s
    else
      var marked := Updated(s, With(Cleared(s.metadata[id]), Deleted));
      marked.(bundles := marked.bundles - {id})
  }

  /** Metadata is filed under its own ID and every stored bundle has some. */
  predicate Filed(s: Store) {
    && s.bundles.Keys <= s.metadata.Keys
    && (forall id :: id in s.metadata ==> s.metadata[id].id == id)
    && (forall id :: id in s.bundles ==> s.bundles[id].id == id)
  }

  function Pending(s: Store): set<string> {
    set id | id in s.metadata
      && ReassemblyPending !in s.metadata[id].constraints
      && (ForwardPending in s.metadata[id].constraints || Contraindicated in s.metadata[id].constraints)
  }

  function Matching(s: Store, criteria: set<Constraint>): set<string> {
    set id | id in s.metadata && criteria <= s.metadata[id].constraints
  }

  class InMemoryBundleStore {
    var bundles: map<string, Bundle>
    var metadata: map<string, BundlePack>

    ghost function Contents(): Store
      reads this
    {
      Store(bundles, metadata)
    }

    constructor ()
      ensures Contents() == Store(map[], map[])
    {
      bundles, metadata := map[], map[];
    }

    method Push(b: Bundle, now: nat)
      modifies this
      ensures Contents() == Pushed(old(Contents()), b, now)
    {
      if b.id !in bundles {
        metadata := metadata[b.id := PackOf(b, now)];
      }
      bundles := bundles[b.id := b];
    }

    method UpdateMetadata(p: BundlePack) returns (ok: bool)
      modifies this
      ensures Contents() == Updated(old(Contents()), p) && ok == Known(old(Contents()), p.id)
    {
      if p.id !in metadata {
        return false;
      }
      metadata := metadata[p.id := p];
      return true;
    }

    method Remove(id: string) returns (ok: bool)
      requires Filed(Contents())
      modifies this
      ensures Contents() == Removed(old(Contents()), id)
      ensures ok == (id in old(bundles))
    {
      if id !in metadata {
        return false;
      }
      var p := With(Cleared(metadata[id]), Deleted);
      var updated := UpdateMetadata(p);
      if !updated {
        return false;
      }
      ok := id in bundles;
      bundles := bundles - {id};
    }

    predicate IsKnown(id: string)
      reads this
      ensures IsKnown(id) == Known(Contents(), id)
    {
      id in metadata
    }

    /** The check and the insertion happen under one lock. */
    method AddIfUnknown(b: Bundle, now: nat) returns (added: bool)
      modifies this
      ensures added == !Known(old(Contents()), b.id)
      ensures Contents() == if added then Pushed(old(Contents()), b, now) else old(Contents())
    {
      if !IsKnown(b.id) {
        Push(b, now);
        return true;
      }
      return false;
    }

    /** Without constraints, synchronising removes the bundle. */
    method Sync(p: BundlePack) returns (ok: bool)
      requires Filed(Contents())
      modifies this
      ensures Contents() == Synced(old(Contents()), p)
      ensures ok == (if p.constraints == {} then p.id in old(bundles) else Known(old(Contents()), p.id))
    {
      if p.constraints == {} {
        ok := Remove(p.id);
      } else {
        ok := UpdateMetadata(p);
      }
    }
  }

  function Synced(s: Store, p: BundlePack): Store {
    if p.constraints == {} then Removed(s, p.id) else Updated(s, p)
  }

  predicate SyncOk(s: Store, p: BundlePack) {
    if p.constraints == {} then p.id in s.bundles else Known(s, p.id)
  }

  // ---------------------------------------------------------------- what every operation keeps

  datatype Op = DoPush(bundle: Bundle, now: nat) | DoUpdate(pack: BundlePack) | DoRemove(id: string)

  function Do(s: Store, op: Op): Store {
    match op
    case DoPush(b, now) => Pushed(s, b, now)
    case DoUpdate(p) => Updated(s, p)
    case DoRemove(id) => Removed(s, id)
  }

  lemma DoKeeps(s: Store, op: Op)
    requires Filed(s)
    ensures Filed(Do(s, op))
    ensures forall id :: Known(s, id) ==> Known(Do(s, op), id)
  {}

  /** Removing and adding again is refused: what was once stored stays known, and its bundle is gone until pushed. */
  lemma RemovedStaysKnown(s: Store, id: string)
    requires Filed(s) && id in s.bundles
    ensures var r := Removed(s, id);
      && Known(r, id) && id !in r.bundles && id !in Pending(r)
      && r.metadata[id].constraints == (if LocalEndpoint in s.metadata[id].constraints then {LocalEndpoint, Deleted}
                                        else {Deleted})
      && (forall other :: other != id ==> (other in r.bundles <==> other in s.bundles)
                                           && (other in Pending(r) <==> other in Pending(s)))
  {}

  /** Storing a bundle again replaces it but keeps its metadata, and so its constraints; a new or deleted one starts
      without constraints. */
  lemma PushKeepsMetadata(s: Store, b: Bundle, now: nat)
    requires Filed(s)
    ensures var r := Do(s, DoPush(b, now));
      && b.id in r.bundles && r.bundles[b.id] == b
      && (b.id in s.bundles ==> r.metadata == s.metadata)
      && (b.id !in s.bundles ==> r.metadata[b.id].constraints == {} && r.metadata[b.id].received == now)
      && (forall id :: id != b.id ==>
            && (id in r.bundles <==> id in s.bundles) && (id in s.bundles ==> r.bundles[id] == s.bundles[id])
            && (id in r.metadata <==> id in s.metadata) && (id in s.metadata ==> r.metadata[id] == s.metadata[id]))
  {}

  /** Synchronising metadata: unknown bundles are left alone, others get it, or go if it has no constraints. */
  lemma SyncExactly(s: Store, p: BundlePack)
    requires Filed(s)
    ensures var r := Synced(s, p);
      && (p.id !in s.metadata ==> r == s)
      && (p.id in s.metadata && p.constraints != {} ==> r.bundles == s.bundles && r.metadata == s.metadata[p.id := p])
      && (p.id in s.metadata && p.constraints == {} ==>
            && r.bundles == s.bundles - {p.id} && Deleted in r.metadata[p.id].constraints
            && (LocalEndpoint in r.metadata[p.id].constraints <==> LocalEndpoint in s.metadata[p.id].constraints))
  {}

  /** What is retried: everything to be forwarded or contraindicated that is not waiting for reassembly. */
  lemma PendingExactly(s: Store, id: string)
    ensures id in Pending(s) <==>
      && Matching(s, {}) >= {id}
      && (id in Matching(s, {ForwardPending}) || id in Matching(s, {Contraindicated}))
      && id !in Matching(s, {ReassemblyPending})
  {}
}
