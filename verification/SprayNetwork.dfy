/** A network of spray-and-wait nodes and one bundle: how many nodes ever hold it. */
module SprayNetwork {
  import opened Options
  import opened Peers
  import opened SprayAndWait

  /** The bundle, its source and its destination; `nodeId` gives the node IDs of the nodes by name. */
  datatype Scenario = Scenario(l: nat, id: string, source: string, destination: string, nodeId: string -> string)

  /** Only the source takes the bundle for its own. */
  ghost predicate SourceOnly(sc: Scenario) {
    forall n :: StartsWith(sc.id, sc.nodeId(n)) <==> n == sc.source
  }

  /** The agents' histories by node, the transfers under way, and all nodes that have ever held the bundle. */
  datatype Net = Net(agents: map<string, History>, pending: multiset<(string, string)>, holders: set<string>)

  function AgentOf(net: Net, n: string): History {
    if n in net.agents then net.agents[n] else map[]
  }

  function Transfers(n: string, senders: seq<Sender>): multiset<(string, string)> {
    if senders == [] then multiset{}
    else
      var k := |senders| - 1;
      Transfers(n, senders[..k]) + multiset{(n, senders[k].nextHop)}
  }

  datatype Event =
    | Select(node: string, peers: seq<Peer>)
    | Deliver(node: string, to: string)
    | Fail(node: string, to: string)

  predicate Enabled(net: Net, e: Event) {
    match e
    case Select(n, _) => n in net.holders
    case Deliver(n, m) => (n, m) in net.pending
    case Fail(n, m) => (n, m) in net.pending
  }

  /** A node asks its agent for senders and starts the transfers; a transfer arrives and the receiver learns of the
      bundle; or it fails without having arrived, and the sender's agent is told. */
  function Next(sc: Scenario, net: Net, e: Event): Net {
    match e
    case Select(n, peers) =>
      var h := AgentOf(net, n);
      var pass := Selected(sc.nodeId(n), h, sc.id, Some(sc.destination), peers);
      Net(net.agents[n := Exec(sc.l, sc.nodeId(n), h, SenderForBundle(sc.id, Some(sc.destination), peers))],
          net.pending + Transfers(n, pass.senders), net.holders)
    case Deliver(n, m) =>
      Net(net.agents[m := Exec(sc.l, sc.nodeId(m), AgentOf(net, m), NewBundle(sc.id))],
          net.pending - multiset{(n, m)}, net.holders + {m})
    case Fail(n, m) =>
      Net(net.agents[n := Exec(sc.l, sc.nodeId(n), AgentOf(net, n), SendingFailed(sc.id, m))],
          net.pending - multiset{(n, m)}, net.holders)
  }

  /** The source has learned of its bundle, nobody else. */
  function Start(sc: Scenario): Net {
    Net(map[sc.source := Exec(sc.l, sc.nodeId(sc.source), map[], NewBundle(sc.id))], multiset{}, {sc.source})
  }

  predicate Runs(sc: Scenario, net: Net, es: seq<Event>)
    decreases |es|
  {
    es == [] || (Enabled(net, es[0]) && Runs(sc, Next(sc, net, es[0]), es[1..]))
  }

  function After(sc: Scenario, net: Net, es: seq<Event>): Net
    decreases |es|
  {
    if es == [] then net else After(sc, Next(sc, net, es[0]), es[1..])
  }

  // ---------------------------------------------------------------- the invariant

  function SourceData(sc: Scenario, net: Net): BundleData
    requires sc.id in AgentOf(net, sc.source)
  {
    AgentOf(net, sc.source)[sc.id]
  }

  /** Relays have one copy, which only goes to the destination; every relay holding the bundle, and every relay a
      transfer of the source is under way to, is recorded by the source, never both. */
  ghost predicate Inv(sc: Scenario, net: Net) {
    && sc.id in AgentOf(net, sc.source)
    && Kept(SourceData(sc, net), sc.l)
    && (forall n :: n != sc.source ==> OneCopy(sc, net, n))
    && (forall n, m :: n != sc.source && m != sc.destination ==> net.pending[(n, m)] == 0)
    && (forall m :: m != sc.destination ==> RelayInv(sc, net, m))
  }

  predicate OneCopy(sc: Scenario, net: Net, n: string) {
    sc.id in AgentOf(net, n) ==> AgentOf(net, n)[sc.id] == BundleData(1, [])
  }

  ghost predicate RelayInv(sc: Scenario, net: Net, m: string)
    requires sc.id in AgentOf(net, sc.source)
  {
    && net.pending[(sc.source, m)] <= 1
    && (net.pending[(sc.source, m)] == 1 ==> m in SourceData(sc, net).nodes && (m in net.holders ==> m == sc.source))
    && (m in net.holders && m != sc.source ==> m in SourceData(sc, net).nodes)
  }

  lemma {:induction false} TransfersCount(n: string, senders: seq<Sender>, a: string, m: string)
    requires forall i, j :: 0 <= i < j < |senders| ==> senders[i].nextHop != senders[j].nextHop
    ensures Transfers(n, senders)[(a, m)]
      == if a == n && exists i :: 0 <= i < |senders| && senders[i].nextHop == m then 1 else 0
    decreases |senders|
  {
    if senders != [] {
      var k := |senders| - 1;
      TransfersCount(n, senders[..k], a, m);
      if i :| 0 <= i < |senders| && senders[i].nextHop == m {
        if i < k {
          assert senders[..k][i].nextHop == m;
        }
      }
    }
  }

  lemma StartInv(sc: Scenario)
    requires SourceOnly(sc)
    ensures Inv(sc, Start(sc))
  {
    assert StartsWith(sc.id, sc.nodeId(sc.source));
  }

  /** A relay with one copy only ever sends to the destination, and its books do not change. */
  lemma {:induction false} RelayWaits(local: string, destination: string, peers: seq<Peer>)
    ensures var pass := VisitAll(local, Some(destination), BundleData(1, []), peers);
      && pass.data == BundleData(1, []) && |pass.senders| <= 1
      && forall i :: 0 <= i < |pass.senders| ==> pass.senders[i].nextHop == destination
    decreases |peers|
  {
    if peers != [] {
      RelayWaits(local, destination, peers[..|peers| - 1]);
    }
  }

  lemma RelaySelects(sc: Scenario, net: Net, n: string, peers: seq<Peer>)
    requires Inv(sc, net) && n != sc.source
    ensures Inv(sc, Next(sc, net, Select(n, peers)))
  {
    var net1 := Next(sc, net, Select(n, peers));
    var pass := Selected(sc.nodeId(n), AgentOf(net, n), sc.id, Some(sc.destination), peers);
    RelayWaits(sc.nodeId(n), sc.destination, peers);
    assert OneCopy(sc, net, n);
    forall a, m | m != sc.destination ensures net1.pending[(a, m)] == net.pending[(a, m)] {
      TransfersCount(n, pass.senders, a, m);
    }
    assert AgentOf(net1, sc.source) == AgentOf(net, sc.source);
    forall x | x != sc.source ensures OneCopy(sc, net1, x) {
      assert OneCopy(sc, net, x);
    }
    forall m | m != sc.destination ensures RelayInv(sc, net1, m) {
      assert RelayInv(sc, net, m);
    }
  }

  lemma SourceSelects(sc: Scenario, net: Net, peers: seq<Peer>)
    requires Inv(sc, net)
    ensures Inv(sc, Next(sc, net, Select(sc.source, peers)))
  {
    var n := sc.source;
    var net1 := Next(sc, net, Select(n, peers));
    var d := SourceData(sc, net);
    var pass := Selected(sc.nodeId(n), AgentOf(net, n), sc.id, Some(sc.destination), peers);
    var served := PassFair(sc.nodeId(n), Some(sc.destination), d, peers);
    assert SourceData(sc, net1) == pass.data && net1.pending == net.pending + Transfers(n, pass.senders);
    hide VisitAll, Transfers;
    SendersDistinct(d, Some(sc.destination), pass, served);
    forall x | x != sc.source ensures OneCopy(sc, net1, x) {
      assert OneCopy(sc, net, x);
    }
    forall a, m | a != sc.source && m != sc.destination ensures net1.pending[(a, m)] == 0 {
      TransfersCount(n, pass.senders, a, m);
    }
    forall m | m != sc.destination ensures RelayInv(sc, net1, m) {
      assert RelayInv(sc, net, m);
      TransfersCount(n, pass.senders, n, m);
      ServedRelay(d, Some(sc.destination), pass, served, m);
    }
  }

  lemma SendersDistinct(d: BundleData, destination: Option<string>, pass: Pass, served: seq<string>)
    requires Fair(d, destination, pass, served)
    ensures forall i, j :: 0 <= i < j < |pass.senders| ==> pass.senders[i].nextHop != pass.senders[j].nextHop
  {
    forall i, j | 0 <= i < j < |pass.senders| ensures pass.senders[i].nextHop != pass.senders[j].nextHop {
      assert pass.data.nodes[|d.nodes| + i] == served[i] && pass.data.nodes[|d.nodes| + j] == served[j];
    }
  }

  /** A peer other than the destination that is sent to has been served anew; all served before stay so. */
  lemma ServedRelay(d: BundleData, destination: Option<string>, pass: Pass, served: seq<string>, m: string)
    requires Fair(d, destination, pass, served) && destination != Some(m)
    ensures (exists i :: 0 <= i < |pass.senders| && pass.senders[i].nextHop == m) ==>
      m !in d.nodes && m in pass.data.nodes
    ensures m in d.nodes ==> m in pass.data.nodes
  {
    if i :| 0 <= i < |pass.senders| && pass.senders[i].nextHop == m {
      assert served[i] == m;
      NewlyServed(d, served, pass.data.nodes, i);
    }
  }

  lemma NewlyServed(d: BundleData, served: seq<string>, nodes: seq<string>, i: nat)
    requires nodes == d.nodes + served && Distinct(nodes) && i < |served|
    ensures served[i] !in d.nodes && served[i] in nodes
  {
    assert nodes[|d.nodes| + i] == served[i];
    assert forall j :: 0 <= j < |d.nodes| ==> nodes[j] == d.nodes[j];
  }

  lemma DeliverKeeps(sc: Scenario, net: Net, n: string, m: string)
    requires SourceOnly(sc) && Inv(sc, net) && (n, m) in net.pending
    ensures Inv(sc, Next(sc, net, Deliver(n, m)))
  {
    var net1 := Next(sc, net, Deliver(n, m));
    assert SourceData(sc, net1) == SourceData(sc, net);
    assert m != sc.source ==> !StartsWith(sc.id, sc.nodeId(m));
    forall x | x != sc.source ensures OneCopy(sc, net1, x) {
      assert OneCopy(sc, net, x);
    }
    forall a, k ensures net1.pending[(a, k)] == net.pending[(a, k)] - (if (a, k) == (n, m) then 1 else 0) {}
    forall k | k != sc.destination ensures RelayInv(sc, net1, k) {
      assert RelayInv(sc, net, k);
      if k == m {
        assert n == sc.source;
      }
    }
  }

  lemma FailKeeps(sc: Scenario, net: Net, n: string, m: string)
    requires Inv(sc, net) && (n, m) in net.pending
    ensures Inv(sc, Next(sc, net, Fail(n, m)))
  {
    var net1 := Next(sc, net, Fail(n, m));
    forall a, k ensures net1.pending[(a, k)] == net.pending[(a, k)] - (if (a, k) == (n, m) then 1 else 0) {}
    if n == sc.source {
      WithoutMeaning(SourceData(sc, net).nodes, m);
      assert SourceData(sc, net1) == Returned(SourceData(sc, net), m);
    } else {
      assert Without([], m) == [];
      assert AgentOf(net1, sc.source) == AgentOf(net, sc.source);
    }
    forall x | x != sc.source ensures OneCopy(sc, net1, x) {
      assert OneCopy(sc, net, x);
    }
    forall k | k != sc.destination ensures RelayInv(sc, net1, k) {
      assert RelayInv(sc, net, k);
    }
  }

  lemma NextKeeps(sc: Scenario, net: Net, e: Event)
    requires SourceOnly(sc) && Inv(sc, net) && Enabled(net, e)
    ensures Inv(sc, Next(sc, net, e))
  {
    match e {
      case Select(n, peers) =>
        if n == sc.source { SourceSelects(sc, net, peers); } else { RelaySelects(sc, net, n, peers); }
      case Deliver(n, m) => DeliverKeeps(sc, net, n, m);
      case Fail(n, m) => FailKeeps(sc, net, n, m);
    }
  }

  // ---------------------------------------------------------------- the bound

  lemma {:induction false} SetOfSeq(s: seq<string>)
    ensures |set x | x in s| <= |s|
  {
    if s != [] {
      SetOfSeq(s[1..]);
      assert s == [s[0]] + s[1..];
      assert (set x | x in s) == {s[0]} + (set x | x in s[1..]);
    }
  }

  lemma SubsetSize(a: set<string>, b: set<string>)
    requires a <= b
    ensures |a| <= |b|
  {
    assert b == a + (b - a);
  }

  function Relays(sc: Scenario, net: Net): set<string> {
    net.holders - {sc.source, sc.destination}
  }

  lemma InvBound(sc: Scenario, net: Net)
    requires Inv(sc, net)
    ensures |Relays(sc, net)| <= (if sc.l < 1 then 1 else sc.l) - 1
  {
    var nodes := SourceData(sc, net).nodes;
    var served := set x | x in nodes;
    forall m | m in Relays(sc, net) ensures m in served {
      assert RelayInv(sc, net, m);
    }
    SetOfSeq(nodes);
    SubsetSize(Relays(sc, net), served);
  }

  lemma {:induction false} RunInv(sc: Scenario, net: Net, es: seq<Event>)
    requires SourceOnly(sc) && Inv(sc, net) && Runs(sc, net, es)
    ensures Inv(sc, After(sc, net, es))
    decreases |es|
  {
    if es != [] {
      NextKeeps(sc, net, es[0]);
      RunInv(sc, Next(sc, net, es[0]), es[1..]);
    }
  }

  /** In every run of the network, at most max(l, 1) - 1 nodes other than source and destination ever hold the bundle. */
  lemma NetworkBound(sc: Scenario, es: seq<Event>)
    requires SourceOnly(sc) && Runs(sc, Start(sc), es)
    ensures |Relays(sc, After(sc, Start(sc), es))| <= (if sc.l < 1 then 1 else sc.l) - 1
  {
    StartInv(sc);
    RunInv(sc, Start(sc), es);
    InvBound(sc, After(sc, Start(sc), es));
  }
}
