/** Spray-and-wait routing: the agent's copies of each bundle, over every trace of commands. */
module SprayAndWait {
  import opened Options
  import opened Peers

  datatype BundleData = BundleData(remaining: nat, nodes: seq<string>)

  type History = map<string, BundleData>

  predicate StartsWith(s: string, prefix: string) {
    |prefix| <= |s| && s[..|prefix|] == prefix
  }

  /** The copies a node may spread of a bundle it learns about. */
  function Grant(l: nat, local: string, id: string): nat {
    if StartsWith(id, local) then l else 1
  }

  // ---------------------------------------------------------------- new bundles and failures

  function Learned(l: nat, local: string, h: History, id: string): History {
    if id in h then h else h[id := BundleData(Grant(l, local, id), [])]
  }

  function Without(nodes: seq<string>, name: string): (r: seq<string>)
    ensures |r| <= |nodes|
  {
    if nodes == [] then []
    else (if nodes[0] != name then [nodes[0]] else []) + Without(nodes[1..], name)
  }

  function Returned(d: BundleData, name: string): BundleData {
    var kept := Without(d.nodes, name);
    BundleData(d.remaining + (|d.nodes| - |kept|), kept)
  }

  function Failed(h: History, id: string, name: string): History {
    if id in h then h[id := Returned(h[id], name)] else h
  }

  // ---------------------------------------------------------------- selecting senders

  /** The state of the loop over the peers. */
  datatype Pass = Pass(data: BundleData, senders: seq<Sender>, deleteAfterwards: bool)

  /** What the loop does with one peer. */
  function Visit(local: string, destination: Option<string>, s: Pass, p: Peer): Pass {
    if p.nodeId == None || p.nodeId == Some(local) || p.name in s.data.nodes then s
    else if s.data.remaining < 2 then
      if destination == Some(p.name) && p.cla.Some? then Pass(s.data, [Sender(p.name, p.cla.value)], true) else s
    else if p.cla.Some? then
      Pass(BundleData(s.data.remaining - 1, s.data.nodes + [p.name]), s.senders + [Sender(p.name, p.cla.value)],
           s.deleteAfterwards)
    else s
  }

  function VisitAll(local: string, destination: Option<string>, d: BundleData, peers: seq<Peer>): Pass
    decreases |peers|
  {
    if peers == [] then Pass(d, [], false)
    else
      var n := |peers| - 1;
      Visit(local, destination, VisitAll(local, destination, d, peers[..n]), peers[n])
  }

  function Selected(local: string, h: History, id: string, destination: Option<string>, peers: seq<Peer>): Pass {
    if id in h then VisitAll(local, destination, h[id], peers) else Pass(BundleData(0, []), [], false)
  }

  // ---------------------------------------------------------------- the agent

  datatype Command =
    | NewBundle(id: string)
    | SendingFailed(id: string, name: string)
    | SenderForBundle(id: string, destination: Option<string>, peers: seq<Peer>)

  function Exec(l: nat, local: string, h: History, c: Command): History {
    match c
    case NewBundle(id) => Learned(l, local, h, id)
    case SendingFailed(id, name) => Failed(h, id, name)
    case SenderForBundle(id, destination, peers) =>
      if id in h then h[id := Selected(local, h, id, destination, peers).data] else h
  }

  class Agent {
    const l: nat
    const localNode: string
    var history: History

    constructor (startingCopies: nat, local: string)
      ensures l == startingCopies && localNode == local && history == map[]
    {
      l := startingCopies;
      localNode := local;
      history := map[];
    }

    method HandleNewBundle(id: string)
      modifies this
      ensures history == Exec(l, localNode, old(history), NewBundle(id))
    {
      if id in history {
        return;
      }
      if StartsWith(id, localNode) {
        history := history[id := BundleData(l, [])];
      } else {
        history := history[id := BundleData(1, [])];
      }
    }

    method HandleSendingFailed(id: string, name: string)
      modifies this
      ensures history == Exec(l, localNode, old(history), SendingFailed(id, name))
    {
      if id in history {
        var data := history[id];
        var kept := Without(data.nodes, name);
        var removed := |data.nodes| - |kept|;
        history := history[id := BundleData(data.remaining + removed, kept)];
      }
    }

    method HandleSenderForBundle(id: string, destination: Option<string>, peers: seq<Peer>)
      returns (senders: seq<Sender>, deleteAfterwards: bool)
      modifies this
      ensures history == Exec(l, localNode, old(history), SenderForBundle(id, destination, peers))
      ensures var pass := Selected(localNode, old(history), id, destination, peers);
        senders == pass.senders && deleteAfterwards == pass.deleteAfterwards
      ensures id in old(history) && history[id].remaining >= 2 ==>
        forall i :: 0 <= i < |peers| && Reachable(localNode, peers[i]) ==> peers[i].name in history[id].nodes
      ensures id in old(history) && old(history[id].remaining) < 2 ==>
        (deleteAfterwards <==>
         exists i :: 0 <= i < |peers| && Near(localNode, destination, old(history[id]), peers[i]))
      ensures deleteAfterwards ==> |senders| == 1 && destination == Some(senders[0].nextHop)
    {
      senders, deleteAfterwards := [], false;
      if id !in history {
        return;
      }
      var remaining, nodes := history[id].remaining, history[id].nodes;
      for i := 0 to |peers|
        invariant history == old(history)
        invariant VisitAll(localNode, destination, history[id], peers[..i])
          == Pass(BundleData(remaining, nodes), senders, deleteAfterwards)
      {
        var p := peers[i];
        assert peers[..i + 1][..i] == peers[..i];
        if p.nodeId == None {
          continue;
        }
        if p.nodeId.value == localNode || p.name in nodes {
          continue;
        }
        if remaining < 2 {
          if destination == Some(p.name) {
            if p.cla.Some? {
              deleteAfterwards := true;
              senders := [Sender(p.name, p.cla.value)];
            }
          }
          continue;
        }
        if p.cla.Some? {
          senders := senders + [Sender(p.name, p.cla.value)];
          remaining := remaining - 1;
          nodes := nodes + [p.name];
        }
      }
      assert peers[..|peers|] == peers;
      hide VisitAll;
      PassComplete(localNode, destination, history[id], peers);
      DirectAlone(localNode, destination, history[id], peers);
      if history[id].remaining < 2 {
        WaitPhase(localNode, destination, history[id], peers);
      }
      history := history[id := BundleData(remaining, nodes)];
    }
  }

  // ---------------------------------------------------------------- conservation of copies

  predicate Distinct(nodes: seq<string>) {
    forall i, j :: 0 <= i < j < |nodes| ==> nodes[i] != nodes[j]
  }

  lemma {:induction false} WithoutMeaning(nodes: seq<string>, name: string)
    requires Distinct(nodes)
    ensures var kept := Without(nodes, name);
      && Distinct(kept)
      && (forall x :: x in kept <==> x in nodes && x != name)
      && |kept| == |nodes| - (if name in nodes then 1 else 0)
  {
    if nodes != [] {
      var rest := nodes[1..];
      assert Distinct(rest) by {
        assert forall i :: 0 <= i < |rest| ==> rest[i] == nodes[i + 1];
      }
      WithoutMeaning(rest, name);
      assert nodes == [nodes[0]] + rest;
      assert nodes[0] !in rest by {
        assert forall i :: 0 <= i < |rest| ==> rest[i] == nodes[i + 1];
      }
    }
  }

  /** The books of one bundle: copies left and nodes served add up to the grant, and one copy always stays. */
  predicate Kept(d: BundleData, grant: nat) {
    && d.remaining + |d.nodes| == grant && Distinct(d.nodes) && (d.nodes == [] || d.remaining >= 1)
  }

  /** What one round of selecting does to the books, and whom it selects. */
  ghost predicate Fair(d: BundleData, destination: Option<string>, s: Pass, served: seq<string>) {
    && s.data.nodes == d.nodes + served && s.data.remaining + |served| == d.remaining
    && Distinct(s.data.nodes) && (served == [] || s.data.remaining >= 1)
    && (if s.deleteAfterwards
        then s.data.remaining < 2 && |s.senders| == 1 && destination == Some(s.senders[0].nextHop)
             && s.senders[0].nextHop !in s.data.nodes
        else |s.senders| == |served| && forall i :: 0 <= i < |served| ==> s.senders[i].nextHop == served[i])
  }

  lemma {:induction false} PassFair(local: string, destination: Option<string>, d: BundleData, peers: seq<Peer>)
    returns (served: seq<string>)
    requires Distinct(d.nodes)
    ensures Fair(d, destination, VisitAll(local, destination, d, peers), served)
    ensures forall x :: x in served ==> exists i :: 0 <= i < |peers| && peers[i].name == x && peers[i].nodeId != Some(local)
    decreases |peers|
  {
    served := [];
    if peers != [] {
      var n := |peers| - 1;
      var s, p := VisitAll(local, destination, d, peers[..n]), peers[n];
      served := PassFair(local, destination, d, peers[..n]);
      var t := Visit(local, destination, s, p);
      assert VisitAll(local, destination, d, peers) == t;
      if t.data != s.data {
        served := served + [p.name];
        assert t.data.nodes == d.nodes + served;
      }
      forall x | x in served
        ensures exists i :: 0 <= i < |peers| && peers[i].name == x && peers[i].nodeId != Some(local)
      {
        if x in served[..|served| - 1] || t.data == s.data {
          var i :| 0 <= i < n && peers[..n][i].name == x && peers[..n][i].nodeId != Some(local);
          assert peers[i] == peers[..n][i];
        } else {
          assert peers[n].name == x;
        }
      }
    }
  }

  /** The peer table gives the local node its own node ID. */
  predicate Consistent(local: string, localName: string, c: Command) {
    c.SenderForBundle? ==>
      forall i :: 0 <= i < |c.peers| && c.peers[i].name == localName ==> c.peers[i].nodeId == Some(local)
  }

  ghost predicate Books(l: nat, local: string, localName: string, h: History) {
    forall id :: id in h ==> Kept(h[id], Grant(l, local, id)) && localName !in h[id].nodes
  }

  lemma ExecKeeps(l: nat, local: string, localName: string, h: History, c: Command)
    requires Books(l, local, localName, h) && Consistent(local, localName, c)
    ensures Books(l, local, localName, Exec(l, local, h, c))
  {
    match c {
      case NewBundle(id) =>
      case SendingFailed(id, name) =>
        if id in h {
          WithoutMeaning(h[id].nodes, name);
        }
      case SenderForBundle(id, destination, peers) =>
        if id in h {
          var served := PassFair(local, destination, h[id], peers);
          assert localName !in served;
        }
    }
  }

  function ExecAll(l: nat, local: string, h: History, cs: seq<Command>): History
    decreases |cs|
  {
    if cs == [] then h else ExecAll(l, local, Exec(l, local, h, cs[0]), cs[1..])
  }

  /** Over every trace, for every bundle: copies left and nodes served add up to the grant, the nodes are different and
      not the local node, so a failure returns at most one copy. */
  lemma {:induction false} CopyConservation(l: nat, local: string, localName: string, h: History, cs: seq<Command>)
    requires Books(l, local, localName, h)
    requires forall i :: 0 <= i < |cs| ==> Consistent(local, localName, cs[i])
    ensures var h1 := ExecAll(l, local, h, cs);
      && Books(l, local, localName, h1)
      && (forall id, name :: id in h1 ==>
            0 <= |h1[id].nodes| - |Without(h1[id].nodes, name)| <= 1)
    decreases |cs|
  {
    if cs == [] {
      forall id, name | id in h ensures 0 <= |h[id].nodes| - |Without(h[id].nodes, name)| <= 1 {
        WithoutMeaning(h[id].nodes, name);
      }
    } else {
      ExecKeeps(l, local, localName, h, cs[0]);
      CopyConservation(l, local, localName, Exec(l, local, h, cs[0]), cs[1..]);
    }
  }

  /** The agent deletes a bundle afterwards only if its one sender is the destination. */
  lemma DeleteOnlyDelivered(l: nat, local: string, localName: string, h: History, id: string,
                            destination: Option<string>, peers: seq<Peer>)
    requires Books(l, local, localName, h)
    ensures var pass := Selected(local, h, id, destination, peers);
      pass.deleteAfterwards ==> |pass.senders| == 1 && destination == Some(pass.senders[0].nextHop)
  {
    if id in h {
      var _ := PassFair(local, destination, h[id], peers);
    }
  }

  // ---------------------------------------------------------------- what a round achieves

  /** A peer that a copy can be handed to: not the local node, and some convergence layer accepts it. */
  predicate Reachable(local: string, p: Peer) {
    p.nodeId.Some? && p.nodeId.value != local && p.cla.Some?
  }

  /** The sender goes to the peer, by the convergence layer that accepts it. */
  predicate IsSenderTo(x: Sender, p: Peer) {
    p.name == x.nextHop && p.cla == Some(x.cla)
  }

  /** Direct delivery is only ever to one peer, the destination. */
  lemma {:induction false} DirectAlone(local: string, destination: Option<string>, d: BundleData, peers: seq<Peer>)
    ensures var s := VisitAll(local, destination, d, peers);
      s.deleteAfterwards ==>
        s.data.remaining < 2 && |s.senders| == 1 && destination == Some(s.senders[0].nextHop)
    decreases |peers|
  {
    if peers != [] {
      DirectAlone(local, destination, d, peers[..|peers| - 1]);
    }
  }

  /** While copies are left, a round serves every reachable peer; and all it sends to are such peers, by the convergence
      layer that accepts them. */
  lemma {:induction false} PassComplete(local: string, destination: Option<string>, d: BundleData, peers: seq<Peer>)
    ensures var s := VisitAll(local, destination, d, peers);
      && (s.data.remaining < 2
          || forall i :: 0 <= i < |peers| && Reachable(local, peers[i]) ==> peers[i].name in s.data.nodes)
      && (forall x :: x in d.nodes ==> x in s.data.nodes)
      && (forall x :: x in s.senders ==>
            x.nextHop !in d.nodes
            && exists i :: 0 <= i < |peers| && Reachable(local, peers[i]) && IsSenderTo(x, peers[i]))
    decreases |peers|
  {
    if peers != [] {
      var n := |peers| - 1;
      PassComplete(local, destination, d, peers[..n]);
      var s, t := VisitAll(local, destination, d, peers[..n]), VisitAll(local, destination, d, peers);
      assert t == Visit(local, destination, s, peers[n]);
      forall x | x in t.senders
        ensures x.nextHop !in d.nodes
        ensures exists i :: 0 <= i < |peers| && Reachable(local, peers[i]) && IsSenderTo(x, peers[i])
      {
        if x in s.senders {
          var i :| 0 <= i < n && Reachable(local, peers[..n][i]) && IsSenderTo(x, peers[..n][i]);
          assert peers[i] == peers[..n][i];
        } else {
          assert IsSenderTo(x, peers[n]);
        }
      }
      forall i | 0 <= i < |peers| && Reachable(local, peers[i]) && t.data.remaining >= 2
        ensures peers[i].name in t.data.nodes
      {
        if i < n {
          assert peers[..n][i] == peers[i];
        }
      }
    }
  }

  /** A reachable peer without an entry that is the destination. */
  predicate Near(local: string, destination: Option<string>, d: BundleData, p: Peer) {
    Reachable(local, p) && p.name !in d.nodes && destination == Some(p.name)
  }

  /** Without copies to spread a round only waits for the destination: that is the one sender as soon as it is near. */
  lemma {:induction false} WaitPhase(local: string, destination: Option<string>, d: BundleData, peers: seq<Peer>)
    requires d.remaining < 2
    ensures var s := VisitAll(local, destination, d, peers);
      && s.data == d
      && (s.deleteAfterwards <==> exists i :: 0 <= i < |peers| && Near(local, destination, d, peers[i]))
      && (if s.deleteAfterwards then |s.senders| == 1 && destination == Some(s.senders[0].nextHop) else s.senders == [])
    decreases |peers|
  {
    if peers != [] {
      var n := |peers| - 1;
      WaitPhase(local, destination, d, peers[..n]);
      if i :| 0 <= i < |peers| && Near(local, destination, d, peers[i]) {
        if i < n {
          assert peers[..n][i] == peers[i];
        }
      }
      if i :| 0 <= i < n && Near(local, destination, d, peers[..n][i]) {
        assert peers[i] == peers[..n][i];
      }
    }
  }

  /** A failure takes the node from the books and gives its copy back; nothing else changes. */
  lemma FailureReturns(l: nat, local: string, localName: string, h: History, id: string, name: string)
    requires Books(l, local, localName, h) && id in h
    ensures var h1 := Exec(l, local, h, SendingFailed(id, name));
      && h1.Keys == h.Keys && (forall other :: other in h && other != id ==> h1[other] == h[other])
      && (forall x :: x in h1[id].nodes <==> x in h[id].nodes && x != name)
      && h1[id].remaining == h[id].remaining + (if name in h[id].nodes then 1 else 0)
  {
    WithoutMeaning(h[id].nodes, name);
  }

  /** A bundle is learned of once, with all copies for the node's own ones and one for others. */
  lemma LearnedOnce(l: nat, local: string, h: History, id: string)
    ensures var h1 := Exec(l, local, h, NewBundle(id));
      && (id in h ==> h1 == h)
      && (id !in h ==> h1 == h[id := BundleData(if local <= id then l else 1, [])])
  {}
}
