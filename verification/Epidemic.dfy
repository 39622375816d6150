/** Epidemic routing: every peer gets a bundle once, the destination alone if it is near. */
module Epidemic {
  import opened Options
  import opened Peers
  import opened BundleStore
  import opened Forwarding

  type History = map<string, set<string>>

  function Sent(h: History, id: string): set<string> {
    if id in h then h[id] else {}
  }

  function Added(h: History, id: string, name: string): History {
    h[id := Sent(h, id) + {name}]
  }

  function FailedTo(h: History, id: string, name: string): History {
    if id in h then h[id := h[id] - {name}] else h
  }

  function ReceivedFrom(h: History, id: string, name: string): History {
    if name != "" && name !in Sent(h, id) then Added(h, id, name) else h
  }

  // ---------------------------------------------------------------- choosing peers

  /** The peers that have not had the bundle and can be reached. */
  function Eligible(sent: set<string>, peers: seq<Peer>): seq<Sender> {
    if peers == [] then []
    else
      var n := |peers| - 1;
      Eligible(sent, peers[..n])
      + (if peers[n].name !in sent && peers[n].cla.Some? then [Sender(peers[n].name, peers[n].cla.value)] else [])
  }

  predicate IsDirect(sent: set<string>, destination: Option<string>, p: Peer) {
    p.name !in sent && p.cla.Some? && destination == Some(p.name)
  }

  /** The first eligible peer that is the destination. */
  function Direct(sent: set<string>, destination: Option<string>, peers: seq<Peer>): Option<Sender> {
    if peers == [] then None
    else if IsDirect(sent, destination, peers[0]) then Some(Sender(peers[0].name, peers[0].cla.value))
    else Direct(sent, destination, peers[1..])
  }

  datatype Choice = Choice(senders: seq<Sender>, deleteAfterwards: bool)

  function Chosen(sent: set<string>, destination: Option<string>, peers: seq<Peer>): Choice {
    match Direct(sent, destination, peers)
    case Some(d) => Choice([d], true)
    case None => Choice(Eligible(sent, peers), false)
  }

  function Recorded(h: History, id: string, senders: seq<Sender>): History {
    if senders == [] then h
    else
      var n := |senders| - 1;
      Added(Recorded(h, id, senders[..n]), id, senders[n].nextHop)
  }

  lemma {:induction false} DirectSplit(sent: set<string>, destination: Option<string>, peers: seq<Peer>, i: nat)
    requires i <= |peers| && forall j :: 0 <= j < i ==> !IsDirect(sent, destination, peers[j])
    ensures Direct(sent, destination, peers) == Direct(sent, destination, peers[i..])
    decreases i
  {
    if i == 0 {
      assert peers[0..] == peers;
    } else {
      DirectSplit(sent, destination, peers, i - 1);
      assert peers[i - 1..][1..] == peers[i..];
    }
  }

  // ---------------------------------------------------------------- the agent

  datatype Command =
    | SendingFailed(id: string, name: string)
    | IncomingBundle(id: string, previous: Option<string>)
    | SenderForBundle(id: string, destination: Option<string>, peers: seq<Peer>)

  function Exec(h: History, c: Command): History {
    match c
    case SendingFailed(id, name) => FailedTo(h, id, name)
    case IncomingBundle(id, None) => h
    case IncomingBundle(id, Some(name)) => ReceivedFrom(h, id, name)
    case SenderForBundle(id, destination, peers) => Recorded(h, id, Chosen(Sent(h, id), destination, peers).senders)
  }

  class Agent {
    var history: History

    constructor ()
      ensures history == map[]
    {
      history := map[];
    }

    method Add(id: string, name: string)
      modifies this
      ensures history == Added(old(history), id, name)
    {
      var entries := if id in history then history[id] else {};
      history := history[id := entries + {name}];
    }

    predicate Contains(id: string, name: string)
      reads this
      ensures Contains(id, name) <==> name in Sent(history, id)
    {
      if id in history then name in history[id] else false
    }

    method HandleSendingFailed(id: string, name: string)
      modifies this
      ensures history == Exec(old(history), SendingFailed(id, name))
    {
      if id in history {
        history := history[id := history[id] - {name}];
      }
    }

    method HandleIncoming(id: string, previous: Option<string>)
      modifies this
      ensures history == Exec(old(history), IncomingBundle(id, previous))
    {
      if previous.Some? {
        if previous.value != "" && !Contains(id, previous.value) {
          Add(id, previous.value);
        }
      }
    }

    method SendersForBundle(id: string, destination: Option<string>, peers: seq<Peer>)
      returns (senders: seq<Sender>, deleteAfterwards: bool)
      modifies this
      ensures history == Exec(old(history), SenderForBundle(id, destination, peers))
      ensures Choice(senders, deleteAfterwards) == Chosen(Sent(old(history), id), destination, peers)
    {
      senders, deleteAfterwards := Select(id, destination, peers);
      hide Chosen;
      for k := 0 to |senders|
        invariant history == Recorded(old(history), id, senders[..k])
      {
        assert senders[..k + 1][..k] == senders[..k];
        Add(id, senders[k].nextHop);
      }
      assert senders[..|senders|] == senders;
    }

    /** The loop over the peers, left at the first direct delivery. */
    method Select(id: string, destination: Option<string>, peers: seq<Peer>)
      returns (senders: seq<Sender>, deleteAfterwards: bool)
      ensures Choice(senders, deleteAfterwards) == Chosen(Sent(history, id), destination, peers)
      ensures Chooses(Sent(history, id), destination, peers, senders, deleteAfterwards)
    {
      ghost var sent := Sent(history, id);
      senders, deleteAfterwards := [], false;
      var i := 0;
      while i < |peers|
        invariant i <= |peers|
        invariant !deleteAfterwards && senders == Eligible(sent, peers[..i])
        invariant forall j :: 0 <= j < i ==> !IsDirect(sent, destination, peers[j])
      {
        hide Sent;
        var p := peers[i];
        assert peers[..i + 1][..i] == peers[..i];
        if !Contains(id, p.name) && p.cla.Some? {
          if destination == Some(p.name) {
            DirectSplit(sent, destination, peers, i);
            deleteAfterwards := true;
            senders := [Sender(p.name, p.cla.value)];
            break;
          }
          senders := senders + [Sender(p.name, p.cla.value)];
        }
        i := i + 1;
      }
      if !deleteAfterwards {
        DirectSplit(sent, destination, peers, |peers|);
        assert peers[..|peers|] == peers;
      }
      ChoiceExactly(sent, destination, peers);
    }
  }

  // ---------------------------------------------------------------- no repetition

  predicate Names(senders: seq<Sender>, name: string) {
    exists i :: 0 <= i < |senders| && senders[i].nextHop == name
  }

  lemma {:induction false} RecordedSent(h: History, id: string, senders: seq<Sender>, other: string, name: string)
    ensures name in Sent(Recorded(h, id, senders), other) <==>
      name in Sent(h, other) || (other == id && Names(senders, name))
  {
    if senders != [] {
      var n := |senders| - 1;
      RecordedSent(h, id, senders[..n], other, name);
      if Names(senders[..n], name) {
        var i :| 0 <= i < n && senders[..n][i].nextHop == name;
        assert senders[i].nextHop == name;
      }
      if Names(senders, name) && senders[n].nextHop != name {
        var i :| 0 <= i < |senders| && senders[i].nextHop == name;
        assert senders[..n][i].nextHop == name;
      }
    }
  }

  lemma {:induction false} EligibleFresh(sent: set<string>, peers: seq<Peer>, name: string)
    requires Names(Eligible(sent, peers), name)
    ensures name !in sent
  {
    var n := |peers| - 1;
    var all := Eligible(sent, peers);
    var i :| 0 <= i < |all| && all[i].nextHop == name;
    if i < |Eligible(sent, peers[..n])| {
      assert Eligible(sent, peers[..n])[i].nextHop == name;
      EligibleFresh(sent, peers[..n], name);
    }
  }

  lemma {:induction false} DirectMeaning(sent: set<string>, destination: Option<string>, peers: seq<Peer>)
    ensures var d := Direct(sent, destination, peers);
      && (d.Some? ==> destination == Some(d.value.nextHop) && d.value.nextHop !in sent)
      && (d.None? ==> forall i :: 0 <= i < |peers| ==> !IsDirect(sent, destination, peers[i]))
  {
    if peers != [] && !IsDirect(sent, destination, peers[0]) {
      DirectMeaning(sent, destination, peers[1..]);
      assert forall i :: 1 <= i < |peers| ==> peers[i] == peers[1..][i - 1];
    }
  }

  /** No peer is chosen that has had the bundle. */
  lemma ChosenFresh(sent: set<string>, destination: Option<string>, peers: seq<Peer>, name: string)
    requires Names(Chosen(sent, destination, peers).senders, name)
    ensures name !in sent
  {
    DirectMeaning(sent, destination, peers);
    if Direct(sent, destination, peers).None? {
      EligibleFresh(sent, peers, name);
    }
  }

  /** The history before command `k` of a trace. */
  function Before(h: History, cs: seq<Command>, k: nat): History
    requires k <= |cs|
  {
    if k == 0 then h else Exec(Before(h, cs, k - 1), cs[k - 1])
  }

  /** Command `k` selects the peer for the bundle. */
  predicate Selects(h: History, cs: seq<Command>, k: nat, id: string, name: string)
    requires k < |cs|
  {
    && cs[k].SenderForBundle? && cs[k].id == id
    && Names(Chosen(Sent(Before(h, cs, k), id), cs[k].destination, cs[k].peers).senders, name)
  }

  /** Command `k` records the peer as having the bundle. */
  predicate Records(h: History, cs: seq<Command>, k: nat, id: string, name: string)
    requires k < |cs|
  {
    Selects(h, cs, k, id, name) || (cs[k] == IncomingBundle(id, Some(name)) && name != "")
  }

  lemma RecordedAfter(h: History, cs: seq<Command>, k: nat, id: string, name: string)
    requires k < |cs|
    requires Records(h, cs, k, id, name) || (name in Sent(Before(h, cs, k), id) && cs[k] != SendingFailed(id, name))
    ensures name in Sent(Before(h, cs, k + 1), id)
  {
    if cs[k].SenderForBundle? {
      var b := Before(h, cs, k);
      RecordedSent(b, cs[k].id, Chosen(Sent(b, cs[k].id), cs[k].destination, cs[k].peers).senders, id, name);
    }
  }

  lemma {:induction false} StaysRecorded(h: History, cs: seq<Command>, i: nat, j: nat, id: string, name: string)
    requires i < j <= |cs| && Records(h, cs, i, id, name)
    requires forall k :: i < k < j ==> cs[k] != SendingFailed(id, name)
    ensures name in Sent(Before(h, cs, j), id)
    decreases j
  {
    if j > i + 1 {
      StaysRecorded(h, cs, i, j - 1, id, name);
    }
    RecordedAfter(h, cs, j - 1, id, name);
  }

  /** In every trace, a peer that was selected for a bundle, or that the bundle came from, is only selected for it after
      a failure has been reported for that very pair in between. */
  lemma NoRepeat(h: History, cs: seq<Command>, i: nat, j: nat, id: string, name: string)
    requires i < j < |cs| && Records(h, cs, i, id, name) && Selects(h, cs, j, id, name)
    ensures exists k :: i < k < j && cs[k] == SendingFailed(id, name)
  {
    if forall k :: i < k < j ==> cs[k] != SendingFailed(id, name) {
      StaysRecorded(h, cs, i, j, id, name);
      ChosenFresh(Sent(Before(h, cs, j), id), cs[j].destination, cs[j].peers, name);
      assert false;
    }
  }

  /** A peer without an entry is selected unless the bundle goes to its destination directly. */
  lemma {:induction false} EligibleComplete(sent: set<string>, peers: seq<Peer>, i: nat)
    requires i < |peers| && peers[i].name !in sent && peers[i].cla.Some?
    ensures Names(Eligible(sent, peers), peers[i].name)
  {
    var n := |peers| - 1;
    var rest := Eligible(sent, peers[..n]);
    var all := Eligible(sent, peers);
    if i < n {
      EligibleComplete(sent, peers[..n], i);
      var k :| 0 <= k < |rest| && rest[k].nextHop == peers[i].name;
      assert all[k].nextHop == peers[i].name;
    } else {
      assert all[|rest|].nextHop == peers[i].name;
    }
  }

  // ---------------------------------------------------------------- what a choice is

  /** A peer that has not had the bundle and that a convergence layer accepts. */
  predicate Open(sent: set<string>, p: Peer) {
    p.name !in sent && p.cla.Some?
  }

  predicate IsSenderTo(x: Sender, p: Peer) {
    p.name == x.nextHop && p.cla == Some(x.cla)
  }

  lemma {:induction false} EligibleExactly(sent: set<string>, peers: seq<Peer>)
    ensures forall x :: x in Eligible(sent, peers) <==>
      exists i :: 0 <= i < |peers| && Open(sent, peers[i]) && IsSenderTo(x, peers[i])
    decreases |peers|
  {
    if peers != [] {
      var n := |peers| - 1;
      EligibleExactly(sent, peers[..n]);
      assert peers == peers[..n] + [peers[n]];
      forall x ensures x in Eligible(sent, peers) <==>
        exists i :: 0 <= i < |peers| && Open(sent, peers[i]) && IsSenderTo(x, peers[i])
      {
        if i :| 0 <= i < n && Open(sent, peers[..n][i]) && IsSenderTo(x, peers[..n][i]) {
          assert peers[i] == peers[..n][i];
        }
        if i :| 0 <= i < |peers| && Open(sent, peers[i]) && IsSenderTo(x, peers[i]) {
          if i < n {
            assert peers[..n][i] == peers[i];
          }
        }
      }
    }
  }

  /** The destination is near. */
  predicate Near(sent: set<string>, destination: Option<string>, peers: seq<Peer>) {
    exists i :: 0 <= i < |peers| && Open(sent, peers[i]) && destination == Some(peers[i].name)
  }

  /** What a choice is, by senders and flag: the destination alone if it is near, and else all open peers. */
  ghost predicate Chooses(sent: set<string>, destination: Option<string>, peers: seq<Peer>, senders: seq<Sender>,
                          deleteAfterwards: bool)
  {
    && (deleteAfterwards <==> Near(sent, destination, peers))
    && (deleteAfterwards ==> |senders| == 1 && destination == Some(senders[0].nextHop))
    && (forall x :: x in senders ==> exists i :: 0 <= i < |peers| && Open(sent, peers[i]) && IsSenderTo(x, peers[i]))
    && (deleteAfterwards
        || forall i :: 0 <= i < |peers| && Open(sent, peers[i]) ==> Sender(peers[i].name, peers[i].cla.value) in senders)
  }

  lemma {:induction false} DirectExactly(sent: set<string>, destination: Option<string>, peers: seq<Peer>)
    ensures var d := Direct(sent, destination, peers);
      && (d.Some? <==> Near(sent, destination, peers))
      && (d.Some? ==> destination == Some(d.value.nextHop))
      && (d.Some? ==> exists i :: 0 <= i < |peers| && Open(sent, peers[i]) && IsSenderTo(d.value, peers[i]))
  {
    if peers != [] {
      if IsDirect(sent, destination, peers[0]) {
        assert Open(sent, peers[0]) && IsSenderTo(Direct(sent, destination, peers).value, peers[0]);
      } else {
        var rest := peers[1..];
        DirectExactly(sent, destination, rest);
        if i :| 0 <= i < |rest| && Open(sent, rest[i]) && destination == Some(rest[i].name) {
          assert peers[i + 1] == rest[i];
        }
        if i :| 0 <= i < |peers| && Open(sent, peers[i]) && destination == Some(peers[i].name) {
          assert rest[i - 1] == peers[i];
        }
        if Direct(sent, destination, rest).Some? {
          var d := Direct(sent, destination, rest).value;
          var i :| 0 <= i < |rest| && Open(sent, rest[i]) && IsSenderTo(d, rest[i]);
          assert peers[i + 1] == rest[i];
        }
      }
    }
  }

  /** Only a near destination gets a bundle alone; otherwise every peer does that can get it and has not had it. */
  lemma ChoiceExactly(sent: set<string>, destination: Option<string>, peers: seq<Peer>)
    ensures var choice := Chosen(sent, destination, peers);
      Chooses(sent, destination, peers, choice.senders, choice.deleteAfterwards)
  {
    DirectExactly(sent, destination, peers);
    EligibleExactly(sent, peers);
  }

  /** A bundle without the name of a previous node changes nothing. */
  lemma NamelessIgnored(h: History, id: string, previous: Option<string>)
    requires previous == None || previous == Some("")
    ensures Exec(h, IncomingBundle(id, previous)) == h
  {}

  // ---------------------------------------------------------------- safe deletion

  /** The attempt to forward a bundle with the agent's choice. */
  function AttemptWith(a: Attempt, choice: Choice): Attempt {
    a.(nodes := seq(|choice.senders|, i requires 0 <= i < |choice.senders| => choice.senders[i].nextHop),
       deleteAfterwards := choice.deleteAfterwards)
  }

  /** The history after the failures of an attempt have been reported, which it does transfer by transfer. */
  function Notified(h: History, id: string, senders: seq<Sender>, outcomes: seq<bool>): History
    requires |outcomes| == |senders|
  {
    if senders == [] then h
    else
      var n := |senders| - 1;
      var before := Notified(h, id, senders[..n], outcomes[..n]);
      if outcomes[n] then before else FailedTo(before, id, senders[n].nextHop)
  }

  predicate FailedFor(senders: seq<Sender>, outcomes: seq<bool>, name: string)
    requires |outcomes| == |senders|
  {
    exists i :: 0 <= i < |senders| && senders[i].nextHop == name && !outcomes[i]
  }

  lemma {:induction false} NotifiedSent(h: History, id: string, senders: seq<Sender>, outcomes: seq<bool>, name: string)
    requires |outcomes| == |senders|
    ensures name in Sent(Notified(h, id, senders, outcomes), id) <==>
      name in Sent(h, id) && !FailedFor(senders, outcomes, name)
    decreases |senders|
  {
    if senders != [] {
      var n := |senders| - 1;
      NotifiedSent(h, id, senders[..n], outcomes[..n], name);
      if FailedFor(senders[..n], outcomes[..n], name) {
        var i :| 0 <= i < n && senders[..n][i].nextHop == name && !outcomes[..n][i];
        assert senders[i].nextHop == name && !outcomes[i];
      }
      if FailedFor(senders, outcomes, name) {
        var i :| 0 <= i < |senders| && senders[i].nextHop == name && !outcomes[i];
        if i < n {
          assert senders[..n][i].nextHop == name && !outcomes[..n][i];
        }
      }
    }
  }

  /** The agent's history after it was asked and the attempt, if it sent anything, has reported its failures. */
  function AfterAttempt(h: History, id: string, destination: Option<string>, peers: seq<Peer>, sent: bool,
                        outcomes: seq<bool>): History
    requires |outcomes| == |Chosen(Sent(h, id), destination, peers).senders|
  {
    var asked := Exec(h, SenderForBundle(id, destination, peers));
    if sent then Notified(asked, id, Chosen(Sent(h, id), destination, peers).senders, outcomes) else asked
  }

  /** After an attempt that sends, exactly the peers count as served that did before or were sent to without a failure. */
  lemma AttemptServes(h: History, id: string, destination: Option<string>, peers: seq<Peer>, outcomes: seq<bool>,
                      name: string)
    requires |outcomes| == |Chosen(Sent(h, id), destination, peers).senders|
    ensures var senders := Chosen(Sent(h, id), destination, peers).senders;
      name in Sent(AfterAttempt(h, id, destination, peers, true, outcomes), id) <==>
        name in Sent(h, id) || (Names(senders, name) && !FailedFor(senders, outcomes, name))
  {
    hide Chosen;
    var senders := Chosen(Sent(h, id), destination, peers).senders;
    RecordedSent(h, id, senders, id, name);
    NotifiedSent(Recorded(h, id, senders), id, senders, outcomes, name);
    if Names(senders, name) {
      ChosenFresh(Sent(h, id), destination, peers, name);
    }
  }

  /** With the agent's choice, an attempt that sends removes the bundle exactly if its only peer was the destination and
      that transfer succeeded. Otherwise the bundle stays pending, and after a failed direct transfer the agent chooses
      the destination again. */
  lemma SafeDeletion(h: History, s: Store, bp: BundlePack, node: string, a: Attempt, destination: Option<string>,
                     peers: seq<Peer>)
    requires Filed(s) && bp.id in s.bundles
    requires var choice := Chosen(Sent(h, bp.id), destination, peers);
      choice.senders != [] && |a.outcomes| == |choice.senders|
    ensures var choice := Chosen(Sent(h, bp.id), destination, peers);
      var r := Forwarded(s, bp, node, AttemptWith(a, choice));
      && (choice.deleteAfterwards ==> |choice.senders| == 1 && destination == Some(choice.senders[0].nextHop))
      && (r.sent.Some? ==>
            && (bp.id !in r.store.bundles <==> choice.deleteAfterwards && a.outcomes[0])
            && (bp.id in r.store.bundles ==>
                  r.store.bundles[bp.id] == s.bundles[bp.id] && ForwardPending in r.store.metadata[bp.id].constraints)
            && (choice.deleteAfterwards && !a.outcomes[0] ==>
                  var after := AfterAttempt(h, bp.id, destination, peers, true, a.outcomes);
                  Chosen(Sent(after, bp.id), destination, peers) == choice))
  {
    var choice := Chosen(Sent(h, bp.id), destination, peers);
    var at := AttemptWith(a, choice);
    DirectMeaning(Sent(h, bp.id), destination, peers);
    RemovedOnlyDelivered(s, bp, node, at);
    AttemptKeepsStored(s, bp, node, at);
    hide Forwarded, AfterAttempt;
    if choice.deleteAfterwards {
      assert AnySuccess(a.outcomes, 1) <==> a.outcomes[0];
      if !a.outcomes[0] {
        DirectFailed(h, bp.id, destination, peers, a.outcomes);
      }
    }
  }

  /** A failed direct transfer leaves the agent's entries as they were. */
  lemma DirectFailed(h: History, id: string, destination: Option<string>, peers: seq<Peer>, outcomes: seq<bool>)
    requires var choice := Chosen(Sent(h, id), destination, peers);
      |outcomes| == |choice.senders| == 1 && !outcomes[0]
    ensures Sent(AfterAttempt(h, id, destination, peers, true, outcomes), id) == Sent(h, id)
  {
    var senders := Chosen(Sent(h, id), destination, peers).senders;
    var after := AfterAttempt(h, id, destination, peers, true, outcomes);
    hide Chosen, AfterAttempt;
    forall name ensures name in Sent(after, id) <==> name in Sent(h, id) {
      AttemptServes(h, id, destination, peers, outcomes, name);
      if Names(senders, name) {
        var i :| 0 <= i < |senders| && senders[i].nextHop == name;
        assert i == 0 && !outcomes[0];
      }
    }
  }
}
