/** The receive machine against an arbitrary peer: which segment sequences it accepts and what it makes of them. */
module TcpclReceiver {
  import opened Options
  import opened Bytes
  import opened TcpclPacket
  import opened TcpclSession

  /** A segment as the parser returns it, its length being that of its data, and the bundle IDs the store knows
      when it arrives. */
  datatype Arrival = Arrival(flags: SegFlags, tid: nat, buf: seq<Byte>, extensions: seq<ExtItem>,
                             known: seq<Byte> -> bool)
  {
    function Seg(): (p: Packet)
      ensures p.XferSeg?
    {
      XferSeg(flags, tid, |buf|, buf, extensions)
    }

    /** It asks for a bundle the store knows, and such bundles are to be refused. */
    predicate Asks(cfg: Config) {
      cfg.refuseExisting && flags.start && exists i :: 0 <= i < |extensions| && known(extensions[i].data)
    }
  }

  /** The receive machine over a whole sequence, from the idle state. */
  ghost function Run(cfg: Config, bc: BundleCodec, trace: seq<Arrival>): Outcome<RecvState>
    decreases |trace|
  {
    if trace == [] then Ok(RecvIdle, NONE)
    else
      var n := |trace| - 1;
      match Run(cfg, bc, trace[..n])
      case Error => Error
      case Ok(s, e) =>
        match OnSegment(cfg, bc, trace[n].known, s, trace[n].Seg())
        case Error => Error
        case Ok(s', e') => Ok(s', e.Then(e'))
  }

  // ---------------------------------------------------------------- the transfers of a sequence

  /** A stretch of the sequence: a complete transfer, a START refused because its bundle is known, or a transfer
      that outgrew the transfer MRU with `last` and whose further segments were dropped. */
  datatype Group =
    | Complete(run: seq<Arrival>, last: Arrival)
    | Known(last: Arrival)
    | Oversize(run: seq<Arrival>, last: Arrival, dropped: seq<Arrival>)

  ghost function Arrivals(g: Group): seq<Arrival> {
    match g
    case Complete(run, last) => run + [last]
    case Known(last) => [last]
    case Oversize(run, last, dropped) => run + [last] + dropped
  }

  ghost function Flat(groups: seq<Group>): seq<Arrival> {
    if groups == [] then [] else Flat(groups[..|groups| - 1]) + Arrivals(groups[|groups| - 1])
  }

  /** The bytes a run of segments carries. */
  ghost function Data(run: seq<Arrival>): seq<Byte>
  {
    if run == [] then [] else Data(run[..|run| - 1]) + run[|run| - 1].buf
  }

  ghost predicate Starts(cfg: Config, a: Arrival)
  {
    a.flags.start && !a.Asks(cfg)
  }

  /** Consecutive segments of one transfer ID, START on the first one only, no END yet, within the MRU. */
  ghost predicate OpenRun(cfg: Config, run: seq<Arrival>) {
    && run != [] && Starts(cfg, run[0])
    && (forall i :: 0 <= i < |run| ==> run[i].tid == run[0].tid && !run[i].flags.end)
    && (forall i :: 1 <= i < |run| ==> !run[i].flags.start)
    && |Data(run)| <= cfg.localTransferMru
  }

  ghost predicate Joins(cfg: Config, run: seq<Arrival>, a: Arrival) {
    if run == [] then Starts(cfg, a)
    else OpenRun(cfg, run) && !a.flags.start && a.tid == run[0].tid
  }

  ghost predicate GroupOk(cfg: Config, g: Group) {
    match g
    case Complete(run, last) =>
      Joins(cfg, run, last) && last.flags.end && |Data(run + [last])| <= cfg.localTransferMru
    case Known(last) => last.flags.start && last.Asks(cfg)
    case Oversize(run, last, dropped) =>
      && Joins(cfg, run, last) && |Data(run + [last])| > cfg.localTransferMru
      && (dropped != [] ==> !last.flags.end)
      && (forall i :: 0 <= i < |dropped| ==> dropped[i].tid == last.tid)
      && (forall i :: 0 <= i < |dropped| - 1 ==> !dropped[i].flags.end)
  }

  ghost function Tid(g: Group): nat
  {
    g.last.tid
  }

  /** Dropping goes on until an END or a segment of another transfer. */
  ghost predicate Ended(g: Group)
  {
    g.Oversize? ==> (if g.dropped == [] then g.last else g.dropped[|g.dropped| - 1]).flags.end
  }

  /** The sequence is the groups followed by a transfer still in progress; each group is as long as possible. */
  ghost predicate Parses(cfg: Config, trace: seq<Arrival>, groups: seq<Group>, open: seq<Arrival>) {
    && trace == Flat(groups) + open
    && (forall i :: 0 <= i < |groups| ==> GroupOk(cfg, groups[i]))
    && (open != [] ==> OpenRun(cfg, open))
    && (forall i :: 0 <= i < |groups| - 1 ==> Ended(groups[i]) || Tid(groups[i]) != Tid(groups[i + 1]))
    && (open != [] && groups != [] ==>
          var g := groups[|groups| - 1]; Ended(g) || Tid(g) != open[0].tid)
  }

  // ---------------------------------------------------------------- what is made of them

  /** One ack per segment with the length received so far. */
  ghost function CumulativeAcks(run: seq<Arrival>): seq<Packet>
  {
    if run == [] then []
    else
      var a := run[|run| - 1];
      CumulativeAcks(run[..|run| - 1]) + [Ack(if |run| == 1 then a.flags else NO_FLAGS, a.tid, |Data(run)|)]
  }

  ghost function GroupEffects(cfg: Config, bc: BundleCodec, g: Group): Effects
    requires GroupOk(cfg, g)
  {
    match g
    case Complete(run, last) =>
      var data := Data(run + [last]);
      Effects(CumulativeAcks(run + [last]) + (if bc.decodes(data) then [] else [XferRefuse(NotAcceptable, Tid(g))]),
              [data], [])
    case Known(last) => Writes([XferRefuse(NotAcceptable, Tid(g))])
    case Oversize(run, _, _) => Writes(CumulativeAcks(run) + [XferRefuse(NoResources, Tid(g))])
  }

  ghost function AllEffects(cfg: Config, bc: BundleCodec, groups: seq<Group>): Effects
    requires forall i :: 0 <= i < |groups| ==> GroupOk(cfg, groups[i])
  {
    if groups == [] then NONE
    else
      var n := |groups| - 1;
      AllEffects(cfg, bc, groups[..n]).Then(GroupEffects(cfg, bc, groups[n]))
  }

  ghost function StateOf(cfg: Config, groups: seq<Group>, open: seq<Arrival>): RecvState
    requires (forall i :: 0 <= i < |groups| ==> GroupOk(cfg, groups[i])) && (open != [] ==> OpenRun(cfg, open))
  {
    if open != [] then Receiving(Data(open), open[0].tid)
    else if groups != [] && !Ended(groups[|groups| - 1]) then Discarding(Tid(groups[|groups| - 1]))
    else RecvIdle
  }

  ghost function EffectsOf(cfg: Config, bc: BundleCodec, groups: seq<Group>, open: seq<Arrival>): Effects
    requires (forall i :: 0 <= i < |groups| ==> GroupOk(cfg, groups[i])) && (open != [] ==> OpenRun(cfg, open))
  {
    AllEffects(cfg, bc, groups).Then(Writes(if open == [] then [] else CumulativeAcks(open)))
  }

  // ---------------------------------------------------------------- one more segment

  /** The parse after one more segment, None if the machine must reject it. */
  ghost function Next(cfg: Config, groups: seq<Group>, open: seq<Arrival>, a: Arrival)
    : Option<(seq<Group>, seq<Arrival>)>
    requires (forall i :: 0 <= i < |groups| ==> GroupOk(cfg, groups[i])) && (open != [] ==> OpenRun(cfg, open))
  {
    var n := |groups|;
    if open == [] && n > 0 && !Ended(groups[n - 1]) && Tid(groups[n - 1]) == a.tid then
      var g := groups[n - 1];
      Some((groups[..n - 1] + [Oversize(g.run, g.last, g.dropped + [a])], []))
    else if open == [] && a.flags.start && a.Asks(cfg) then Some((groups + [Known(a)], []))
    else if !Joins(cfg, open, a) then None
    else if |Data(open)| + |a.buf| > cfg.localTransferMru then Some((groups + [Oversize(open, a, [])], []))
    else if a.flags.end then Some((groups + [Complete(open, a)], []))
    else Some((groups, open + [a]))
  }

  lemma DataSnoc(run: seq<Arrival>, a: Arrival)
    ensures Data(run + [a]) == Data(run) + a.buf
    ensures CumulativeAcks(run + [a])
      == CumulativeAcks(run) + [Ack(if run == [] then a.flags else NO_FLAGS, a.tid, |Data(run + [a])|)]
  {
    assert (run + [a])[..|run|] == run;
  }

  lemma FlatSnoc(groups: seq<Group>, g: Group)
    ensures Flat(groups + [g]) == Flat(groups) + Arrivals(g)
  {
    assert (groups + [g])[..|groups|] == groups;
  }

  lemma EffectsSnoc(cfg: Config, bc: BundleCodec, groups: seq<Group>, g: Group)
    requires (forall i :: 0 <= i < |groups| ==> GroupOk(cfg, groups[i])) && GroupOk(cfg, g)
    ensures AllEffects(cfg, bc, groups + [g]) == AllEffects(cfg, bc, groups).Then(GroupEffects(cfg, bc, g))
  {
    assert (groups + [g])[..|groups|] == groups;
  }

  /** The effects of one more segment on those of a parse. */
  ghost predicate Extends(cfg: Config, bc: BundleCodec, trace: seq<Arrival>, groups: seq<Group>, open: seq<Arrival>,
                          a: Arrival, groups': seq<Group>, open': seq<Arrival>)
    requires Parses(cfg, trace, groups, open)
  {
    && Parses(cfg, trace + [a], groups', open')
    && var r := OnSegment(cfg, bc, a.known, StateOf(cfg, groups, open), a.Seg());
    && r.Ok? && r.state == StateOf(cfg, groups', open')
    && EffectsOf(cfg, bc, groups', open') == EffectsOf(cfg, bc, groups, open).Then(r.effects)
  }

  lemma ThenAssoc(a: Effects, b: Effects, c: Effects)
    ensures a.Then(b).Then(c) == a.Then(b.Then(c)) && a.Then(NONE) == a
  {
    assert (a.packets + b.packets) + c.packets == a.packets + (b.packets + c.packets);
    assert (a.parsed + b.parsed) + c.parsed == a.parsed + (b.parsed + c.parsed);
    assert (a.replies + b.replies) + c.replies == a.replies + (b.replies + c.replies);
  }

  lemma StepDropped(cfg: Config, bc: BundleCodec, trace: seq<Arrival>, groups: seq<Group>, a: Arrival)
    requires Parses(cfg, trace, groups, []) && groups != []
    requires !Ended(groups[|groups| - 1]) && Tid(groups[|groups| - 1]) == a.tid
    ensures var g := groups[|groups| - 1];
      Extends(cfg, bc, trace, groups, [], a, groups[..|groups| - 1] + [Oversize(g.run, g.last, g.dropped + [a])], [])
  {
    assert groups[|groups| - 1].Oversize?;
    hide OpenRun, Ended, GroupEffects, Arrivals, Flat, AllEffects, OnSegment, Parses, Tid, StateOf, EffectsOf, GroupOk;
    var n := |groups| - 1;
    var before, g := groups[..n], groups[n];
    assert groups == before + [g];
    ParsesOk(cfg, trace, groups, []);
    MoreDropped(cfg, bc, g, a);
    var g' := Oversize(g.run, g.last, g.dropped + [a]);
    ReplaceLast(cfg, trace, before, g, g', a);
    ParsesOk(cfg, trace + [a], before + [g'], []);
    LastClosed(cfg, bc, before, g);
    LastClosed(cfg, bc, before, g');
    ThenAssoc(EffectsOf(cfg, bc, groups, []), NONE, NONE);
  }

  /** The state and effects right behind a group. */
  lemma LastClosed(cfg: Config, bc: BundleCodec, before: seq<Group>, g: Group)
    requires (forall i :: 0 <= i < |before| ==> GroupOk(cfg, before[i])) && GroupOk(cfg, g)
    ensures StateOf(cfg, before + [g], []) == if Ended(g) then RecvIdle else Discarding(Tid(g))
    ensures EffectsOf(cfg, bc, before + [g], []) == AllEffects(cfg, bc, before).Then(GroupEffects(cfg, bc, g))
  {
    hide GroupOk, Ended, GroupEffects, AllEffects;
    EffectsSnoc(cfg, bc, before, g);
    ThenAssoc(AllEffects(cfg, bc, before + [g]), NONE, NONE);
    assert (before + [g])[|before|] == g;
  }

  lemma MoreDropped(cfg: Config, bc: BundleCodec, g: Group, a: Arrival)
    requires GroupOk(cfg, g) && !Ended(g) && Tid(g) == a.tid
    ensures var g' := Oversize(g.run, g.last, g.dropped + [a]);
      && GroupOk(cfg, g') && Tid(g') == Tid(g) && Arrivals(g') == Arrivals(g) + [a]
      && GroupEffects(cfg, bc, g') == GroupEffects(cfg, bc, g)
      && Ended(g') == a.flags.end
      && OnSegment(cfg, bc, a.known, Discarding(Tid(g)), a.Seg())
         == Ok(if Ended(g') then RecvIdle else Discarding(Tid(g')), NONE)
  {
    hide Joins, Data, CumulativeAcks;
  }

  lemma ReplaceLast(cfg: Config, trace: seq<Arrival>, before: seq<Group>, g: Group, g': Group, a: Arrival)
    requires Parses(cfg, trace, before + [g], []) && GroupOk(cfg, g')
    requires Arrivals(g') == Arrivals(g) + [a] && Tid(g') == Tid(g)
    ensures Parses(cfg, trace + [a], before + [g'], [])
  {
    hide GroupOk, OpenRun, Arrivals, Flat, Ended;
    FlatSnoc(before, g);
    FlatSnoc(before, g');
    assert (Flat(before) + Arrivals(g)) + [a] == Flat(before) + (Arrivals(g) + [a]);
    var gs, gs' := before + [g], before + [g'];
    assert trace + [a] == Flat(gs') + [];
    forall i | 0 <= i < |gs'| ensures GroupOk(cfg, gs'[i]) {
      assert i < |before| ==> gs'[i] == gs[i];
    }
    forall i | 0 <= i < |gs'| - 1 ensures Ended(gs'[i]) || Tid(gs'[i]) != Tid(gs'[i + 1]) {
      assert gs[i] == gs'[i] && Tid(gs[i + 1]) == Tid(gs'[i + 1]);
    }
  }

  /** A group is closed by a segment that joins the open run. */
  lemma StepClosed(cfg: Config, bc: BundleCodec, trace: seq<Arrival>, groups: seq<Group>, open: seq<Arrival>,
                   a: Arrival, g: Group, e: Effects)
    requires Parses(cfg, trace, groups, open) && GroupOk(cfg, g)
    requires Arrivals(g) == open + [a] && g.last == a
    requires open == [] && groups != [] ==> Ended(groups[|groups| - 1]) || Tid(groups[|groups| - 1]) != a.tid
    requires open != [] ==> a.tid == open[0].tid
    requires GroupEffects(cfg, bc, g) == Writes(if open == [] then [] else CumulativeAcks(open)).Then(e)
    requires OnSegment(cfg, bc, a.known, StateOf(cfg, groups, open), a.Seg())
      == Ok(if Ended(g) then RecvIdle else Discarding(Tid(g)), e)
    ensures Extends(cfg, bc, trace, groups, open, a, groups + [g], [])
  {
    ParsesClosed(cfg, trace, groups, open, a, g);
    ParsesOk(cfg, trace, groups, open);
    ParsesOk(cfg, trace + [a], groups + [g], []);
    hide GroupOk, OpenRun, OnSegment, CumulativeAcks, GroupEffects, Arrivals, Parses, Ended, Tid, StateOf, Flat, AllEffects;
    LastClosed(cfg, bc, groups, g);
    ThenAssoc(AllEffects(cfg, bc, groups), Writes(if open == [] then [] else CumulativeAcks(open)), e);
  }

  lemma ParsesClosed(cfg: Config, trace: seq<Arrival>, groups: seq<Group>, open: seq<Arrival>, a: Arrival, g: Group)
    requires Parses(cfg, trace, groups, open) && GroupOk(cfg, g) && Arrivals(g) == open + [a] && g.last == a
    requires open == [] && groups != [] ==> Ended(groups[|groups| - 1]) || Tid(groups[|groups| - 1]) != a.tid
    requires open != [] ==> a.tid == open[0].tid
    ensures Parses(cfg, trace + [a], groups + [g], [])
  {
    hide GroupOk, OpenRun, Arrivals, Ended, Flat;
    FlatSnoc(groups, g);
    assert trace + [a] == Flat(groups + [g]) + [];
  }

  /** The state before a segment that starts or continues a transfer. */
  lemma JoinState(cfg: Config, groups: seq<Group>, open: seq<Arrival>, a: Arrival)
    requires (forall i :: 0 <= i < |groups| ==> GroupOk(cfg, groups[i])) && (open != [] ==> OpenRun(cfg, open))
    requires Joins(cfg, open, a)
    requires open == [] && groups != [] ==> Ended(groups[|groups| - 1]) || Tid(groups[|groups| - 1]) != a.tid
    ensures var s := StateOf(cfg, groups, open);
      if open == [] then a.flags.start && !a.Asks(cfg) && (s == RecvIdle || (s.Discarding? && s.tid != a.tid))
      else !a.flags.start && s == Receiving(Data(open), a.tid)
  {
    hide GroupOk, OpenRun, Ended, Data, Tid;
  }

  /** The machine on a segment that starts or continues a transfer. */
  lemma JoinStep(cfg: Config, bc: BundleCodec, trace: seq<Arrival>, groups: seq<Group>, open: seq<Arrival>, a: Arrival)
    requires Parses(cfg, trace, groups, open) && Joins(cfg, open, a)
    requires open == [] && groups != [] ==> Ended(groups[|groups| - 1]) || Tid(groups[|groups| - 1]) != a.tid
    ensures var data := Data(open + [a]);
      OnSegment(cfg, bc, a.known, StateOf(cfg, groups, open), a.Seg())
      == if |data| > cfg.localTransferMru then
           var (s, e) := RefuseOversized(a.tid, a.flags); Ok(s, e)
         else
           AckAndContinue(bc, data, Ack(if open == [] then a.flags else NO_FLAGS, a.tid, |data|), a.tid, a.flags.end)
  {
    hide GroupOk, OpenRun, Ended, Parses, Tid, StateOf, Joins, Data, Flat, AllEffects, CumulativeAcks, Ack;
    hide AckAndContinue, RefuseOversized;
    ParsesOk(cfg, trace, groups, open);
    JoinState(cfg, groups, open, a);
    DataSnoc(open, a);
    NoData();
    assert [] + a.buf == a.buf;
  }

  lemma NoData()
    ensures Data([]) == []
  {}

  /** A joining segment is one of the last three cases of `Next`. */
  ghost predicate Fresh(groups: seq<Group>, open: seq<Arrival>, a: Arrival) {
    open == [] && groups != [] ==> Ended(groups[|groups| - 1]) || Tid(groups[|groups| - 1]) != a.tid
  }

  lemma NextJoined(cfg: Config, groups: seq<Group>, open: seq<Arrival>, a: Arrival)
    requires (forall i :: 0 <= i < |groups| ==> GroupOk(cfg, groups[i])) && (open != [] ==> OpenRun(cfg, open))
    requires Joins(cfg, open, a) && Fresh(groups, open, a)
    ensures Next(cfg, groups, open, a) == Some(
      if |Data(open + [a])| > cfg.localTransferMru then (groups + [Oversize(open, a, [])], [])
      else if a.flags.end then (groups + [Complete(open, a)], [])
      else (groups, open + [a]))
  {
    DataSnoc(open, a);
    hide GroupOk, Data, Ended;
  }

  /** The acks of a run with one more segment. */
  lemma AcksSnoc(open: seq<Arrival>, a: Arrival)
    ensures CumulativeAcks(open + [a])
      == (if open == [] then [] else CumulativeAcks(open))
         + [Ack(if open == [] then a.flags else NO_FLAGS, a.tid, |Data(open + [a])|)]
  {
    hide Ack;
    DataSnoc(open, a);
  }

  lemma OpenGrown(cfg: Config, open: seq<Arrival>, a: Arrival)
    requires Joins(cfg, open, a) && |Data(open + [a])| <= cfg.localTransferMru && !a.flags.end
    ensures OpenRun(cfg, open + [a]) && (open + [a])[0].tid == a.tid
  {
    hide Data;
    var run := open + [a];
    assert run[|open|] == a && forall i :: 0 <= i < |open| ==> run[i] == open[i];
  }

  lemma ParsesGrown(cfg: Config, trace: seq<Arrival>, groups: seq<Group>, open: seq<Arrival>, a: Arrival)
    requires Parses(cfg, trace, groups, open) && Fresh(groups, open, a)
    requires OpenRun(cfg, open + [a]) && (open + [a])[0].tid == a.tid
    ensures Parses(cfg, trace + [a], groups, open + [a])
  {
    hide Flat, GroupOk, OpenRun, Ended, Tid;
    assert trace + [a] == Flat(groups) + (open + [a]);
    assert open != [] ==> (open + [a])[0] == open[0];
  }

  lemma StepGrown(cfg: Config, bc: BundleCodec, trace: seq<Arrival>, groups: seq<Group>, open: seq<Arrival>, a: Arrival)
    requires Parses(cfg, trace, groups, open) && Joins(cfg, open, a) && Fresh(groups, open, a)
    requires |Data(open + [a])| <= cfg.localTransferMru && !a.flags.end
    ensures Extends(cfg, bc, trace, groups, open, a, groups, open + [a])
  {
    hide OnSegment, Flat, AllEffects, GroupOk, OpenRun, Joins, Ended, CumulativeAcks, Data, Parses, Ack, Tid, StateOf;
    hide EffectsOf;
    OpenGrown(cfg, open, a);
    ParsesGrown(cfg, trace, groups, open, a);
    JoinStep(cfg, bc, trace, groups, open, a);
    ParsesOk(cfg, trace, groups, open);
    EffectsGrown(cfg, bc, groups, open, a);
    StateGrown(cfg, groups, open + [a]);
  }

  lemma StateGrown(cfg: Config, groups: seq<Group>, open: seq<Arrival>)
    requires (forall i :: 0 <= i < |groups| ==> GroupOk(cfg, groups[i])) && OpenRun(cfg, open) && open != []
    ensures StateOf(cfg, groups, open) == Receiving(Data(open), open[0].tid)
  {
    hide GroupOk, OpenRun, Data;
  }

  lemma EffectsGrown(cfg: Config, bc: BundleCodec, groups: seq<Group>, open: seq<Arrival>, a: Arrival)
    requires (forall i :: 0 <= i < |groups| ==> GroupOk(cfg, groups[i])) && (open != [] ==> OpenRun(cfg, open))
    requires OpenRun(cfg, open + [a])
    ensures EffectsOf(cfg, bc, groups, open + [a]) == EffectsOf(cfg, bc, groups, open).Then(
        Writes([Ack(if open == [] then a.flags else NO_FLAGS, a.tid, |Data(open + [a])|)]))
  {
    hide AllEffects, GroupOk, OpenRun, CumulativeAcks, Data, Ack;
    AcksSnoc(open, a);
    var acks := if open == [] then [] else CumulativeAcks(open);
    var ack := Ack(if open == [] then a.flags else NO_FLAGS, a.tid, |Data(open + [a])|);
    ThenAssoc(AllEffects(cfg, bc, groups), Writes(acks), Writes([ack]));
  }

  lemma OversizedEffects(cfg: Config, bc: BundleCodec, open: seq<Arrival>, a: Arrival)
    requires Joins(cfg, open, a) && |Data(open + [a])| > cfg.localTransferMru
    ensures var g := Oversize(open, a, []);
      && GroupOk(cfg, g) && Arrivals(g) == open + [a]
      && GroupEffects(cfg, bc, g)
         == Writes(if open == [] then [] else CumulativeAcks(open)).Then(Writes([XferRefuse(NoResources, a.tid)]))
  {
    hide Data, Joins;
    assert open + [a] + [] == open + [a];
  }

  lemma CompleteEffects(cfg: Config, bc: BundleCodec, open: seq<Arrival>, a: Arrival)
    requires Joins(cfg, open, a) && |Data(open + [a])| <= cfg.localTransferMru && a.flags.end
    ensures var g, data := Complete(open, a), Data(open + [a]);
      var ack := Ack(if open == [] then a.flags else NO_FLAGS, a.tid, |data|);
      && GroupOk(cfg, g)
      && GroupEffects(cfg, bc, g)
         == Writes(if open == [] then [] else CumulativeAcks(open)).Then(Writes([ack]).Then(ProcessBundle(bc, data, a.tid).1))
  {
    AcksSnoc(open, a);
    hide Data, Joins, CumulativeAcks, Ack;
    var acks := if open == [] then [] else CumulativeAcks(open);
    var ack := Ack(if open == [] then a.flags else NO_FLAGS, a.tid, |Data(open + [a])|);
    var e := ProcessBundle(bc, Data(open + [a]), a.tid).1;
    assert acks + [ack] + e.packets == acks + ([ack] + e.packets);
  }

  lemma StepJoined(cfg: Config, bc: BundleCodec, trace: seq<Arrival>, groups: seq<Group>, open: seq<Arrival>, a: Arrival)
    requires Parses(cfg, trace, groups, open) && Joins(cfg, open, a) && Fresh(groups, open, a)
    ensures var next := Next(cfg, groups, open, a);
      next.Some? && Extends(cfg, bc, trace, groups, open, a, next.value.0, next.value.1)
  {
    NextJoined(cfg, groups, open, a);
    var data := Data(open + [a]);
    assert open != [] ==> a.tid == open[0].tid;
    if |data| <= cfg.localTransferMru && !a.flags.end {
      StepGrown(cfg, bc, trace, groups, open, a);
    } else {
      JoinStep(cfg, bc, trace, groups, open, a);
      hide OnSegment, Next, Flat, AllEffects, Extends, Data, Joins, Parses, GroupOk, GroupEffects, CumulativeAcks, Ack;
      if |data| > cfg.localTransferMru {
        OversizedEffects(cfg, bc, open, a);
        StepClosed(cfg, bc, trace, groups, open, a, Oversize(open, a, []), Writes([XferRefuse(NoResources, a.tid)]));
      } else {
        CompleteEffects(cfg, bc, open, a);
        var ack := Ack(if open == [] then a.flags else NO_FLAGS, a.tid, |data|);
        StepClosed(cfg, bc, trace, groups, open, a, Complete(open, a),
                   Writes([ack]).Then(ProcessBundle(bc, data, a.tid).1));
      }
    }
  }

  lemma Step(cfg: Config, bc: BundleCodec, trace: seq<Arrival>, groups: seq<Group>, open: seq<Arrival>, a: Arrival)
    requires Parses(cfg, trace, groups, open)
    ensures var next := Next(cfg, groups, open, a);
      if next.None? then OnSegment(cfg, bc, a.known, StateOf(cfg, groups, open), a.Seg()).Error?
      else Extends(cfg, bc, trace, groups, open, a, next.value.0, next.value.1)
  {
    hide OnSegment, Flat, AllEffects, GroupOk, OpenRun, Joins, Ended, CumulativeAcks, Data, Parses, Ack, Tid, StateOf;
    hide EffectsOf, Extends, Next;
    ParsesOk(cfg, trace, groups, open);
    NextCases(cfg, groups, open, a);
    if Drops(groups, open, a) {
      StepDropped(cfg, bc, trace, groups, a);
    } else if open == [] && a.flags.start && a.Asks(cfg) {
      StepKnown(cfg, bc, trace, groups, a);
    } else if Joins(cfg, open, a) {
      StepJoined(cfg, bc, trace, groups, open, a);
    } else {
      StepRejected(cfg, bc, groups, open, a);
    }
  }

  /** A segment of the transfer whose rest is being dropped. */
  ghost predicate Drops(groups: seq<Group>, open: seq<Arrival>, a: Arrival) {
    open == [] && groups != [] && !Ended(groups[|groups| - 1]) && Tid(groups[|groups| - 1]) == a.tid
  }

  /** The first two cases of `Next` and the last one. */
  lemma NextCases(cfg: Config, groups: seq<Group>, open: seq<Arrival>, a: Arrival)
    requires (forall i :: 0 <= i < |groups| ==> GroupOk(cfg, groups[i])) && (open != [] ==> OpenRun(cfg, open))
    ensures var next, n := Next(cfg, groups, open, a), |groups| - 1;
      if Drops(groups, open, a) then
        groups[n].Oversize?
        && next == Some((groups[..n] + [Oversize(groups[n].run, groups[n].last, groups[n].dropped + [a])], []))
      else
        Fresh(groups, open, a)
        && if open == [] && a.flags.start && a.Asks(cfg) then next == Some((groups + [Known(a)], []))
           else next.None? <==> !Joins(cfg, open, a)
  {
    hide GroupOk, OpenRun, Joins, Data, Tid;
  }

  lemma StepKnown(cfg: Config, bc: BundleCodec, trace: seq<Arrival>, groups: seq<Group>, a: Arrival)
    requires Parses(cfg, trace, groups, []) && Fresh(groups, [], a) && a.flags.start && a.Asks(cfg)
    ensures Extends(cfg, bc, trace, groups, [], a, groups + [Known(a)], [])
  {
    hide Flat, AllEffects, OpenRun, Joins, CumulativeAcks, Data, Parses, Ack, Extends;
    ParsesOk(cfg, trace, groups, []);
    assert [] + [a] == [a];
    StepClosed(cfg, bc, trace, groups, [], a, Known(a), Writes([XferRefuse(NotAcceptable, a.tid)]));
  }

  /** What is no start when idle and no continuation of the open run is an error. */
  lemma StepRejected(cfg: Config, bc: BundleCodec, groups: seq<Group>, open: seq<Arrival>, a: Arrival)
    requires (forall i :: 0 <= i < |groups| ==> GroupOk(cfg, groups[i])) && (open != [] ==> OpenRun(cfg, open))
    requires !Joins(cfg, open, a) && Fresh(groups, open, a) && !(open == [] && a.flags.start && a.Asks(cfg))
    ensures OnSegment(cfg, bc, a.known, StateOf(cfg, groups, open), a.Seg()).Error?
  {
    hide GroupOk, OpenRun, Data, Ended, Tid;
  }

  /** The groups before the last one and what was open when that one was closed. */
  lemma Reopened(cfg: Config, trace: seq<Arrival>, before: seq<Group>, g: Group, run: seq<Arrival>, a: Arrival)
    requires Parses(cfg, trace + [a], before + [g], []) && Arrivals(g) == run + [a] && g.last == a
    requires run != [] ==> OpenRun(cfg, run) && run[0].tid == a.tid
    ensures Parses(cfg, trace, before, run)
    ensures run == [] && before != [] ==> Ended(before[|before| - 1]) || Tid(before[|before| - 1]) != a.tid
  {
    hide GroupOk, OpenRun, Arrivals, Flat, Ended;
    var gs := before + [g];
    FlatSnoc(before, g);
    assert Flat(gs) == (Flat(before) + run) + [a];
    assert Flat(gs) + [] == trace + [a];
    LastOf(trace, Flat(before) + run, a, a);
    forall i | 0 <= i < |before| ensures GroupOk(cfg, before[i]) {
      assert before[i] == gs[i];
    }
    forall i | 0 <= i < |before| - 1 ensures Ended(before[i]) || Tid(before[i]) != Tid(before[i + 1]) {
      assert before[i] == gs[i] && before[i + 1] == gs[i + 1];
    }
    if before != [] {
      assert gs[|before| - 1] == before[|before| - 1] && gs[|before|] == g;
    }
  }

  lemma LastOf(x: seq<Arrival>, y: seq<Arrival>, a: Arrival, b: Arrival)
    requires x + [a] == y + [b]
    ensures x == y && a == b
  {
    assert x == (x + [a])[..|x|] && y == (y + [b])[..|y|];
    assert a == (x + [a])[|x|] && b == (y + [b])[|y|];
  }

  lemma LastArrival(trace: seq<Arrival>, a: Arrival, before: seq<Group>, g: Group)
    requires trace + [a] == Flat(before + [g]) + []
    ensures Arrivals(g)[|Arrivals(g)| - 1] == a
    ensures trace == Flat(before) + Arrivals(g)[..|Arrivals(g)| - 1]
  {
    assert Arrivals(g) != [];
    hide Flat, Arrivals;
    FlatSnoc(before, g);
    LastOfTwo(trace, a, Flat(before), Arrivals(g));
    assert Flat(before + [g]) + [] == Flat(before + [g]);
  }

  lemma LastOfTwo(trace: seq<Arrival>, a: Arrival, ys: seq<Arrival>, xs: seq<Arrival>)
    requires xs != [] && trace + [a] == ys + xs
    ensures xs[|xs| - 1] == a && trace == ys + xs[..|xs| - 1]
  {
    var n := |xs| - 1;
    assert ys + xs == (ys + xs[..n]) + [xs[n]];
    LastOf(trace, ys + xs[..n], a, xs[n]);
  }

  /** What of a group its last segment is. */
  lemma GroupEnd(g: Group, a: Arrival)
    requires Arrivals(g)[|Arrivals(g)| - 1] == a
    ensures if g.Oversize? && g.dropped != [] then g.dropped == g.dropped[..|g.dropped| - 1] + [a] else g.last == a
  {}

  lemma OpenShorter(cfg: Config, open: seq<Arrival>, a: Arrival)
    requires OpenRun(cfg, open + [a])
    ensures (open != [] ==> OpenRun(cfg, open)) && Joins(cfg, open, a) && !a.flags.end
    ensures |Data(open + [a])| <= cfg.localTransferMru
  {
    DataSnoc(open, a);
    assert open != [] ==> (open + [a])[0] == open[0];
    assert (open + [a])[|open|] == a;
    assert forall i :: 0 <= i < |open| ==> (open + [a])[i] == open[i];
  }

  lemma ParsesShorter(cfg: Config, trace: seq<Arrival>, a: Arrival, groups: seq<Group>, open: seq<Arrival>)
    requires Parses(cfg, trace + [a], groups, open + [a]) && (open != [] ==> OpenRun(cfg, open))
    ensures Parses(cfg, trace, groups, open) && Fresh(groups, open, a)
  {
    hide GroupOk, Flat, Ended, OpenRun, Tid;
    var xs := Flat(groups);
    assert trace + [a] == (xs + open) + [a];
    LastOf(trace, xs + open, a, a);
    assert open != [] ==> (open + [a])[0] == open[0];
    assert open == [] ==> (open + [a])[0] == a;
  }

  lemma PreviousOpen(cfg: Config, trace: seq<Arrival>, a: Arrival, groups: seq<Group>, open: seq<Arrival>)
    requires Parses(cfg, trace + [a], groups, open) && open != []
    ensures var open' := open[..|open| - 1];
      Parses(cfg, trace, groups, open') && Next(cfg, groups, open', a) == Some((groups, open))
  {
    hide *;
    var open', b := open[..|open| - 1], open[|open| - 1];
    assert open == open' + [b];
    ParsesLast(cfg, trace, a, groups, open', b);
    ParsesOk(cfg, trace + [a], groups, open);
    OpenShorter(cfg, open', a);
    ParsesShorter(cfg, trace, a, groups, open');
    ParsesOk(cfg, trace, groups, open');
    NextJoined(cfg, groups, open', a);
  }

  lemma ParsesLast(cfg: Config, trace: seq<Arrival>, a: Arrival, groups: seq<Group>, open: seq<Arrival>, b: Arrival)
    requires Parses(cfg, trace + [a], groups, open + [b])
    ensures b == a
  {
    hide GroupOk, Flat, Ended, OpenRun, Tid;
    assert trace + [a] == (Flat(groups) + open) + [b];
    LastOf(trace, Flat(groups) + open, a, b);
  }

  lemma PreviousClosed(cfg: Config, trace: seq<Arrival>, a: Arrival, before: seq<Group>, g: Group, run: seq<Arrival>)
    requires Parses(cfg, trace + [a], before + [g], [])
    requires g == Complete(run, a) || g == Oversize(run, a, []) || (g == Known(a) && run == [])
    ensures Parses(cfg, trace, before, run) && Next(cfg, before, run, a) == Some((before + [g], []))
  {
    assert (before + [g])[|before|] == g;
    ClosedShape(cfg, g, run, a);
    hide GroupOk, Arrivals, Flat, Ended, Joins, OpenRun, Data, Tid, Next;
    Reopened(cfg, trace, before, g, run, a);
    ParsesOk(cfg, trace, before, run);
    if g.Known? {
      NextKnown(cfg, before, a);
    } else {
      NextJoined(cfg, before, run, a);
    }
  }

  lemma ClosedShape(cfg: Config, g: Group, run: seq<Arrival>, a: Arrival)
    requires GroupOk(cfg, g)
    requires g == Complete(run, a) || g == Oversize(run, a, []) || (g == Known(a) && run == [])
    ensures Arrivals(g) == run + [a] && (run != [] ==> OpenRun(cfg, run) && run[0].tid == a.tid)
    ensures if g.Known? then a.flags.start && a.Asks(cfg) else Joins(cfg, run, a)
    ensures g.Complete? ==> |Data(run + [a])| <= cfg.localTransferMru && a.flags.end
    ensures g.Oversize? ==> |Data(run + [a])| > cfg.localTransferMru
  {
    hide Data;
    assert run + [a] + [] == run + [a];
  }

  lemma NextKnown(cfg: Config, groups: seq<Group>, a: Arrival)
    requires (forall i :: 0 <= i < |groups| ==> GroupOk(cfg, groups[i])) && Fresh(groups, [], a)
    requires a.flags.start && a.Asks(cfg)
    ensures Next(cfg, groups, [], a) == Some((groups + [Known(a)], []))
  {
    hide GroupOk, Data, Ended, Tid;
  }

  lemma PreviousDropped(cfg: Config, trace: seq<Arrival>, a: Arrival, before: seq<Group>, run: seq<Arrival>,
                        last: Arrival, dropped: seq<Arrival>)
    requires Parses(cfg, trace + [a], before + [Oversize(run, last, dropped + [a])], [])
    ensures var groups' := before + [Oversize(run, last, dropped)];
      Parses(cfg, trace, groups', [])
      && Next(cfg, groups', [], a) == Some((before + [Oversize(run, last, dropped + [a])], []))
  {
    var g, g' := Oversize(run, last, dropped + [a]), Oversize(run, last, dropped);
    assert (before + [g])[|before|] == g;
    DroppedShorter(cfg, run, last, dropped, a);
    hide GroupOk, Arrivals, Flat, Ended, Joins, OpenRun;
    RestoreLast(cfg, trace, before, g, g', a);
    var gs' := before + [g'];
    assert gs'[..|before|] == before && gs'[|before|] == g';
    ParsesOk(cfg, trace, gs', []);
  }

  lemma DroppedShorter(cfg: Config, run: seq<Arrival>, last: Arrival, dropped: seq<Arrival>, a: Arrival)
    requires GroupOk(cfg, Oversize(run, last, dropped + [a]))
    ensures var g, g' := Oversize(run, last, dropped + [a]), Oversize(run, last, dropped);
      GroupOk(cfg, g') && !Ended(g') && Tid(g') == a.tid && Tid(g') == Tid(g) && Arrivals(g) == Arrivals(g') + [a]
  {
    hide Joins, Data;
    assert forall i :: 0 <= i < |dropped| ==> (dropped + [a])[i] == dropped[i];
    assert (dropped + [a])[|dropped|] == a;
  }

  lemma RestoreLast(cfg: Config, trace: seq<Arrival>, before: seq<Group>, g: Group, g': Group, a: Arrival)
    requires Parses(cfg, trace + [a], before + [g], []) && GroupOk(cfg, g')
    requires Arrivals(g) == Arrivals(g') + [a] && Tid(g') == Tid(g)
    ensures Parses(cfg, trace, before + [g'], [])
  {
    hide GroupOk, OpenRun, Arrivals, Flat, Ended;
    FlatSnoc(before, g);
    FlatSnoc(before, g');
    var gs, gs' := before + [g], before + [g'];
    assert trace + [a] == (Flat(before) + Arrivals(g')) + [a];
    LastOf(trace, Flat(gs'), a, a);
    assert trace == Flat(gs') + [];
    forall i | 0 <= i < |gs'| ensures GroupOk(cfg, gs'[i]) {
      assert i < |before| ==> gs'[i] == gs[i];
    }
    forall i | 0 <= i < |gs'| - 1 ensures Ended(gs'[i]) || Tid(gs'[i]) != Tid(gs'[i + 1]) {
      assert gs[i] == gs'[i] && Tid(gs[i + 1]) == Tid(gs'[i + 1]);
    }
  }

  /** Every parse of a longer sequence comes from a parse of the shorter one. */
  lemma Previous(cfg: Config, trace: seq<Arrival>, a: Arrival, groups: seq<Group>, open: seq<Arrival>)
    returns (groups': seq<Group>, open': seq<Arrival>)
    requires Parses(cfg, trace + [a], groups, open)
    ensures Parses(cfg, trace, groups', open') && Next(cfg, groups', open', a) == Some((groups, open))
  {
    hide *;
    if open != [] {
      PreviousOpen(cfg, trace, a, groups, open);
      groups', open' := groups, open[..|open| - 1];
    } else {
      ParsesFlat(cfg, trace, a, groups);
      var n := |groups| - 1;
      var g := groups[n];
      groups', open' := groups[..n], [];
      assert groups == groups' + [g];
      LastArrival(trace, a, groups', g);
      GroupEnd(g, a);
      if g.Oversize? && g.dropped != [] {
        var dropped := g.dropped[..|g.dropped| - 1];
        PreviousDropped(cfg, trace, a, groups', g.run, g.last, dropped);
        groups' := groups' + [Oversize(g.run, g.last, dropped)];
      } else {
        open' := if g.Known? then [] else g.run;
        PreviousClosed(cfg, trace, a, groups', g, open');
      }
    }
  }

  lemma ParsesFlat(cfg: Config, trace: seq<Arrival>, a: Arrival, groups: seq<Group>)
    requires Parses(cfg, trace + [a], groups, [])
    ensures groups != [] && trace + [a] == Flat(groups) + []
  {
    assert Flat([]) == [];
  }

  /** `state` and `effects` are what a division of the sequence into transfers prescribes. */
  ghost predicate Explains(cfg: Config, bc: BundleCodec, trace: seq<Arrival>, groups: seq<Group>, open: seq<Arrival>,
                           state: RecvState, effects: Effects)
  {
    Parses(cfg, trace, groups, open)
    && state == StateOf(cfg, groups, open) && effects == EffectsOf(cfg, bc, groups, open)
  }

  lemma {:induction false} Sound(cfg: Config, bc: BundleCodec, trace: seq<Arrival>)
    returns (groups: seq<Group>, open: seq<Arrival>)
    requires Run(cfg, bc, trace).Ok?
    ensures var r := Run(cfg, bc, trace); Explains(cfg, bc, trace, groups, open, r.state, r.effects)
    decreases |trace|
  {
    hide OnSegment, Parses, StateOf, GroupOk, OpenRun;
    if trace == [] {
      groups, open := [], [];
      EmptyParse(cfg, bc);
    } else {
      var n := |trace| - 1;
      assert trace == trace[..n] + [trace[n]];
      groups, open := Sound(cfg, bc, trace[..n]);
      assert Parses(cfg, trace[..n], groups, open);
      ParsesOk(cfg, trace[..n], groups, open);
      Step(cfg, bc, trace[..n], groups, open, trace[n]);
      var next := Next(cfg, groups, open, trace[n]);
      groups, open := next.value.0, next.value.1;
    }
  }

  lemma EmptyParse(cfg: Config, bc: BundleCodec)
    ensures Explains(cfg, bc, [], [], [], RecvIdle, NONE)
  {
    assert Flat([]) + [] == [];
  }

  lemma ParsesOk(cfg: Config, trace: seq<Arrival>, groups: seq<Group>, open: seq<Arrival>)
    requires Parses(cfg, trace, groups, open)
    ensures (forall i :: 0 <= i < |groups| ==> GroupOk(cfg, groups[i])) && (open != [] ==> OpenRun(cfg, open))
  {
  }

  lemma {:induction false} CompleteFor(cfg: Config, bc: BundleCodec, trace: seq<Arrival>, groups: seq<Group>,
                                     open: seq<Arrival>)
    requires Parses(cfg, trace, groups, open)
    ensures Run(cfg, bc, trace) == Ok(StateOf(cfg, groups, open), EffectsOf(cfg, bc, groups, open))
    decreases |trace|
  {
    hide OnSegment, Parses, StateOf, GroupOk, OpenRun, EffectsOf, Next, Run, Flat;
    ParsesOk(cfg, trace, groups, open);
    if trace == [] {
      NothingLeft(cfg, groups, open);
      EmptyParse(cfg, bc);
      EmptyRun(cfg, bc);
    } else {
      var n := |trace| - 1;
      assert trace == trace[..n] + [trace[n]];
      var groups', open' := Previous(cfg, trace[..n], trace[n], groups, open);
      ParsesOk(cfg, trace[..n], groups', open');
      CompleteFor(cfg, bc, trace[..n], groups', open');
      Step(cfg, bc, trace[..n], groups', open', trace[n]);
      RunSnoc(cfg, bc, trace[..n], trace[n]);
    }
  }

  lemma EmptyRun(cfg: Config, bc: BundleCodec)
    ensures Run(cfg, bc, []) == Ok(RecvIdle, NONE)
  {}

  lemma RunSnoc(cfg: Config, bc: BundleCodec, trace: seq<Arrival>, a: Arrival)
    ensures Run(cfg, bc, trace + [a]) ==
      var r := Run(cfg, bc, trace);
      if r.Error? then Error
      else
        var t := OnSegment(cfg, bc, a.known, r.state, a.Seg());
        if t.Error? then Error else Ok(t.state, r.effects.Then(t.effects))
  {
    hide OnSegment;
    assert (trace + [a])[..|trace|] == trace;
  }

  lemma NonemptyFlat(groups: seq<Group>)
    requires groups != []
    ensures Flat(groups) != []
  {
    FlatSnoc(groups[..|groups| - 1], groups[|groups| - 1]);
    assert groups == groups[..|groups| - 1] + [groups[|groups| - 1]];
  }

  lemma NothingLeft(cfg: Config, groups: seq<Group>, open: seq<Arrival>)
    requires Parses(cfg, [], groups, open)
    ensures groups == [] && open == []
  {
    if groups != [] {
      NonemptyFlat(groups);
    }
  }

  /** The receive machine accepts a sequence with a state and effects if and only if the sequence divides into
      complete transfers, refused known ones, refused oversized ones and one in progress that prescribe them. */
  lemma ReceiverRefinement(cfg: Config, bc: BundleCodec, trace: seq<Arrival>, state: RecvState, effects: Effects)
    ensures Run(cfg, bc, trace) == Ok(state, effects)
      <==> exists groups, open :: Explains(cfg, bc, trace, groups, open, state, effects)
  {
    if Run(cfg, bc, trace) == Ok(state, effects) {
      var groups, open := Sound(cfg, bc, trace);
    }
    forall groups, open | Explains(cfg, bc, trace, groups, open, state, effects)
      ensures Run(cfg, bc, trace) == Ok(state, effects)
    {
      CompleteFor(cfg, bc, trace, groups, open);
    }
  }

  /** The strings of the complete transfers, in order. */
  ghost function Strings(groups: seq<Group>): seq<seq<Byte>> {
    if groups == [] then []
    else
      var g := groups[|groups| - 1];
      Strings(groups[..|groups| - 1]) + (if g.Complete? then [Data(g.run + [g.last])] else [])
  }

  lemma {:induction false} ParsedStrings(cfg: Config, bc: BundleCodec, groups: seq<Group>)
    requires forall i :: 0 <= i < |groups| ==> GroupOk(cfg, groups[i])
    ensures AllEffects(cfg, bc, groups).parsed == Strings(groups) && AllEffects(cfg, bc, groups).replies == []
    ensures forall i :: 0 <= i < |Strings(groups)| ==> |Strings(groups)[i]| <= cfg.localTransferMru
  {
    if groups != [] {
      ParsedStrings(cfg, bc, groups[..|groups| - 1]);
      assert GroupOk(cfg, groups[|groups| - 1]);
    }
  }

  /** The division of an accepted sequence, with all that was written and handed to parsing. */
  lemma Divided(cfg: Config, bc: BundleCodec, trace: seq<Arrival>) returns (groups: seq<Group>, open: seq<Arrival>)
    requires Run(cfg, bc, trace).Ok?
    ensures var r := Run(cfg, bc, trace);
      && Parses(cfg, trace, groups, open)
      && r.effects == EffectsOf(cfg, bc, groups, open) && r.effects.parsed == Strings(groups)
  {
    groups, open := Sound(cfg, bc, trace);
    ParsesOk(cfg, trace, groups, open);
    ParsedStrings(cfg, bc, groups);
    hide Run, AllEffects, Strings, GroupOk, Parses;
    var e := AllEffects(cfg, bc, groups);
    assert e.parsed + [] == e.parsed;
  }

  /** Of any accepted sequence, exactly the strings of its complete transfers were handed to bundle parsing, and
      neither they nor the reassembly buffer ever exceed the announced transfer MRU. */
  lemma HandedToParsing(cfg: Config, bc: BundleCodec, trace: seq<Arrival>)
    requires Run(cfg, bc, trace).Ok?
    ensures var r := Run(cfg, bc, trace);
      && (exists groups, open :: Parses(cfg, trace, groups, open) && r.effects.parsed == Strings(groups))
      && (forall i :: 0 <= i < |r.effects.parsed| ==> |r.effects.parsed[i]| <= cfg.localTransferMru)
      && (r.state.Receiving? ==> |r.state.buffer| <= cfg.localTransferMru)
  {
    var groups, open := Sound(cfg, bc, trace);
    ParsedStrings(cfg, bc, groups);
    hide Run, AllEffects, Strings, GroupOk, Flat;
    assert Parses(cfg, trace, groups, open);
  }
}
