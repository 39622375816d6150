/** Two nodes with an established session and a FIFO channel in each direction, both sending whenever they like. */
module TcpclDuplex {
  import opened Bytes
  import opened TcpclPacket
  import opened TcpclSession
  import opened TcpclLink
  import TcpclCodec

  /** A node; `session` is its last state while it was live, `events`, `jobs` and `replies` its history: what it
      received, the bundles it gave a transfer ID and the results it reported. */
  datatype Node = Node(session: Session, live: bool, failed: bool,
                       jobs: seq<Job>, replies: seq<Reply>, events: seq<Event>)

  /** `ab` is in flight from `a` to `b`. */
  datatype Net = Net(a: Node, b: Node, ab: seq<Packet>, ba: seq<Packet>)

  /** What a node can do next: take a bundle from its queue, handle the next packet of its peer (answering a
      keepalive or not), send a keepalive, or close the session. The requester of a bundle may stop waiting for its
      result at any time. */
  datatype Action = SendJob(job: Job, listening: bool) | Handle(env: Surroundings, answer: bool) | Tick | Close

  const IDLE_NODE := Node(FRESH, true, false, [], [], [])
  const INITIAL := Net(IDLE_NODE, IDLE_NODE, [], [])

  predicate Enabled(bc: BundleCodec, x: Node, incoming: seq<Packet>, action: Action) {
    && x.live
    && match action
       case SendJob(job, _) => x.session.send.SendIdle? && bc.decodes(job.data)
       case Handle(_, _) => incoming != []
       case Tick => true
       case Close => true
  }

  function Fail(x: Node): Node {
    x.(live := false, failed := true)
  }

  ghost function AfterJob(cx: Config, bc: BundleCodec, x: Node, out: seq<Packet>, job: Job, listening: bool)
    : (Node, seq<Packet>)
    requires cx.Valid()
  {
    match OnJob(cx, bc, x.session, job, listening)
    case Error => (Fail(x), out)
    case Ok(s, e) =>
      (x.(session := s, replies := x.replies + e.replies,
          jobs := if TooLarge(cx, job) then x.jobs else x.jobs + [job]),
       out + e.packets)
  }

  ghost function AfterPacket(cx: Config, bc: BundleCodec, x: Node, out: seq<Packet>, p: Packet, env: Surroundings,
                             answer: bool): (Node, seq<Packet>)
    requires cx.Valid()
  {
    if p.KeepAlive? then (x, if answer then out + [KeepAlive] else out)
    else
      match OnPacket(cx, bc, env, x.session, p)
      case Error => (Fail(x), out)
      case Ok(s, e) =>
        if p.SessTerm? then (x.(live := false), out + e.packets)
        else
          (x.(session := s, replies := x.replies + e.replies,
              events := x.events + if p.XferSeg? then EventOf(cx, env.known, p, e) else []),
           out + e.packets)
  }

  /** The packet would have brought a result whose requester has stopped waiting: the source ends the session on it. */
  predicate Abandons(cx: Config, bc: BundleCodec, x: Node, p: Packet, env: Surroundings)
    requires cx.Valid()
  {
    && !p.KeepAlive?
    && OnPacket(cx, bc, env, x.session, p).Error?
    && OnPacket(cx, bc, env.(listening := true), x.session, p).Ok?
  }

  /** The acting node and its two channels afterwards. */
  ghost function Act(cx: Config, bc: BundleCodec, x: Node, out: seq<Packet>, incoming: seq<Packet>, action: Action)
    : (Node, seq<Packet>, seq<Packet>)
    requires cx.Valid() && Enabled(bc, x, incoming, action)
  {
    match action
    case SendJob(job, listening) => var (x', out') := AfterJob(cx, bc, x, out, job, listening); (x', out', incoming)
    case Handle(env, answer) =>
      if Abandons(cx, bc, x, incoming[0], env) then (x.(live := false), out, incoming)
      else var (x', out') := AfterPacket(cx, bc, x, out, incoming[0], env, answer); (x', out', incoming[1..])
    case Tick => (x, out + [KeepAlive], incoming)
    case Close => (x.(live := false), out + [SessTerm(false, TermUnknown)], incoming)
  }

  datatype Step = Step(byA: bool, action: Action)

  ghost predicate CanStep(bc: BundleCodec, net: Net, step: Step) {
    if step.byA then Enabled(bc, net.a, net.ba, step.action) else Enabled(bc, net.b, net.ab, step.action)
  }

  ghost function Next(ca: Config, cb: Config, bc: BundleCodec, net: Net, step: Step): Net
    requires ca.Valid() && cb.Valid() && CanStep(bc, net, step)
  {
    if step.byA then
      var (a, ab, ba) := Act(ca, bc, net.a, net.ab, net.ba, step.action); Net(a, net.b, ab, ba)
    else
      var (b, ba, ab) := Act(cb, bc, net.b, net.ba, net.ab, step.action); Net(net.a, b, ab, ba)
  }

  /** `net` is reached by the steps from the established session. */
  ghost predicate Reaches(ca: Config, cb: Config, bc: BundleCodec, steps: seq<Step>, net: Net)
    requires ca.Valid() && cb.Valid()
    decreases |steps|
  {
    if steps == [] then net == INITIAL
    else
      var n := |steps| - 1;
      exists before :: Reaches(ca, cb, bc, steps[..n], before)
        && CanStep(bc, before, steps[n]) && net == Next(ca, cb, bc, before, steps[n])
  }

  // ---------------------------------------------------------------- the two directions

  function Segs(ps: seq<Packet>): seq<Packet> {
    if ps == [] then [] else (if ps[0].XferSeg? then [ps[0]] else []) + Segs(ps[1..])
  }

  function Feedback(ps: seq<Packet>): seq<Packet> {
    if ps == [] then [] else (if IsFeedback(ps[0]) then [ps[0]] else []) + Feedback(ps[1..])
  }

  lemma {:induction false} SegsAppend(p: seq<Packet>, q: seq<Packet>)
    ensures Segs(p + q) == Segs(p) + Segs(q)
  {
    if p == [] {
      assert p + q == q;
    } else {
      var head := if p[0].XferSeg? then [p[0]] else [];
      assert (p + q)[1..] == p[1..] + q && (p + q)[0] == p[0];
      assert Segs(p + q) == head + Segs(p[1..] + q) && Segs(p) == head + Segs(p[1..]);
      hide Segs;
      SegsAppend(p[1..], q);
      assert head + (Segs(p[1..]) + Segs(q)) == head + Segs(p[1..]) + Segs(q);
    }
  }

  lemma {:induction false} FeedbackAppend(p: seq<Packet>, q: seq<Packet>)
    ensures Feedback(p + q) == Feedback(p) + Feedback(q)
  {
    if p == [] {
      assert p + q == q;
    } else {
      var head := if IsFeedback(p[0]) then [p[0]] else [];
      assert (p + q)[1..] == p[1..] + q && (p + q)[0] == p[0];
      assert Feedback(p + q) == head + Feedback(p[1..] + q) && Feedback(p) == head + Feedback(p[1..]);
      hide Feedback;
      FeedbackAppend(p[1..], q);
      assert head + (Feedback(p[1..]) + Feedback(q)) == head + Feedback(p[1..]) + Feedback(q);
    }
  }

  predicate AllFeedback(ps: seq<Packet>) {
    forall i :: 0 <= i < |ps| ==> IsFeedback(ps[i])
  }

  predicate AllControl(ps: seq<Packet>) {
    forall i :: 0 <= i < |ps| ==> ps[i].KeepAlive? || ps[i].SessTerm?
  }

  lemma {:induction false} FilterPure(ps: seq<Packet>)
    ensures AllSegments(ps) ==> Segs(ps) == ps && Feedback(ps) == []
    ensures AllFeedback(ps) ==> Segs(ps) == [] && Feedback(ps) == ps
    ensures AllControl(ps) ==> Segs(ps) == [] && Feedback(ps) == []
  {
    if ps != [] {
      FilterPure(ps[1..]);
      assert ps == [ps[0]] + ps[1..];
    }
  }

  /** What packets of one kind add to the two filtered views of a channel. */
  lemma Appended(q: seq<Packet>, ps: seq<Packet>)
    requires AllSegments(ps) || AllFeedback(ps) || AllControl(ps)
    ensures Known(q) ==> Known(q + ps)
    ensures AllSegments(ps) ==> Segs(q + ps) == Segs(q) + ps && Feedback(q + ps) == Feedback(q)
    ensures AllFeedback(ps) ==> Segs(q + ps) == Segs(q) && Feedback(q + ps) == Feedback(q) + ps
    ensures AllControl(ps) ==> Segs(q + ps) == Segs(q) && Feedback(q + ps) == Feedback(q)
  {
    FilterPure(ps);
    SegsAppend(q, ps);
    FeedbackAppend(q, ps);
    hide Segs, Feedback;
    assert Segs(q) + [] == Segs(q) && Feedback(q) + [] == Feedback(q);
  }

  /** The views of a channel whose first packet is taken. */
  lemma Taken(q: seq<Packet>)
    requires q != [] && Known(q)
    ensures Known(q[1..])
    ensures q[0].XferSeg? ==> Segs(q) == [q[0]] + Segs(q[1..]) && Feedback(q) == Feedback(q[1..])
    ensures IsFeedback(q[0]) ==> Segs(q) == Segs(q[1..]) && Feedback(q) == [q[0]] + Feedback(q[1..])
    ensures q[0].KeepAlive? || q[0].SessTerm? ==> Segs(q) == Segs(q[1..]) && Feedback(q) == Feedback(q[1..])
  {
  }

  function LinkOf(x: Node, y: Node, xy: seq<Packet>, yx: seq<Packet>): Link {
    Link(x.session.send, x.session.lastTid, x.jobs, x.replies, Segs(xy), y.session.recv, y.events, Feedback(yx))
  }

  ghost predicate Known(ps: seq<Packet>) {
    forall i :: 0 <= i < |ps| ==> ps[i].XferSeg? || IsFeedback(ps[i]) || ps[i].KeepAlive? || ps[i].SessTerm?
  }

  ghost predicate NetInv(ca: Config, cb: Config, bc: BundleCodec, net: Net)
    requires ca.Valid() && cb.Valid()
  {
    && !net.a.failed && !net.b.failed && Known(net.ab) && Known(net.ba)
    && Inv(ca, bc, LinkOf(net.a, net.b, net.ab, net.ba))
    && Inv(cb, bc, LinkOf(net.b, net.a, net.ba, net.ab))
  }

  /** What one node's action leaves of the two directions. */
  ghost predicate SideInv(cx: Config, cy: Config, bc: BundleCodec, x: Node, y: Node, xy: seq<Packet>, yx: seq<Packet>)
    requires cx.Valid() && cy.Valid()
  {
    && !x.failed && Known(xy) && Known(yx)
    && Inv(cx, bc, LinkOf(x, y, xy, yx)) && Inv(cy, bc, LinkOf(y, x, yx, xy))
  }

  lemma SegmentEmissions(cfg: Config, bc: BundleCodec, known: seq<Byte> -> bool, state: RecvState, seg: Packet)
    requires seg.XferSeg?
    ensures var r := OnSegment(cfg, bc, known, state, seg);
      r.Ok? ==> r.effects.replies == [] && AllFeedback(r.effects.packets)
  {
  }

  lemma SendEmissions(cfg: Config, tid: nat, job: Job, listening: bool)
    requires cfg.Valid()
    ensures var r := SendBundle(cfg, tid, job, listening);
      r.Ok? ==> AllSegments(r.effects.packets) && r.effects.parsed == []
  {
    if job.data != [] {
      SegmentsShape(job.data, cfg.segmentMru, tid, !cfg.refuseExisting);
    }
  }

  /** Taking a bundle is a step of the outgoing direction. */
  lemma JobStep(cx: Config, bc: BundleCodec, x: Node, y: Node, xy: seq<Packet>, yx: seq<Packet>, job: Job)
    requires cx.Valid() && Submit(cx, bc, LinkOf(x, y, xy, yx), job).Ok?
    ensures var (x', xy') := AfterJob(cx, bc, x, xy, job, true);
      && LinkOf(x', y, xy', yx) == Submit(cx, bc, LinkOf(x, y, xy, yx), job).state
      && LinkOf(y, x', yx, xy') == LinkOf(y, x, yx, xy)
      && x'.failed == x.failed && (Known(xy) ==> Known(xy'))
  {
    hide OnJob, Segs, Feedback, Known, TooLarge, AllSegments;
    JobEmissions(cx, bc, x.session, job);
    Appended(xy, OnJob(cx, bc, x.session, job, true).effects.packets);
  }

  lemma JobEmissions(cx: Config, bc: BundleCodec, s: Session, job: Job)
    requires cx.Valid()
    ensures var r := OnJob(cx, bc, s, job, true);
      var idle := OnJob(cx, bc, Session(RecvIdle, s.send, s.lastTid), job, true);
      if r.Ok? then
        && AllSegments(r.effects.packets) && r.effects.parsed == [] && r.state.recv == s.recv
        && idle == Ok(r.state.(recv := RecvIdle), r.effects)
      else idle == Error
  {
    if !TooLarge(cx, job) {
      SendEmissions(cx, s.lastTid + 1, job, true);
    }
    hide SendBundle;
  }

  lemma JobKeeps(cx: Config, cy: Config, bc: BundleCodec, x: Node, y: Node, xy: seq<Packet>, yx: seq<Packet>, job: Job)
    requires cx.Valid() && cy.Valid() && SideInv(cx, cy, bc, x, y, xy, yx)
    requires x.session.send.SendIdle? && bc.decodes(job.data) && job.data != []
    ensures var (x', xy') := AfterJob(cx, bc, x, xy, job, true); SideInv(cx, cy, bc, x', y, xy', yx)
  {
    hide Inv, Submit, AfterJob;
    SubmitKeeps(cx, bc, LinkOf(x, y, xy, yx), job);
    JobStep(cx, bc, x, y, xy, yx, job);
  }

  /** Without a requester waiting, only the result for an oversized bundle is lost. */
  lemma UnheardJob(cx: Config, bc: BundleCodec, x: Node, out: seq<Packet>, job: Job)
    requires cx.Valid() && x.session.send.SendIdle? && job.data != []
    ensures AfterJob(cx, bc, x, out, job, false)
      == if TooLarge(cx, job) then (x, out) else AfterJob(cx, bc, x, out, job, true)
  {
    assert x.replies + [] == x.replies && out + [] == out;
  }

  /** A packet that does not end the session for want of a requester is handled as if there were one. */
  lemma UnheardPacket(cx: Config, bc: BundleCodec, x: Node, out: seq<Packet>, p: Packet, env: Surroundings, answer: bool)
    requires cx.Valid() && !Abandons(cx, bc, x, p, env)
    ensures AfterPacket(cx, bc, x, out, p, env, answer)
      == AfterPacket(cx, bc, x, out, p, env.(listening := true), answer)
  {
    hide OnSegment, Segments;
  }

  /** Receiving a segment is a step of the incoming direction. */
  lemma SegmentStep(cx: Config, bc: BundleCodec, x: Node, y: Node, xy: seq<Packet>, yx: seq<Packet>,
                    env: Surroundings, answer: bool)
    requires cx.Valid() && Known(yx) && yx != [] && yx[0].XferSeg?
    requires var l := LinkOf(y, x, yx, xy); l.segs != [] && l.segs[0] == yx[0] && Deliver(cx, bc, env.known, l).Ok?
    ensures var (x', xy') := AfterPacket(cx, bc, x, xy, yx[0], env, answer);
      && LinkOf(y, x', yx[1..], xy') == Deliver(cx, bc, env.known, LinkOf(y, x, yx, xy)).state
      && LinkOf(x', y, xy', yx[1..]) == LinkOf(x, y, xy, yx)
      && x'.failed == x.failed && (Known(xy) ==> Known(xy'))
  {
    SegmentEmissions(cx, bc, env.known, x.session.recv, yx[0]);
    Taken(yx);
    hide OnSegment, Segs, Feedback, Known, EventOf;
    Appended(xy, OnSegment(cx, bc, env.known, x.session.recv, yx[0]).effects.packets);
    assert x.replies + [] == x.replies;
  }

  lemma SegmentKeeps(cx: Config, cy: Config, bc: BundleCodec, x: Node, y: Node, xy: seq<Packet>, yx: seq<Packet>,
                     env: Surroundings, answer: bool)
    requires Matching(cx, cy) && SideInv(cx, cy, bc, x, y, xy, yx) && yx != [] && yx[0].XferSeg?
    ensures var (x', xy') := AfterPacket(cx, bc, x, xy, yx[0], env, answer); SideInv(cx, cy, bc, x', y, xy', yx[1..])
  {
    Taken(yx);
    hide Inv, Deliver, AfterPacket, Known;
    var l := LinkOf(y, x, yx, xy);
    assert l.segs[0] == yx[0];
    DeliverKeeps(cy, cx, bc, env.known, l);
    SegmentStep(cx, bc, x, y, xy, yx, env, answer);
  }

  /** Receiving an ack or a refusal is a step of the outgoing direction. */
  lemma FeedbackStep(cx: Config, bc: BundleCodec, x: Node, y: Node, xy: seq<Packet>, yx: seq<Packet>,
                     env: Surroundings, answer: bool)
    requires cx.Valid() && Known(yx) && yx != [] && IsFeedback(yx[0]) && env.listening
    requires var l := LinkOf(x, y, xy, yx); l.feedback != [] && l.feedback[0] == yx[0] && Return(cx, l).Ok?
    ensures var (x', xy') := AfterPacket(cx, bc, x, xy, yx[0], env, answer);
      && LinkOf(x', y, xy', yx[1..]) == Return(cx, LinkOf(x, y, xy, yx)).state
      && LinkOf(y, x', yx[1..], xy') == LinkOf(y, x, yx, xy)
      && x'.failed == x.failed && (Known(xy) ==> Known(xy'))
  {
    Taken(yx);
    var send := x.session.send;
    if send.TransferRequest? {
      SendEmissions(cx, x.session.lastTid, Job(send.data, send.token), true);
    }
    hide SendBundle, Segs, Feedback, Known;
    var e := OnPacket(cx, bc, env, x.session, yx[0]).effects;
    assert AllSegments(e.packets);
    Appended(xy, e.packets);
    assert x.events + [] == x.events;
  }

  lemma FeedbackKeeps(cx: Config, cy: Config, bc: BundleCodec, x: Node, y: Node, xy: seq<Packet>, yx: seq<Packet>,
                      env: Surroundings, answer: bool)
    requires Matching(cx, cy) && SideInv(cx, cy, bc, x, y, xy, yx) && yx != [] && IsFeedback(yx[0]) && env.listening
    ensures var (x', xy') := AfterPacket(cx, bc, x, xy, yx[0], env, answer); SideInv(cx, cy, bc, x', y, xy', yx[1..])
  {
    Taken(yx);
    hide Inv, Return, AfterPacket, Known;
    var l := LinkOf(x, y, xy, yx);
    assert l.feedback[0] == yx[0];
    ReturnKeeps(cx, bc, l);
    FeedbackStep(cx, bc, x, y, xy, yx, env, answer);
  }

  /** Keepalives and the end of the session touch neither direction. */
  lemma ControlKeeps(cx: Config, cy: Config, bc: BundleCodec, x: Node, y: Node, xy: seq<Packet>, yx: seq<Packet>,
                     x': Node, more: seq<Packet>)
    requires cx.Valid() && cy.Valid() && SideInv(cx, cy, bc, x, y, xy, yx)
    requires x' == x.(live := x'.live) && AllControl(more)
    ensures SideInv(cx, cy, bc, x', y, xy + more, yx)
    ensures yx != [] && (yx[0].KeepAlive? || yx[0].SessTerm?) ==> SideInv(cx, cy, bc, x', y, xy + more, yx[1..])
  {
    if yx != [] {
      Taken(yx);
    }
    hide Inv, Known, Segs, Feedback;
    Appended(xy, more);
    assert LinkOf(x', y, xy + more, yx) == LinkOf(x, y, xy, yx);
    assert LinkOf(y, x', yx, xy + more) == LinkOf(y, x, yx, xy);
  }

  lemma ActKeeps(cx: Config, cy: Config, bc: BundleCodec, x: Node, y: Node, xy: seq<Packet>, yx: seq<Packet>,
                 action: Action)
    requires Matching(cx, cy) && SideInv(cx, cy, bc, x, y, xy, yx) && !bc.decodes([])
    requires Enabled(bc, x, yx, action)
    ensures var (x', xy', yx') := Act(cx, bc, x, xy, yx, action); SideInv(cx, cy, bc, x', y, xy', yx')
  {
    assert Known(yx);
    hide Inv, SideInv, OnSegment, OnPacket, AfterPacket, AfterJob;
    match action
    case SendJob(job, listening) =>
      JobKeeps(cx, cy, bc, x, y, xy, yx, job);
      UnheardJob(cx, bc, x, xy, job);
    case Handle(given, answer) =>
      var p, env := yx[0], given.(listening := true);
      if Abandons(cx, bc, x, p, given) {
        assert xy + [] == xy;
        ControlKeeps(cx, cy, bc, x, y, xy, yx, x.(live := false), []);
        return;
      }
      UnheardPacket(cx, bc, x, xy, p, given, answer);
      assert p.XferSeg? || IsFeedback(p) || p.KeepAlive? || p.SessTerm?;
      if p.XferSeg? {
        SegmentKeeps(cx, cy, bc, x, y, xy, yx, env, answer);
      } else if IsFeedback(p) {
        FeedbackKeeps(cx, cy, bc, x, y, xy, yx, env, answer);
      } else if p.KeepAlive? {
        assert xy + [] == xy;
        ControlKeeps(cx, cy, bc, x, y, xy, yx, x, if answer then [KeepAlive] else []);
      } else {
        ControlKeeps(cx, cy, bc, x, y, xy, yx, x.(live := false), if p.reply then [] else [SessTerm(true, p.termReason)]);
      }
    case Tick => ControlKeeps(cx, cy, bc, x, y, xy, yx, x, [KeepAlive]);
    case Close => ControlKeeps(cx, cy, bc, x, y, xy, yx, x.(live := false), [SessTerm(false, TermUnknown)]);
  }

  lemma {:induction false} ReachableInv(ca: Config, cb: Config, bc: BundleCodec, steps: seq<Step>, net: Net)
    requires Matching(ca, cb) && !bc.decodes([]) && Reaches(ca, cb, bc, steps, net)
    ensures NetInv(ca, cb, bc, net)
    decreases |steps|
  {
    if steps == [] {
      StartInv(ca, bc);
      StartInv(cb, bc);
    } else {
      var n := |steps| - 1;
      var before :| Reaches(ca, cb, bc, steps[..n], before)
        && CanStep(bc, before, steps[n]) && net == Next(ca, cb, bc, before, steps[n]);
      ReachableInv(ca, cb, bc, steps[..n], before);
      hide Inv, Act;
      if steps[n].byA {
        ActKeeps(ca, cb, bc, before.a, before.b, before.ab, before.ba, steps[n].action);
      } else {
        ActKeeps(cb, ca, bc, before.b, before.a, before.ba, before.ab, steps[n].action);
      }
    }
  }

  // ---------------------------------------------------------------- what it means

  /** The history of a sender and its receiver: every transfer the receiver is done with was, in order, rebuilt
      byte for byte or refused because its bundle was known, and every transfer reported as successful is one of
      these. */
  ghost predicate Faithful(bc: BundleCodec, x: Node, y: Node) {
    && |y.events| <= |x.jobs|
    && (forall i :: 0 <= i < |y.events| ==> Matches(bc, y.events[i], x.jobs[i]))
    && exists m :: 0 <= m <= |y.events| && Successes(x.replies) == Tokens(x.jobs[..m])
  }

  lemma InvFaithful(cx: Config, bc: BundleCodec, x: Node, y: Node, xy: seq<Packet>, yx: seq<Packet>)
    requires cx.Valid() && Inv(cx, bc, LinkOf(x, y, xy, yx))
    ensures Faithful(bc, x, y)
  {
    var m := Resolved(LinkOf(x, y, xy, yx));
    assert m <= |y.events|;
    assert Successes(x.replies) == Tokens(x.jobs[..m]);
  }

  /** Safety of the two-party protocol: whatever both nodes send, whenever either closes and whether or not requesters
      wait for results, with any mix of asking first and any knowledge of the stores, no node meets a protocol error, bundles arrive in order without
      loss or duplication and success is only reported for bundles that arrived or were known. */
  lemma TwoPartySafety(ca: Config, cb: Config, bc: BundleCodec, steps: seq<Step>, net: Net)
    requires Matching(ca, cb) && !bc.decodes([]) && Reaches(ca, cb, bc, steps, net)
    ensures !net.a.failed && !net.b.failed
    ensures Faithful(bc, net.a, net.b) && Faithful(bc, net.b, net.a)
  {
    ReachableInv(ca, cb, bc, steps, net);
    hide Inv, Faithful;
    InvFaithful(ca, bc, net.a, net.b, net.ab, net.ba);
    InvFaithful(cb, bc, net.b, net.a, net.ba, net.ab);
  }

  // ---------------------------------------------------------------- on the wire

  /** The size limits of the wire format on a configuration and a history. */
  ghost predicate InRange(cx: Config, bc: BundleCodec, x: Node) {
    && cx.segmentMru <= SEGMENT_MRU && cx.remoteTransferMru < Pow256(8) && |x.jobs| < Pow256(8)
    && forall i :: 0 <= i < |x.jobs| ==> |bc.idOf(x.jobs[i].data)| < Pow256(2)
  }

  lemma RequestWellFormed(tid: nat, id: seq<Byte>)
    requires tid < Pow256(8) && |id| < Pow256(2)
    ensures WellFormed(Request(tid, id))
  {
    Widths();
    var items := [ExtItem(false, BundleID, id)];
    assert ItemsSize(items[1..]) == 0;
    assert ItemsSize(items) == MIN_ITEM_SIZE + |id|;
  }

  lemma SegmentsWellFormed(data: seq<Byte>, size: nat, tid: nat, start: bool)
    requires 0 < size <= SEGMENT_MRU && tid < Pow256(8) && data != []
    ensures forall i :: 0 <= i < |Segments(data, size, tid, start)| ==> WellFormed(Segments(data, size, tid, start)[i])
  {
    SegmentsShape(data, size, tid, start);
    Widths();
    hide Pow256, Segments;
    assert ItemsSize([]) == 0;
  }

  /** The segments under way are the request or those of the data not received yet. */
  lemma LinkWellFormed(cx: Config, bc: BundleCodec, l: Link)
    requires cx.Valid() && Inv(cx, bc, l)
    requires cx.segmentMru <= SEGMENT_MRU && cx.remoteTransferMru < Pow256(8) && |l.jobs| < Pow256(8)
    requires forall i :: 0 <= i < |l.jobs| ==> |bc.idOf(l.jobs[i].data)| < Pow256(2)
    ensures forall i :: 0 <= i < |l.segs| ==> WellFormed(l.segs[i])
    ensures forall i :: 0 <= i < |l.feedback| ==> WellFormed(l.feedback[i])
  {
    LinkFeedback(cx, bc, l);
    hide Pow256, WellFormed, Request, Segments, Successes, Tokens, Resolved, NoneFinal, AcksUpTo;
    if l.send.TransferRequest? {
      RequestWellFormed(l.lastTid, bc.idOf(l.jobs[|l.jobs| - 1].data));
    } else if l.send.Sending? {
      var job := l.jobs[|l.jobs| - 1];
      if !AllSent(l, |job.data|) {
        var got, rest :| job.data == got + rest && InTransfer(cx, l, got, rest);
        SegmentsWellFormed(rest, cx.segmentMru, l.lastTid, !cx.refuseExisting && got == []);
      }
    }
  }

  lemma LinkFeedback(cx: Config, bc: BundleCodec, l: Link)
    requires cx.Valid() && Inv(cx, bc, l) && cx.remoteTransferMru < Pow256(8) && |l.jobs| < Pow256(8)
    ensures forall i :: 0 <= i < |l.feedback| ==> WellFormed(l.feedback[i])
  {
    assert 0 < Pow256(8) by { Widths(); }
    hide Pow256, Segments, Successes, Tokens, Resolved, NoneFinal, Request, InTransfer, AllSent;
    if l.send.Sending? {
      assert JobOk(cx, bc, l.jobs[|l.jobs| - 1]);
    }
  }

  lemma {:induction false} InViews(ps: seq<Packet>, p: Packet)
    requires p in ps
    ensures p.XferSeg? ==> p in Segs(ps)
    ensures IsFeedback(p) ==> p in Feedback(ps)
  {
    if p != ps[0] {
      InViews(ps[1..], p);
    }
  }

  /** Everything in flight from `x` to `y` is a well-formed packet, so the bytes on the wire parse back to it. */
  lemma OnTheWire(cx: Config, cy: Config, bc: BundleCodec, x: Node, y: Node, xy: seq<Packet>, yx: seq<Packet>)
    requires cx.Valid() && cy.Valid() && SideInv(cx, cy, bc, x, y, xy, yx) && InRange(cx, bc, x) && InRange(cy, bc, y)
    ensures TcpclCodec.ParseMany(TcpclCodec.EncodeAll(xy), |xy|) == TcpclCodec.Ok(xy, [])
  {
    LinkWellFormed(cx, bc, LinkOf(x, y, xy, yx));
    LinkWellFormed(cy, bc, LinkOf(y, x, yx, xy));
    forall i | 0 <= i < |xy| ensures WellFormed(xy[i]) {
      InViews(xy, xy[i]);
      assert Known(xy);
    }
    TcpclCodec.StreamRoundTrip(xy, []);
    assert TcpclCodec.EncodeAll(xy) + [] == TcpclCodec.EncodeAll(xy);
  }

  /** In every reachable state both byte streams parse back to the packets the protocol runs on. */
  lemma WireFaithful(ca: Config, cb: Config, bc: BundleCodec, steps: seq<Step>, net: Net)
    requires Matching(ca, cb) && !bc.decodes([]) && Reaches(ca, cb, bc, steps, net)
    requires InRange(ca, bc, net.a) && InRange(cb, bc, net.b)
    ensures TcpclCodec.ParseMany(TcpclCodec.EncodeAll(net.ab), |net.ab|) == TcpclCodec.Ok(net.ab, [])
    ensures TcpclCodec.ParseMany(TcpclCodec.EncodeAll(net.ba), |net.ba|) == TcpclCodec.Ok(net.ba, [])
  {
    ReachableInv(ca, cb, bc, steps, net);
    hide Inv, InRange;
    OnTheWire(ca, cb, bc, net.a, net.b, net.ab, net.ba);
    OnTheWire(cb, ca, bc, net.b, net.a, net.ba, net.ab);
  }
}
