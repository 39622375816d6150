/** A whole session against an arbitrary peer: what of the packets it handles and the bundles it takes matters to the
    receive machine. */
module TcpclPeer {
  import opened Bytes
  import opened TcpclPacket
  import opened TcpclSession
  import opened TcpclReceiver
  import TcpclDuplex

  /** What the loop of a session takes in: a packet of the peer, or a bundle from the queue. */
  datatype Input = Incoming(packet: Packet, env: Surroundings) | Take(job: Job, listening: bool)

  /** The parser gives segments the length of their data. */
  predicate Parsed(input: Input) {
    input.Incoming? && input.packet.XferSeg? ==> input.packet.len == |input.packet.buf|
  }

  /** One turn of the loop; bundles are only taken when no transfer is under way. */
  function Turn(cfg: Config, bc: BundleCodec, s: Session, input: Input): Outcome<Session>
    requires cfg.Valid()
  {
    match input
    case Incoming(p, env) => if p.KeepAlive? then Ok(s, NONE) else OnPacket(cfg, bc, env, s, p)
    case Take(job, listening) => if s.send.SendIdle? then OnJob(cfg, bc, s, job, listening) else Ok(s, NONE)
  }

  /** The session over a sequence of inputs; once terminated it takes no more. */
  ghost function RunSession(cfg: Config, bc: BundleCodec, inputs: seq<Input>): Outcome<Session>
    requires cfg.Valid()
    decreases |inputs|
  {
    if inputs == [] then Ok(FRESH, NONE)
    else
      var n := |inputs| - 1;
      match RunSession(cfg, bc, inputs[..n])
      case Error => Error
      case Ok(s, e) =>
        if Terminated(s) then Ok(s, e)
        else
          match Turn(cfg, bc, s, inputs[n])
          case Error => Error
          case Ok(s', e') => Ok(s', e.Then(e'))
  }

  predicate Over(inputs: seq<Input>) {
    exists i :: 0 <= i < |inputs| && inputs[i].Incoming? && inputs[i].packet.SessTerm?
  }

  function ArrivalOf(p: Packet, env: Surroundings): Arrival
    requires p.XferSeg?
  {
    Arrival(p.flags, p.tid, p.buf, p.extensions, env.known)
  }

  /** The segments before the end of the session. */
  ghost function Heard(inputs: seq<Input>): seq<Arrival> {
    if inputs == [] then []
    else
      var n := |inputs| - 1;
      var last := inputs[n];
      Heard(inputs[..n])
      + (if !Over(inputs[..n]) && last.Incoming? && last.packet.XferSeg? then [ArrivalOf(last.packet, last.env)] else [])
  }

  /** What a turn without a segment leaves of the receive machine: everything, or nothing if it ends the session. */
  lemma OtherTurn(cfg: Config, bc: BundleCodec, s: Session, input: Input)
    requires cfg.Valid() && !Terminated(s) && Turn(cfg, bc, s, input).Ok?
    requires input.Incoming? ==> !input.packet.XferSeg?
    ensures var r := Turn(cfg, bc, s, input);
      && r.effects.parsed == [] && TcpclDuplex.Feedback(r.effects.packets) == []
      && (if input.Incoming? && input.packet.SessTerm? then r.state.recv.RecvTerminated?
          else !Terminated(r.state) && r.state.recv == s.recv)
  {
    var r := Turn(cfg, bc, s, input);
    SendTurn(cfg, bc, s, input);
    TcpclDuplex.FilterPure(r.effects.packets);
  }

  /** Acks, refusals and new bundles only write segments. */
  lemma SendTurn(cfg: Config, bc: BundleCodec, s: Session, input: Input)
    requires cfg.Valid() && !Terminated(s) && Turn(cfg, bc, s, input).Ok?
    requires input.Incoming? ==> !input.packet.XferSeg?
    ensures var r := Turn(cfg, bc, s, input);
      if input.Incoming? && (input.packet.SessTerm? || input.packet.KeepAlive?)
      then TcpclDuplex.AllControl(r.effects.packets)
      else AllSegments(r.effects.packets) && r.effects.parsed == [] && !Terminated(r.state) && r.state.recv == s.recv
  {
    match input {
      case Incoming(p, env) =>
        if p.XferAck? && s.send.TransferRequest? {
          TcpclDuplex.SendEmissions(cfg, s.lastTid, Job(s.send.data, s.send.token), env.listening);
        }
      case Take(job, listening) =>
        TcpclDuplex.SendEmissions(cfg, s.lastTid + 1, job, listening);
    }
    hide Segments;
  }

  lemma SegmentTurn(cfg: Config, bc: BundleCodec, s: Session, p: Packet, env: Surroundings)
    requires cfg.Valid() && !Terminated(s) && p.XferSeg? && p.len == |p.buf|
    requires Turn(cfg, bc, s, Incoming(p, env)).Ok?
    ensures var r, a := Turn(cfg, bc, s, Incoming(p, env)), ArrivalOf(p, env);
      && OnSegment(cfg, bc, a.known, s.recv, a.Seg()) == Ok(r.state.recv, r.effects)
      && TcpclDuplex.Feedback(r.effects.packets) == r.effects.packets && !Terminated(r.state)
  {
    assert ArrivalOf(p, env).Seg() == p;
    TcpclDuplex.SegmentEmissions(cfg, bc, env.known, s.recv, p);
    TcpclDuplex.FilterPure(Turn(cfg, bc, s, Incoming(p, env)).effects.packets);
  }

  /** A session's run is that of its receive machine over the segments it hears; acks, refusals and everything its own
      transfers do leave the receive machine alone, and SESS_TERM ends both. */
  lemma {:induction false} SessionProjects(cfg: Config, bc: BundleCodec, inputs: seq<Input>)
    requires cfg.Valid() && RunSession(cfg, bc, inputs).Ok?
    requires forall i :: 0 <= i < |inputs| ==> Parsed(inputs[i])
    ensures var r, h := RunSession(cfg, bc, inputs), Run(cfg, bc, Heard(inputs));
      && h.Ok? && r.effects.parsed == h.effects.parsed
      && TcpclDuplex.Feedback(r.effects.packets) == h.effects.packets
      && (if Over(inputs) then r.state.recv.RecvTerminated? else !Terminated(r.state) && r.state.recv == h.state)
    decreases |inputs|
  {
    hide Turn, OnSegment;
    if inputs == [] {
      assert TcpclDuplex.Feedback([]) == [];
    } else {
      var n := |inputs| - 1;
      var init, last := inputs[..n], inputs[n];
      SessionProjects(cfg, bc, init);
      OverSnoc(inputs);
      var s, e := RunSession(cfg, bc, init).state, RunSession(cfg, bc, init).effects;
      if Over(init) {
        assert Heard(inputs) == Heard(init);
      } else {
        var t := Turn(cfg, bc, s, last);
        TcpclDuplex.FeedbackAppend(e.packets, t.effects.packets);
        if last.Incoming? && last.packet.XferSeg? {
          SegmentTurn(cfg, bc, s, last.packet, last.env);
          RunSnoc(cfg, bc, Heard(init), ArrivalOf(last.packet, last.env));
        } else {
          OtherTurn(cfg, bc, s, last);
          assert Heard(inputs) == Heard(init);
        }
      }
    }
  }

  lemma OverSnoc(inputs: seq<Input>)
    requires inputs != []
    ensures var n := |inputs| - 1;
      Over(inputs) <==> Over(inputs[..n]) || (inputs[n].Incoming? && inputs[n].packet.SessTerm?)
  {
    var n := |inputs| - 1;
    if Over(inputs[..n]) {
      var i :| 0 <= i < n && inputs[..n][i].Incoming? && inputs[..n][i].packet.SessTerm?;
      assert inputs[i] == inputs[..n][i];
    }
    if Over(inputs) {
      var i :| 0 <= i < |inputs| && inputs[i].Incoming? && inputs[i].packet.SessTerm?;
      assert i < n ==> inputs[..n][i] == inputs[i];
    }
  }

  /** Against an arbitrary peer, whatever else it sends and whatever the session sends itself: the acks and refusals
      written and the strings handed to parsing are those of a division of the heard segments into transfers. */
  lemma SessionRefinement(cfg: Config, bc: BundleCodec, inputs: seq<Input>)
    requires cfg.Valid() && RunSession(cfg, bc, inputs).Ok?
    requires forall i :: 0 <= i < |inputs| ==> Parsed(inputs[i])
    ensures var r := RunSession(cfg, bc, inputs);
      && (exists groups, open :: Parses(cfg, Heard(inputs), groups, open)
            && r.effects.parsed == Strings(groups)
            && TcpclDuplex.Feedback(r.effects.packets) == EffectsOf(cfg, bc, groups, open).packets)
      && (forall i :: 0 <= i < |r.effects.parsed| ==> |r.effects.parsed[i]| <= cfg.localTransferMru)
      && (r.state.recv.Receiving? ==> |r.state.recv.buffer| <= cfg.localTransferMru)
  {
    SessionProjects(cfg, bc, inputs);
    hide RunSession, Heard, Run;
    HandedToParsing(cfg, bc, Heard(inputs));
    var groups, open := Divided(cfg, bc, Heard(inputs));
  }

  // ---------------------------------------------------------------- the end of a session

  /** The SESS_TERMs among some packets. */
  function Terms(ps: seq<Packet>): seq<Packet> {
    if ps == [] then [] else (if ps[0].SessTerm? then [ps[0]] else []) + Terms(ps[1..])
  }

  lemma {:induction false} TermsAppend(p: seq<Packet>, q: seq<Packet>)
    ensures Terms(p + q) == Terms(p) + Terms(q)
  {
    if p == [] {
      assert p + q == q;
    } else {
      var head := if p[0].SessTerm? then [p[0]] else [];
      assert (p + q)[1..] == p[1..] + q && (p + q)[0] == p[0];
      assert Terms(p + q) == head + Terms(p[1..] + q) && Terms(p) == head + Terms(p[1..]);
      hide Terms;
      TermsAppend(p[1..], q);
      assert head + (Terms(p[1..]) + Terms(q)) == head + Terms(p[1..]) + Terms(q);
    }
  }

  lemma {:induction false} NoTerms(ps: seq<Packet>)
    requires forall i :: 0 <= i < |ps| ==> !ps[i].SessTerm?
    ensures Terms(ps) == []
  {
    if ps != [] {
      NoTerms(ps[1..]);
    }
  }

  /** One turn writes a SESS_TERM only to answer one that is no reply, with its reason. */
  lemma TurnTerms(cfg: Config, bc: BundleCodec, s: Session, input: Input)
    requires cfg.Valid() && !Terminated(s) && Parsed(input) && Turn(cfg, bc, s, input).Ok?
    ensures Terms(Turn(cfg, bc, s, input).effects.packets) ==
      if input.Incoming? && input.packet.SessTerm? && !input.packet.reply
      then [SessTerm(true, input.packet.termReason)] else []
  {
    var ps := Turn(cfg, bc, s, input).effects.packets;
    if input.Incoming? && input.packet.SessTerm? {
      assert Turn(cfg, bc, s, input).effects
        == Writes(if input.packet.reply then [] else [SessTerm(true, input.packet.termReason)]);
      if !input.packet.reply {
        assert ps[1..] == [];
      }
    } else if input.Incoming? && input.packet.XferSeg? {
      TcpclDuplex.SegmentEmissions(cfg, bc, input.env.known, s.recv, input.packet);
      NoTerms(ps);
    } else if input.Incoming? && input.packet.KeepAlive? {
      NoTerms(ps);
    } else {
      SendTurn(cfg, bc, s, input);
      NoTerms(ps);
    }
  }

  /** What the last input adds to the SESS_TERMs written. */
  lemma TermsSnoc(cfg: Config, bc: BundleCodec, inputs: seq<Input>)
    requires inputs != [] && cfg.Valid() && RunSession(cfg, bc, inputs).Ok?
    requires forall i :: 0 <= i < |inputs| ==> Parsed(inputs[i])
    ensures var n := |inputs| - 1;
      var last := inputs[n];
      && RunSession(cfg, bc, inputs[..n]).Ok?
      && Terms(RunSession(cfg, bc, inputs).effects.packets) == Terms(RunSession(cfg, bc, inputs[..n]).effects.packets)
         + if !Over(inputs[..n]) && last.Incoming? && last.packet.SessTerm? && !last.packet.reply
           then [SessTerm(true, last.packet.termReason)] else []
  {
    hide Turn, Terminated, Over, Terms;
    var n := |inputs| - 1;
    var init, last := inputs[..n], inputs[n];
    SessionProjects(cfg, bc, init);
    var s, e := RunSession(cfg, bc, init).state, RunSession(cfg, bc, init).effects;
    EndedByRecv(s);
    if !Over(init) {
      TurnTerms(cfg, bc, s, last);
      TermsAppend(e.packets, Turn(cfg, bc, s, last).effects.packets);
    }
  }

  /** The `i`-th input is the SESS_TERM that ends the session. */
  predicate EndsAt(inputs: seq<Input>, i: nat) {
    i < |inputs| && !Over(inputs[..i]) && inputs[i].Incoming? && inputs[i].packet.SessTerm?
  }

  lemma EndsSnoc(inputs: seq<Input>, i: nat)
    requires inputs != [] && EndsAt(inputs, i)
    ensures var n := |inputs| - 1;
      if i == n then !Over(inputs[..n]) else Over(inputs[..n]) && EndsAt(inputs[..n], i) && inputs[i] == inputs[..n][i]
  {
    var n := |inputs| - 1;
    if i < n {
      assert inputs[..n][..i] == inputs[..i] && inputs[..n][i] == inputs[i];
    }
  }

  /** A session writes no SESS_TERM before one ends it, and then exactly one, a reply with the same reason, if that was
      no reply itself, and none otherwise. */
  lemma {:induction false} SessionEnds(cfg: Config, bc: BundleCodec, inputs: seq<Input>)
    requires cfg.Valid() && RunSession(cfg, bc, inputs).Ok?
    requires forall i :: 0 <= i < |inputs| ==> Parsed(inputs[i])
    ensures var terms := Terms(RunSession(cfg, bc, inputs).effects.packets);
      && (!Over(inputs) ==> terms == [])
      && forall i: nat :: EndsAt(inputs, i) ==>
           terms == if inputs[i].packet.reply then [] else [SessTerm(true, inputs[i].packet.termReason)]
    decreases |inputs|
  {
    if inputs == [] {
      assert Terms([]) == [];
    } else {
      var n := |inputs| - 1;
      TermsSnoc(cfg, bc, inputs);
      SessionEnds(cfg, bc, inputs[..n]);
      OverSnoc(inputs);
      forall i: nat | EndsAt(inputs, i) {
        EndsSnoc(inputs, i);
      }
    }
    hide Terms, Over, Turn, Parsed;
  }

  lemma EndedByRecv(s: Session)
    ensures s.recv.RecvTerminated? ==> Terminated(s)
  {}

  // ---------------------------------------------------------------- the sender's side

  /** Which acks and refusals of an arbitrary peer are accepted, and what results they bring: those for the last transfer
      while one is under way. An ack of the full length and a refusal of a request mean success, a refusal while sending
      failure; an ack of a request sets off all the segments. */
  lemma FeedbackExactly(cfg: Config, bc: BundleCodec, s: Session, p: Packet, env: Surroundings)
    requires cfg.Valid() && (p.XferAck? || p.XferRefuse?)
    ensures var r := OnPacket(cfg, bc, env, s, p);
      var asked, sending := s.send.TransferRequest?, s.send.Sending?;
      var done := p.XferRefuse? || (sending && p.len >= s.send.len);
      var empty := asked && !done && s.send.data == [];
      && (r.Ok? <==> p.tid == s.lastTid && (asked || sending) && (done || empty ==> env.listening))
      && (r.Ok? ==> r.state.recv == s.recv && r.state.lastTid == s.lastTid && r.effects.parsed == [])
      && (r.Ok? && done ==>
            r.state.send == SendIdle && r.effects.packets == []
            && r.effects.replies == [Reply(s.send.token, if sending && p.XferRefuse? then Failure else Successful)])
      && (r.Ok? && !done && sending ==> r.state == s && r.effects == NONE)
      && (r.Ok? && empty ==>
            r.state.send == SendIdle && r.effects.packets == [] && r.effects.replies == [Reply(s.send.token, Failure)])
      && (r.Ok? && !done && asked && !empty ==>
            r.state.send == Sending(|s.send.data|, s.send.token) && r.effects.replies == []
            && r.effects.packets == Segments(s.send.data, cfg.segmentMru, s.lastTid, !cfg.refuseExisting))
  {
    hide Segments;
  }

  /** An ack answers the segment it was sent for: its ID, all bytes of the transfer so far, and its flags if it is the
      first one. */
  lemma AckExactly(cfg: Config, bc: BundleCodec, known: seq<Byte> -> bool, state: RecvState, seg: Packet)
    requires seg.XferSeg? && seg.len == |seg.buf| && OnSegment(cfg, bc, known, state, seg).Ok?
    ensures var e := OnSegment(cfg, bc, known, state, seg).effects;
      forall p :: p in e.packets && p.XferAck? ==>
        p == XferAck(if seg.flags.start then seg.flags else SegFlags(false, false), seg.tid,
                     if seg.flags.start then |seg.buf| else |state.buffer| + |seg.buf|)
  {}

  /** What ends a session with an error: a segment that neither starts nor continues a transfer, an ack or refusal that
      is not for the transfer under way or brings a result nobody waits for, any message that has no place in an
      established session, a bundle that does not decode when its ID is asked for. */
  predicate Faulty(cfg: Config, bc: BundleCodec, s: Session, input: Input) {
    match input
    case Incoming(p, env) =>
      (match p
       case SessTerm(_, _) => false
       case KeepAlive => false
       case XferSeg(flags, tid, _, _, _) =>
         s.recv.RecvTerminated?
         || (s.recv.Receiving? && (flags.start || tid != s.recv.tid))
         || ((s.recv.RecvIdle? || (s.recv.Discarding? && tid != s.recv.tid)) && !flags.start)
       case XferAck(_, tid, len) =>
         tid != s.lastTid || s.send.SendIdle? || s.send.SendTerminated?
         || (!env.listening && if s.send.Sending? then len >= s.send.len else s.send.data == [])
       case XferRefuse(_, tid) => tid != s.lastTid || s.send.SendIdle? || s.send.SendTerminated? || !env.listening
       case _ => true)
    case Take(job, listening) =>
      s.send.SendIdle? && |job.data| <= cfg.remoteTransferMru
      && if cfg.refuseExisting then !bc.decodes(job.data) else job.data == [] && !listening
  }

  /** A turn fails exactly then; keepalives, and bundles offered during a transfer, change nothing. */
  lemma ErrorsExactly(cfg: Config, bc: BundleCodec, s: Session, input: Input)
    requires cfg.Valid()
    ensures Turn(cfg, bc, s, input).Error? <==> Faulty(cfg, bc, s, input)
    ensures input.Incoming? && input.packet.KeepAlive? ==> Turn(cfg, bc, s, input) == Ok(s, NONE)
    ensures input.Take? && !s.send.SendIdle? ==> Turn(cfg, bc, s, input) == Ok(s, NONE)
  {
    hide Segments;
  }

  /** What taking a bundle does: one beyond the peer's transfer MRU fails without a message or a transfer ID; another one
      gets the next ID and is announced by a START segment that carries its ID only, or sent at once. */
  lemma JobExactly(cfg: Config, bc: BundleCodec, s: Session, job: Job, listening: bool)
    requires cfg.Valid() && s.send.SendIdle?
    ensures var r := Turn(cfg, bc, s, Take(job, listening));
      var tid := s.lastTid + 1;
      && (|job.data| > cfg.remoteTransferMru ==>
            && r.Ok? && r.state == s && r.effects.packets == []
            && r.effects.replies == if listening then [Reply(job.token, Failure)] else [])
      && (|job.data| <= cfg.remoteTransferMru && cfg.refuseExisting ==>
            if bc.decodes(job.data) then
              r.Ok? && r.state == Session(s.recv, TransferRequest(job.data, job.token), tid) && r.effects.replies == []
              && r.effects.packets
                 == [XferSeg(SegFlags(true, false), tid, 0, [], [ExtItem(false, BundleID, bc.idOf(job.data))])]
            else r.Error?)
      && (|job.data| <= cfg.remoteTransferMru && !cfg.refuseExisting && job.data != [] ==>
            r.Ok? && r.state == Session(s.recv, Sending(|job.data|, job.token), tid) && r.effects.replies == []
            && r.effects.packets == Segments(job.data, cfg.segmentMru, tid, true))
      && (job.data == [] && !cfg.refuseExisting ==>
            if listening then
              r.Ok? && r.state == Session(s.recv, SendIdle, tid) && r.effects.packets == []
              && r.effects.replies == [Reply(job.token, Failure)]
            else r.Error?)
  {
    hide Segments;
  }

  // ---------------------------------------------------------------- closing in the two-party system

  predicate Closed(steps: seq<TcpclDuplex.Step>, byA: bool) {
    exists k :: 0 <= k < |steps| && steps[k].byA == byA && steps[k].action.Close?
  }

  /** A SESS_TERM in flight from a node that closed or answers its peer. */
  ghost predicate TermsOk(steps: seq<TcpclDuplex.Step>, ps: seq<Packet>, byA: bool) {
    forall p :: p in ps && p.SessTerm? ==> Closed(steps, if p.reply then !byA else byA) && p.termReason == TermUnknown
  }

  lemma JobTerms(cx: Config, bc: BundleCodec, x: TcpclDuplex.Node, out: seq<Packet>, incoming: seq<Packet>,
                 job: Job, listening: bool)
    requires cx.Valid() && TcpclDuplex.Enabled(bc, x, incoming, TcpclDuplex.SendJob(job, listening))
    ensures var (_, out') := TcpclDuplex.AfterJob(cx, bc, x, out, job, listening);
      forall p :: p in out' && p.SessTerm? ==> p in out
  {
    if job.data != [] && !TooLarge(cx, job) {
      TcpclDuplex.SendEmissions(cx, x.session.lastTid + 1, job, listening);
    }
    hide Segments;
  }

  lemma PacketTerms(cx: Config, bc: BundleCodec, x: TcpclDuplex.Node, p: Packet, env: Surroundings)
    requires cx.Valid()
    ensures var r := OnPacket(cx, bc, env, x.session, p);
      r.Ok? ==> forall q :: q in r.effects.packets && q.SessTerm? ==> p == SessTerm(false, q.termReason) && q.reply
  {
    if p.XferSeg? {
      TcpclDuplex.SegmentEmissions(cx, bc, env.known, x.session.recv, p);
    } else if p.XferAck? && x.session.send.TransferRequest? {
      TcpclDuplex.SendEmissions(cx, x.session.lastTid, Job(x.session.send.data, x.session.send.token), env.listening);
    }
    hide Segments, OnSegment;
  }

  /** What an action puts on the wire of SESS_TERMs, and what it leaves unread. */
  lemma ActTerms(cx: Config, bc: BundleCodec, x: TcpclDuplex.Node, out: seq<Packet>, incoming: seq<Packet>,
                 action: TcpclDuplex.Action)
    requires cx.Valid() && TcpclDuplex.Enabled(bc, x, incoming, action)
    ensures var (_, out', incoming') := TcpclDuplex.Act(cx, bc, x, out, incoming, action);
      && (forall p :: p in incoming' ==> p in incoming)
      && (forall p :: p in out' && p.SessTerm? && p !in out ==>
            || (action.Close? && p == SessTerm(false, TermUnknown))
            || (p.reply && SessTerm(false, p.termReason) in incoming))
  {
    hide Segments, OnPacket, TcpclDuplex.AfterJob;
    match action
    case SendJob(job, listening) => JobTerms(cx, bc, x, out, incoming, job, listening);
    case Handle(env, answer) => PacketTerms(cx, bc, x, incoming[0], env);
    case Tick =>
    case Close =>
  }

  lemma ClosedGrows(steps: seq<TcpclDuplex.Step>, byA: bool)
    requires steps != []
    ensures var n := |steps| - 1;
      (Closed(steps[..n], byA) || (steps[n].byA == byA && steps[n].action.Close?)) ==> Closed(steps, byA)
  {
    var n := |steps| - 1;
    if Closed(steps[..n], byA) {
      var k :| 0 <= k < n && steps[..n][k].byA == byA && steps[..n][k].action.Close?;
      assert steps[k] == steps[..n][k];
    }
  }

  lemma NextTerms(ca: Config, cb: Config, bc: BundleCodec, steps: seq<TcpclDuplex.Step>, before: TcpclDuplex.Net)
    requires ca.Valid() && cb.Valid() && steps != [] && TcpclDuplex.CanStep(bc, before, steps[|steps| - 1])
    requires TermsOk(steps[..|steps| - 1], before.ab, true) && TermsOk(steps[..|steps| - 1], before.ba, false)
    ensures var net := TcpclDuplex.Next(ca, cb, bc, before, steps[|steps| - 1]);
      TermsOk(steps, net.ab, true) && TermsOk(steps, net.ba, false)
  {
    var n := |steps| - 1;
    ClosedGrows(steps, true);
    ClosedGrows(steps, false);
    if steps[n].byA {
      ActTerms(ca, bc, before.a, before.ab, before.ba, steps[n].action);
    } else {
      ActTerms(cb, bc, before.b, before.ba, before.ab, steps[n].action);
    }
    hide TcpclDuplex.Act, Closed, TcpclDuplex.Enabled;
  }

  lemma {:induction false} ReachableTerms(ca: Config, cb: Config, bc: BundleCodec, steps: seq<TcpclDuplex.Step>,
                                          net: TcpclDuplex.Net)
    requires ca.Valid() && cb.Valid() && TcpclDuplex.Reaches(ca, cb, bc, steps, net)
    ensures TermsOk(steps, net.ab, true) && TermsOk(steps, net.ba, false)
    decreases |steps|
  {
    if steps != [] {
      var n := |steps| - 1;
      var before :| TcpclDuplex.Reaches(ca, cb, bc, steps[..n], before)
        && TcpclDuplex.CanStep(bc, before, steps[n]) && net == TcpclDuplex.Next(ca, cb, bc, before, steps[n]);
      ReachableTerms(ca, cb, bc, steps[..n], before);
      NextTerms(ca, cb, bc, steps, before);
    }
    hide TermsOk, TcpclDuplex.Next, TcpclDuplex.CanStep;
  }

  /** In every run of the two-party system, a SESS_TERM reply under way answers a close of the node it goes to. */
  lemma RepliesAnswer(ca: Config, cb: Config, bc: BundleCodec, steps: seq<TcpclDuplex.Step>, net: TcpclDuplex.Net,
                      reason: TermReason)
    requires ca.Valid() && cb.Valid() && TcpclDuplex.Reaches(ca, cb, bc, steps, net)
    ensures SessTerm(true, reason) in net.ab ==> Closed(steps, false) && reason == TermUnknown
    ensures SessTerm(true, reason) in net.ba ==> Closed(steps, true) && reason == TermUnknown
  {
    ReachableTerms(ca, cb, bc, steps, net);
  }
}
