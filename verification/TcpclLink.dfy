/** One direction of a session between two of these nodes: the send machine of one, the receive machine of the
    other, the segments on their way and the acks and refusals on their way back. */
module TcpclLink {
  import opened Bytes
  import opened TcpclPacket
  import opened TcpclSession

  /** What the receiver did with a transfer. */
  datatype Event = Delivered(data: seq<Byte>) | RefusedKnown(id: seq<Byte>)

  datatype Link = Link(
    send: SendState, lastTid: nat, jobs: seq<Job>, replies: seq<Reply>,
    segs: seq<Packet>, recv: RecvState, events: seq<Event>, feedback: seq<Packet>)

  /** A bundle ID of the request that the store knew. */
  ghost function KnownId(known: seq<Byte> -> bool, seg: Packet): (id: seq<Byte>)
    requires seg.XferSeg? && exists i :: 0 <= i < |seg.extensions| && known(seg.extensions[i].data)
    ensures known(id) && exists i :: 0 <= i < |seg.extensions| && seg.extensions[i].data == id
  {
    var i :| 0 <= i < |seg.extensions| && known(seg.extensions[i].data);
    seg.extensions[i].data
  }

  /** The event a segment causes: a string handed on, or a refusal because the store knows the bundle. */
  ghost function EventOf(cfg: Config, known: seq<Byte> -> bool, seg: Packet, e: Effects): seq<Event>
    requires seg.XferSeg?
  {
    if e.parsed != [] then [Delivered(e.parsed[0])]
    else if e.packets == [XferRefuse(NotAcceptable, seg.tid)] && AsksForKnown(cfg, known, seg) then
      [RefusedKnown(KnownId(known, seg))]
    else []
  }

  // ---------------------------------------------------------------- steps

  ghost function Submit(cx: Config, bc: BundleCodec, l: Link, job: Job): Outcome<Link>
    requires cx.Valid()
  {
    match OnJob(cx, bc, Session(RecvIdle, l.send, l.lastTid), job, true)
    case Error => Error
    case Ok(s, e) =>
      Ok(l.(send := s.send, lastTid := s.lastTid, segs := l.segs + e.packets, replies := l.replies + e.replies,
            jobs := if TooLarge(cx, job) then l.jobs else l.jobs + [job]), e)
  }

  ghost function Deliver(cy: Config, bc: BundleCodec, known: seq<Byte> -> bool, l: Link): Outcome<Link>
    requires l.segs != [] && l.segs[0].XferSeg?
  {
    match OnSegment(cy, bc, known, l.recv, l.segs[0])
    case Error => Error
    case Ok(r, e) =>
      Ok(l.(recv := r, segs := l.segs[1..], feedback := l.feedback + e.packets,
            events := l.events + EventOf(cy, known, l.segs[0], e)), e)
  }

  predicate IsFeedback(p: Packet) {
    p.XferAck? || p.XferRefuse?
  }

  ghost function Return(cx: Config, l: Link): Outcome<Link>
    requires cx.Valid() && l.feedback != [] && IsFeedback(l.feedback[0])
  {
    var p := l.feedback[0];
    match if p.XferAck? then OnAck(cx, l.lastTid, l.send, p.tid, p.len, true)
          else OnRefuse(l.lastTid, l.send, p.tid, true)
    case Error => Error
    case Ok(s, e) =>
      Ok(l.(send := s, feedback := l.feedback[1..], segs := l.segs + e.packets, replies := l.replies + e.replies), e)
  }

  // ---------------------------------------------------------------- invariant

  ghost predicate Matches(bc: BundleCodec, event: Event, job: Job) {
    match event
    case Delivered(data) => data == job.data
    case RefusedKnown(id) => id == bc.idOf(job.data)
  }

  ghost function Tokens(jobs: seq<Job>): seq<nat> {
    seq(|jobs|, i requires 0 <= i < |jobs| => jobs[i].token)
  }

  /** The requesters that were told their transfer succeeded, in order. */
  ghost function Successes(replies: seq<Reply>): seq<nat> {
    if replies == [] then []
    else
      var n := |replies| - 1;
      Successes(replies[..n]) + (if replies[n].result == Successful then [replies[n].token] else [])
  }

  /** Transfers whose result the sender already reported. */
  ghost function Resolved(l: Link): nat
    requires !l.send.SendIdle? ==> l.jobs != []
  {
    if l.send.SendIdle? then |l.jobs| else |l.jobs| - 1
  }

  ghost predicate JobOk(cx: Config, bc: BundleCodec, job: Job) {
    bc.decodes(job.data) && job.data != [] && !TooLarge(cx, job)
  }

  /** Nothing of the current transfer is left: the receiver is done with it. */
  ghost predicate ReceiverDone(l: Link) {
    l.segs == [] && l.recv == RecvIdle && |l.events| == |l.jobs|
  }

  /** The receiver is in the middle of the current transfer. */
  ghost predicate ReceiverBusy(l: Link) {
    |l.events| == |l.jobs| - 1
  }

  ghost predicate Requested(bc: BundleCodec, l: Link, data: seq<Byte>) {
    || (ReceiverBusy(l) && l.recv == RecvIdle && l.segs == [Request(l.lastTid, bc.idOf(data))] && l.feedback == [])
    || (ReceiverBusy(l) && l.recv == Receiving([], l.lastTid) && l.segs == []
        && |l.feedback| == 1 && l.feedback[0].XferAck? && l.feedback[0].tid == l.lastTid && l.feedback[0].len == 0)
    || (ReceiverDone(l) && |l.feedback| == 1 && l.feedback[0].XferRefuse? && l.feedback[0].tid == l.lastTid)
  }

  ghost predicate AcksUpTo(l: Link, total: nat) {
    forall i :: 0 <= i < |l.feedback| ==> l.feedback[i].XferAck? && l.feedback[i].tid == l.lastTid && l.feedback[i].len <= total
  }

  ghost predicate NoneFinal(feedback: seq<Packet>, n: nat, total: nat)
    requires n <= |feedback|
  {
    forall i :: 0 <= i < n ==> feedback[i].XferAck? && feedback[i].len < total
  }

  /** The receiver has `got`, the segments of `rest` are on their way. */
  ghost predicate InTransfer(cx: Config, l: Link, got: seq<Byte>, rest: seq<Byte>)
    requires cx.Valid()
  {
    var start := !cx.refuseExisting && got == [];
    && ReceiverBusy(l) && rest != [] && l.segs == Segments(rest, cx.segmentMru, l.lastTid, start)
    && ReadyFor(l.recv, l.lastTid, start, got)
    && NoneFinal(l.feedback, |l.feedback|, |got| + |rest|)
  }

  ghost predicate AllSent(l: Link, total: nat) {
    var n := |l.feedback| - 1;
    && ReceiverDone(l) && n >= 0 && NoneFinal(l.feedback, n, total)
    && l.feedback[n].XferAck? && l.feedback[n].len == total
  }

  ghost predicate Transferring(cx: Config, l: Link, data: seq<Byte>)
    requires cx.Valid()
  {
    && AcksUpTo(l, |data|)
    && (AllSent(l, |data|) || exists got, rest :: data == got + rest && InTransfer(cx, l, got, rest))
  }

  ghost predicate Phase(cx: Config, bc: BundleCodec, l: Link)
    requires cx.Valid()
  {
    match l.send
    case SendIdle => ReceiverDone(l) && l.feedback == []
    case TransferRequest(data, token) =>
      cx.refuseExisting && l.jobs != [] && l.jobs[|l.jobs| - 1] == Job(data, token) && Requested(bc, l, data)
    case Sending(total, token) =>
      && l.jobs != [] && var job := l.jobs[|l.jobs| - 1];
      && job.token == token && total == |job.data| && Transferring(cx, l, job.data)
    case SendTerminated => false
  }

  ghost predicate Inv(cx: Config, bc: BundleCodec, l: Link)
    requires cx.Valid()
  {
    && l.lastTid == |l.jobs|
    && (forall i :: 0 <= i < |l.jobs| ==> JobOk(cx, bc, l.jobs[i]))
    && |l.events| <= |l.jobs|
    && (forall i :: 0 <= i < |l.events| ==> Matches(bc, l.events[i], l.jobs[i]))
    && Phase(cx, bc, l)
    && Successes(l.replies) == Tokens(l.jobs[..Resolved(l)])
  }

  const START := Link(SendIdle, 0, [], [], [], RecvIdle, [], [])

  lemma StartInv(cx: Config, bc: BundleCodec)
    requires cx.Valid()
    ensures Inv(cx, bc, START)
  {
  }

  lemma SuccessesSnoc(replies: seq<Reply>, r: Reply)
    ensures Successes(replies + [r]) == Successes(replies) + (if r.result == Successful then [r.token] else [])
  {
    assert (replies + [r])[..|replies|] == replies;
  }

  lemma TokensSnoc(jobs: seq<Job>)
    requires jobs != []
    ensures Tokens(jobs[..|jobs| - 1]) + [jobs[|jobs| - 1].token] == Tokens(jobs)
  {
  }

  // ---------------------------------------------------------------- preservation

  /** A bundle that decodes is taken over without an error. */
  lemma SubmitKeeps(cx: Config, bc: BundleCodec, l: Link, job: Job)
    requires cx.Valid() && Inv(cx, bc, l) && l.send.SendIdle? && bc.decodes(job.data) && job.data != []
    ensures var r := Submit(cx, bc, l, job); r.Ok? && Inv(cx, bc, r.state)
  {
    var l' := Submit(cx, bc, l, job).state;
    hide Segments;
    assert l.jobs[..|l.jobs|] == l.jobs;
    if TooLarge(cx, job) {
      SuccessesSnoc(l.replies, Reply(job.token, Failure));
    } else {
      assert l'.jobs[..|l.jobs|] == l.jobs;
      assert l.replies + [] == l.replies;
      if !cx.refuseExisting {
        assert [] + Segments(job.data, cx.segmentMru, l'.lastTid, true) == Segments(job.data, cx.segmentMru, l'.lastTid, true);
        assert job.data == [] + job.data;
        assert InTransfer(cx, l', [], job.data);
      }
    }
  }

  lemma DeliverRequestKeeps(cx: Config, cy: Config, bc: BundleCodec, known: seq<Byte> -> bool, l: Link)
    requires Matching(cx, cy) && Inv(cx, bc, l) && l.send.TransferRequest? && l.segs != []
    ensures l.segs[0].XferSeg?
    ensures var r := Deliver(cy, bc, known, l); r.Ok? && Inv(cx, bc, r.state)
  {
    var l' := Deliver(cy, bc, known, l).state;
    assert [] + [l'.feedback[0]] == l'.feedback;
  }

  /** One data segment arrives: its bytes are appended and acknowledged, the last one hands the bundle on. */
  lemma DeliverData(cx: Config, cy: Config, bc: BundleCodec, known: seq<Byte> -> bool, l: Link,
                    got: seq<Byte>, rest: seq<Byte>)
    requires Matching(cx, cy) && InTransfer(cx, l, got, rest) && |got| + |rest| <= cy.localTransferMru
    requires bc.decodes(got + rest)
    ensures l.segs != [] && l.segs[0].XferSeg?
    ensures var end := |rest| <= cx.segmentMru;
      var buf := if end then rest else rest[..cx.segmentMru];
      var ack := AckOf(l.segs[0], |got|);
      && ack == XferAck(ack.flags, l.lastTid, |got| + |buf|)
      && Deliver(cy, bc, known, l).Ok?
      && Deliver(cy, bc, known, l).state == l.(
           recv := if end then RecvIdle else Receiving(got + buf, l.lastTid),
           segs := if end then [] else Segments(rest[cx.segmentMru..], cx.segmentMru, l.lastTid, false),
           feedback := l.feedback + [ack],
           events := l.events + (if end then [Delivered(got + rest)] else []))
  {
    var start := !cx.refuseExisting && got == [];
    var size, tid := cx.segmentMru, l.lastTid;
    var end := |rest| <= size;
    var buf := if end then rest else rest[..size];
    assert l.segs[0] == Segment(tid, start, end, buf);
    OneSegment(cy, bc, known, l.recv, got, tid, start, end, buf);
    hide OnSegment;
    var ack := AckOf(l.segs[0], |got|);
    assert [ack] + [] == [ack];
    assert l.segs[1..] == if end then [] else Segments(rest[size..], size, tid, false);
  }

  /** Only the receiver moved, with at most one event that matches the current transfer. */
  lemma ReceiverMoved(cx: Config, bc: BundleCodec, l: Link, l': Link, more: seq<Event>)
    requires cx.Valid() && Inv(cx, bc, l) && Phase(cx, bc, l')
    requires l' == l.(recv := l'.recv, segs := l'.segs, feedback := l'.feedback, events := l.events + more)
    requires |l.events + more| <= |l.jobs|
    requires more == [] || (|more| == 1 && Matches(bc, more[0], l.jobs[|l.events|]))
    ensures Inv(cx, bc, l')
  {
    hide Phase;
  }

  lemma DeliverLastKeeps(cx: Config, cy: Config, bc: BundleCodec, known: seq<Byte> -> bool, l: Link,
                         got: seq<Byte>, rest: seq<Byte>)
    requires Matching(cx, cy) && Inv(cx, bc, l) && l.send.Sending? && |rest| <= cx.segmentMru
    requires l.jobs[|l.jobs| - 1].data == got + rest && InTransfer(cx, l, got, rest)
    ensures l.segs != [] && l.segs[0].XferSeg?
    ensures var r := Deliver(cy, bc, known, l); r.Ok? && Inv(cx, bc, r.state)
  {
    assert JobOk(cx, bc, l.jobs[|l.jobs| - 1]);
    DeliverData(cx, cy, bc, known, l, got, rest);
    hide Deliver, Segments, AckOf, JobOk, Inv, Successes;
    var l' := Deliver(cy, bc, known, l).state;
    assert AllSent(l', |got + rest|);
    assert Phase(cx, bc, l');
    hide Phase;
    ReceiverMoved(cx, bc, l, l', [Delivered(got + rest)]);
  }

  lemma DeliverMiddleKeeps(cx: Config, cy: Config, bc: BundleCodec, known: seq<Byte> -> bool, l: Link,
                           got: seq<Byte>, rest: seq<Byte>)
    requires Matching(cx, cy) && Inv(cx, bc, l) && l.send.Sending? && |rest| > cx.segmentMru
    requires l.jobs[|l.jobs| - 1].data == got + rest && InTransfer(cx, l, got, rest)
    ensures l.segs != [] && l.segs[0].XferSeg?
    ensures var r := Deliver(cy, bc, known, l); r.Ok? && Inv(cx, bc, r.state)
  {
    assert JobOk(cx, bc, l.jobs[|l.jobs| - 1]);
    DeliverData(cx, cy, bc, known, l, got, rest);
    hide Deliver, Segments, AckOf, JobOk, Inv, Successes;
    var l' := Deliver(cy, bc, known, l).state;
    var more, left := got + rest[..cx.segmentMru], rest[cx.segmentMru..];
    assert got + rest == more + left;
    assert l'.events == l.events + [];
    assert InTransfer(cx, l', more, left);
    hide InTransfer;
    assert Phase(cx, bc, l');
    hide Phase;
    ReceiverMoved(cx, bc, l, l', []);
  }

  lemma DeliverDataKeeps(cx: Config, cy: Config, bc: BundleCodec, known: seq<Byte> -> bool, l: Link)
    requires Matching(cx, cy) && Inv(cx, bc, l) && l.send.Sending? && l.segs != []
    ensures l.segs[0].XferSeg?
    ensures var r := Deliver(cy, bc, known, l); r.Ok? && Inv(cx, bc, r.state)
  {
    var data := l.jobs[|l.jobs| - 1].data;
    var got, rest :| data == got + rest && InTransfer(cx, l, got, rest);
    hide Deliver;
    if |rest| <= cx.segmentMru {
      DeliverLastKeeps(cx, cy, bc, known, l, got, rest);
    } else {
      DeliverMiddleKeeps(cx, cy, bc, known, l, got, rest);
    }
  }

  lemma DeliverKeeps(cx: Config, cy: Config, bc: BundleCodec, known: seq<Byte> -> bool, l: Link)
    requires Matching(cx, cy) && Inv(cx, bc, l) && l.segs != []
    ensures l.segs[0].XferSeg?
    ensures var r := Deliver(cy, bc, known, l); r.Ok? && Inv(cx, bc, r.state)
  {
    if l.send.TransferRequest? {
      DeliverRequestKeeps(cx, cy, bc, known, l);
    } else {
      DeliverDataKeeps(cx, cy, bc, known, l);
    }
  }

  lemma ReturnToRequestKeeps(cx: Config, bc: BundleCodec, l: Link)
    requires cx.Valid() && Inv(cx, bc, l) && l.send.TransferRequest? && l.feedback != []
    ensures IsFeedback(l.feedback[0])
    ensures var r := Return(cx, l); r.Ok? && Inv(cx, bc, r.state)
  {
    hide Segments;
    var data, token := l.send.data, l.send.token;
    var l' := Return(cx, l).state;
    assert JobOk(cx, bc, l.jobs[|l.jobs| - 1]);
    if l.feedback[0].XferAck? {
      assert l.replies + [] == l.replies;
      assert [] + Segments(data, cx.segmentMru, l.lastTid, false) == Segments(data, cx.segmentMru, l.lastTid, false);
      assert data == [] + data;
      assert InTransfer(cx, l', [], data);
    } else {
      SuccessesSnoc(l.replies, Reply(token, Successful));
      TokensSnoc(l.jobs);
      assert l.jobs[..|l.jobs|] == l.jobs;
    }
  }

  lemma ReturnAckKeeps(cx: Config, bc: BundleCodec, l: Link)
    requires cx.Valid() && Inv(cx, bc, l) && l.send.Sending? && l.feedback != []
    ensures IsFeedback(l.feedback[0])
    ensures var r := Return(cx, l); r.Ok? && Inv(cx, bc, r.state)
  {
    hide Segments, OnRefuse;
    var job := l.jobs[|l.jobs| - 1];
    var l' := Return(cx, l).state;
    assert l.segs + [] == l.segs;
    if l.feedback[0].len < |job.data| {
      assert l.replies + [] == l.replies;
      if AllSent(l, |job.data|) {
        assert AllSent(l', |job.data|);
      } else {
        var got, rest :| job.data == got + rest && InTransfer(cx, l, got, rest);
        assert InTransfer(cx, l', got, rest);
      }
    } else {
      assert AllSent(l, |job.data|);
      SuccessesSnoc(l.replies, Reply(job.token, Successful));
      TokensSnoc(l.jobs);
      assert l.jobs[..|l.jobs|] == l.jobs;
    }
  }

  lemma ReturnKeeps(cx: Config, bc: BundleCodec, l: Link)
    requires cx.Valid() && Inv(cx, bc, l) && l.feedback != []
    ensures IsFeedback(l.feedback[0])
    ensures var r := Return(cx, l); r.Ok? && Inv(cx, bc, r.state)
  {
    if l.send.TransferRequest? {
      ReturnToRequestKeeps(cx, bc, l);
    } else {
      ReturnAckKeeps(cx, bc, l);
    }
  }
}
