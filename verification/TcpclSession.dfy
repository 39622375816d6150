/** An established TCPCLv4 session: the receive and the send machine of `TcpSession` (section 5.2 of RFC 9174). */
module TcpclSession {
  import opened Options
  import opened Bytes
  import opened TcpclPacket

  datatype TransferResult = Successful | Failure

  /** An outgoing bundle and the requester waiting for its result. */
  datatype Job = Job(data: seq<Byte>, token: nat)

  datatype Reply = Reply(token: nat, result: TransferResult)

  datatype RecvState =
    | RecvIdle
    | Receiving(buffer: seq<Byte>, tid: nat)
    | Discarding(tid: nat)
    | RecvTerminated

  datatype SendState =
    | SendIdle
    | Sending(len: nat, token: nat)
    | TransferRequest(data: seq<Byte>, token: nat)
    | SendTerminated

  /** The negotiated parameters a session uses. */
  datatype Config = Config(refuseExisting: bool, localTransferMru: nat, remoteTransferMru: nat, segmentMru: nat) {
    predicate Valid() {
      segmentMru > 0
    }
  }

  /** bp7's view of a byte string: whether it decodes as a bundle and the ID of that bundle. */
  datatype BundleCodec = BundleCodec(decodes: seq<Byte> -> bool, idOf: seq<Byte> -> seq<Byte>)

  /** What one packet meets outside the session: the bundle IDs the store knows at that moment and whether the
      requester of the current transfer still waits for its result. */
  datatype Surroundings = Surroundings(known: seq<Byte> -> bool, listening: bool)

  /** What a step does to the outside: packets written, byte strings handed to bundle parsing, replies sent. */
  datatype Effects = Effects(packets: seq<Packet>, parsed: seq<seq<Byte>>, replies: seq<Reply>) {
    function Then(more: Effects): Effects {
      Effects(packets + more.packets, parsed + more.parsed, replies + more.replies)
    }
  }

  const NONE: Effects := Effects([], [], [])

  function Writes(packets: seq<Packet>): Effects {
    Effects(packets, [], [])
  }

  function Replies(token: nat, result: TransferResult): Effects {
    Effects([], [], [Reply(token, result)])
  }

  datatype Outcome<+S> = Ok(state: S, effects: Effects) | Error

  // ---------------------------------------------------------------- receive machine

  function Ack(flags: SegFlags, tid: nat, len: nat): Packet {
    XferAck(flags, tid, len)
  }

  const NO_FLAGS := SegFlags(false, false)

  function ProcessBundle(bc: BundleCodec, data: seq<Byte>, tid: nat): (RecvState, Effects) {
    (RecvIdle, Effects(if bc.decodes(data) then [] else [XferRefuse(NotAcceptable, tid)], [data], []))
  }

  function RefuseOversized(tid: nat, flags: SegFlags): (RecvState, Effects) {
    (if flags.end then RecvIdle else Discarding(tid), Writes([XferRefuse(NoResources, tid)]))
  }

  /** A START segment asks for a bundle the store already knows. */
  predicate AsksForKnown(cfg: Config, known: seq<Byte> -> bool, seg: Packet)
    requires seg.XferSeg?
  {
    cfg.refuseExisting && seg.flags.start
    && exists i :: 0 <= i < |seg.extensions| && known(seg.extensions[i].data)
  }

  function AckAndContinue(bc: BundleCodec, buffer: seq<Byte>, ack: Packet, tid: nat, end: bool): Outcome<RecvState> {
    if end then
      var (s, e) := ProcessBundle(bc, buffer, tid);
      Ok(s, Writes([ack]).Then(e))
    else Ok(Receiving(buffer, tid), Writes([ack]))
  }

  function OnSegment(cfg: Config, bc: BundleCodec, known: seq<Byte> -> bool, state: RecvState, seg: Packet)
    : Outcome<RecvState>
    requires seg.XferSeg?
  {
    var current := if state.Discarding? && state.tid != seg.tid then RecvIdle else state;
    match current
    case Receiving(buffer, tid) =>
      if seg.flags.start || tid != seg.tid then Error
      else if |buffer| + |seg.buf| > cfg.localTransferMru then
        var (s, e) := RefuseOversized(tid, seg.flags);
        Ok(s, e)
      else
        var grown := buffer + seg.buf;
        AckAndContinue(bc, grown, Ack(NO_FLAGS, tid, |grown|), tid, seg.flags.end)
    case RecvIdle =>
      if !seg.flags.start then Error
      else if AsksForKnown(cfg, known, seg) then Ok(RecvIdle, Writes([XferRefuse(NotAcceptable, seg.tid)]))
      else if |seg.buf| > cfg.localTransferMru then
        var (s, e) := RefuseOversized(seg.tid, seg.flags);
        Ok(s, e)
      else AckAndContinue(bc, seg.buf, Ack(seg.flags, seg.tid, seg.len), seg.tid, seg.flags.end)
    case Discarding(tid) => Ok(if seg.flags.end then RecvIdle else Discarding(tid), NONE)
    case RecvTerminated => Error
  }

  // ---------------------------------------------------------------- send machine

  function Segment(tid: nat, start: bool, end: bool, buf: seq<Byte>): (p: Packet)
    ensures p.XferSeg? && p.tid == tid && p.len == |p.buf| && p.buf == buf
  {
    XferSeg(SegFlags(start, end), tid, |buf|, buf, [])
  }

  /** The segments of a transfer; START is on the first one unless a request segment carried it. */
  function Segments(data: seq<Byte>, size: nat, tid: nat, start: bool): (r: seq<Packet>)
    requires size > 0
    ensures r != []
    decreases |data|
  {
    if |data| <= size then [Segment(tid, start, true, data)]
    else [Segment(tid, start, false, data[..size])] + Segments(data[size..], size, tid, false)
  }

  function Request(tid: nat, id: seq<Byte>): Packet {
    XferSeg(SegFlags(true, false), tid, 0, [], [ExtItem(false, BundleID, id)])
  }

  /** `send_bundle`: writes all segments of the bundle and waits for its acks. */
  function SendBundle(cfg: Config, tid: nat, job: Job, listening: bool): Outcome<SendState>
    requires cfg.Valid()
  {
    if job.data == [] then
      if listening then Ok(SendIdle, Replies(job.token, Failure)) else Error
    else Ok(Sending(|job.data|, job.token), Writes(Segments(job.data, cfg.segmentMru, tid, !cfg.refuseExisting)))
  }

  /** `send` after the transfer ID was incremented to `tid`. */
  function StartTransfer(cfg: Config, bc: BundleCodec, tid: nat, job: Job, listening: bool): Outcome<SendState>
    requires cfg.Valid()
  {
    if cfg.refuseExisting then
      if bc.decodes(job.data) then
        Ok(TransferRequest(job.data, job.token), Writes([Request(tid, bc.idOf(job.data))]))
      else Error
    else SendBundle(cfg, tid, job, listening)
  }

  predicate TooLarge(cfg: Config, job: Job) {
    |job.data| > cfg.remoteTransferMru
  }

  function OnAck(cfg: Config, lastTid: nat, state: SendState, tid: nat, len: nat, listening: bool): Outcome<SendState>
    requires cfg.Valid()
  {
    match state
    case TransferRequest(data, token) =>
      if tid != lastTid then Error else SendBundle(cfg, lastTid, Job(data, token), listening)
    case Sending(total, token) =>
      if tid != lastTid then Error
      else if len < total then Ok(state, NONE)
      else if listening then Ok(SendIdle, Replies(token, Successful)) else Error
    case _ => Error
  }

  function OnRefuse(lastTid: nat, state: SendState, tid: nat, listening: bool): Outcome<SendState> {
    match state
    case TransferRequest(_, token) =>
      if tid != lastTid || !listening then Error else Ok(SendIdle, Replies(token, Successful))
    case Sending(_, token) =>
      if tid != lastTid || !listening then Error else Ok(SendIdle, Replies(token, Failure))
    case _ => Error
  }

  // ---------------------------------------------------------------- the whole session

  datatype Session = Session(recv: RecvState, send: SendState, lastTid: nat)

  const FRESH := Session(RecvIdle, SendIdle, 0)

  predicate Terminated(s: Session) {
    s.recv.RecvTerminated? || s.send.SendTerminated?
  }

  /** `receive`. Keepalives are answered by the loop around it. */
  function OnPacket(cfg: Config, bc: BundleCodec, env: Surroundings, s: Session, p: Packet): Outcome<Session>
    requires cfg.Valid()
  {
    match p
    case SessTerm(reply, reason) =>
      Ok(Session(RecvTerminated, SendTerminated, s.lastTid), Writes(if reply then [] else [SessTerm(true, reason)]))
    case XferSeg(_, _, _, _, _) =>
      (match OnSegment(cfg, bc, env.known, s.recv, p)
       case Ok(r, e) => Ok(s.(recv := r), e)
       case Error => Error)
    case XferAck(_, tid, len) =>
      (match OnAck(cfg, s.lastTid, s.send, tid, len, env.listening)
       case Ok(t, e) => Ok(s.(send := t), e)
       case Error => Error)
    case XferRefuse(_, tid) =>
      (match OnRefuse(s.lastTid, s.send, tid, env.listening)
       case Ok(t, e) => Ok(s.(send := t), e)
       case Error => Error)
    case _ => Error
  }

  /** `send`. A bundle beyond the transfer MRU of the peer is failed without a transfer ID. */
  function OnJob(cfg: Config, bc: BundleCodec, s: Session, job: Job, listening: bool): Outcome<Session>
    requires cfg.Valid()
  {
    if TooLarge(cfg, job) then
      Ok(s.(send := SendIdle), if listening then Replies(job.token, Failure) else NONE)
    else
      match StartTransfer(cfg, bc, s.lastTid + 1, job, listening)
      case Ok(t, e) => Ok(Session(s.recv, t, s.lastTid + 1), e)
      case Error => Error
  }

  // ---------------------------------------------------------------- negotiation

  /** The parameters of both sides after SESS_INIT was exchanged, own ones first. */
  function Negotiate(own: Packet, response: Packet): Option<(Packet, Packet)>
    requires own.SessInit?
  {
    if !response.SessInit? || response.segmentMru == 0 then None
    else
      var keepalive := if own.keepalive <= response.keepalive then own.keepalive else response.keepalive;
      Some((own.(keepalive := keepalive), response.(keepalive := keepalive)))
  }

  function ConfigOf(refuse: bool, own: Packet, peer: Packet): Config
    requires own.SessInit? && peer.SessInit?
  {
    Config(refuse, own.transferMru, peer.transferMru, peer.segmentMru)
  }

  /** Two configurations that belong to the two ends of one session. */
  predicate Matching(a: Config, b: Config) {
    && a.Valid() && b.Valid()
    && a.remoteTransferMru == b.localTransferMru && b.remoteTransferMru == a.localTransferMru
  }

  /** Two nodes that negotiate with each other agree on the smaller keepalive and get matching configurations. */
  lemma NegotiationMatches(a: Packet, b: Packet, refuseA: bool, refuseB: bool)
    requires a.SessInit? && b.SessInit?
    ensures Negotiate(a, b).Some? && Negotiate(b, a).Some? <==> a.segmentMru > 0 && b.segmentMru > 0
    ensures Negotiate(a, b).Some? && Negotiate(b, a).Some? ==>
      var (a1, b1) := Negotiate(a, b).value; var (b2, a2) := Negotiate(b, a).value;
      && a1 == a2 && b1 == b2 && a1.keepalive == b1.keepalive
      && Matching(ConfigOf(refuseA, a1, b1), ConfigOf(refuseB, b2, a2))
  {
  }

  /** What a negotiated session goes by: a SESS_INIT with a segment MRU is needed, the smaller keepalive holds for both,
      and each limit is the one its own side announced. */
  lemma NegotiatedParameters(own: Packet, response: Packet, refuse: bool)
    requires own.SessInit?
    ensures Negotiate(own, response).Some? <==> response.SessInit? && response.segmentMru > 0
    ensures Negotiate(own, response).Some? ==>
      var (x, y) := Negotiate(own, response).value;
      && x.keepalive == y.keepalive && x.keepalive <= own.keepalive && x.keepalive <= response.keepalive
      && (x.keepalive == own.keepalive || x.keepalive == response.keepalive)
      && x == own.(keepalive := x.keepalive) && y == response.(keepalive := y.keepalive)
      && var cfg := ConfigOf(refuse, x, y);
      && cfg.refuseExisting == refuse && cfg.localTransferMru == own.transferMru
      && cfg.remoteTransferMru == response.transferMru && cfg.segmentMru == response.segmentMru
  {
  }

  // ---------------------------------------------------------------- segmentation

  predicate IsSegmentOf(p: Packet, tid: nat, size: nat) {
    p.XferSeg? && p.tid == tid && p.len == |p.buf| && 0 < |p.buf| <= size && p.extensions == []
  }

  predicate AllSegments(ps: seq<Packet>) {
    forall i :: 0 <= i < |ps| ==> ps[i].XferSeg?
  }

  function Buffers(ps: seq<Packet>): seq<seq<Byte>>
    requires AllSegments(ps)
  {
    seq(|ps|, i requires 0 <= i < |ps| => ps[i].buf)
  }

  /** Segments are nonempty and at most `size` long, only the last has END, only the first can have START and
      together they carry the data. */
  lemma {:induction false} SegmentsShape(data: seq<Byte>, size: nat, tid: nat, start: bool)
    requires size > 0 && data != []
    ensures var ps := Segments(data, size, tid, start);
      && (forall i :: 0 <= i < |ps| ==> IsSegmentOf(ps[i], tid, size))
      && (forall i :: 0 <= i < |ps| ==> ps[i].flags == SegFlags(start && i == 0, i == |ps| - 1))
      && Concat(Buffers(ps)) == data
      && (|ps| - 1) * size < |data| <= |ps| * size
    decreases |data|
  {
    if |data| <= size {
      var seg := Segment(tid, start, true, data);
      BuffersCons(seg, []);
      assert [seg] + [] == [seg] && data + [] == data;
    } else {
      var seg, rest := Segment(tid, start, false, data[..size]), data[size..];
      SegmentsShape(rest, size, tid, false);
      var tail := Segments(rest, size, tid, false);
      SegmentsCons(data, size, tid, start);
      assert tail != [];
      hide Segments, Concat, Buffers;
      BuffersCons(seg, tail);
      assert data == data[..size] + rest;
      OneMore(|tail|, size, |rest|);
    }
  }

  lemma BuffersCons(seg: Packet, tail: seq<Packet>)
    requires seg.XferSeg? && AllSegments(tail)
    ensures AllSegments([seg] + tail) && Concat(Buffers([seg] + tail)) == seg.buf + Concat(Buffers(tail))
  {
    assert Buffers([seg] + tail) == [seg.buf] + Buffers(tail);
    assert ([seg.buf] + Buffers(tail))[1..] == Buffers(tail);
  }

  lemma OneMore(n: nat, size: nat, rest: nat)
    requires (n - 1) * size < rest <= n * size
    ensures n * size < rest + size <= (n + 1) * size
  {
    assert (n + 1) * size == n * size + size && n * size == (n - 1) * size + size;
  }

  /** Feeds segments to the receive machine of a peer one after the other. */
  function Feed(cfg: Config, bc: BundleCodec, known: seq<Byte> -> bool, state: RecvState, segs: seq<Packet>)
    : Outcome<RecvState>
    requires AllSegments(segs)
    decreases |segs|
  {
    if segs == [] then Ok(state, NONE)
    else
      match OnSegment(cfg, bc, known, state, segs[0])
      case Error => Error
      case Ok(s, e) =>
        match Feed(cfg, bc, known, s, segs[1..])
        case Error => Error
        case Ok(s', e') => Ok(s', e.Then(e'))
  }

  /** The acks of a transfer whose first `have` bytes were received before. */
  function AcksOf(segs: seq<Packet>, have: nat): seq<Packet>
    requires AllSegments(segs)
  {
    if segs == [] then []
    else [AckOf(segs[0], have)] + AcksOf(segs[1..], have + |segs[0].buf|)
  }

  /** The state of an accepting receiver before a segment of a transfer of which it has `got`. */
  predicate ReadyFor(state: RecvState, tid: nat, start: bool, got: seq<Byte>) {
    if start then state == RecvIdle && got == [] else state == Receiving(got, tid)
  }

  function AckOf(seg: Packet, have: nat): Packet
    requires seg.XferSeg?
  {
    Ack(if seg.flags.start then seg.flags else NO_FLAGS, seg.tid, have + |seg.buf|)
  }

  lemma OneSegment(cfg: Config, bc: BundleCodec, known: seq<Byte> -> bool, state: RecvState, got: seq<Byte>,
                   tid: nat, start: bool, end: bool, buf: seq<Byte>)
    requires |got| + |buf| <= cfg.localTransferMru && ReadyFor(state, tid, start, got)
    ensures var seg := Segment(tid, start, end, buf);
      OnSegment(cfg, bc, known, state, seg) == AckAndContinue(bc, got + buf, AckOf(seg, |got|), tid, end)
  {
    assert start ==> got + buf == buf;
  }

  lemma FeedStep(cfg: Config, bc: BundleCodec, known: seq<Byte> -> bool, state: RecvState, seg: Packet,
                 segs: seq<Packet>)
    requires seg.XferSeg? && AllSegments(segs)
    ensures var head := OnSegment(cfg, bc, known, state, seg);
      Feed(cfg, bc, known, state, [seg] + segs)
      == if head.Error? then Error
         else
           var tail := Feed(cfg, bc, known, head.state, segs);
           if tail.Error? then Error else Ok(tail.state, head.effects.Then(tail.effects))
  {
    hide OnSegment;
    assert ([seg] + segs)[1..] == segs;
  }

  /** What a receiver does over a whole transfer of `data` it acknowledges with `acks`. */
  function TransferEffects(bc: BundleCodec, acks: seq<Packet>, data: seq<Byte>, tid: nat): Effects {
    Effects(acks + (if bc.decodes(data) then [] else [XferRefuse(NotAcceptable, tid)]), [data], [])
  }

  lemma FeedLast(cfg: Config, bc: BundleCodec, known: seq<Byte> -> bool, state: RecvState, got: seq<Byte>,
                 data: seq<Byte>, tid: nat, start: bool)
    requires |got| + |data| <= cfg.localTransferMru && ReadyFor(state, tid, start, got)
    ensures var ps := [Segment(tid, start, true, data)];
      && AllSegments(ps)
      && Feed(cfg, bc, known, state, ps) == Ok(RecvIdle, TransferEffects(bc, AcksOf(ps, |got|), got + data, tid))
  {
    hide OnSegment, Feed, Segment, AckOf, TransferEffects, AcksOf;
    var seg := Segment(tid, start, true, data);
    OneSegment(cfg, bc, known, state, got, tid, start, true, data);
    FeedStep(cfg, bc, known, state, seg, []);
    NothingFed(cfg, bc, known, RecvIdle);
    ThenTransfer(bc, AckOf(seg, |got|), [], got + data, tid);
    assert [seg] + [] == [seg];
    AcksCons(seg, [], |got|);
    NoAcks(|got| + |data|);
    assert [AckOf(seg, |got|)] + [] == [AckOf(seg, |got|)];
  }

  lemma NoAcks(have: nat)
    ensures AcksOf([], have) == []
  {}

  lemma FeedMore(cfg: Config, bc: BundleCodec, known: seq<Byte> -> bool, state: RecvState, got: seq<Byte>,
                 head: seq<Byte>, rest: seq<Byte>, tail: seq<Packet>, tid: nat, start: bool)
    requires |got| + |head| <= cfg.localTransferMru && ReadyFor(state, tid, start, got) && AllSegments(tail)
    requires Feed(cfg, bc, known, Receiving(got + head, tid), tail)
      == Ok(RecvIdle, TransferEffects(bc, AcksOf(tail, |got + head|), got + head + rest, tid))
    ensures var ps := [Segment(tid, start, false, head)] + tail;
      && AllSegments(ps)
      && Feed(cfg, bc, known, state, ps)
         == Ok(RecvIdle, TransferEffects(bc, AcksOf(ps, |got|), got + head + rest, tid))
  {
    hide OnSegment, Feed, Segment, AckOf, TransferEffects, AcksOf;
    var seg := Segment(tid, start, false, head);
    OneSegment(cfg, bc, known, state, got, tid, start, false, head);
    FeedStep(cfg, bc, known, state, seg, tail);
    AcksCons(seg, tail, |got|);
    ThenTransfer(bc, AckOf(seg, |got|), AcksOf(tail, |got + head|), got + head + rest, tid);
  }

  lemma {:induction false} FeedSegments(cfg: Config, bc: BundleCodec, known: seq<Byte> -> bool, state: RecvState,
                                        got: seq<Byte>, data: seq<Byte>, size: nat, tid: nat, start: bool)
    requires size > 0 && data != [] && |got| + |data| <= cfg.localTransferMru
    requires ReadyFor(state, tid, start, got)
    ensures var ps := Segments(data, size, tid, start);
      && AllSegments(ps)
      && Feed(cfg, bc, known, state, ps) == Ok(RecvIdle, TransferEffects(bc, AcksOf(ps, |got|), got + data, tid))
    decreases |data|
  {
    hide OnSegment, Feed, Segment, AckOf, TransferEffects, AcksOf, AllSegments;
    if |data| <= size {
      FeedLast(cfg, bc, known, state, got, data, tid, start);
    } else {
      var head, rest := data[..size], data[size..];
      FeedSegments(cfg, bc, known, Receiving(got + head, tid), got + head, rest, size, tid, false);
      assert got + head + rest == got + data;
      SegmentsCons(data, size, tid, start);
      hide Segments;
      FeedMore(cfg, bc, known, state, got, head, rest, Segments(rest, size, tid, false), tid, start);
    }
  }

  lemma ThenTransfer(bc: BundleCodec, ack: Packet, acks: seq<Packet>, data: seq<Byte>, tid: nat)
    ensures Writes([ack]).Then(TransferEffects(bc, acks, data, tid)) == TransferEffects(bc, [ack] + acks, data, tid)
    ensures Writes([ack]).Then(ProcessBundle(bc, data, tid).1).Then(NONE) == TransferEffects(bc, [ack], data, tid)
  {
    var fin := TransferEffects(bc, [], data, tid).packets;
    assert [ack] + (acks + fin) == [ack] + acks + fin;
  }

  lemma SegmentsCons(data: seq<Byte>, size: nat, tid: nat, start: bool)
    requires size > 0 && |data| > size
    ensures Segments(data, size, tid, start)
      == [Segment(tid, start, false, data[..size])] + Segments(data[size..], size, tid, false)
  {
  }

  lemma AcksCons(seg: Packet, tail: seq<Packet>, have: nat)
    requires seg.XferSeg? && AllSegments(tail)
    ensures AcksOf([seg] + tail, have) == [AckOf(seg, have)] + AcksOf(tail, have + |seg.buf|)
  {
    assert ([seg] + tail)[1..] == tail;
  }

  lemma NothingFed(cfg: Config, bc: BundleCodec, known: seq<Byte> -> bool, state: RecvState)
    ensures Feed(cfg, bc, known, state, []) == Ok(state, NONE)
  {
  }

  lemma {:induction false} AckLengths(data: seq<Byte>, size: nat, tid: nat, start: bool, have: nat)
    requires size > 0 && data != []
    ensures var ps := Segments(data, size, tid, start);
      && AllSegments(ps)
      && var acks := AcksOf(ps, have);
      && |acks| == |ps|
      && (forall i :: 0 <= i < |acks| ==> acks[i].XferAck? && acks[i].tid == tid)
      && (forall i :: 0 <= i < |acks| - 1 ==> acks[i].len < have + |data|)
      && acks[|acks| - 1].len == have + |data|
    decreases |data|
  {
    hide Ack;
    if |data| <= size {
      var seg := Segment(tid, start, true, data);
      AcksCons(seg, [], have);
      assert [seg] + [] == [seg];
      AckShape(seg, have);
      NoAcks(have + |data|);
    } else {
      var seg, rest := Segment(tid, start, false, data[..size]), data[size..];
      AckLengths(rest, size, tid, false, have + size);
      SegmentsCons(data, size, tid, start);
      var tail := Segments(rest, size, tid, false);
      AckShape(seg, have);
      AcksCons(seg, tail, have);
      hide Segments, AcksOf, Segment, AckOf;
      var acks := AcksOf(tail, have + size);
      assert [AckOf(seg, have)] + acks == AcksOf([seg] + tail, have);
    }
  }

  lemma AckShape(seg: Packet, have: nat)
    requires seg.XferSeg?
    ensures var ack := AckOf(seg, have);
      ack.XferAck? && ack.tid == seg.tid && ack.len == have + |seg.buf|
  {}

  /** The answer to a request segment: a refusal if the bundle is known, and else an ack of length 0. */
  lemma RequestAnswered(cfg: Config, bc: BundleCodec, known: seq<Byte> -> bool, tid: nat, id: seq<Byte>)
    ensures OnSegment(cfg, bc, known, RecvIdle, Request(tid, id)) ==
      if cfg.refuseExisting && known(id) then Ok(RecvIdle, Writes([XferRefuse(NotAcceptable, tid)]))
      else Ok(Receiving([], tid), Writes([RequestAck(tid)]))
  {
    var seg := Request(tid, id);
    assert seg.extensions[0].data == id;
  }

  function RequestAck(tid: nat): Packet {
    Ack(SegFlags(true, false), tid, 0)
  }

  /** All that is sent of a transfer, to a receiver that is not to refuse it. */
  function Sent(data: seq<Byte>, size: nat, tid: nat, requested: bool, id: seq<Byte>): seq<Packet>
    requires size > 0
  {
    (if requested then [Request(tid, id)] else []) + Segments(data, size, tid, !requested)
  }

  /** Segmentation and reassembly are inverse: an accepting receiver in the idle state rebuilds exactly the bytes sent,
      whether the START is on the first segment or on a request before it, and acks the full length only with its last
      ack. */
  lemma SegmentationReassembly(cfg: Config, bc: BundleCodec, known: seq<Byte> -> bool, data: seq<Byte>, size: nat,
                               tid: nat, requested: bool, id: seq<Byte>)
    requires size > 0 && data != [] && |data| <= cfg.localTransferMru && bc.decodes(data)
    requires requested && cfg.refuseExisting ==> !known(id)
    ensures var ps, sent := Segments(data, size, tid, !requested), Sent(data, size, tid, requested, id);
      && (forall i :: 0 <= i < |ps| ==> IsSegmentOf(ps[i], tid, size))
      && AllSegments(sent)
      && var acks := (if requested then [RequestAck(tid)] else []) + AcksOf(ps, 0);
      && Feed(cfg, bc, known, RecvIdle, sent) == Ok(RecvIdle, Effects(acks, [data], []))
      && |acks| == |sent|
      && forall i :: 0 <= i < |acks| ==> acks[i].XferAck? && (acks[i].len == |data| <==> i == |acks| - 1)
  {
    hide Segments, AcksOf, OnSegment, Feed, IsSegmentOf, Request, RequestAck, AllSegments;
    SegmentsShape(data, size, tid, !requested);
    TransferFed(cfg, bc, known, if requested then Receiving([], tid) else RecvIdle, data, size, tid, !requested);
    var ps := Segments(data, size, tid, !requested);
    assert [] + ps == ps && [] + AcksOf(ps, 0) == AcksOf(ps, 0);
    if requested {
      RequestFirst(cfg, bc, known, tid, id, ps, AcksOf(ps, 0), data);
    }
  }

  /** The segments of a transfer without the request. */
  lemma TransferFed(cfg: Config, bc: BundleCodec, known: seq<Byte> -> bool, state: RecvState, data: seq<Byte>, size: nat,
                    tid: nat, start: bool)
    requires size > 0 && data != [] && |data| <= cfg.localTransferMru && bc.decodes(data)
    requires ReadyFor(state, tid, start, [])
    ensures var ps := Segments(data, size, tid, start);
      && AllSegments(ps)
      && var acks := AcksOf(ps, 0);
      && Feed(cfg, bc, known, state, ps) == Ok(RecvIdle, Effects(acks, [data], []))
      && |acks| == |ps|
      && forall i :: 0 <= i < |acks| ==> acks[i].XferAck? && (acks[i].len == |data| <==> i == |acks| - 1)
  {
    hide Segments, AcksOf, Feed;
    FeedSegments(cfg, bc, known, state, [], data, size, tid, start);
    AckLengths(data, size, tid, start, 0);
    assert [] + data == data;
    var acks := AcksOf(Segments(data, size, tid, start), 0);
    assert acks + [] == acks;
  }

  /** A request in front of the segments adds the ack of length 0. */
  lemma RequestFirst(cfg: Config, bc: BundleCodec, known: seq<Byte> -> bool, tid: nat, id: seq<Byte>, ps: seq<Packet>,
                     acks: seq<Packet>, data: seq<Byte>)
    requires cfg.refuseExisting ==> !known(id)
    requires AllSegments(ps) && Feed(cfg, bc, known, Receiving([], tid), ps) == Ok(RecvIdle, Effects(acks, [data], []))
    requires acks != [] && data != []
    requires forall i :: 0 <= i < |acks| ==> acks[i].XferAck? && (acks[i].len == |data| <==> i == |acks| - 1)
    ensures var sent, all := [Request(tid, id)] + ps, [RequestAck(tid)] + acks;
      && AllSegments(sent) && Feed(cfg, bc, known, RecvIdle, sent) == Ok(RecvIdle, Effects(all, [data], []))
      && forall i :: 0 <= i < |all| ==> all[i].XferAck? && (all[i].len == |data| <==> i == |all| - 1)
  {
    RequestAnswered(cfg, bc, known, tid, id);
    hide OnSegment, Feed;
    FeedStep(cfg, bc, known, RecvIdle, Request(tid, id), ps);
    var all := [RequestAck(tid)] + acks;
    assert forall i :: 0 < i < |all| ==> all[i] == acks[i - 1];
  }
}
