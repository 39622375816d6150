/** One transfer between idle sessions run to its end: when it goes through. */
module TcpclExchange {
  import opened Bytes
  import opened TcpclPacket
  import opened TcpclSession

  /** The sender handles the packets that come back. */
  function HandleAll(cx: Config, tid: nat, state: SendState, ps: seq<Packet>): Outcome<SendState>
    requires cx.Valid()
    decreases |ps|
  {
    if ps == [] then Ok(state, NONE)
    else
      match (match ps[0]
             case XferAck(_, t, len) => OnAck(cx, tid, state, t, len, true)
             case XferRefuse(_, t) => OnRefuse(tid, state, t, true)
             case _ => Error)
      case Error => Error
      case Ok(s, e) =>
        match HandleAll(cx, tid, s, ps[1..])
        case Error => Error
        case Ok(s', e') => Ok(s', e.Then(e'))
  }

  /** Acks of which exactly the last one reaches the full length. */
  predicate Closing(acks: seq<Packet>, tid: nat, total: nat) {
    && acks != []
    && (forall i :: 0 <= i < |acks| ==> acks[i].XferAck? && acks[i].tid == tid)
    && (forall i :: 0 <= i < |acks| ==> (acks[i].len >= total <==> i == |acks| - 1))
  }

  lemma {:induction false} ClosingHandled(cx: Config, tid: nat, total: nat, token: nat, acks: seq<Packet>,
                                          more: seq<Packet>)
    requires cx.Valid() && Closing(acks, tid, total)
    requires more == [] || (|more| == 1 && more[0].XferRefuse?)
    ensures HandleAll(cx, tid, Sending(total, token), acks + more)
      == if more == [] then Ok(SendIdle, Replies(token, Successful)) else Error
    decreases |acks|
  {
    var ps := acks + more;
    assert ps[0] == acks[0] && ps[1..] == acks[1..] + more;
    if |acks| == 1 {
      assert ps[1..] == more;
    } else {
      forall i | 0 <= i < |acks[1..]| ensures acks[1..][i].len >= total <==> i == |acks[1..]| - 1 {
        assert acks[1..][i] == acks[i + 1];
      }
      ClosingHandled(cx, tid, total, token, acks[1..], more);
    }
  }

  /** Both ends after a transfer, the strings handed to parsing and the results reported. */
  datatype Exchanged = Exchanged(sender: SendState, receiver: RecvState, parsed: seq<seq<Byte>>, replies: seq<Reply>)
                     | Failed

  /** The receiver handles what was written, and the sender what comes back. */
  function Round(cx: Config, cy: Config, bc: BundleCodec, known: seq<Byte> -> bool, tid: nat, x: Exchanged,
                 packets: seq<Packet>): (Exchanged, seq<Packet>)
    requires cx.Valid() && x.Exchanged?
  {
    if !AllSegments(packets) then (Failed, [])
    else
      match Feed(cy, bc, known, x.receiver, packets)
      case Error => (Failed, [])
      case Ok(r, back) =>
        match HandleAll(cx, tid, x.sender, back.packets)
        case Error => (Failed, [])
        case Ok(s, more) => (Exchanged(s, r, x.parsed + back.parsed, x.replies + more.replies), more.packets)
  }

  /** A node sends a bundle to an idle peer; both handle all that is written, up to the answer to a request in a first
      round and up to the last ack in a second one. */
  function Exchange(cx: Config, cy: Config, bc: BundleCodec, known: seq<Byte> -> bool, tid: nat, job: Job): Exchanged
    requires cx.Valid()
  {
    match StartTransfer(cx, bc, tid, job, true)
    case Error => Failed
    case Ok(s, e) =>
      var (x, packets) := Round(cx, cy, bc, known, tid, Exchanged(s, RecvIdle, [], e.replies), e.packets);
      if x.Failed? then Failed else Round(cx, cy, bc, known, tid, x, packets).0
  }

  /** The sender asked, and the peer refuses because it has the bundle. */
  predicate Declined(cx: Config, cy: Config, bc: BundleCodec, known: seq<Byte> -> bool, job: Job) {
    cx.refuseExisting && cy.refuseExisting && known(bc.idOf(job.data))
  }

  /** A round in which all segments of a bundle are received and acknowledged. */
  lemma DataRound(cx: Config, cy: Config, bc: BundleCodec, known: seq<Byte> -> bool, tid: nat, job: Job,
                  receiver: RecvState, start: bool)
    requires Matching(cx, cy) && job.data != [] && !TooLarge(cx, job) && ReadyFor(receiver, tid, start, [])
    ensures var x := Exchanged(Sending(|job.data|, job.token), receiver, [], []);
      Round(cx, cy, bc, known, tid, x, Segments(job.data, cx.segmentMru, tid, start))
      == if bc.decodes(job.data)
         then (Exchanged(SendIdle, RecvIdle, [job.data], [Reply(job.token, Successful)]), [])
         else (Failed, [])
  {
    hide Feed, Segments, AcksOf, HandleAll, Closing, AllSegments, OnSegment;
    var data := job.data;
    var segs := Segments(data, cx.segmentMru, tid, start);
    AcksClose(data, cx.segmentMru, tid, start);
    var acks := AcksOf(segs, 0);
    var more := if bc.decodes(data) then [] else [XferRefuse(NotAcceptable, tid)];
    FeedSegments(cy, bc, known, receiver, [], data, cx.segmentMru, tid, start);
    assert [] + data == data;
    ClosingHandled(cx, tid, |data|, job.token, acks, more);
    var reply := Reply(job.token, Successful);
    assert [] + [data] == [data] && [] + [reply] == [reply];
    assert acks + [] == acks;
  }

  lemma AcksClose(data: seq<Byte>, size: nat, tid: nat, start: bool)
    requires size > 0 && data != []
    ensures AllSegments(Segments(data, size, tid, start))
    ensures Closing(AcksOf(Segments(data, size, tid, start), 0), tid, |data|)
  {
    hide Segments, AcksOf;
    AckLengths(data, size, tid, start, 0);
  }

  /** A round without packets. */
  lemma QuietRound(cx: Config, cy: Config, bc: BundleCodec, known: seq<Byte> -> bool, tid: nat, x: Exchanged)
    requires cx.Valid() && x.Exchanged?
    ensures Round(cx, cy, bc, known, tid, x, []) == (x, [])
  {
    assert x.parsed + [] == x.parsed && x.replies + [] == x.replies;
  }

  /** The round in which a request is answered. */
  lemma RequestRound(cx: Config, cy: Config, bc: BundleCodec, known: seq<Byte> -> bool, tid: nat, job: Job)
    requires Matching(cx, cy) && job.data != [] && cx.refuseExisting
    ensures var x := Exchanged(TransferRequest(job.data, job.token), RecvIdle, [], []);
      Round(cx, cy, bc, known, tid, x, [Request(tid, bc.idOf(job.data))])
      == if Declined(cx, cy, bc, known, job)
         then (Exchanged(SendIdle, RecvIdle, [], [Reply(job.token, Successful)]), [])
         else (Exchanged(Sending(|job.data|, job.token), Receiving([], tid), [], []),
               Segments(job.data, cx.segmentMru, tid, false))
  {
    var id := bc.idOf(job.data);
    RequestAnswered(cy, bc, known, tid, id);
    hide OnSegment, Segments;
    FeedStep(cy, bc, known, RecvIdle, Request(tid, id), []);
    assert [Request(tid, id)] + [] == [Request(tid, id)];
    var back := if Declined(cx, cy, bc, known, job) then XferRefuse(NotAcceptable, tid) else RequestAck(tid);
    assert [back][1..] == [] && [back] + [] == [back];
    HandleOne(cx, tid, TransferRequest(job.data, job.token), back);
    NothingFed(cy, bc, known, OnSegment(cy, bc, known, RecvIdle, Request(tid, id)).state);
    assert Writes([back]).Then(NONE) == Writes([back]);
    var reply := Reply(job.token, Successful);
    assert [] + [reply] == [reply];
  }

  lemma HandleOne(cx: Config, tid: nat, state: SendState, p: Packet)
    requires cx.Valid() && (p.XferAck? || p.XferRefuse?)
    ensures var r := if p.XferAck? then OnAck(cx, tid, state, p.tid, p.len, true) else OnRefuse(tid, state, p.tid, true);
      HandleAll(cx, tid, state, [p]) == if r.Error? then Error else Ok(r.state, r.effects)
  {
    hide OnAck, OnRefuse;
    assert [p][0] == p && [p][1..] == [];
    var r := if p.XferAck? then OnAck(cx, tid, state, p.tid, p.len, true) else OnRefuse(tid, state, p.tid, true);
    if r.Ok? {
      assert HandleAll(cx, tid, r.state, [p][1..]) == Ok(r.state, NONE);
      var e := r.effects;
      assert e.packets + [] == e.packets && e.parsed + [] == e.parsed && e.replies + [] == e.replies;
      assert e.Then(NONE) == e;
    }
  }

  /** The hypothesis of the two-party theorem is necessary: with and without asking first, a transfer comes to its end
      without an error exactly when its bytes decode as a bundle, and then the sender reports success and the receiver
      has been handed exactly these bytes, unless it declined them as known. Otherwise an asking sender stops at once,
      and any other gets the final ack followed by a refusal it does not expect any more. */
  lemma ExchangeExactly(cx: Config, cy: Config, bc: BundleCodec, known: seq<Byte> -> bool, tid: nat, job: Job)
    requires Matching(cx, cy) && job.data != [] && !TooLarge(cx, job)
    ensures Exchange(cx, cy, bc, known, tid, job) ==
      if !bc.decodes(job.data) then Failed
      else Exchanged(SendIdle, RecvIdle, if Declined(cx, cy, bc, known, job) then [] else [job.data],
                     [Reply(job.token, Successful)])
  {
    hide Round, Segments;
    if cx.refuseExisting {
      RequestRound(cx, cy, bc, known, tid, job);
      DataRound(cx, cy, bc, known, tid, job, Receiving([], tid), false);
    } else {
      DataRound(cx, cy, bc, known, tid, job, RecvIdle, true);
    }
    QuietRound(cx, cy, bc, known, tid,
      Exchanged(SendIdle, RecvIdle, if Declined(cx, cy, bc, known, job) then [] else [job.data],
                [Reply(job.token, Successful)]));
  }
}
