/** The session task: `TcpSession` with its fields updated in place, proved against the two machines. */
module TcpclTask {
  import opened Bytes
  import opened TcpclPacket
  import opened TcpclSession

  class TcpSession {
    const cfg: Config
    const bc: BundleCodec
    var recv: RecvState
    var send: SendState
    var lastTid: nat
    // what left the session: packets for the writer, strings for bundle parsing, results for requesters
    var written: seq<Packet>
    var parsed: seq<seq<Byte>>
    var replies: seq<Reply>

    function View(): Session
      reads this
    {
      Session(recv, send, lastTid)
    }

    function Done(): Effects
      reads this
    {
      Effects(written, parsed, replies)
    }

    constructor (cfg: Config, bc: BundleCodec)
      ensures this.cfg == cfg && this.bc == bc && View() == FRESH && Done() == NONE
    {
      this.cfg, this.bc := cfg, bc;
      recv, send, lastTid := RecvIdle, SendIdle, 0;
      written, parsed, replies := [], [], [];
    }

    method Write(p: Packet)
      modifies this`written
      ensures written == old(written) + [p]
    {
      written := written + [p];
    }

    method Respond(token: nat, result: TransferResult)
      modifies this`replies
      ensures replies == old(replies) + [Reply(token, result)]
    {
      replies := replies + [Reply(token, result)];
    }

    method ProcessReceived(data: seq<Byte>, tid: nat) returns (state: RecvState)
      modifies this`written, this`parsed
      ensures state == ProcessBundle(bc, data, tid).0
      ensures Done() == old(Done()).Then(ProcessBundle(bc, data, tid).1)
    {
      parsed := parsed + [data];
      if !bc.decodes(data) {
        Write(XferRefuse(NotAcceptable, tid));
      }
      state := RecvIdle;
    }

    method RefuseOversizedTransfer(tid: nat, flags: SegFlags) returns (state: RecvState)
      modifies this`written
      ensures state == RefuseOversized(tid, flags).0
      ensures Done() == old(Done()).Then(RefuseOversized(tid, flags).1)
    {
      Write(XferRefuse(NoResources, tid));
      state := if flags.end then RecvIdle else Discarding(tid);
    }

    /** The loop over the extensions of a START segment. */
    method FindKnown(seg: Packet, known: seq<Byte> -> bool) returns (found: bool)
      requires seg.XferSeg? && seg.flags.start
      ensures found == AsksForKnown(cfg, known, seg)
    {
      for i := 0 to |seg.extensions|
        invariant !cfg.refuseExisting || forall j :: 0 <= j < i ==> !known(seg.extensions[j].data)
      {
        if cfg.refuseExisting && known(seg.extensions[i].data) {
          return true;
        }
      }
      found := false;
    }

    method AcknowledgeAndContinue(buffer: seq<Byte>, ack: Packet, tid: nat, end: bool)
      modifies this`recv, this`written, this`parsed
      ensures var r := AckAndContinue(bc, buffer, ack, tid, end);
        recv == r.state && Done() == old(Done()).Then(r.effects)
    {
      Write(ack);
      if end {
        recv := ProcessReceived(buffer, tid);
        assert old(written) + ([ack] + ProcessBundle(bc, buffer, tid).1.packets) == written;
      } else {
        recv := Receiving(buffer, tid);
      }
    }

    method ReceiveSegment(seg: Packet, known: seq<Byte> -> bool) returns (ok: bool)
      requires seg.XferSeg?
      modifies this`recv, this`written, this`parsed
      ensures var r := OnSegment(cfg, bc, known, old(recv), seg);
        ok == r.Ok? && Done() == (if ok then old(Done()).Then(r.effects) else old(Done()))
        && (ok ==> recv == r.state)
    {
      if recv.Discarding? && recv.tid != seg.tid {
        recv := RecvIdle;
      }
      match recv
      case Receiving(buffer, tid) =>
        if seg.flags.start || tid != seg.tid {
          return false;
        }
        if |buffer| + |seg.buf| > cfg.localTransferMru {
          recv := RefuseOversizedTransfer(tid, seg.flags);
          return true;
        }
        var grown := buffer + seg.buf;
        AcknowledgeAndContinue(grown, Ack(NO_FLAGS, seg.tid, |grown|), seg.tid, seg.flags.end);
        ok := true;
      case RecvIdle =>
        if (seg.flags.end && !seg.flags.start) || seg.flags == NO_FLAGS {
          return false;
        }
        var knownBundle := FindKnown(seg, known);
        if knownBundle {
          Write(XferRefuse(NotAcceptable, seg.tid));
          return true;
        }
        if |seg.buf| > cfg.localTransferMru {
          recv := RefuseOversizedTransfer(seg.tid, seg.flags);
          return true;
        }
        AcknowledgeAndContinue(seg.buf, Ack(seg.flags, seg.tid, seg.len), seg.tid, seg.flags.end);
        ok := true;
      case Discarding(tid) =>
        recv := if seg.flags.end then RecvIdle else Discarding(tid);
        ok := true;
      case RecvTerminated =>
        ok := false;
    }

    /** Splits the bundle into chunks of the peer's segment MRU and flags the first and the last one. */
    method CutSegments(data: seq<Byte>) returns (segs: seq<Packet>)
      requires cfg.Valid()
      ensures data == [] ==> segs == []
      ensures data != [] ==> segs == Segments(data, cfg.segmentMru, lastTid, !cfg.refuseExisting)
    {
      segs := [];
      var pos := 0;
      while pos < |data|
        invariant 0 <= pos <= |data|
        invariant segs + Plain(data[pos..], cfg.segmentMru, lastTid) == Plain(data, cfg.segmentMru, lastTid)
      {
        var next := if |data| - pos <= cfg.segmentMru then |data| else pos + cfg.segmentMru;
        PlainCons(data, pos, next, cfg.segmentMru, lastTid);
        segs := segs + [Segment(lastTid, false, false, data[pos..next])];
        pos := next;
      }
      assert data[pos..] == [];
      assert segs + [] == segs;
      if segs == [] {
        return;
      }
      PlainFlagged(data, cfg.segmentMru, lastTid, !cfg.refuseExisting);
      if !cfg.refuseExisting {
        segs := segs[0 := WithStart(segs[0])];
      }
      segs := segs[|segs| - 1 := WithEnd(segs[|segs| - 1])];
    }

    /** `send_bundle`: writes the segments and waits for the acks. */
    method SendSegments(job: Job, listening: bool) returns (ok: bool)
      requires cfg.Valid()
      modifies this`send, this`written, this`replies
      ensures var r := SendBundle(cfg, lastTid, job, listening);
        ok == r.Ok? && (ok ==> send == r.state && Done() == old(Done()).Then(r.effects))
    {
      var segs := CutSegments(job.data);
      hide Segments;
      if segs == [] {
        if !listening {
          return false;
        }
        Respond(job.token, Failure);
        assert written == old(written) + [] && parsed == old(parsed) + [];
        send := SendIdle;
        return true;
      }
      for i := 0 to |segs|
        invariant written == old(written) + segs[..i] && replies == old(replies)
      {
        Write(segs[i]);
        assert segs[..i + 1] == segs[..i] + [segs[i]];
      }
      assert segs[..|segs|] == segs;
      assert parsed == old(parsed) + [] && replies == old(replies) + [];
      send := Sending(|job.data|, job.token);
      ok := true;
    }

    /** `receive` and the error handling around it: after an error both machines are terminated. */
    method Receive(p: Packet, env: Surroundings) returns (ok: bool)
      requires cfg.Valid()
      modifies this
      ensures var r := OnPacket(cfg, bc, env, old(View()), p);
        ok == r.Ok? && (if ok then View() == r.state && Done() == old(Done()).Then(r.effects) else Terminated(View()))
    {
      hide OnSegment, SendBundle, Segments;
      assert old(Done()).Then(NONE) == old(Done());
      ok := false;
      match p {
        case SessTerm(reply, reason) =>
          if !reply {
            Write(SessTerm(true, reason));
          }
          recv, send, ok := RecvTerminated, SendTerminated, true;
        case XferSeg(_, _, _, _, _) =>
          ok := ReceiveSegment(p, env.known);
        case XferAck(_, tid, len) =>
          match send {
            case TransferRequest(data, token) =>
              if tid == lastTid {
                ok := SendSegments(Job(data, token), env.listening);
              }
            case Sending(total, token) =>
              if tid == lastTid {
                if len < total {
                  ok := true;
                } else if env.listening {
                  Respond(token, Successful);
                  assert Done() == old(Done()).Then(Replies(token, Successful));
                  send, ok := SendIdle, true;
                }
              }
            case _ =>
          }
        case XferRefuse(_, tid) =>
          if (send.TransferRequest? || send.Sending?) && tid == lastTid && env.listening {
            Respond(send.token, if send.Sending? then Failure else Successful);
            assert Done() == old(Done()).Then(Replies(send.token, if send.Sending? then Failure else Successful));
            send, ok := SendIdle, true;
          }
        case _ =>
      }
      if !ok {
        recv, send := RecvTerminated, SendTerminated;
      }
    }

    /** `send`; the loop in `run` only takes a bundle from the queue while the send machine is idle. */
    method Send(job: Job, listening: bool) returns (ok: bool)
      requires cfg.Valid() && send.SendIdle?
      modifies this
      ensures var r := OnJob(cfg, bc, old(View()), job, listening);
        ok == r.Ok? && (if ok then View() == r.state && Done() == old(Done()).Then(r.effects) else Terminated(View()))
    {
      hide SendBundle, Segments;
      if |job.data| > cfg.remoteTransferMru {
        if listening {
          Respond(job.token, Failure);
        }
        return true;
      }
      lastTid := lastTid + 1;
      if cfg.refuseExisting {
        ok := bc.decodes(job.data);
        if ok {
          Write(Request(lastTid, bc.idOf(job.data)));
          send := TransferRequest(job.data, job.token);
        }
      } else {
        ok := SendSegments(job, listening);
      }
      if !ok {
        recv, send := RecvTerminated, SendTerminated;
      }
    }
  }

  // ---------------------------------------------------------------- chunking with flags added afterwards

  /** The chunks of the data as segments without flags. */
  function Plain(data: seq<Byte>, size: nat, tid: nat): seq<Packet>
    requires size > 0
    decreases |data|
  {
    if data == [] then []
    else if |data| <= size then [Segment(tid, false, false, data)]
    else [Segment(tid, false, false, data[..size])] + Plain(data[size..], size, tid)
  }

  lemma PlainCons(data: seq<Byte>, pos: nat, next: nat, size: nat, tid: nat)
    requires size > 0 && pos < |data|
    requires next == if |data| - pos <= size then |data| else pos + size
    ensures Plain(data[pos..], size, tid) == [Segment(tid, false, false, data[pos..next])] + Plain(data[next..], size, tid)
  {
    assert data[pos..][..next - pos] == data[pos..next] && data[pos..|data|] == data[pos..];
    assert data[pos..][next - pos..] == data[next..];
  }

  function WithStart(p: Packet): Packet
    requires p.XferSeg?
  {
    XferSeg(SegFlags(true, p.flags.end), p.tid, p.len, p.buf, p.extensions)
  }

  function WithEnd(p: Packet): Packet
    requires p.XferSeg?
  {
    XferSeg(SegFlags(p.flags.start, true), p.tid, p.len, p.buf, p.extensions)
  }

  lemma {:induction false} PlainFlagged(data: seq<Byte>, size: nat, tid: nat, start: bool)
    requires size > 0 && data != []
    ensures var plain := Plain(data, size, tid);
      && plain != [] && AllSegments(plain)
      && var flagged := if start then plain[0 := WithStart(plain[0])] else plain;
      && flagged[|plain| - 1].XferSeg?
      && flagged[|plain| - 1 := WithEnd(flagged[|plain| - 1])] == Segments(data, size, tid, start)
    decreases |data|
  {
    if |data| > size {
      PlainFlagged(data[size..], size, tid, false);
      var plain, tail := Plain(data, size, tid), Plain(data[size..], size, tid);
      assert plain == [Segment(tid, false, false, data[..size])] + tail;
      assert Segments(data, size, tid, start)
        == [Segment(tid, start, false, data[..size])] + Segments(data[size..], size, tid, false);
    }
  }
}
