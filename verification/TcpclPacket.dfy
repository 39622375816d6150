/** TCPCLv4 messages: the records, flag bits and codes of proto.rs (sections 4.2 to 6.1 of RFC 9174). */
module TcpclPacket {
  import opened Bytes

  /** XFER_SEGMENT flags: END is bit 0, START is bit 1. */
  datatype SegFlags = SegFlags(start: bool, end: bool)

  datatype TermReason = TermUnknown | IdleTimeout | VersionMismatch | Busy | ContactFailure | ResourceExhaustion

  datatype RefuseReason = RefuseUnknown | Completed | NoResources | Retransmit | NotAcceptable | ExtensionFailure

  datatype RejectReason = TypeUnknown | Unsupported | Unexpected

  datatype ItemType = BundleID

  /** A transfer extension item (section 5.2.5 of RFC 9174). */
  datatype ExtItem = ExtItem(critical: bool, itemType: ItemType, data: seq<Byte>)

  datatype Packet =
    | ContactHeader(canTls: bool)
    | SessInit(keepalive: nat, segmentMru: nat, transferMru: nat, nodeId: seq<Byte>)
    | SessTerm(reply: bool, termReason: TermReason)
    | XferSeg(flags: SegFlags, tid: nat, len: nat, buf: seq<Byte>, extensions: seq<ExtItem>)
    | XferAck(flags: SegFlags, tid: nat, len: nat)
    | XferRefuse(refuseReason: RefuseReason, tid: nat)
    | KeepAlive
    | MsgReject(rejectReason: RejectReason, header: nat)

  /** The segment size a session announces and the largest one its reader takes. */
  const SEGMENT_MRU: nat := 64000

  const MIN_ITEM_SIZE: nat := 5

  function ItemsSize(items: seq<ExtItem>): nat {
    if items == [] then 0 else MIN_ITEM_SIZE + |items[0].data| + ItemsSize(items[1..])
  }

  /** Packets whose fields fit their wire fields and whose announced lengths are the real ones. */
  predicate WellFormed(p: Packet) {
    match p
    case ContactHeader(_) => true
    case SessInit(keepalive, segmentMru, transferMru, nodeId) =>
      keepalive < Pow256(2) && segmentMru < Pow256(8) && transferMru < Pow256(8) && |nodeId| < Pow256(2)
    case SessTerm(_, _) => true
    case XferSeg(flags, tid, len, buf, extensions) =>
      && tid < Pow256(8) && len == |buf| && len <= SEGMENT_MRU
      && (extensions != [] ==> flags.start)
      && ItemsSize(extensions) < Pow256(4)
      && (forall i :: 0 <= i < |extensions| ==> |extensions[i].data| < Pow256(2))
    case XferAck(_, tid, len) => tid < Pow256(8) && len < Pow256(8)
    case XferRefuse(_, tid) => tid < Pow256(8)
    case KeepAlive => true
    case MsgReject(_, header) => header < Pow256(1)
  }
}
