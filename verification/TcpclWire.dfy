/** `TcpClPacket::{write, read}` as they run: against a writer that is appended to and a reader that advances. */
module TcpclWire {
  import opened Bytes
  import opened TcpclPacket
  import opened TcpclCodec

  datatype Result<+T> = Success(value: T) | Failure(error: CodecError) {
    predicate IsFailure() {
      Failure?
    }

    function PropagateFailure<U>(): Result<U>
      requires Failure?
    {
      Failure(error)
    }

    function Extract(): T
      requires Success?
    {
      value
    }
  }

  /** `r` and the bytes still pending are those of the parse result `p`; after an error nothing more is read. */
  predicate Follows<T(==)>(r: Result<T>, p: Parsed<T>, pending: seq<Byte>) {
    if p.Ok? then r == Success(p.value) && pending == p.rest else r == Failure(p.error)
  }

  class Reader {
    var pending: seq<Byte>

    constructor (bytes: seq<Byte>)
      ensures pending == bytes
    {
      pending := bytes;
    }

    method ReadExact(n: nat) returns (r: Result<seq<Byte>>)
      modifies this
      ensures Follows(r, Take(old(pending), n), pending)
    {
      if n <= |pending| {
        r := Success(pending[..n]);
        pending := pending[n..];
      } else {
        r := Failure(ReadError);
      }
    }

    method ReadUint(n: nat) returns (r: Result<nat>)
      modifies this
      ensures Follows(r, TakeUint(old(pending), n), pending)
    {
      var bytes :- ReadExact(n);
      r := Success(Value(bytes));
    }

    method ReadItem(remaining: nat) returns (r: Result<RawItem>)
      modifies this
      ensures Follows(r, ParseItem(old(pending), remaining), pending)
    {
      var flag :- ReadExact(1);
      var itemType :- ReadUint(2);
      var itemLen :- ReadUint(2);
      if remaining < MIN_ITEM_SIZE + itemLen {
        return Failure(MalformedTransferExtension);
      }
      var data :- ReadExact(itemLen);
      r := Success(RawItem(flag[0], itemType, data));
    }

    method ReadItems(listLen: nat) returns (r: Result<seq<ExtItem>>)
      modifies this
      ensures Follows(r, ParseItems(old(pending), listLen), pending)
    {
      hide ParseItem;
      var extLen: nat, extensions: seq<ExtItem> := listLen, [];
      assert forall xs: seq<ExtItem> :: extensions + xs == xs;
      while extLen >= MIN_ITEM_SIZE
        invariant var whole, more := ParseItems(old(pending), listLen), ParseItems(pending, extLen);
          whole == if more.Ok? then Ok(extensions + more.value, more.rest) else more
      {
        var x :- ReadItem(extLen);
        extLen := extLen - MIN_ITEM_SIZE - |x.data|;
        ghost var more := ParseItems(pending, extLen);
        assert more.Ok? ==> extensions + (KnownItem(x) + more.value) == (extensions + KnownItem(x)) + more.value;
        if x.itemType == 1 {
          extensions := extensions + [ExtItem(LowBit(x.flag as nat), BundleID, x.data)];
        }
      }
      var _ :- ReadExact(extLen);
      assert extensions + [] == extensions;
      r := Success(extensions);
    }

    method ReadSegment() returns (r: Result<Packet>)
      modifies this
      ensures Follows(r, ParseSegment(old(pending)), pending)
    {
      hide Value, ParseItems;
      var flagByte :- ReadUint(1);
      var flags := SegFlagsOf(flagByte);
      var tid :- ReadUint(8);
      var extensions := [];
      if flags.start {
        var extLen :- ReadUint(4);
        extensions :- ReadItems(extLen);
      }
      var len :- ReadUint(8);
      if len > SEGMENT_MRU {
        return Failure(SegmentTooLarge(len));
      }
      var buf :- ReadExact(len);
      r := Success(XferSeg(flags, tid, len, buf, extensions));
    }

    method ReadSessInit() returns (r: Result<Packet>)
      modifies this
      ensures Follows(r, ParseSessInit(old(pending)), pending)
    {
      hide Value;
      var keepalive :- ReadUint(2);
      var segmentMru :- ReadUint(8);
      var transferMru :- ReadUint(8);
      var idLen :- ReadUint(2);
      var nodeId :- ReadExact(idLen);
      var extItems :- ReadUint(4);
      if extItems != 0 {
        return Failure(SessionExtensionItemsUnsupported);
      }
      r := Success(SessInit(keepalive, segmentMru, transferMru, nodeId));
    }

    /** Reads one packet; the result and the reader position are those of `ParsePacket`. */
    method Read() returns (r: Result<Packet>)
      modifies this
      ensures Follows(r, ParsePacket(old(pending)), pending)
    {
      hide Value, ParseSegment, ParseSessInit;
      var mtype :- ReadUint(1);
      if mtype == 1 {
        r := ReadSegment();
      } else if mtype == 2 {
        var flags :- ReadUint(1);
        var tid :- ReadUint(8);
        var len :- ReadUint(8);
        r := Success(XferAck(SegFlagsOf(flags), tid, len));
      } else if mtype == 3 {
        var code :- ReadUint(1);
        var reason := RefuseOf(code);
        if reason.Err? {
          return Failure(reason.error);
        }
        var tid :- ReadUint(8);
        r := Success(XferRefuse(reason.value, tid));
      } else if mtype == 4 {
        r := Success(KeepAlive);
      } else if mtype == 5 {
        var flags :- ReadUint(1);
        var code :- ReadUint(1);
        var reason := TermOf(code);
        r := if reason.Ok? then Success(SessTerm(LowBit(flags), reason.value)) else Failure(reason.error);
      } else if mtype == 6 {
        var code :- ReadUint(1);
        var header :- ReadUint(1);
        var reason := RejectOf(code);
        r := if reason.Ok? then Success(MsgReject(reason.value, header)) else Failure(reason.error);
      } else if mtype == 7 {
        r := ReadSessInit();
      } else if mtype == MAGIC[0] as nat {
        var header :- ReadExact(5);
        if header[..3] != MAGIC[1..] {
          return Failure(InvalidMagic);
        }
        if header[3] != 4 {
          return Failure(UnsupportedVersion);
        }
        r := Success(ContactHeader(LowBit(header[4] as nat)));
      } else {
        r := Failure(UnknownPacketType(mtype));
      }
    }
  }

  class Writer {
    var sent: seq<Byte>

    constructor ()
      ensures sent == []
    {
      sent := [];
    }

    method WriteAll(bytes: seq<Byte>)
      modifies this
      ensures sent == old(sent) + bytes
    {
      sent := sent + bytes;
    }

    method WriteUint(v: nat, n: nat)
      modifies this
      ensures sent == old(sent) + BigEndian(v, n)
    {
      sent := sent + BigEndian(v, n);
    }

    method WriteExtensions(items: seq<ExtItem>)
      modifies this
      ensures sent == old(sent) + EncodeExtensions(items)
    {
      hide BigEndian, RawAll, ToRaws, ItemsSize;
      var extData, len := CollectItems(items);
      WriteUint(len, 4);
      assert BigEndian(len, 4) + [] == BigEndian(len, 4);
      if len > 0 {
        WriteAll(extData);
        assert old(sent) + BigEndian(len, 4) + extData == old(sent) + (BigEndian(len, 4) + extData);
      }
    }

    method WriteSegment(p: Packet)
      requires p.XferSeg?
      modifies this
      ensures sent == old(sent) + Encode(p)
    {
      hide *;
      SegmentEncoding(p);
      ghost var fixed := [1, SegFlagsByte(p.flags)] + BigEndian(p.tid, 8);
      ghost var list := if p.flags.start then EncodeExtensions(p.extensions) else [];
      ghost var body := BigEndian(p.len, 8) + (if p.len > 0 then p.buf else []);
      ghost var s := sent;
      WriteAll([1]);
      WriteAll([SegFlagsByte(p.flags)]);
      WriteUint(p.tid, 8);
      assert sent == s + fixed;
      if p.flags.start {
        WriteExtensions(p.extensions);
      }
      assert sent == s + fixed + list;
      WriteUint(p.len, 8);
      if p.len > 0 {
        WriteAll(p.buf);
      }
      assert sent == s + fixed + list + body;
      assert s + fixed + list + body == s + (fixed + list + body);
    }

    method WriteSessInit(p: Packet)
      requires p.SessInit?
      modifies this
      ensures sent == old(sent) + Encode(p)
    {
      hide BigEndian;
      WriteAll([7]);
      WriteUint(p.keepalive, 2);
      assert sent == old(sent) + ([7] + BigEndian(p.keepalive, 2));
      WriteUint(p.segmentMru, 8);
      assert sent == old(sent) + ([7] + BigEndian(p.keepalive, 2) + BigEndian(p.segmentMru, 8));
      WriteUint(p.transferMru, 8);
      WriteUint(|p.nodeId|, 2);
      ghost var fixed := [7] + BigEndian(p.keepalive, 2) + BigEndian(p.segmentMru, 8)
        + BigEndian(p.transferMru, 8) + BigEndian(|p.nodeId|, 2);
      assert sent == old(sent) + fixed;
      WriteAll(p.nodeId);
      WriteUint(0, 4);
      assert sent == old(sent) + (fixed + p.nodeId + BigEndian(0, 4));
    }

    method WriteFeedback(p: Packet)
      requires p.XferAck? || p.XferRefuse? || p.MsgReject?
      modifies this
      ensures sent == old(sent) + Encode(p)
    {
      hide BigEndian;
      ghost var s := sent;
      match p
      case XferAck(flags, tid, len) =>
        WriteAll([2]);
        WriteAll([SegFlagsByte(flags)]);
        WriteUint(tid, 8);
        WriteUint(len, 8);
        assert s + [2] + [SegFlagsByte(flags)] + BigEndian(tid, 8) + BigEndian(len, 8) == s + Encode(p);
      case XferRefuse(reason, tid) =>
        WriteAll([3]);
        WriteAll([RefuseCode(reason)]);
        WriteUint(tid, 8);
        assert s + [3] + [RefuseCode(reason)] + BigEndian(tid, 8) == s + Encode(p);
      case MsgReject(reason, header) =>
        WriteAll([6]);
        WriteAll([RejectCode(reason)]);
        WriteUint(header, 1);
        assert s + [6] + [RejectCode(reason)] + BigEndian(header, 1) == s + Encode(p);
    }

    /** Appends exactly the encoding of the packet. */
    method Write(p: Packet)
      modifies this
      ensures sent == old(sent) + Encode(p)
    {
      hide BigEndian, EncodeExtensions, EncodeBody;
      ghost var s := sent;
      match p
      case SessInit(_, _, _, _) =>
        WriteSessInit(p);
      case XferSeg(_, _, _, _, _) =>
        WriteSegment(p);
      case SessTerm(reply, reason) =>
        WriteAll([5]);
        WriteAll([FlagByte(reply)]);
        WriteAll([TermCode(reason)]);
        assert s + [5] + [FlagByte(reply)] + [TermCode(reason)] == s + Encode(p);
      case KeepAlive =>
        WriteAll([4]);
      case ContactHeader(canTls) =>
        WriteAll(MAGIC);
        WriteAll([4]);
        WriteAll([FlagByte(canTls)]);
        assert s + MAGIC + [4] + [FlagByte(canTls)] == s + Encode(p);
      case _ =>
        WriteFeedback(p);
    }
  }

  /** The extension list is collected first; its length is accumulated in 32 bits. */
  method CollectItems(items: seq<ExtItem>) returns (extData: seq<Byte>, len: nat)
    ensures extData == RawAll(ToRaws(items)) && len == ItemsSize(items) % 0x1_0000_0000
  {
    hide *;
    extData, len := [], 0;
    ghost var all, size := RawAll(ToRaws(items)), ItemsSize(items);
    assert items[0..] == items;
    assert extData + all == all;
    WrappedEnds(size);
    for i := 0 to |items|
      invariant extData + RawAll(ToRaws(items[i..])) == all
      invariant Wrap(len + ItemsSize(items[i..])) == Wrap(size) && len == Wrap(len)
    {
      ItemsTail(items, i);
      ghost var more := RawAll(ToRaws(items[i + 1..]));
      assert extData + (RawBytes(ToRaw(items[i])) + more) == (extData + RawBytes(ToRaw(items[i]))) + more;
      extData := extData + RawBytes(ToRaw(items[i]));
      WrappedSum(len, MIN_ITEM_SIZE + |items[i].data|, ItemsSize(items[i + 1..]));
      len := Wrap(len + (MIN_ITEM_SIZE + |items[i].data|));
    }
    assert items[|items|..] == [];
    NoItems();
    assert extData + [] == extData;
  }

  lemma SegmentEncoding(p: Packet)
    requires p.XferSeg?
    ensures Encode(p) == [1, SegFlagsByte(p.flags)] + BigEndian(p.tid, 8)
      + (if p.flags.start then EncodeExtensions(p.extensions) else [])
      + (BigEndian(p.len, 8) + (if p.len > 0 then p.buf else []))
  {
    hide BigEndian, EncodeExtensions, SegFlagsByte;
  }

  lemma NoItems()
    ensures RawAll(ToRaws([])) == [] && ItemsSize([]) == 0
  {}

  lemma WrappedEnds(n: nat)
    ensures Wrap(0) == 0 && Wrap(n) == n % 0x1_0000_0000
  {}

  lemma ItemsTail(items: seq<ExtItem>, i: nat)
    requires i < |items|
    ensures RawAll(ToRaws(items[i..])) == RawBytes(ToRaw(items[i])) + RawAll(ToRaws(items[i + 1..]))
    ensures ItemsSize(items[i..]) == MIN_ITEM_SIZE + |items[i].data| + ItemsSize(items[i + 1..])
  {
    hide RawBytes;
    assert items[i..][1..] == items[i + 1..];
    assert ToRaws(items[i..])[1..] == ToRaws(items[i + 1..]);
  }

  /** The length counter has 32 bits. */
  function Wrap(n: nat): nat {
    n % 0x1_0000_0000
  }

  lemma WrappedSum(a: nat, b: nat, c: nat)
    ensures Wrap(Wrap(a + b) + c) == Wrap(a + (b + c)) && Wrap(Wrap(a + b)) == Wrap(a + b)
  {
    var m := 0x1_0000_0000;
    var q := (a + b) / m;
    assert a + b == q * m + (a + b) % m;
  }
}
