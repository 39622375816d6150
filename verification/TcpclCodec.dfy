/** The hand-written printer and parser of TCPCLv4 messages, net.rs. */
module TcpclCodec {
  import opened Bytes
  import opened TcpclPacket

  datatype CodecError =
    | ReadError
    | UnknownPacketType(code: nat)
    | UnknownReasonCode(code: nat)
    | SessionExtensionItemsUnsupported
    | InvalidMagic
    | UnsupportedVersion
    | MalformedTransferExtension
    | SegmentTooLarge(len: nat)

  /** A parse result: the value and the bytes not consumed, or an error. */
  datatype Parsed<+T> = Ok(value: T, rest: seq<Byte>) | Err(error: CodecError) {
    predicate IsFailure() {
      Err?
    }

    function PropagateFailure<U>(): Parsed<U>
      requires Err?
    {
      Err(error)
    }

    function Extract(): (T, seq<Byte>)
      requires Ok?
    {
      (value, rest)
    }
  }

  // ---------------------------------------------------------------- codes and flags

  function FlagByte(low: bool): Byte {
    if low then 1 else 0
  }

  function LowBit(b: nat): bool {
    b % 2 == 1
  }

  function SegFlagsByte(f: SegFlags): Byte {
    (if f.end then 1 else 0) + (if f.start then 2 else 0)
  }

  /** `from_bits_truncate`: unknown bits are dropped. */
  function SegFlagsOf(b: nat): SegFlags {
    SegFlags(b / 2 % 2 == 1, b % 2 == 1)
  }

  function TermCode(r: TermReason): Byte {
    match r
    case TermUnknown => 0
    case IdleTimeout => 1
    case VersionMismatch => 2
    case Busy => 3
    case ContactFailure => 4
    case ResourceExhaustion => 5
  }

  function TermOf(b: nat): Parsed<TermReason> {
    if b == 0 then Ok(TermUnknown, []) else if b == 1 then Ok(IdleTimeout, [])
    else if b == 2 then Ok(VersionMismatch, []) else if b == 3 then Ok(Busy, [])
    else if b == 4 then Ok(ContactFailure, []) else if b == 5 then Ok(ResourceExhaustion, [])
    else Err(UnknownReasonCode(b))
  }

  function RefuseCode(r: RefuseReason): Byte {
    match r
    case RefuseUnknown => 0
    case Completed => 1
    case NoResources => 2
    case Retransmit => 3
    case NotAcceptable => 4
    case ExtensionFailure => 5
  }

  function RefuseOf(b: nat): Parsed<RefuseReason> {
    if b == 0 then Ok(RefuseUnknown, []) else if b == 1 then Ok(Completed, [])
    else if b == 2 then Ok(NoResources, []) else if b == 3 then Ok(Retransmit, [])
    else if b == 4 then Ok(NotAcceptable, []) else if b == 5 then Ok(ExtensionFailure, [])
    else Err(UnknownReasonCode(b))
  }

  function RejectCode(r: RejectReason): Byte {
    match r
    case TypeUnknown => 1
    case Unsupported => 2
    case Unexpected => 3
  }

  function RejectOf(b: nat): Parsed<RejectReason> {
    if b == 1 then Ok(TypeUnknown, []) else if b == 2 then Ok(Unsupported, [])
    else if b == 3 then Ok(Unexpected, []) else Err(UnknownReasonCode(b))
  }

  // ---------------------------------------------------------------- printer

  /** An extension item as it stands on the wire, of any type. */
  datatype RawItem = RawItem(flag: Byte, itemType: nat, data: seq<Byte>)

  function RawBytes(x: RawItem): (s: seq<Byte>)
    ensures |s| == MIN_ITEM_SIZE + |x.data|
  {
    [x.flag] + BigEndian(x.itemType, 2) + BigEndian(|x.data|, 2) + x.data
  }

  function RawAll(xs: seq<RawItem>): seq<Byte> {
    if xs == [] then [] else RawBytes(xs[0]) + RawAll(xs[1..])
  }

  function ToRaw(x: ExtItem): RawItem {
    RawItem(FlagByte(x.critical), 1, x.data)
  }

  function ToRaws(items: seq<ExtItem>): (xs: seq<RawItem>)
    ensures |xs| == |items| && forall i :: 0 <= i < |items| ==> xs[i] == ToRaw(items[i])
  {
    if items == [] then [] else [ToRaw(items[0])] + ToRaws(items[1..])
  }

  /** The item list of a START segment; its length field is computed in 32-bit arithmetic. */
  function EncodeExtensions(items: seq<ExtItem>): seq<Byte> {
    var len := ItemsSize(items) % 0x1_0000_0000;
    BigEndian(len, 4) + (if len > 0 then RawAll(ToRaws(items)) else [])
  }

  function EncodeBody(len: nat, buf: seq<Byte>): seq<Byte> {
    BigEndian(len, 8) + (if len > 0 then buf else [])
  }

  const MAGIC: seq<Byte> := [0x64, 0x74, 0x6e, 0x21]

  function Encode(p: Packet): seq<Byte> {
    match p
    case SessInit(keepalive, segmentMru, transferMru, nodeId) =>
      [7] + BigEndian(keepalive, 2) + BigEndian(segmentMru, 8) + BigEndian(transferMru, 8)
      + BigEndian(|nodeId|, 2) + nodeId + BigEndian(0, 4)
    case SessTerm(reply, reason) => [5, FlagByte(reply), TermCode(reason)]
    case XferSeg(flags, tid, len, buf, extensions) =>
      [1, SegFlagsByte(flags)] + BigEndian(tid, 8)
      + (if flags.start then EncodeExtensions(extensions) else [])
      + EncodeBody(len, buf)
    case XferAck(flags, tid, len) => [2, SegFlagsByte(flags)] + BigEndian(tid, 8) + BigEndian(len, 8)
    case XferRefuse(reason, tid) => [3, RefuseCode(reason)] + BigEndian(tid, 8)
    case KeepAlive => [4]
    case MsgReject(reason, header) => [6, RejectCode(reason)] + BigEndian(header, 1)
    case ContactHeader(canTls) => MAGIC + [4, FlagByte(canTls)]
  }

  function EncodeAll(ps: seq<Packet>): seq<Byte> {
    if ps == [] then [] else Encode(ps[0]) + EncodeAll(ps[1..])
  }

  // ---------------------------------------------------------------- parser

  function Take(s: seq<Byte>, n: nat): Parsed<seq<Byte>> {
    if n <= |s| then Ok(s[..n], s[n..]) else Err(ReadError)
  }

  function TakeUint(s: seq<Byte>, n: nat): Parsed<nat> {
    if n <= |s| then Ok(Value(s[..n]), s[n..]) else Err(ReadError)
  }

  /** One turn of the extension loop; `remaining` is the announced length not yet consumed. */
  function ParseItem(s: seq<Byte>, remaining: nat): (r: Parsed<RawItem>)
    ensures r.Ok? ==> MIN_ITEM_SIZE + |r.value.data| <= remaining
  {
    var (flag, s1) :- Take(s, 1);
    var (itemType, s2) :- TakeUint(s1, 2);
    var (itemLen, s3) :- TakeUint(s2, 2);
    if remaining < MIN_ITEM_SIZE + itemLen then Err(MalformedTransferExtension)
    else
      var (data, s4) :- Take(s3, itemLen);
      Ok(RawItem(flag[0], itemType, data), s4)
  }

  /** Items of unknown type are dropped. */
  function KnownItem(x: RawItem): seq<ExtItem> {
    if x.itemType == 1 then [ExtItem(LowBit(x.flag as nat), BundleID, x.data)] else []
  }

  function ParseItems(s: seq<Byte>, remaining: nat): Parsed<seq<ExtItem>>
    decreases remaining
  {
    if remaining < MIN_ITEM_SIZE then
      var (_, s1) :- Take(s, remaining);
      Ok([], s1)
    else
      var (x, s1) :- ParseItem(s, remaining);
      var (items, s2) :- ParseItems(s1, remaining - MIN_ITEM_SIZE - |x.data|);
      Ok(KnownItem(x) + items, s2)
  }

  function ParseExtensions(s: seq<Byte>, start: bool): Parsed<seq<ExtItem>> {
    if start then
      var (extLen, s1) :- TakeUint(s, 4);
      ParseItems(s1, extLen)
    else Ok([], s)
  }

  function ParseSegment(s: seq<Byte>): Parsed<Packet> {
    var (flagByte, s1) :- TakeUint(s, 1);
    var flags := SegFlagsOf(flagByte);
    var (tid, s2) :- TakeUint(s1, 8);
    var (extensions, s3) :- ParseExtensions(s2, flags.start);
    var (len, s4) :- TakeUint(s3, 8);
    if len > SEGMENT_MRU then Err(SegmentTooLarge(len))
    else
      var (buf, s5) :- Take(s4, len);
      Ok(XferSeg(flags, tid, len, buf, extensions), s5)
  }

  function ParseSessInit(s: seq<Byte>): Parsed<Packet> {
    var (keepalive, s1) :- TakeUint(s, 2);
    var (segmentMru, s2) :- TakeUint(s1, 8);
    var (transferMru, s3) :- TakeUint(s2, 8);
    var (idLen, s4) :- TakeUint(s3, 2);
    var (nodeId, s5) :- Take(s4, idLen);
    var (extItems, s6) :- TakeUint(s5, 4);
    if extItems != 0 then Err(SessionExtensionItemsUnsupported)
    else Ok(SessInit(keepalive, segmentMru, transferMru, nodeId), s6)
  }

  function ParseContactHeader(s: seq<Byte>): Parsed<Packet> {
    var (header, s1) :- Take(s, 5);
    if header[..3] != MAGIC[1..] then Err(InvalidMagic)
    else if header[3] != 4 then Err(UnsupportedVersion)
    else Ok(ContactHeader(LowBit(header[4] as nat)), s1)
  }

  function ParsePacket(s: seq<Byte>): Parsed<Packet> {
    var (mtype, s1) :- TakeUint(s, 1);
    if mtype == 1 then ParseSegment(s1)
    else if mtype == 2 then
      var (flags, s2) :- TakeUint(s1, 1);
      var (tid, s3) :- TakeUint(s2, 8);
      var (len, s4) :- TakeUint(s3, 8);
      Ok(XferAck(SegFlagsOf(flags), tid, len), s4)
    else if mtype == 3 then
      var (code, s2) :- TakeUint(s1, 1);
      var (reason, _) :- RefuseOf(code);
      var (tid, s3) :- TakeUint(s2, 8);
      Ok(XferRefuse(reason, tid), s3)
    else if mtype == 4 then Ok(KeepAlive, s1)
    else if mtype == 5 then
      var (flags, s2) :- TakeUint(s1, 1);
      var (code, s3) :- TakeUint(s2, 1);
      var (reason, _) :- TermOf(code);
      Ok(SessTerm(LowBit(flags), reason), s3)
    else if mtype == 6 then
      var (code, s2) :- TakeUint(s1, 1);
      var (header, s3) :- TakeUint(s2, 1);
      var (reason, _) :- RejectOf(code);
      Ok(MsgReject(reason, header), s3)
    else if mtype == 7 then ParseSessInit(s1)
    else if mtype == MAGIC[0] as nat then ParseContactHeader(s1)
    else Err(UnknownPacketType(mtype))
  }

  /** Reads `n` packets one after the other, as the reader task of a session does. */
  function ParseMany(s: seq<Byte>, n: nat): Parsed<seq<Packet>>
    decreases n
  {
    if n == 0 then Ok([], s)
    else
      var (p, s1) :- ParsePacket(s);
      var (ps, s2) :- ParseMany(s1, n - 1);
      Ok([p] + ps, s2)
  }

  // ---------------------------------------------------------------- round trip

  lemma TakeUintPrefix(v: nat, n: nat, t: seq<Byte>)
    requires v < Pow256(n)
    ensures TakeUint(BigEndian(v, n) + t, n) == Ok(v, t)
  {
    ValueOfBigEndian(v, n);
    var s := BigEndian(v, n) + t;
    assert s[..n] == BigEndian(v, n) && s[n..] == t;
  }

  lemma TakeUintByte(b: Byte, t: seq<Byte>)
    ensures TakeUint([b] + t, 1) == Ok(b as nat, t)
  {
    var s := [b] + t;
    assert s[..1] == [b] && s[1..] == t;
    assert Value([b]) == b as nat;
  }

  lemma TakePrefix(a: seq<Byte>, t: seq<Byte>)
    ensures Take(a + t, |a|) == Ok(a, t)
  {
    var s := a + t;
    assert s[..|a|] == a && s[|a|..] == t;
  }

  lemma TakeUintSplit(s: seq<Byte>, n: nat)
    requires TakeUint(s, n).Ok?
    ensures var r := TakeUint(s, n); r.value < Pow256(n) && s == BigEndian(r.value, n) + r.rest
  {
    ValueBound(s[..n]);
    BigEndianOfValue(s[..n]);
  }

  predicate RawOk(x: RawItem) {
    x.itemType < Pow256(2) && |x.data| < Pow256(2)
  }

  lemma ItemComplete(x: RawItem, n: nat, t: seq<Byte>)
    requires RawOk(x) && n >= MIN_ITEM_SIZE + |x.data|
    ensures ParseItem(RawBytes(x) + t, n) == Ok(x, t)
  {
    hide BigEndian, Value, Pow256, Take, TakeUint;
    var t3 := x.data + t;
    var t2 := BigEndian(|x.data|, 2) + t3;
    var t1 := BigEndian(x.itemType, 2) + t2;
    assert RawBytes(x) + t == [x.flag] + t1;
    TakePrefix([x.flag], t1);
    TakeUintPrefix(x.itemType, 2, t2);
    TakeUintPrefix(|x.data|, 2, t3);
    TakePrefix(x.data, t);
  }

  lemma ItemSound(s: seq<Byte>, n: nat)
    requires ParseItem(s, n).Ok?
    ensures var r := ParseItem(s, n);
      RawOk(r.value) && s == RawBytes(r.value) + r.rest && MIN_ITEM_SIZE + |r.value.data| <= n
  {
    hide BigEndian, Value, Pow256, TakeUint;
    var (flag, s1) := Take(s, 1).Extract();
    TakeUintSplit(s1, 2);
    var (itemType, s2) := TakeUint(s1, 2).Extract();
    TakeUintSplit(s2, 2);
    var (itemLen, s3) := TakeUint(s2, 2).Extract();
    var (data, s4) := Take(s3, itemLen).Extract();
    assert s == [flag[0]] + s1 && s3 == data + s4;
    assert s == [flag[0]] + (BigEndian(itemType, 2) + (BigEndian(itemLen, 2) + (data + s4)));
  }

  /** The items of known type, in order. */
  function KnownItems(xs: seq<RawItem>): seq<ExtItem> {
    if xs == [] then [] else KnownItem(xs[0]) + KnownItems(xs[1..])
  }

  /** `region` is a list of items followed by a fragment too short to be one. */
  predicate Decomposes(region: seq<Byte>, xs: seq<RawItem>, fragment: seq<Byte>) {
    && (forall i :: 0 <= i < |xs| ==> RawOk(xs[i]))
    && |fragment| < MIN_ITEM_SIZE
    && region == RawAll(xs) + fragment
  }

  /** `items` are the known ones of a region that is a list of items and a fragment. */
  ghost predicate KnownRegion(region: seq<Byte>, items: seq<ExtItem>) {
    exists xs, fragment :: Decomposes(region, xs, fragment) && items == KnownItems(xs)
  }

  lemma DecomposesTail(region: seq<Byte>, xs: seq<RawItem>, fragment: seq<Byte>) returns (tail: seq<Byte>)
    requires Decomposes(region, xs, fragment) && xs != []
    ensures RawOk(xs[0]) && region == RawBytes(xs[0]) + tail && Decomposes(tail, xs[1..], fragment)
    ensures KnownItems(xs) == KnownItem(xs[0]) + KnownItems(xs[1..])
  {
    tail := RawAll(xs[1..]) + fragment;
  }

  lemma ParseItemsStep(x: RawItem, s: seq<Byte>, s1: seq<Byte>, n: nat)
    requires n >= MIN_ITEM_SIZE && ParseItem(s, n) == Ok(x, s1)
    ensures var more := ParseItems(s1, n - MIN_ITEM_SIZE - |x.data|);
      more.Ok? ==> ParseItems(s, n) == Ok(KnownItem(x) + more.value, more.rest)
  {
    hide ParseItem, KnownItem;
  }

  lemma {:induction false} RegionComplete(region: seq<Byte>, xs: seq<RawItem>, fragment: seq<Byte>, t: seq<Byte>)
    requires Decomposes(region, xs, fragment)
    ensures ParseItems(region + t, |region|) == Ok(KnownItems(xs), t)
    decreases |xs|
  {
    if xs == [] {
      hide ParseItem, Take;
      TakePrefix(fragment, t);
      assert region == fragment;
    } else {
      hide ParseItem, ParseItems, RawOk, KnownItem, KnownItems, RawBytes, RawAll, Take, Decomposes;
      var tail := DecomposesTail(region, xs, fragment);
      assert region + t == RawBytes(xs[0]) + (tail + t);
      ItemComplete(xs[0], |region|, tail + t);
      RegionComplete(tail, xs[1..], fragment, t);
      ParseItemsStep(xs[0], region + t, tail + t, |region|);
    }
  }

  lemma DecomposesCons(x: RawItem, region: seq<Byte>, xs: seq<RawItem>, fragment: seq<Byte>)
    requires RawOk(x) && Decomposes(region, xs, fragment)
    ensures Decomposes(RawBytes(x) + region, [x] + xs, fragment)
    ensures KnownItems([x] + xs) == KnownItem(x) + KnownItems(xs)
  {
    hide RawBytes, RawOk;
    assert ([x] + xs)[1..] == xs;
    assert RawAll([x] + xs) + fragment == RawBytes(x) + (RawAll(xs) + fragment);
  }

  lemma {:induction false} ItemsSound(s: seq<Byte>, n: nat) returns (xs: seq<RawItem>, fragment: seq<Byte>)
    requires ParseItems(s, n).Ok?
    ensures n <= |s| && ParseItems(s, n).rest == s[n..]
    ensures Decomposes(s[..n], xs, fragment) && ParseItems(s, n).value == KnownItems(xs)
    decreases n
  {
    hide ParseItem, RawOk, KnownItem;
    if n < MIN_ITEM_SIZE {
      xs, fragment := [], s[..n];
      assert RawAll([]) + fragment == fragment;
    } else {
      ItemSound(s, n);
      var (x, s1) := ParseItem(s, n).Extract();
      var size := MIN_ITEM_SIZE + |x.data|;
      var xs', fragment' := ItemsSound(s1, n - size);
      DecomposesCons(x, s1[..n - size], xs', fragment');
      xs, fragment := [x] + xs', fragment';
      assert |RawBytes(x)| == size;
      assert s[n..] == s1[n - size..];
      assert s[..n] == RawBytes(x) + s1[..n - size];
    }
  }

  /** The extension loop stays in sync for arbitrary bytes: it succeeds with `items` and `rest` exactly when
      the announced region is a list of items plus a short fragment, the known ones are `items` and `rest`
      starts right behind the region. */
  lemma ExtensionSync(s: seq<Byte>, n: nat, items: seq<ExtItem>, rest: seq<Byte>)
    ensures ParseItems(s, n) == Ok(items, rest) <==>
      n <= |s| && rest == s[n..] && KnownRegion(s[..n], items)
  {
    hide Decomposes, ParseItems;
    if ParseItems(s, n) == Ok(items, rest) {
      var xs, fragment := ItemsSound(s, n);
    }
    if n <= |s| && rest == s[n..] {
      forall xs, fragment | Decomposes(s[..n], xs, fragment) && items == KnownItems(xs)
        ensures ParseItems(s, n) == Ok(items, rest)
      {
        RegionComplete(s[..n], xs, fragment, rest);
        assert s[..n] + rest == s;
      }
    }
  }

  lemma {:induction false} ItemsLength(items: seq<ExtItem>)
    ensures |RawAll(ToRaws(items))| == ItemsSize(items)
    ensures KnownItems(ToRaws(items)) == items
  {
    if items != [] {
      ItemsLength(items[1..]);
      assert ToRaws(items)[1..] == ToRaws(items[1..]);
      var x := items[0];
      assert x == ExtItem(LowBit(FlagByte(x.critical) as nat), BundleID, x.data);
      assert items == [x] + items[1..];
    }
  }

  lemma ExtensionsRoundTrip(items: seq<ExtItem>, t: seq<Byte>)
    requires forall i :: 0 <= i < |items| ==> |items[i].data| < Pow256(2)
    requires ItemsSize(items) < Pow256(4)
    ensures ParseExtensions(EncodeExtensions(items) + t, true) == Ok(items, t)
  {
    Widths();
    var n, xs := ItemsSize(items), ToRaws(items);
    var region := RawAll(xs);
    ItemsLength(items);
    hide BigEndian, Value, Pow256, TakeUint, ItemsSize, RawAll, KnownItems, ParseItems;
    assert n % 0x1_0000_0000 == n;
    assert region == region + [];
    assert EncodeExtensions(items) + t == BigEndian(n, 4) + (region + t);
    TakeUintPrefix(n, 4, region + t);
    RegionComplete(region, xs, [], t);
  }

  lemma SegmentRoundTrip(p: Packet, t: seq<Byte>)
    requires p.XferSeg? && WellFormed(p)
    ensures ParsePacket(Encode(p) + t) == Ok(p, t)
  {
    hide EncodeExtensions, ItemsSize, ParseItems;
    hide BigEndian, Value, Pow256, Take, TakeUint;
    Widths();
    var t4 := p.buf + t;
    var t3 := BigEndian(p.len, 8) + t4;
    var t2 := (if p.flags.start then EncodeExtensions(p.extensions) else []) + t3;
    var t1 := BigEndian(p.tid, 8) + t2;
    var t0 := [SegFlagsByte(p.flags)] + t1;
    assert Encode(p) + t == [1] + t0;
    TakeUintByte(1, t0);
    TakeUintByte(SegFlagsByte(p.flags), t1);
    TakeUintPrefix(p.tid, 8, t2);
    TakeUintPrefix(p.len, 8, t4);
    TakePrefix(p.buf, t);
    if p.flags.start {
      ExtensionsRoundTrip(p.extensions, t3);
    } else {
      assert t2 == t3;
    }
  }

  lemma SessInitRoundTrip(p: Packet, t: seq<Byte>)
    requires p.SessInit? && WellFormed(p)
    ensures ParsePacket(Encode(p) + t) == Ok(p, t)
  {
    hide BigEndian, Value, Pow256, Take, TakeUint;
    Widths();
    var t5 := BigEndian(0, 4) + t;
    var t4 := p.nodeId + t5;
    var t3 := BigEndian(|p.nodeId|, 2) + t4;
    var t2 := BigEndian(p.transferMru, 8) + t3;
    var t1 := BigEndian(p.segmentMru, 8) + t2;
    var t0 := BigEndian(p.keepalive, 2) + t1;
    assert Encode(p) + t == [7] + t0;
    TakeUintByte(7, t0);
    TakeUintPrefix(p.keepalive, 2, t1);
    TakeUintPrefix(p.segmentMru, 8, t2);
    TakeUintPrefix(p.transferMru, 8, t3);
    TakeUintPrefix(|p.nodeId|, 2, t4);
    TakePrefix(p.nodeId, t5);
    TakeUintPrefix(0, 4, t);
  }

  lemma FeedbackRoundTrip(p: Packet, t: seq<Byte>)
    requires (p.XferAck? || p.XferRefuse?) && WellFormed(p)
    ensures ParsePacket(Encode(p) + t) == Ok(p, t)
  {
    hide BigEndian, Value, Pow256, Take, TakeUint;
    match p
    case XferAck(flags, tid, len) =>
      var t2 := BigEndian(len, 8) + t;
      var t1 := BigEndian(tid, 8) + t2;
      var t0 := [SegFlagsByte(flags)] + t1;
      assert Encode(p) + t == [2] + t0;
      TakeUintByte(2, t0);
      TakeUintByte(SegFlagsByte(flags), t1);
      TakeUintPrefix(tid, 8, t2);
      TakeUintPrefix(len, 8, t);
    case XferRefuse(reason, tid) =>
      var t1 := BigEndian(tid, 8) + t;
      var t0 := [RefuseCode(reason)] + t1;
      assert Encode(p) + t == [3] + t0;
      TakeUintByte(3, t0);
      TakeUintByte(RefuseCode(reason), t1);
      TakeUintPrefix(tid, 8, t);
  }

  lemma ControlRoundTrip(p: Packet, t: seq<Byte>)
    requires (p.KeepAlive? || p.SessTerm? || p.MsgReject?) && WellFormed(p)
    ensures ParsePacket(Encode(p) + t) == Ok(p, t)
  {
    hide BigEndian, Value, Pow256, Take, TakeUint;
    match p
    case KeepAlive =>
      TakeUintByte(4, t);
    case SessTerm(reply, reason) =>
      var t1 := [TermCode(reason)] + t;
      var t0 := [FlagByte(reply)] + t1;
      assert Encode(p) + t == [5] + t0;
      TakeUintByte(5, t0);
      TakeUintByte(FlagByte(reply), t1);
      TakeUintByte(TermCode(reason), t);
    case MsgReject(reason, header) =>
      var t1 := BigEndian(header, 1) + t;
      var t0 := [RejectCode(reason)] + t1;
      assert Encode(p) + t == [6] + t0;
      TakeUintByte(6, t0);
      TakeUintByte(RejectCode(reason), t1);
      TakeUintPrefix(header, 1, t);
  }

  lemma ContactHeaderRoundTrip(canTls: bool, t: seq<Byte>)
    ensures ParsePacket(Encode(ContactHeader(canTls)) + t) == Ok(ContactHeader(canTls), t)
  {
    hide Value, Take, TakeUint;
    var h := MAGIC[1..] + [4, FlagByte(canTls)];
    assert Encode(ContactHeader(canTls)) + t == [0x64] + (h + t);
    TakeUintByte(0x64, h + t);
    TakePrefix(h, t);
    assert h[..3] == MAGIC[1..];
  }

  lemma {:induction false} PacketRoundTrip(p: Packet, t: seq<Byte>)
    requires WellFormed(p)
    ensures ParsePacket(Encode(p) + t) == Ok(p, t)
  {
    if p.XferSeg? {
      SegmentRoundTrip(p, t);
    } else if p.SessInit? {
      SessInitRoundTrip(p, t);
    } else if p.ContactHeader? {
      ContactHeaderRoundTrip(p.canTls, t);
    } else if p.XferAck? || p.XferRefuse? {
      FeedbackRoundTrip(p, t);
    } else {
      ControlRoundTrip(p, t);
    }
  }

  /** Reading the concatenated encodings of well-formed packets gives back exactly the packets and leaves
      exactly what follows them. */
  lemma {:induction false} StreamRoundTrip(ps: seq<Packet>, t: seq<Byte>)
    requires forall i :: 0 <= i < |ps| ==> WellFormed(ps[i])
    ensures ParseMany(EncodeAll(ps) + t, |ps|) == Ok(ps, t)
  {
    hide Encode, ParsePacket, WellFormed;
    if ps == [] {
      assert EncodeAll(ps) + t == t;
    } else {
      assert EncodeAll(ps) + t == Encode(ps[0]) + (EncodeAll(ps[1..]) + t);
      PacketRoundTrip(ps[0], EncodeAll(ps[1..]) + t);
      StreamRoundTrip(ps[1..], t);
      assert ps == [ps[0]] + ps[1..];
    }
  }

  // ---------------------------------------------------------------- what the parser can return

  lemma TakeUintBound(s: seq<Byte>, n: nat)
    ensures TakeUint(s, n).Ok? ==> TakeUint(s, n).value < Pow256(n)
  {
    if n <= |s| {
      ValueBound(s[..n]);
    }
  }

  lemma {:induction false} ItemsInRange(s: seq<Byte>, n: nat)
    requires ParseItems(s, n).Ok?
    ensures var items := ParseItems(s, n).value;
      ItemsSize(items) <= n && forall i :: 0 <= i < |items| ==> |items[i].data| < Pow256(2)
    decreases n
  {
    hide ParseItem, ParseItems, Pow256, KnownItem, RawBytes, ItemsSize;
    if n < MIN_ITEM_SIZE {
      FragmentItems(s, n);
    } else {
      ParseItemsHead(s, n);
      ItemSound(s, n);
      var (x, s1) := ParseItem(s, n).Extract();
      var more := n - MIN_ITEM_SIZE - |x.data|;
      ItemsInRange(s1, more);
      KnownItemRange(x, ParseItems(s1, more).value, more);
    }
  }

  lemma FragmentItems(s: seq<Byte>, n: nat)
    requires n < MIN_ITEM_SIZE && ParseItems(s, n).Ok?
    ensures ParseItems(s, n).value == [] && ItemsSize([]) == 0
  {}

  lemma ParseItemsHead(s: seq<Byte>, n: nat)
    requires n >= MIN_ITEM_SIZE && ParseItems(s, n).Ok?
    ensures ParseItem(s, n).Ok? && MIN_ITEM_SIZE + |ParseItem(s, n).value.data| <= n
    ensures var tail := ParseItems(ParseItem(s, n).rest, n - MIN_ITEM_SIZE - |ParseItem(s, n).value.data|);
      tail.Ok? && ParseItems(s, n).value == KnownItem(ParseItem(s, n).value) + tail.value
  {
    hide ParseItem, KnownItem, RawBytes, RawOk;
    ItemSound(s, n);
  }

  lemma KnownItemRange(x: RawItem, tail: seq<ExtItem>, n: nat)
    requires |x.data| < Pow256(2) && ItemsSize(tail) <= n
    requires forall i :: 0 <= i < |tail| ==> |tail[i].data| < Pow256(2)
    ensures var items := KnownItem(x) + tail;
      && ItemsSize(items) <= n + MIN_ITEM_SIZE + |x.data|
      && forall i :: 0 <= i < |items| ==> |items[i].data| < Pow256(2)
  {
    hide Pow256;
    if KnownItem(x) == [] {
      assert KnownItem(x) + tail == tail;
    } else {
      assert (KnownItem(x) + tail)[1..] == tail;
    }
  }

  lemma SegmentWellFormed(s: seq<Byte>)
    requires ParseSegment(s).Ok?
    ensures WellFormed(ParseSegment(s).value)
  {
    hide TakeUint, ParseItems, Pow256;
    var (flagByte, s1) := TakeUint(s, 1).Extract();
    var flags := SegFlagsOf(flagByte);
    TakeUintBound(s1, 8);
    var s2 := TakeUint(s1, 8).rest;
    assert 0 < Pow256(4) by { Widths(); }
    if flags.start {
      TakeUintBound(s2, 4);
      var extLen := TakeUint(s2, 4);
      ItemsInRange(extLen.rest, extLen.value);
    }
  }

  /** The parser only returns well-formed packets, whatever bytes it reads. */
  lemma ParseWellFormed(s: seq<Byte>)
    requires ParsePacket(s).Ok?
    ensures WellFormed(ParsePacket(s).value)
  {
    var (mtype, s1) := TakeUint(s, 1).Extract();
    if mtype == 1 {
      SegmentWellFormed(s1);
    } else if mtype == 2 {
      var s2 := TakeUint(s1, 1).rest;
      TakeUintBound(s2, 8);
      TakeUintBound(TakeUint(s2, 8).rest, 8);
    } else if mtype == 3 {
      TakeUintBound(TakeUint(s1, 1).rest, 8);
    } else if mtype == 6 {
      TakeUintBound(TakeUint(s1, 1).rest, 1);
    } else if mtype == 7 {
      var s2 := TakeUint(s1, 2).rest;
      var s3 := TakeUint(s2, 8).rest;
      var s4 := TakeUint(s3, 8).rest;
      TakeUintBound(s1, 2);
      TakeUintBound(s2, 8);
      TakeUintBound(s3, 8);
      TakeUintBound(s4, 2);
    }
  }

  /** The exact domain of the round trip: a packet survives the wire, whatever follows it, if and only if
      it is well-formed. */
  lemma RoundTripExactly(p: Packet)
    ensures WellFormed(p) <==> forall t :: ParsePacket(Encode(p) + t) == Ok(p, t)
  {
    if WellFormed(p) {
      forall t ensures ParsePacket(Encode(p) + t) == Ok(p, t) {
        PacketRoundTrip(p, t);
      }
    } else if ParsePacket(Encode(p) + []) == Ok(p, []) {
      ParseWellFormed(Encode(p) + []);
    }
  }

  /** Reading a START segment of an arbitrary peer consumes exactly its 22 bytes of fixed fields, its
      announced list and its data. */
  lemma StartSegmentSync(flagByte: Byte, s: seq<Byte>) returns (region: seq<Byte>)
    requires SegFlagsOf(flagByte as nat).start
    ensures var r := ParsePacket([1, flagByte] + s);
      r.Ok? ==>
        var p := r.value;
        && p.XferSeg? && p.len == |p.buf| && KnownRegion(region, p.extensions)
        && [1, flagByte] + s == [1, flagByte] + BigEndian(p.tid, 8) + BigEndian(|region|, 4) + region
           + BigEndian(p.len, 8) + p.buf + r.rest
        && |[1, flagByte] + s| == 22 + |region| + p.len + |r.rest|
  {
    region := [];
    if ParsePacket([1, flagByte] + s).Ok? {
      region := StartSegmentRegion(flagByte, s);
    }
  }

  lemma StartSegmentRegion(flagByte: Byte, s: seq<Byte>) returns (region: seq<Byte>)
    requires SegFlagsOf(flagByte as nat).start && ParsePacket([1, flagByte] + s).Ok?
    ensures var p := ParsePacket([1, flagByte] + s).value; var rest := ParsePacket([1, flagByte] + s).rest;
      && p.XferSeg? && p.len == |p.buf| && KnownRegion(region, p.extensions)
      && [1, flagByte] + s == [1, flagByte] + BigEndian(p.tid, 8) + BigEndian(|region|, 4) + region
         + BigEndian(p.len, 8) + p.buf + rest
      && |[1, flagByte] + s| == 22 + |region| + p.len + |rest|
  {
    hide BigEndian, Value, Pow256, TakeUint, ParseItems, Decomposes, KnownRegion;
    assert [1, flagByte] + s == [1] + ([flagByte] + s);
    TakeUintByte(1, [flagByte] + s);
    TakeUintByte(flagByte, s);
    TakeUintSplit(s, 8);
    var (tid, s1) := TakeUint(s, 8).Extract();
    TakeUintSplit(s1, 4);
    var (extLen, s2) := TakeUint(s1, 4).Extract();
    ItemsConsumed(s2, extLen);
    region := s2[..extLen];
    var s3 := s2[extLen..];
    TakeUintSplit(s3, 8);
    var (len, s4) := TakeUint(s3, 8).Extract();
    var (buf, s5) := Take(s4, len).Extract();
    assert s2 == region + s3 && s4 == buf + s5;
    hide ParsePacket;
    StartSegmentBytes([1, flagByte], BigEndian(tid, 8), BigEndian(extLen, 4), region, BigEndian(len, 8), buf, s5);
  }

  lemma ItemsConsumed(s: seq<Byte>, n: nat)
    requires ParseItems(s, n).Ok?
    ensures n <= |s| && ParseItems(s, n).rest == s[n..] && KnownRegion(s[..n], ParseItems(s, n).value)
  {
    hide Decomposes, ParseItems;
    var xs, fragment := ItemsSound(s, n);
  }

  lemma StartSegmentBytes(a: seq<Byte>, b: seq<Byte>, c: seq<Byte>, d: seq<Byte>, e: seq<Byte>, f: seq<Byte>, g: seq<Byte>)
    ensures a + (b + (c + (d + (e + (f + g))))) == a + b + c + d + e + f + g
  {}
}
