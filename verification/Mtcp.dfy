/** The MTCP convergence layer: bundles as CBOR byte strings on a TCP stream (section 3 of RFC 8949). */
module Mtcp {
  import opened Bytes

  datatype CborByteString = Len(len: nat) | U8 | U16 | U32 | U64 | Not

  function LenFirst(input: Byte): CborByteString {
    var number := input as nat % 32;
    if input as nat / 32 != 2 then Not
    else if number < 24 then Len(number)
    else if number == 24 then U8
    else if number == 25 then U16
    else if number == 26 then U32
    else if number == 27 then U64
    else Not
  }

  function HdrLen(input: Byte): (n: nat)
    ensures n <= 9
  {
    match LenFirst(input)
    case Len(_) => 1
    case U8 => 2
    case U16 => 3
    case U32 => 5
    case U64 => 9
    case Not => 0
  }

  /** The announced length; the bytes behind the first one are its big-endian value. */
  function StringLen(input: seq<Byte>): nat
    requires |input| >= 10
  {
    match LenFirst(input[0])
    case Len(len) => len
    case Not => 0
    case _ => Value(input[1..HdrLen(input[0])])
  }

  const USIZE_LIMIT: nat := 0x1_0000_0000_0000_0000
  const MIN_BUFFER: nat := 10
  const BREAK: Byte := 0xff

  datatype Decoded = NeedMore | Frame(payload: seq<Byte>, rest: seq<Byte>) | Invalid

  /** One call of the decoder on the bytes buffered so far. */
  function Decode(buf: seq<Byte>): (r: Decoded)
    ensures r.Frame? ==> |r.payload| + |r.rest| < |buf|
  {
    if |buf| < MIN_BUFFER then NeedMore
    else
      var hdr := HdrLen(buf[0]);
      var end := hdr + StringLen(buf[..10]);
      if hdr == 0 || end >= USIZE_LIMIT then Invalid
      else if end > |buf| then NeedMore
      else if buf[end - 1] != BREAK then Invalid
      else Frame(buf[hdr..end], buf[end..])
  }

  /** serde_cbor's byte string: the shortest header for the length, then the payload. */
  function Header(n: nat): seq<Byte>
    requires n < USIZE_LIMIT
  {
    if n < 24 then [(0x40 + n) as Byte]
    else if n < 0x100 then [0x58] + BigEndian(n, 1)
    else if n < 0x1_0000 then [0x59] + BigEndian(n, 2)
    else if n < 0x1_0000_0000 then [0x5a] + BigEndian(n, 4)
    else [0x5b] + BigEndian(n, 8)
  }

  predicate Encodable(payload: seq<Byte>) {
    |payload| + 9 < USIZE_LIMIT
  }

  function Encode(payload: seq<Byte>): seq<Byte>
    requires Encodable(payload)
  {
    Header(|payload|) + payload
  }

  function EncodeAll(payloads: seq<seq<Byte>>): seq<Byte>
    requires forall i :: 0 <= i < |payloads| ==> Encodable(payloads[i])
  {
    if payloads == [] then [] else Encode(payloads[0]) + EncodeAll(payloads[1..])
  }

  // ---------------------------------------------------------------- the framed stream

  /** The frames so far, the bytes still buffered, and whether the stream is still read. After an invalid frame it
      is not, and its buffer is of no use any more. */
  datatype Stream = Stream(frames: seq<seq<Byte>>, buffer: seq<Byte>, open: bool) {
    function After(earlier: seq<seq<Byte>>): Stream {
      Stream(earlier + frames, buffer, open)
    }
  }

  /** Decodes until more bytes are needed. */
  function DecodeAll(buf: seq<Byte>): Stream
    decreases |buf|
  {
    match Decode(buf)
    case NeedMore => Stream([], buf, true)
    case Invalid => Stream([], [], false)
    case Frame(payload, rest) => DecodeAll(rest).After([payload])
  }

  function Read(s: Stream, chunk: seq<Byte>): Stream {
    if s.open then DecodeAll(s.buffer + chunk).After(s.frames) else s
  }

  /** The stream after TCP delivered the chunks one by one. */
  function ReadAll(chunks: seq<seq<Byte>>): Stream {
    if chunks == [] then Stream([], [], true) else Read(ReadAll(chunks[..|chunks| - 1]), chunks[|chunks| - 1])
  }

  /** A decoding result does not change when more bytes arrive, unless it was "need more". */
  lemma DecodeStable(buf: seq<Byte>, more: seq<Byte>)
    requires Decode(buf) != NeedMore
    ensures Decode(buf + more)
      == match Decode(buf) case Frame(payload, rest) => Frame(payload, rest + more) case d => d
  {
    var hdr := HdrLen(buf[0]);
    assert (buf + more)[..10] == buf[..10];
    var end := hdr + StringLen(buf[..10]);
    if hdr != 0 && end <= |buf| {
      assert (buf + more)[hdr..end] == buf[hdr..end] && (buf + more)[end..] == buf[end..] + more;
    }
  }

  lemma AfterAfter(s: Stream, a: seq<seq<Byte>>, b: seq<seq<Byte>>)
    ensures s.After(b).After(a) == s.After(a + b) && s.After([]) == s
  {
    assert a + (b + s.frames) == (a + b) + s.frames;
  }

  lemma {:induction false} DecodeAllSplit(a: seq<Byte>, b: seq<Byte>)
    ensures DecodeAll(a + b) == Read(DecodeAll(a), b)
    decreases |a|
  {
    hide Decode;
    if Decode(a) == NeedMore {
      AfterAfter(DecodeAll(a + b), [], []);
    } else {
      DecodeStable(a, b);
      if Decode(a).Frame? {
        var payload, rest := Decode(a).payload, Decode(a).rest;
        DecodeAllSplit(rest, b);
        var d := DecodeAll(rest);
        assert DecodeAll(a) == d.After([payload]) && DecodeAll(a + b) == DecodeAll(rest + b).After([payload]);
        hide DecodeAll;
        AfterAfter(DecodeAll(d.buffer + b), [payload], d.frames);
      }
    }
  }

  lemma {:induction false} ConcatSnoc(chunks: seq<seq<Byte>>)
    requires chunks != []
    ensures Concat(chunks) == Concat(chunks[..|chunks| - 1]) + chunks[|chunks| - 1]
  {
    var n := |chunks| - 1;
    assert chunks == chunks[..n] + [chunks[n]];
    ConcatAppend(chunks[..n], [chunks[n]]);
    assert Concat([chunks[n]]) == chunks[n] + Concat([]);
  }

  /** Framing does not depend on how TCP splits the stream, whatever the stream contains. */
  lemma {:induction false} ChunkIndependence(chunks: seq<seq<Byte>>)
    ensures ReadAll(chunks) == DecodeAll(Concat(chunks))
  {
    if chunks != [] {
      var n := |chunks| - 1;
      ChunkIndependence(chunks[..n]);
      ConcatSnoc(chunks);
      DecodeAllSplit(Concat(chunks[..n]), chunks[n]);
    }
  }

  // ---------------------------------------------------------------- round trip

  lemma HeaderLen(n: nat)
    requires n < USIZE_LIMIT
    ensures var h := Header(n);
      |h| == HdrLen(h[0]) >= 1 && h[0] != BREAK && (n >= 24 ==> LenFirst(h[0]) != Not && Value(h[1..]) == n)
      && (n < 24 ==> LenFirst(h[0]) == Len(n)) && (n < 24 ==> |h| == 1)
  {
    Widths();
    var width := if n < 0x100 then 1 else if n < 0x1_0000 then 2 else if n < 0x1_0000_0000 then 4 else 8;
    if n >= 24 {
      assert Header(n)[1..] == BigEndian(n, width);
      ValueOfBigEndian(n, width);
    }
  }

  /** The decoder on an encoded payload and whatever follows it. */
  lemma DecodeEncoded(p: seq<Byte>, t: seq<Byte>)
    requires Encodable(p)
    ensures Decode(Encode(p) + t)
      == if |Encode(p) + t| < MIN_BUFFER then NeedMore
         else if !EndsInBreak(p) then Invalid
         else Frame(p, t)
  {
    var h := Header(|p|);
    HeaderLen(|p|);
    hide Value, Header, LenFirst, HdrLen, StringLen, Decode;
    var buf := h + p + t;
    if |buf| >= MIN_BUFFER {
      assert buf[..10][0] == h[0];
      assert buf[..10][1..|h|] == buf[1..|h|] == h[1..];
      LenOfHeader(buf[..10], h, |p|);
      DecodeFrame(h, p, t);
    } else {
      DecodeShort(buf);
    }
  }

  lemma DecodeShort(buf: seq<Byte>)
    requires |buf| < MIN_BUFFER
    ensures Decode(buf) == NeedMore
  {}

  /** The decoder on a header that announces the payload behind it. */
  lemma DecodeFrame(h: seq<Byte>, p: seq<Byte>, t: seq<Byte>)
    requires |h + p + t| >= MIN_BUFFER && |h| >= 1 && |h| + |p| < USIZE_LIMIT && h[0] != BREAK
    requires p == [] ==> |h| == 1
    requires HdrLen((h + p + t)[0]) == |h| && StringLen((h + p + t)[..10]) == |p|
    ensures Decode(h + p + t) == if EndsInBreak(p) then Frame(p, t) else Invalid
  {
    hide HdrLen, StringLen;
    var buf, end := h + p + t, |h| + |p|;
    assert buf == (h + p) + t && |h + p| == end;
    assert buf[|h|..end] == p && buf[end..] == t;
    assert buf[end - 1] == if p == [] then h[0] else p[|p| - 1];
  }

  lemma LenOfHeader(input: seq<Byte>, h: seq<Byte>, n: nat)
    requires n < USIZE_LIMIT && h == Header(n) && |input| >= 10 && input[0] == h[0]
    requires n >= 24 ==> input[1..|h|] == h[1..]
    ensures StringLen(input) == n
  {
    HeaderLen(n);
  }

  /** The payload ends in the CBOR break byte, as an indefinite-length bundle does. */
  predicate EndsInBreak(p: seq<Byte>) {
    p != [] && p[|p| - 1] == BREAK
  }

  /** The payload lists the decoder can give back: every payload ends in the break byte and the last encoding is
      not below the minimum buffer. */
  predicate Deliverable(ps: seq<seq<Byte>>)
    requires forall i :: 0 <= i < |ps| ==> Encodable(ps[i])
  {
    && AllEndInBreak(ps)
    && (ps != [] ==> |Encode(ps[|ps| - 1])| >= MIN_BUFFER)
  }

  lemma {:induction false} LastFits(ps: seq<seq<Byte>>)
    requires ps != [] && forall i :: 0 <= i < |ps| ==> Encodable(ps[i])
    ensures |EncodeAll(ps)| >= |Encode(ps[|ps| - 1])|
  {
    hide Encode;
    if |ps| > 1 {
      LastFits(ps[1..]);
    }
  }

  lemma EncodeCons(ps: seq<seq<Byte>>)
    requires ps != [] && forall i :: 0 <= i < |ps| ==> Encodable(ps[i])
    ensures EncodeAll(ps) == Encode(ps[0]) + EncodeAll(ps[1..])
  {}

  lemma NoPayloads()
    ensures DecodeAll(EncodeAll([])) == Stream([], [], true) && Deliverable([])
  {
    DecodeShort([]);
  }

  lemma Undeliverable(ps: seq<seq<Byte>>)
    requires ps != [] && forall i :: 0 <= i < |ps| ==> Encodable(ps[i])
    requires |EncodeAll(ps)| < MIN_BUFFER || !EndsInBreak(ps[0])
    ensures !Deliverable(ps)
  {
    hide Encode, EncodeAll, Encodable, EndsInBreak;
    LastFits(ps);
  }

  lemma DecodeAllStep(buf: seq<Byte>)
    ensures DecodeAll(buf) == match Decode(buf)
      case NeedMore => Stream([], buf, true)
      case Invalid => Stream([], [], false)
      case Frame(payload, rest) => DecodeAll(rest).After([payload])
  {
    hide Decode;
  }

  lemma {:induction false} DecodeAllExactly(ps: seq<seq<Byte>>)
    requires forall i :: 0 <= i < |ps| ==> Encodable(ps[i])
    ensures DecodeAll(EncodeAll(ps)) == Stream(ps, [], true) <==> Deliverable(ps)
    decreases |ps|
  {
    hide *;
    if ps == [] {
      NoPayloads();
    } else {
      var p, tail := ps[0], ps[1..];
      EncodeCons(ps);
      DecodeEncoded(p, EncodeAll(tail));
      DecodeAllStep(EncodeAll(ps));
      if |EncodeAll(ps)| < MIN_BUFFER || !EndsInBreak(p) {
        Undeliverable(ps);
      } else {
        TailDeliverable(ps);
        DecodeAllExactly(tail);
        AfterOne(p, DecodeAll(EncodeAll(tail)), ps);
      }
    }
  }

  lemma AfterOne(p: seq<Byte>, s: Stream, ps: seq<seq<Byte>>)
    requires ps != [] && ps[0] == p
    ensures s.After([p]) == Stream(ps, [], true) <==> s == Stream(ps[1..], [], true)
  {
    assert ps == [p] + ps[1..];
    ConsEqual(p, s.frames, ps[1..]);
  }

  lemma ConsEqual(p: seq<Byte>, a: seq<seq<Byte>>, b: seq<seq<Byte>>)
    ensures [p] + a == [p] + b <==> a == b
  {
    assert a == ([p] + a)[1..] && b == ([p] + b)[1..];
  }

  lemma TailDeliverable(ps: seq<seq<Byte>>)
    requires ps != [] && (forall i :: 0 <= i < |ps| ==> Encodable(ps[i]))
    requires EndsInBreak(ps[0]) && |EncodeAll(ps)| >= MIN_BUFFER
    ensures Deliverable(ps) <==> Deliverable(ps[1..])
  {
    hide Encode, EndsInBreak, Encodable, EncodeAll;
    BreaksCons(ps);
    LastCons(ps);
  }

  predicate AllEndInBreak(ps: seq<seq<Byte>>) {
    forall i :: 0 <= i < |ps| ==> EndsInBreak(ps[i])
  }

  lemma BreaksCons(ps: seq<seq<Byte>>)
    requires ps != [] && EndsInBreak(ps[0])
    ensures AllEndInBreak(ps) <==> AllEndInBreak(ps[1..])
  {
    hide EndsInBreak;
    var tail := ps[1..];
    if AllEndInBreak(tail) {
      forall i | 0 <= i < |ps| ensures EndsInBreak(ps[i]) {
        if i > 0 {
          assert ps[i] == tail[i - 1];
        }
      }
    }
    if AllEndInBreak(ps) {
      forall i | 0 <= i < |tail| ensures EndsInBreak(tail[i]) {
        assert tail[i] == ps[i + 1];
      }
    }
  }

  /** The last encoding is that of the tail, or all there is. */
  lemma LastCons(ps: seq<seq<Byte>>)
    requires ps != [] && (forall i :: 0 <= i < |ps| ==> Encodable(ps[i]))
    ensures if |ps| == 1 then |EncodeAll(ps)| == |Encode(ps[0])| else ps[|ps| - 1] == ps[1..][|ps| - 2]
  {
    hide Encode, Encodable;
    if |ps| == 1 {
      assert ps[1..] == [] && EncodeAll([]) == [];
    }
  }

  /** However the concatenated encodings are split into reads, exactly the payloads come out in order with an empty
      buffer if and only if the list is deliverable. */
  lemma FramingExactly(ps: seq<seq<Byte>>, chunks: seq<seq<Byte>>)
    requires (forall i :: 0 <= i < |ps| ==> Encodable(ps[i])) && Concat(chunks) == EncodeAll(ps)
    ensures ReadAll(chunks) == Stream(ps, [], true) <==> Deliverable(ps)
  {
    ChunkIndependence(chunks);
    DecodeAllExactly(ps);
  }

  /** Payloads of at least 9 bytes ending in the break byte, as bundles do, always come out. */
  lemma BundlesFramed(ps: seq<seq<Byte>>, chunks: seq<seq<Byte>>)
    requires forall i :: 0 <= i < |ps| ==> Encodable(ps[i]) && |ps[i]| >= 9 && EndsInBreak(ps[i])
    requires Concat(chunks) == EncodeAll(ps)
    ensures ReadAll(chunks) == Stream(ps, [], true)
  {
    FramingExactly(ps, chunks);
  }

  // ---------------------------------------------------------------- what a frame is

  /** The head of a byte string of `n` bytes (section 3.1 of RFC 8949), shortest or not. */
  predicate Announces(h: seq<Byte>, n: nat) {
    || (|h| == 1 && n < 24 && h[0] as nat == 0x40 + n)
    || (|h| == 2 && h[0] == 0x58 && n == Positional(h[1..]))
    || (|h| == 3 && h[0] == 0x59 && n == Positional(h[1..]))
    || (|h| == 5 && h[0] == 0x5a && n == Positional(h[1..]))
    || (|h| == 9 && h[0] == 0x5b && n == Positional(h[1..]))
  }

  /** The head that is written announces the payload, and no head that does is shorter. */
  lemma HeaderShortest(n: nat, h: seq<Byte>)
    requires n < USIZE_LIMIT
    ensures Announces(Header(n), n)
    ensures Announces(h, n) ==> |Header(n)| <= |h|
  {
    Widths();
    var width := if n < 0x100 then 1 else if n < 0x1_0000 then 2 else if n < 0x1_0000_0000 then 4 else 8;
    if n >= 24 {
      assert Header(n)[1..] == BigEndian(n, width);
      ValueOfBigEndian(n, width);
      ValueByPosition(BigEndian(n, width));
    }
    if |h| > 1 {
      ValueBound(h[1..]);
      ValueByPosition(h[1..]);
    }
    hide Value, Positional, BigEndian;
  }

  /** A byte string starts at the beginning of the buffer, with a head of `k` bytes announcing `n` more. */
  predicate HeadAt(buf: seq<Byte>, k: nat, n: nat) {
    k <= |buf| && Announces(buf[..k], n)
  }

  /** A frame, all of it there and ending in the break byte. */
  predicate FrameAt(buf: seq<Byte>, k: nat, payload: seq<Byte>, rest: seq<Byte>) {
    HeadAt(buf, k, |payload|) && k + |payload| < 0x1_0000_0000_0000_0000
    && payload != [] && payload[|payload| - 1] == 0xff && buf == buf[..k] + payload + rest
  }

  lemma FirstByte(b: Byte)
    ensures HdrLen(b) == if 0x40 <= b < 0x58 then 1 else if b == 0x58 then 2 else if b == 0x59 then 3
                         else if b == 0x5a then 5 else if b == 0x5b then 9 else 0
    ensures 0x40 <= b < 0x58 ==> LenFirst(b) == Len(b as nat - 0x40)
    ensures !(0x40 <= b < 0x58) ==> !LenFirst(b).Len?
  {}

  lemma HeadExactly(buf: seq<Byte>, k: nat, n: nat)
    requires |buf| >= 10
    ensures HeadAt(buf, k, n) <==> k == HdrLen(buf[0]) != 0 && n == StringLen(buf[..10])
  {
    FirstByte(buf[0]);
    var hdr := HdrLen(buf[0]);
    assert buf[..10][0] == buf[0] && buf[..10][1..if hdr > 0 then hdr else 1] == buf[1..if hdr > 0 then hdr else 1];
    if 0 < k <= |buf| {
      assert buf[..k][0] == buf[0] && buf[..k][1..] == buf[1..k];
      ValueByPosition(buf[1..k]);
    }
    if hdr > 0 {
      ValueByPosition(buf[1..hdr]);
    }
    hide Value, Positional, LenFirst, HdrLen;
  }

  /** An empty byte string does not end in the break byte. */
  lemma EmptyUnbroken(buf: seq<Byte>, k: nat)
    requires |buf| >= 10 && HeadAt(buf, k, 0)
    ensures k > 0 && buf[k - 1] != BREAK
  {
    if k > 1 {
      ZeroEnds(buf[..k][1..]);
    }
  }

  lemma {:induction false} ZeroEnds(s: seq<Byte>)
    requires Positional(s) == 0 && s != []
    ensures s[|s| - 1] == 0
  {
    ValueByPosition(s);
  }

  /** What the decoder cuts off is exactly a frame; with ten bytes it asks for more exactly when a byte string is not
      complete, and refuses whatever is neither. */
  lemma DecodeExactly(buf: seq<Byte>)
    ensures forall payload, rest ::
      Decode(buf) == Frame(payload, rest) <==> |buf| >= 10 && exists k: nat :: FrameAt(buf, k, payload, rest)
    ensures Decode(buf) == NeedMore <==>
      |buf| < 10 || exists k: nat, n: nat :: HeadAt(buf, k, n) && |buf| < k + n < 0x1_0000_0000_0000_0000
  {
    if |buf| >= 10 {
      var hdr, len := HdrLen(buf[0]), StringLen(buf[..10]);
      var end := hdr + len;
      HeadExactly(buf, hdr, len);
      hide HdrLen, StringLen, Announces;
      forall payload, rest
        ensures Decode(buf) == Frame(payload, rest) <==> exists k: nat :: FrameAt(buf, k, payload, rest)
      {
        FrameExactly(buf, payload, rest);
      }
      if k: nat, n: nat :| HeadAt(buf, k, n) && |buf| < k + n < 0x1_0000_0000_0000_0000 {
        HeadExactly(buf, k, n);
      }
    } else {
      DecodeShort(buf);
    }
  }

  lemma FrameExactly(buf: seq<Byte>, payload: seq<Byte>, rest: seq<Byte>)
    requires |buf| >= 10
    ensures Decode(buf) == Frame(payload, rest) <==> exists k: nat :: FrameAt(buf, k, payload, rest)
  {
    hide Decode, FrameAt;
    if Decode(buf) == Frame(payload, rest) {
      FrameThere(buf, payload, rest);
    }
    if k: nat :| FrameAt(buf, k, payload, rest) {
      FrameDecoded(buf, k, payload, rest);
    }
  }

  lemma FrameThere(buf: seq<Byte>, payload: seq<Byte>, rest: seq<Byte>)
    requires |buf| >= 10 && Decode(buf) == Frame(payload, rest)
    ensures FrameAt(buf, HdrLen(buf[0]), payload, rest)
  {
    hide HdrLen, StringLen, HeadAt;
    var hdr := HdrLen(buf[0]);
    var end := hdr + StringLen(buf[..10]);
    HeadExactly(buf, hdr, end - hdr);
    Divided(buf, hdr, end);
    if payload == [] {
      EmptyUnbroken(buf, hdr);
    } else {
      assert payload[|payload| - 1] == buf[end - 1];
    }
  }

  lemma Divided(buf: seq<Byte>, i: nat, j: nat)
    requires i <= j <= |buf|
    ensures buf == buf[..i] + buf[i..j] + buf[j..]
  {}

  lemma FrameDecoded(buf: seq<Byte>, k: nat, payload: seq<Byte>, rest: seq<Byte>)
    requires |buf| >= 10 && FrameAt(buf, k, payload, rest)
    ensures Decode(buf) == Frame(payload, rest)
  {
    hide HdrLen, StringLen, HeadAt;
    HeadExactly(buf, k, |payload|);
    FrameLength(buf, k, |payload|);
    FrameParts(buf, k, payload, rest);
  }

  lemma FrameLength(buf: seq<Byte>, k: nat, n: nat)
    ensures HeadAt(buf, k, n) ==> k <= |buf|
  {}

  lemma FrameParts(buf: seq<Byte>, k: nat, payload: seq<Byte>, rest: seq<Byte>)
    requires k <= |buf| && buf == buf[..k] + payload + rest
    ensures k + |payload| <= |buf| && buf[k..k + |payload|] == payload && buf[k + |payload|..] == rest
  {}

  // ---------------------------------------------------------------- the codec object

  class BytesMut {
    var data: seq<Byte>

    constructor ()
      ensures data == []
    {
      data := [];
    }
  }

  class MPDUCodec {
    var lastPos: nat

    constructor ()
      ensures lastPos == 0
    {
      lastPos := 0;
    }

    method EncodeTo(payload: seq<Byte>, dst: BytesMut)
      requires Encodable(payload)
      modifies dst
      ensures dst.data == old(dst.data) + Encode(payload)
    {
      dst.data := dst.data + Encode(payload);
    }

    /** One decoder call: a frame is cut off the buffer, otherwise the buffer stays as it is. */
    method DecodeFrom(buf: BytesMut) returns (r: Decoded)
      modifies this, buf
      ensures r == Decode(old(buf.data))
      ensures buf.data == if r.Frame? then r.rest else old(buf.data)
      ensures lastPos == if r.Frame? then 0 else old(lastPos)
    {
      if |buf.data| < MIN_BUFFER {
        return NeedMore;
      }
      var hdr := HdrLen(buf.data[0]);
      if hdr == 0 {
        return Invalid;
      }
      var end := hdr + StringLen(buf.data[..10]);
      if end >= USIZE_LIMIT {
        return Invalid;
      }
      if end - 1 < |buf.data| {
        if buf.data[end - 1] != BREAK {
          return Invalid;
        }
        var payload := buf.data[hdr..end];
        buf.data := buf.data[end..];
        lastPos := 0;
        return Frame(payload, buf.data);
      }
      r := NeedMore;
    }

    /** The frames that can be decoded after a read; `open` is false after an invalid one. */
    method Drain(buf: BytesMut) returns (frames: seq<seq<Byte>>, open: bool)
      modifies this, buf
      ensures var s := DecodeAll(old(buf.data));
        frames == s.frames && open == s.open && (open ==> buf.data == s.buffer)
    {
      frames, open := [], true;
      var more := true;
      while more
        invariant more ==> open && DecodeAll(old(buf.data)) == DecodeAll(buf.data).After(frames)
        invariant !more ==> var s := DecodeAll(old(buf.data));
          frames == s.frames && open == s.open && (open ==> buf.data == s.buffer)
        decreases more, |buf.data|
      {
        var r := DecodeFrom(buf);
        match r
        case NeedMore =>
          assert frames + [] == frames;
          more := false;
        case Invalid =>
          assert frames + [] == frames;
          more, open := false, false;
        case Frame(payload, rest) =>
          assert frames + ([payload] + DecodeAll(rest).frames) == (frames + [payload]) + DecodeAll(rest).frames;
          frames := frames + [payload];
      }
    }
  }
}
