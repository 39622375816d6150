/** The wire format of the messages, field by field (sections 4.1, 4.6, 4.7, 5.1.2, 5.2 and 6.1 of RFC 9174), and the
    proof that the parser accepts exactly this. */
module TcpclFormat {
  import opened Bytes
  import opened TcpclPacket
  import opened TcpclCodec

  /** The `n` bytes from `i` on are the number `v`. */
  predicate Uint(m: seq<Byte>, i: nat, n: nat, v: nat) {
    i + n <= |m| && Positional(m[i..i + n]) == v
  }

  /** END is the lowest bit and START the next one; other bits do not matter. */
  predicate FlagsAre(f: SegFlags, b: Byte) {
    (f.end <==> b as nat % 2 == 1) && (f.start <==> b as nat / 2 % 2 == 1)
  }

  predicate TermIs(r: TermReason, b: Byte) {
    || (r == TermUnknown && b == 0) || (r == IdleTimeout && b == 1) || (r == VersionMismatch && b == 2)
    || (r == Busy && b == 3) || (r == ContactFailure && b == 4) || (r == ResourceExhaustion && b == 5)
  }

  predicate RefuseIs(r: RefuseReason, b: Byte) {
    || (r == RefuseUnknown && b == 0) || (r == Completed && b == 1) || (r == NoResources && b == 2)
    || (r == Retransmit && b == 3) || (r == NotAcceptable && b == 4) || (r == ExtensionFailure && b == 5)
  }

  predicate RejectIs(r: RejectReason, b: Byte) {
    || (r == TypeUnknown && b == 1) || (r == Unsupported && b == 2) || (r == Unexpected && b == 3)
  }

  /** One extension item of the type for bundle IDs, or of another type, which is dropped. */
  predicate ItemForm(m: seq<Byte>, items: seq<ExtItem>) {
    |m| >= 5 && Uint(m, 3, 2, |m| - 5)
    && if m[1] == 0 && m[2] == 1 then items == [ExtItem(m[0] as nat % 2 == 1, BundleID, m[5..])] else items == []
  }

  /** A list of items and at most four more bytes. */
  ghost predicate ListForm(m: seq<Byte>, items: seq<ExtItem>)
    decreases |m|
  {
    if |m| < 5 then items == []
    else
      exists k: nat, j: nat :: 5 <= k <= |m| && j <= |items| && ItemForm(m[..k], items[..j]) && ListForm(m[k..], items[j..])
  }

  /** The length and the data of a segment, to the end of the message. */
  predicate BodyForm(m: seq<Byte>, i: nat, len: nat, buf: seq<Byte>) {
    Uint(m, i, 8, len) && m[i + 8..] == buf && len == |buf| <= 64000
  }

  predicate ContactForm(m: seq<Byte>, tls: bool) {
    |m| == 6 && m[..5] == [0x64, 0x74, 0x6e, 0x21, 4] && (tls <==> m[5] as nat % 2 == 1)
  }

  predicate SessInitForm(m: seq<Byte>, keepalive: nat, segmentMru: nat, transferMru: nat, nodeId: seq<Byte>) {
    && |m| == 25 + |nodeId| && m[0] == 7
    && Uint(m, 1, 2, keepalive) && Uint(m, 3, 8, segmentMru) && Uint(m, 11, 8, transferMru)
    && Uint(m, 19, 2, |nodeId|) && m[21..21 + |nodeId|] == nodeId && Uint(m, 21 + |nodeId|, 4, 0)
  }

  predicate TermForm(m: seq<Byte>, reply: bool, reason: TermReason) {
    |m| == 3 && m[0] == 5 && (reply <==> m[1] as nat % 2 == 1) && TermIs(reason, m[2])
  }

  predicate AckForm(m: seq<Byte>, flags: SegFlags, tid: nat, len: nat) {
    |m| == 18 && m[0] == 2 && FlagsAre(flags, m[1]) && Uint(m, 2, 8, tid) && Uint(m, 10, 8, len)
  }

  predicate RefuseForm(m: seq<Byte>, reason: RefuseReason, tid: nat) {
    |m| == 10 && m[0] == 3 && RefuseIs(reason, m[1]) && Uint(m, 2, 8, tid)
  }

  predicate RejectForm(m: seq<Byte>, reason: RejectReason, header: nat) {
    |m| == 3 && m[0] == 6 && RejectIs(reason, m[1]) && m[2] as nat == header
  }

  /** The extension list of a START segment, and where its length field is. */
  ghost predicate ListPart(m: seq<Byte>, n: nat, items: seq<ExtItem>) {
    Uint(m, 10, 4, n) && 14 + n <= |m| && ListForm(m[14..14 + n], items)
  }

  ghost predicate SegmentForm(m: seq<Byte>, flags: SegFlags, tid: nat, len: nat, buf: seq<Byte>, items: seq<ExtItem>) {
    && |m| >= 10 && m[0] == 1 && FlagsAre(flags, m[1]) && Uint(m, 2, 8, tid)
    && (if flags.start then exists n: nat :: ListPart(m, n, items) && BodyForm(m, 14 + n, len, buf)
        else items == [] && BodyForm(m, 10, len, buf))
  }

  ghost predicate Form(p: Packet, m: seq<Byte>) {
    match p
    case ContactHeader(tls) => ContactForm(m, tls)
    case SessInit(keepalive, segmentMru, transferMru, nodeId) =>
      SessInitForm(m, keepalive, segmentMru, transferMru, nodeId)
    case SessTerm(reply, reason) => TermForm(m, reply, reason)
    case XferSeg(flags, tid, len, buf, items) => SegmentForm(m, flags, tid, len, buf, items)
    case XferAck(flags, tid, len) => AckForm(m, flags, tid, len)
    case XferRefuse(reason, tid) => RefuseForm(m, reason, tid)
    case KeepAlive => m == [4]
    case MsgReject(reason, header) => RejectForm(m, reason, header)
  }

  /** The first byte tells the message. */
  lemma FormType(p: Packet, m: seq<Byte>)
    requires Form(p, m)
    ensures m != [] && m[0] == match p
      case ContactHeader(_) => 0x64
      case SessInit(_, _, _, _) => 7
      case SessTerm(_, _) => 5
      case XferSeg(_, _, _, _, _) => 1
      case XferAck(_, _, _) => 2
      case XferRefuse(_, _) => 3
      case KeepAlive => 4
      case MsgReject(_, _) => 6
  {
    hide Uint, ListForm, FlagsAre, TermIs, RefuseIs, RejectIs, BodyForm;
    if p.ContactHeader? {
      assert m[0] == m[..5][0];
    }
  }

  // ---------------------------------------------------------------- reading at a position

  lemma UintAt(s: seq<Byte>, i: nat, n: nat)
    requires i <= |s|
    ensures TakeUint(s[i..], n) == if i + n <= |s| then Ok(Positional(s[i..i + n]), s[i + n..]) else Err(ReadError)
  {
    if i + n <= |s| {
      assert s[i..][..n] == s[i..i + n] && s[i..][n..] == s[i + n..];
      ValueByPosition(s[i..i + n]);
    }
    hide Positional, Value;
  }

  lemma TakeAt(s: seq<Byte>, i: nat, n: nat)
    requires i <= |s|
    ensures Take(s[i..], n) == if i + n <= |s| then Ok(s[i..i + n], s[i + n..]) else Err(ReadError)
  {
    if i + n <= |s| {
      assert s[i..][..n] == s[i..i + n] && s[i..][n..] == s[i + n..];
    }
  }

  lemma ByteAt(s: seq<Byte>, i: nat)
    requires i <= |s|
    ensures TakeUint(s[i..], 1) == if i < |s| then Ok(s[i] as nat, s[i + 1..]) else Err(ReadError)
  {
    UintAt(s, i, 1);
    if i < |s| {
      assert s[i..i + 1] == [s[i]];
      assert Positional([s[i]]) == s[i] as nat;
    }
  }

  /** A number at a position does not depend on what follows. */
  lemma UintPrefix(s: seq<Byte>, k: nat, i: nat, n: nat)
    requires i + n <= k <= |s|
    ensures forall v :: Uint(s[..k], i, n, v) <==> Positional(s[i..i + n]) == v
  {
    assert s[..k][i..i + n] == s[i..i + n];
    hide Positional;
  }

  /** The message that ends where `rest` starts. */
  ghost predicate Reads(s: seq<Byte>, p: Packet, rest: seq<Byte>) {
    exists k :: 0 <= k <= |s| && rest == s[k..] && Form(p, s[..k])
  }

  /** A message can only be read as one of its type. */
  lemma ReadsType(s: seq<Byte>, p: Packet, rest: seq<Byte>)
    requires Reads(s, p, rest)
    ensures exists k :: 0 < k <= |s| && rest == s[k..] && Form(p, s[..k]) && s[..k][0] == s[0]
  {
    hide Form;
    var k :| 0 <= k <= |s| && rest == s[k..] && Form(p, s[..k]);
    FormType(p, s[..k]);
  }

  // ---------------------------------------------------------------- messages of fixed length

  lemma AckParsed(s: seq<Byte>)
    requires s != [] && s[0] == 2
    ensures ParsePacket(s) == if |s| < 18 then Err(ReadError)
      else Ok(XferAck(SegFlagsOf(s[1] as nat), Positional(s[2..10]), Positional(s[10..18])), s[18..])
  {
    hide Positional, Value, TakeUint, Take;
    assert s[0..] == s;
    ByteAt(s, 0);
    ByteAt(s, 1);
    if |s| >= 2 { UintAt(s, 2, 8); }
    if |s| >= 10 { UintAt(s, 10, 8); }
  }

  lemma AckFormAt(s: seq<Byte>, flags: SegFlags, tid: nat, len: nat)
    requires |s| >= 18 && s[0] == 2
    ensures AckForm(s[..18], flags, tid, len) <==>
      flags == SegFlagsOf(s[1] as nat) && tid == Positional(s[2..10]) && len == Positional(s[10..18])
  {
    hide Positional, Uint;
    UintPrefix(s, 18, 2, 8);
    UintPrefix(s, 18, 10, 8);
  }

  lemma AckExactly(s: seq<Byte>, p: Packet, rest: seq<Byte>)
    requires s != [] && s[0] == 2
    ensures ParsePacket(s) == Ok(p, rest) <==> Reads(s, p, rest)
  {
    AckParsed(s);
    AckLength();
    hide Positional, ParsePacket, AckForm, SegFlagsOf;
    if ParsePacket(s) == Ok(p, rest) {
      AckFormAt(s, p.flags, p.tid, p.len);
      assert Form(p, s[..18]);
    }
    if Reads(s, p, rest) {
      ReadsType(s, p, rest);
      var k :| 0 < k <= |s| && rest == s[k..] && Form(p, s[..k]) && s[..k][0] == s[0];
      FormType(p, s[..k]);
      AckFormAt(s, p.flags, p.tid, p.len);
    }
  }

  lemma AckLength()
    ensures forall m, flags, tid, len :: AckForm(m, flags, tid, len) ==> |m| == 18
  {}

  lemma RefuseParsed(s: seq<Byte>)
    requires s != [] && s[0] == 3
    ensures ParsePacket(s) == if |s| < 2 then Err(ReadError)
      else if RefuseOf(s[1] as nat).Err? then Err(RefuseOf(s[1] as nat).error)
      else if |s| < 10 then Err(ReadError)
      else Ok(XferRefuse(RefuseOf(s[1] as nat).value, Positional(s[2..10])), s[10..])
  {
    hide Positional, Value, TakeUint, Take, RefuseOf;
    assert s[0..] == s;
    ByteAt(s, 0);
    ByteAt(s, 1);
    if |s| >= 2 { UintAt(s, 2, 8); }
  }

  lemma RefuseFormAt(s: seq<Byte>, reason: RefuseReason, tid: nat)
    requires |s| >= 10 && s[0] == 3
    ensures RefuseForm(s[..10], reason, tid) <==>
      RefuseOf(s[1] as nat) == Ok(reason, []) && tid == Positional(s[2..10])
  {
    hide Positional, Uint;
    UintPrefix(s, 10, 2, 8);
  }

  lemma RefuseExactly(s: seq<Byte>, p: Packet, rest: seq<Byte>)
    requires s != [] && s[0] == 3
    ensures ParsePacket(s) == Ok(p, rest) <==> Reads(s, p, rest)
  {
    RefuseParsed(s);
    RefuseLength();
    hide Positional, ParsePacket, RefuseForm;
    if ParsePacket(s) == Ok(p, rest) {
      RefuseFormAt(s, p.refuseReason, p.tid);
      assert Form(p, s[..10]);
    }
    if Reads(s, p, rest) {
      ReadsType(s, p, rest);
      var k :| 0 < k <= |s| && rest == s[k..] && Form(p, s[..k]) && s[..k][0] == s[0];
      FormType(p, s[..k]);
      RefuseFormAt(s, p.refuseReason, p.tid);
    }
  }

  lemma RefuseLength()
    ensures forall m, reason, tid :: RefuseForm(m, reason, tid) ==> |m| == 10
  {}

  lemma KeepAliveExactly(s: seq<Byte>, p: Packet, rest: seq<Byte>)
    requires s != [] && s[0] == 4
    ensures ParsePacket(s) == Ok(p, rest) <==> Reads(s, p, rest)
  {
    assert ParsePacket(s) == Ok(KeepAlive, s[1..]) by {
      hide Positional, Value, TakeUint, Take;
      assert s[0..] == s;
      ByteAt(s, 0);
    }
    hide ParsePacket;
    if ParsePacket(s) == Ok(p, rest) {
      assert Form(p, s[..1]);
    }
    if Reads(s, p, rest) {
      ReadsType(s, p, rest);
      var k :| 0 < k <= |s| && rest == s[k..] && Form(p, s[..k]) && s[..k][0] == s[0];
      FormType(p, s[..k]);
    }
  }

  lemma TermParsed(s: seq<Byte>)
    requires s != [] && s[0] == 5
    ensures ParsePacket(s) == if |s| < 3 then Err(ReadError)
      else if TermOf(s[2] as nat).Err? then Err(TermOf(s[2] as nat).error)
      else Ok(SessTerm(LowBit(s[1] as nat), TermOf(s[2] as nat).value), s[3..])
  {
    hide Positional, Value, TakeUint, Take, TermOf;
    assert s[0..] == s;
    ByteAt(s, 0);
    ByteAt(s, 1);
    if |s| >= 2 { ByteAt(s, 2); }
  }

  lemma TermExactly(s: seq<Byte>, p: Packet, rest: seq<Byte>)
    requires s != [] && s[0] == 5
    ensures ParsePacket(s) == Ok(p, rest) <==> Reads(s, p, rest)
  {
    TermParsed(s);
    hide ParsePacket;
    if ParsePacket(s) == Ok(p, rest) {
      assert Form(p, s[..3]);
    }
    if Reads(s, p, rest) {
      ReadsType(s, p, rest);
      var k :| 0 < k <= |s| && rest == s[k..] && Form(p, s[..k]) && s[..k][0] == s[0];
      FormType(p, s[..k]);
    }
  }

  lemma RejectParsed(s: seq<Byte>)
    requires s != [] && s[0] == 6
    ensures ParsePacket(s) == if |s| < 3 then Err(ReadError)
      else if RejectOf(s[1] as nat).Err? then Err(RejectOf(s[1] as nat).error)
      else Ok(MsgReject(RejectOf(s[1] as nat).value, s[2] as nat), s[3..])
  {
    hide Positional, Value, TakeUint, Take, RejectOf;
    assert s[0..] == s;
    ByteAt(s, 0);
    ByteAt(s, 1);
    if |s| >= 2 { ByteAt(s, 2); }
  }

  lemma RejectExactly(s: seq<Byte>, p: Packet, rest: seq<Byte>)
    requires s != [] && s[0] == 6
    ensures ParsePacket(s) == Ok(p, rest) <==> Reads(s, p, rest)
  {
    RejectParsed(s);
    hide ParsePacket;
    if ParsePacket(s) == Ok(p, rest) {
      assert Form(p, s[..3]);
    }
    if Reads(s, p, rest) {
      ReadsType(s, p, rest);
      var k :| 0 < k <= |s| && rest == s[k..] && Form(p, s[..k]) && s[..k][0] == s[0];
      FormType(p, s[..k]);
    }
  }

  lemma ContactParsed(s: seq<Byte>)
    requires s != [] && s[0] == 0x64
    ensures ParsePacket(s) == if |s| < 6 then Err(ReadError)
      else if s[1..4] != [0x74, 0x6e, 0x21] then Err(InvalidMagic)
      else if s[4] != 4 then Err(UnsupportedVersion)
      else Ok(ContactHeader(LowBit(s[5] as nat)), s[6..])
  {
    hide Positional, Value, TakeUint, Take;
    assert s[0..] == s && MAGIC[1..] == [0x74, 0x6e, 0x21];
    ByteAt(s, 0);
    TakeAt(s, 1, 5);
    if |s| >= 6 {
      assert s[1..6][..3] == s[1..4] && s[1..6][3] == s[4] && s[1..6][4] == s[5];
    }
  }

  lemma ContactExactly(s: seq<Byte>, p: Packet, rest: seq<Byte>)
    requires s != [] && s[0] == 0x64
    ensures ParsePacket(s) == Ok(p, rest) <==> Reads(s, p, rest)
  {
    ContactParsed(s);
    hide ParsePacket;
    if |s| >= 6 {
      assert s[..6][..5] == [s[0]] + s[1..4] + [s[4]];
      assert [0x64, 0x74, 0x6e, 0x21, 4] == [0x64] + [0x74, 0x6e, 0x21] + [4];
      assert s[..6][..5] == [0x64, 0x74, 0x6e, 0x21, 4] <==> s[1..4] == [0x74, 0x6e, 0x21] && s[4] == 4 by {
        assert s[1..4] == [s[1], s[2], s[3]];
        assert s[..6][..5] == [s[0], s[1], s[2], s[3], s[4]];
      }
      if ParsePacket(s) == Ok(p, rest) {
        assert ContactForm(s[..6], p.canTls);
      }
    }
    if Reads(s, p, rest) {
      ReadsType(s, p, rest);
      var k :| 0 < k <= |s| && rest == s[k..] && Form(p, s[..k]) && s[..k][0] == s[0];
      FormType(p, s[..k]);
    }
  }

  lemma UnknownTypes(s: seq<Byte>, p: Packet, rest: seq<Byte>)
    requires s == [] || !(1 <= s[0] <= 7 || s[0] == 0x64)
    ensures ParsePacket(s).Err? && !Reads(s, p, rest)
  {
    assert ParsePacket(s).Err? by {
      hide Positional, Value, TakeUint, Take;
      assert s[0..] == s;
      ByteAt(s, 0);
    }
    hide ParsePacket, Form;
    if Reads(s, p, rest) {
      ReadsType(s, p, rest);
      var k :| 0 < k <= |s| && rest == s[k..] && Form(p, s[..k]) && s[..k][0] == s[0];
      FormType(p, s[..k]);
    }
  }

  // ---------------------------------------------------------------- messages of variable length

  lemma SessInitFields(s: seq<Byte>)
    requires |s| >= 1
    ensures TakeUint(s[1..], 2) == if |s| >= 3 then Ok(Positional(s[1..3]), s[3..]) else Err(ReadError)
    ensures |s| >= 3 ==>
      TakeUint(s[3..], 8) == if |s| >= 11 then Ok(Positional(s[3..11]), s[11..]) else Err(ReadError)
    ensures |s| >= 11 ==>
      TakeUint(s[11..], 8) == if |s| >= 19 then Ok(Positional(s[11..19]), s[19..]) else Err(ReadError)
    ensures |s| >= 19 ==>
      TakeUint(s[19..], 2) == if |s| >= 21 then Ok(Positional(s[19..21]), s[21..]) else Err(ReadError)
  {
    hide Positional, Value, TakeUint;
    UintAt(s, 1, 2);
    if |s| >= 3 { UintAt(s, 3, 8); }
    if |s| >= 11 { UintAt(s, 11, 8); }
    if |s| >= 19 { UintAt(s, 19, 2); }
  }

  lemma SessInitParsed(s: seq<Byte>)
    requires s != [] && s[0] == 7
    ensures ParsePacket(s) == if |s| < 21 then Err(ReadError)
      else
        var n := Positional(s[19..21]);
        if |s| < 25 + n then Err(ReadError)
        else if Positional(s[21 + n..25 + n]) != 0 then Err(SessionExtensionItemsUnsupported)
        else Ok(SessInit(Positional(s[1..3]), Positional(s[3..11]), Positional(s[11..19]), s[21..21 + n]), s[25 + n..])
  {
    hide Positional, Value, TakeUint, Take;
    assert s[0..] == s;
    ByteAt(s, 0);
    SessInitFields(s);
    if |s| >= 21 {
      var n := Positional(s[19..21]);
      TakeAt(s, 21, n);
      if 21 + n <= |s| { UintAt(s, 21 + n, 4); }
    }
  }

  /** The form of a SESS_INIT at the start of a stream. */
  lemma SessInitFormAt(s: seq<Byte>, keepalive: nat, segmentMru: nat, transferMru: nat, nodeId: seq<Byte>)
    requires 25 + |nodeId| <= |s|
    ensures SessInitForm(s[..25 + |nodeId|], keepalive, segmentMru, transferMru, nodeId) <==>
      && s[0] == 7 && Positional(s[1..3]) == keepalive && Positional(s[3..11]) == segmentMru
      && Positional(s[11..19]) == transferMru && Positional(s[19..21]) == |nodeId|
      && s[21..21 + |nodeId|] == nodeId && Positional(s[21 + |nodeId|..25 + |nodeId|]) == 0
  {
    hide Positional, Uint;
    var k := 25 + |nodeId|;
    UintPrefix(s, k, 1, 2);
    UintPrefix(s, k, 3, 8);
    UintPrefix(s, k, 11, 8);
    UintPrefix(s, k, 19, 2);
    UintPrefix(s, k, 21 + |nodeId|, 4);
    assert s[..k][21..21 + |nodeId|] == s[21..21 + |nodeId|];
  }

  lemma SessInitLength()
    ensures forall m, keepalive, segmentMru, transferMru, nodeId ::
      SessInitForm(m, keepalive, segmentMru, transferMru, nodeId) ==> |m| == 25 + |nodeId|
  {}

  lemma SessInitRead(s: seq<Byte>, keepalive: nat, segmentMru: nat, transferMru: nat, nodeId: seq<Byte>, rest: seq<Byte>)
    requires s != [] && s[0] == 7
    requires ParsePacket(s) == Ok(SessInit(keepalive, segmentMru, transferMru, nodeId), rest)
    ensures var k := 25 + |nodeId|;
      k <= |s| && rest == s[k..] && SessInitForm(s[..k], keepalive, segmentMru, transferMru, nodeId)
  {
    hide *;
    SessInitParsed(s);
    var n := Positional(s[19..21]);
    assert |s[21..21 + n]| == n;
    SessInitFormAt(s, keepalive, segmentMru, transferMru, nodeId);
  }

  lemma SessInitWritten(s: seq<Byte>, keepalive: nat, segmentMru: nat, transferMru: nat, nodeId: seq<Byte>)
    requires |s| >= 25 + |nodeId| && SessInitForm(s[..25 + |nodeId|], keepalive, segmentMru, transferMru, nodeId)
    requires s[0] == 7
    ensures ParsePacket(s) == Ok(SessInit(keepalive, segmentMru, transferMru, nodeId), s[25 + |nodeId|..])
  {
    hide *;
    SessInitParsed(s);
    SessInitFormAt(s, keepalive, segmentMru, transferMru, nodeId);
  }

  lemma SessInitType(s: seq<Byte>, p: Packet, rest: seq<Byte>)
    requires s != [] && s[0] == 7 && ParsePacket(s) == Ok(p, rest)
    ensures p.SessInit?
  {
    hide *;
    SessInitParsed(s);
  }

  lemma SessInitExactly(s: seq<Byte>, p: Packet, rest: seq<Byte>)
    requires s != [] && s[0] == 7
    ensures ParsePacket(s) == Ok(p, rest) <==> Reads(s, p, rest)
  {
    SessInitLength();
    hide ParsePacket, SessInitForm;
    if ParsePacket(s) == Ok(p, rest) {
      SessInitType(s, p, rest);
      SessInitRead(s, p.keepalive, p.segmentMru, p.transferMru, p.nodeId, rest);
      assert Form(p, s[..25 + |p.nodeId|]);
    }
    if Reads(s, p, rest) {
      ReadsType(s, p, rest);
      var k :| 0 < k <= |s| && rest == s[k..] && Form(p, s[..k]) && s[..k][0] == s[0];
      FormType(p, s[..k]);
      SessInitWritten(s, p.keepalive, p.segmentMru, p.transferMru, p.nodeId);
    }
  }

  /** One turn of the extension loop. */
  lemma ItemAt(s: seq<Byte>, n: nat)
    ensures ParseItem(s, n) ==
      if |s| < 5 then Err(ReadError)
      else
        var l := Positional(s[3..5]);
        if n < 5 + l then Err(MalformedTransferExtension)
        else if |s| < 5 + l then Err(ReadError)
        else Ok(RawItem(s[0], Positional(s[1..3]), s[5..5 + l]), s[5 + l..])
  {
    hide Positional, Value, TakeUint, Take;
    assert s[0..] == s;
    TakeAt(s, 0, 1);
    if |s| >= 1 {
      assert s[0..1][0] == s[0];
      UintAt(s, 1, 2);
    }
    if |s| >= 3 { UintAt(s, 3, 2); }
    if |s| >= 5 { TakeAt(s, 5, Positional(s[3..5])); }
  }

  lemma TwoBytes(a: Byte, b: Byte)
    ensures Positional([a, b]) == 256 * a as nat + b as nat
  {
    assert Positional([b]) == b as nat * Pow256(0) + Positional([]);
    assert [a, b][1..] == [b];
    assert Pow256(1) == 256;
    assert Positional([a, b]) == a as nat * Pow256(1) + Positional([b]);
  }

  lemma KnownItemForm(x: RawItem, a: Byte, b: Byte)
    requires x.itemType == 256 * a as nat + b as nat
    ensures KnownItem(x) == if a == 0 && b == 1 then [ExtItem(x.flag as nat % 2 == 1, BundleID, x.data)] else []
  {}

  lemma ItemFormExactly(s: seq<Byte>, k: nat, items: seq<ExtItem>)
    requires 5 <= k <= |s|
    ensures ItemForm(s[..k], items) <==>
      k == 5 + Positional(s[3..5]) && items == KnownItem(RawItem(s[0], Positional(s[1..3]), s[5..k]))
  {
    hide Positional;
    var m, x := s[..k], RawItem(s[0], Positional(s[1..3]), s[5..k]);
    UintPrefix(s, k, 3, 2);
    assert m[5..] == x.data && s[1..3] == [m[1], m[2]] && m[0] == x.flag;
    TwoBytes(m[1], m[2]);
    KnownItemForm(x, m[1], m[2]);
    hide Uint, KnownItem;
  }

  lemma {:induction false} ListExactly(s: seq<Byte>, n: nat, items: seq<ExtItem>, rest: seq<Byte>)
    ensures ParseItems(s, n) == Ok(items, rest) <==> n <= |s| && rest == s[n..] && ListForm(s[..n], items)
    decreases n, 1
  {
    hide Positional, ParseItem, ItemForm, KnownItem, ParseItems, ListForm;
    if n < 5 {
      ShortList(s, n, items, rest);
    } else {
      if ParseItems(s, n) == Ok(items, rest) {
        ListParsed(s, n, items, rest);
      }
      if n <= |s| && rest == s[n..] && ListForm(s[..n], items) {
        ListWritten(s, n, items, rest);
      }
    }
  }

  lemma ShortList(s: seq<Byte>, n: nat, items: seq<ExtItem>, rest: seq<Byte>)
    requires n < 5
    ensures ParseItems(s, n) == Ok(items, rest) <==> n <= |s| && rest == s[n..] && ListForm(s[..n], items)
  {}

  lemma {:induction false} ListParsed(s: seq<Byte>, n: nat, items: seq<ExtItem>, rest: seq<Byte>)
    requires n >= 5 && ParseItems(s, n) == Ok(items, rest)
    ensures n <= |s| && rest == s[n..] && ListForm(s[..n], items)
    decreases n, 0
  {
    hide Positional, ItemForm, KnownItem;
    ItemAt(s, n);
    hide ParseItem;
    var (x, s1) := ParseItem(s, n).Extract();
    var k := 5 + |x.data|;
    var tail := ParseItems(s1, n - k).value;
    var head := KnownItem(x);
    assert items == head + tail;
    ListExactly(s1, n - k, tail, rest);
    assert s[..n][k..] == s1[..n - k] && s1[n - k..] == s[n..] && s[..n][..k] == s[..k];
    assert items[..|head|] == head && items[|head|..] == tail;
    ItemFormExactly(s, k, head);
  }

  lemma {:induction false} ListWritten(s: seq<Byte>, n: nat, items: seq<ExtItem>, rest: seq<Byte>)
    requires 5 <= n <= |s| && rest == s[n..] && ListForm(s[..n], items)
    ensures ParseItems(s, n) == Ok(items, rest)
    decreases n, 0
  {
    hide Positional, ItemForm, KnownItem;
    ItemAt(s, n);
    hide ParseItem;
    var m := s[..n];
    var k: nat, j: nat :| 5 <= k <= |m| && j <= |items| && ItemForm(m[..k], items[..j]) && ListForm(m[k..], items[j..]);
    assert m[..k] == s[..k];
    ItemFormExactly(s, k, items[..j]);
    var s1 := s[k..];
    assert m[k..] == s1[..n - k] && s1[n - k..] == s[n..];
    ListExactly(s1, n - k, items[j..], rest);
    assert items == items[..j] + items[j..];
  }

  /** The extension list of a segment, by its position. */
  lemma ExtensionsAt(s: seq<Byte>, start: bool)
    requires |s| >= 10
    ensures !start ==> ParseExtensions(s[10..], start) == Ok([], s[10..])
    ensures start && |s| < 14 ==> ParseExtensions(s[10..], start).Err?
    ensures start && |s| >= 14 ==> ParseExtensions(s[10..], start) == ParseItems(s[14..], Positional(s[10..14]))
  {
    hide Positional, Value, TakeUint, ParseItems;
    UintAt(s, 10, 4);
  }

  lemma SegmentFails(s: seq<Byte>)
    requires s != [] && s[0] == 1
    requires |s| < 10 || ParseExtensions(s[10..], SegFlagsOf(s[1] as nat).start).Err?
    ensures ParsePacket(s).Err?
  {
    hide Positional, Value, TakeUint, Take, ParseExtensions;
    assert s[0..] == s;
    ByteAt(s, 0);
    ByteAt(s, 1);
    if |s| >= 2 { UintAt(s, 2, 8); }
  }

  lemma SegmentParsed(s: seq<Byte>, i: nat, items: seq<ExtItem>)
    requires |s| >= 10 && s[0] == 1 && i <= |s|
    requires ParseExtensions(s[10..], SegFlagsOf(s[1] as nat).start) == Ok(items, s[i..])
    ensures ParsePacket(s) ==
      if |s| < i + 8 then Err(ReadError)
      else
        var len := Positional(s[i..i + 8]);
        if len > 64000 then Err(SegmentTooLarge(len))
        else if |s| < i + 8 + len then Err(ReadError)
        else
          Ok(XferSeg(SegFlagsOf(s[1] as nat), Positional(s[2..10]), len, s[i + 8..i + 8 + len], items), s[i + 8 + len..])
  {
    hide Positional, Value, TakeUint, Take, ParseExtensions;
    assert s[0..] == s;
    ByteAt(s, 0);
    ByteAt(s, 1);
    UintAt(s, 2, 8);
    UintAt(s, i, 8);
    if |s| >= i + 8 { TakeAt(s, i + 8, Positional(s[i..i + 8])); }
  }

  lemma BodyFormAt(s: seq<Byte>, k: nat, i: nat, len: nat, buf: seq<Byte>)
    requires k <= |s|
    ensures BodyForm(s[..k], i, len, buf) <==>
      i + 8 <= k && Positional(s[i..i + 8]) == len && k == i + 8 + len && buf == s[i + 8..k] && len <= 64000
  {
    hide Positional, Uint;
    assert BodyForm(s[..k], i, len, buf) ==> i + 8 <= k by { LongEnough(s[..k], i, 8, len); }
    if i + 8 <= k {
      UintPrefix(s, k, i, 8);
      assert s[..k][i + 8..] == s[i + 8..k];
    }
  }

  lemma LongEnough(m: seq<Byte>, i: nat, n: nat, v: nat)
    ensures Uint(m, i, n, v) ==> i + n <= |m|
  {}

  /** The fields before the extension list. */
  lemma SegmentFormAt(s: seq<Byte>, k: nat, flags: SegFlags, tid: nat, len: nat, buf: seq<Byte>, items: seq<ExtItem>)
    requires 10 <= k <= |s| && s[0] == 1
    ensures SegmentForm(s[..k], flags, tid, len, buf, items) <==>
      && flags == SegFlagsOf(s[1] as nat) && tid == Positional(s[2..10])
      && (if flags.start then exists n: nat :: ListPart(s[..k], n, items) && BodyForm(s[..k], 14 + n, len, buf)
          else items == [] && BodyForm(s[..k], 10, len, buf))
  {
    hide Positional, Uint, ListPart, BodyForm;
    UintPrefix(s, k, 2, 8);
  }

  lemma ListPartAt(s: seq<Byte>, k: nat, n: nat, items: seq<ExtItem>)
    requires 14 + n <= k <= |s|
    ensures ListPart(s[..k], n, items) <==> Positional(s[10..14]) == n && ListForm(s[14..14 + n], items)
  {
    hide Positional, Uint, ListForm;
    UintPrefix(s, k, 10, 4);
    assert s[..k][14..14 + n] == s[14..14 + n];
  }

  /** What the extension loop reads and where it ends. */
  lemma ListReadAt(s: seq<Byte>, n: nat, items: seq<ExtItem>, rest: seq<Byte>)
    requires |s| >= 14
    ensures ParseItems(s[14..], n) == Ok(items, rest) <==>
      14 + n <= |s| && rest == s[14 + n..] && ListForm(s[14..14 + n], items)
  {
    hide ParseItems, ListForm;
    ListExactly(s[14..], n, items, rest);
    if 14 + n <= |s| {
      assert s[14..][n..] == s[14 + n..] && s[14..][..n] == s[14..14 + n];
    }
  }

  lemma SegmentRead(s: seq<Byte>, p: Packet, rest: seq<Byte>)
    requires s != [] && s[0] == 1 && ParsePacket(s) == Ok(p, rest)
    ensures Reads(s, p, rest)
  {
    hide Positional, Uint, ParsePacket, ParseItems, ListPart, BodyForm, SegmentForm, ParseExtensions, ListForm, SegFlagsOf;
    if |s| < 10 || ParseExtensions(s[10..], SegFlagsOf(s[1] as nat).start).Err? {
      SegmentFails(s);
      assert false;
    } else {
      var flags, ext := SegFlagsOf(s[1] as nat), ParseExtensions(s[10..], SegFlagsOf(s[1] as nat).start);
      var n := if flags.start && |s| >= 14 then Positional(s[10..14]) else 0;
      var i := if flags.start then 14 + n else 10;
      ExtensionsAt(s, flags.start);
      if flags.start {
        ListReadAt(s, n, ext.value, ext.rest);
      }
      SegmentParsed(s, i, ext.value);
      var k := i + 8 + p.len;
      BodyFormAt(s, k, i, p.len, p.buf);
      if flags.start {
        ListPartAt(s, k, n, ext.value);
      }
      SegmentFormAt(s, k, flags, p.tid, p.len, p.buf, p.extensions);
      assert Form(p, s[..k]) && rest == s[k..];
    }
  }

  lemma StartWritten(s: seq<Byte>, k: nat, n: nat, len: nat, buf: seq<Byte>, items: seq<ExtItem>)
    requires |s| >= k >= 10 && s[0] == 1 && SegFlagsOf(s[1] as nat).start
    requires ListPart(s[..k], n, items) && BodyForm(s[..k], 14 + n, len, buf)
    ensures ParsePacket(s) == Ok(XferSeg(SegFlagsOf(s[1] as nat), Positional(s[2..10]), len, buf, items), s[k..])
  {
    hide Positional, Uint, ParsePacket, ParseItems, ListPart, BodyForm, ParseExtensions, ListForm, SegFlagsOf;
    BodyFormAt(s, k, 14 + n, len, buf);
    ListPartAt(s, k, n, items);
    ListReadAt(s, n, items, s[14 + n..]);
    ExtensionsAt(s, true);
    SegmentParsed(s, 14 + n, items);
  }

  lemma OtherWritten(s: seq<Byte>, k: nat, len: nat, buf: seq<Byte>)
    requires |s| >= k >= 10 && s[0] == 1 && !SegFlagsOf(s[1] as nat).start && BodyForm(s[..k], 10, len, buf)
    ensures ParsePacket(s) == Ok(XferSeg(SegFlagsOf(s[1] as nat), Positional(s[2..10]), len, buf, []), s[k..])
  {
    hide Positional, Uint, ParsePacket, ParseItems, BodyForm, ParseExtensions, SegFlagsOf;
    BodyFormAt(s, k, 10, len, buf);
    ExtensionsAt(s, false);
    SegmentParsed(s, 10, []);
  }

  /** A segment in its form is read back, whatever follows. */
  lemma SegmentWritten(s: seq<Byte>, k: nat, flags: SegFlags, tid: nat, len: nat, buf: seq<Byte>, items: seq<ExtItem>)
    requires 10 <= k <= |s| && s[0] == 1 && SegmentForm(s[..k], flags, tid, len, buf, items)
    ensures ParsePacket(s) == Ok(XferSeg(flags, tid, len, buf, items), s[k..])
  {
    hide *;
    SegmentFormAt(s, k, flags, tid, len, buf, items);
    if flags.start {
      var n: nat :| ListPart(s[..k], n, items) && BodyForm(s[..k], 14 + n, len, buf);
      StartWritten(s, k, n, len, buf, items);
    } else {
      OtherWritten(s, k, len, buf);
    }
  }

  lemma SegmentLength(m: seq<Byte>, flags: SegFlags, tid: nat, len: nat, buf: seq<Byte>, items: seq<ExtItem>)
    ensures SegmentForm(m, flags, tid, len, buf, items) ==> |m| >= 10
  {}

  lemma SegmentExactly(s: seq<Byte>, p: Packet, rest: seq<Byte>)
    requires s != [] && s[0] == 1
    ensures ParsePacket(s) == Ok(p, rest) <==> Reads(s, p, rest)
  {
    hide ParsePacket, SegmentForm;
    if ParsePacket(s) == Ok(p, rest) {
      SegmentRead(s, p, rest);
    }
    if Reads(s, p, rest) {
      ReadsType(s, p, rest);
      var k :| 0 < k <= |s| && rest == s[k..] && Form(p, s[..k]) && s[..k][0] == s[0];
      FormType(p, s[..k]);
      SegmentLength(s[..k], p.flags, p.tid, p.len, p.buf, p.extensions);
      SegmentWritten(s, k, p.flags, p.tid, p.len, p.buf, p.extensions);
    }
  }

  /** The parser reads a message exactly if the bytes it takes have its form. */
  lemma ParsesExactly(s: seq<Byte>, p: Packet, rest: seq<Byte>)
    ensures ParsePacket(s) == Ok(p, rest) <==> exists k :: 0 <= k <= |s| && rest == s[k..] && Form(p, s[..k])
  {
    assert Reads(s, p, rest) <==> exists k :: 0 <= k <= |s| && rest == s[k..] && Form(p, s[..k]);
    hide ParsePacket, Reads, Form;
    if s == [] || !(1 <= s[0] <= 7 || s[0] == 0x64) {
      UnknownTypes(s, p, rest);
    } else if s[0] == 1 {
      SegmentExactly(s, p, rest);
    } else if s[0] == 2 {
      AckExactly(s, p, rest);
    } else if s[0] == 3 {
      RefuseExactly(s, p, rest);
    } else if s[0] == 4 {
      KeepAliveExactly(s, p, rest);
    } else if s[0] == 5 {
      TermExactly(s, p, rest);
    } else if s[0] == 6 {
      RejectExactly(s, p, rest);
    } else if s[0] == 7 {
      SessInitExactly(s, p, rest);
    } else {
      ContactExactly(s, p, rest);
    }
  }

  /** What the printer writes for a well-formed message has its form. */
  lemma WrittenInForm(p: Packet)
    requires WellFormed(p)
    ensures Form(p, Encode(p))
  {
    PacketRoundTrip(p, []);
    hide ParsePacket, Form, Encode;
    var s := Encode(p);
    assert s + [] == s;
    ParsesExactly(s, p, []);
    var k :| 0 <= k <= |s| && [] == s[k..] && Form(p, s[..k]);
    assert s[..k] == s;
  }
}
