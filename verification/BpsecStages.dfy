/** A bundle without security blocks on its way through signing, encrypting, decrypting and accepting: what each
    security operation does to it and what the policy sees of it. */
module BpsecStages {
  import opened Options
  import opened BpsecBundle
  import opened BpsecPolicy
  import opened BpsecPolicySpec
  import opened BpsecEnforcement
  import Accounting = BpsecAccounting

  // ---------------------------------------------------------------- blocks in the middle

  predicate NoNumber(blocks: seq<Block>, n: nat) {
    forall i :: 0 <= i < |blocks| ==> blocks[i].number != n
  }

  /** Working on a block by number in a list where it is the first with that number. */
  lemma Middle(pre: seq<Block>, x: Block, post: seq<Block>)
    requires NoNumber(pre, x.number)
    ensures var blocks := pre + [x] + post;
      && Has(blocks, x.number) && Get(blocks, x.number) == x
      && Drop(blocks, x.number) == pre + post
      && forall y :: Put(blocks, x.number, y) == pre + [y] + post
  {
    var blocks := pre + [x] + post;
    assert blocks[|pre|] == x;
    assert forall i :: 0 <= i < |pre| ==> blocks[i] == pre[i];
    assert IndexOf(blocks, x.number) == |pre|;
  }

  predicate Insecure(blocks: seq<Block>) {
    forall i :: 0 <= i < |blocks| ==> blocks[i].blockType != Integrity && blocks[i].blockType != Confidentiality
  }

  lemma {:induction false} DecodedAppend(x: seq<Block>, y: seq<Block>, bibs: set<nat>)
    ensures Decoded(x + y, bibs) == Decoded(x, bibs) + Decoded(y, bibs)
  {
    hide DecodeOne;
    if x == [] {
      assert x + y == y;
    } else {
      DecodedAppend(x[1..], y, bibs);
      assert (x + y)[1..] == x[1..] + y;
    }
  }

  lemma {:induction false} BibNumbersAppend(x: seq<Block>, y: seq<Block>)
    ensures BibNumbers(x + y) == BibNumbers(x) + BibNumbers(y)
  {
    if x == [] {
      assert x + y == y;
    } else {
      BibNumbersAppend(x[1..], y);
      assert (x + y)[1..] == x[1..] + y;
    }
  }

  lemma {:induction false} InsecureDecoded(x: seq<Block>, bibs: set<nat>)
    requires Insecure(x)
    ensures Decoded(x, bibs) == [] && BibNumbers(x) == {}
  {
    if x != [] {
      InsecureDecoded(x[1..], bibs);
    }
  }

  /** Blocks that are not for security do not matter to the policy. */
  lemma SecurityBlocksOf(b: Bundle, plain: seq<Block>, x: seq<Block>)
    requires b.canonicals == plain + x && Insecure(plain)
    ensures SecurityBlocks(b) == BlocksAmong(x)
  {
    BibNumbersAppend(plain, x);
    InsecureDecoded(plain, BibNumbers(x));
    assert BibNumbers(b.canonicals) == BibNumbers(x);
    DecodedAppend(plain, x, BibNumbers(x));
    assert [] + Decoded(x, BibNumbers(x)) == Decoded(x, BibNumbers(x));
  }

  lemma Regroup<T>(a: seq<T>, b: seq<T>, c: seq<T>, d: seq<T>)
    ensures (a + b + c) + d == a + b + (c + d) == a + (b + (c + d)) == (a + b) + c + d == a + (b + c + d)
  {}

  // ---------------------------------------------------------------- stages of a protected bundle

  datatype Signature = Signature(key: Key, sha: ShaVariant)

  datatype Sealing = Sealing(key: Key, aes: AesVariant, wrapped: bool)

  /** An original bundle and what is done to it. */
  datatype Plan = Plan(
    primary: Primary, before: seq<Block>, payload: Block, after: seq<Block>,
    signPrimary: Option<Signature>, signPayload: Option<Signature>, seal: Option<Sealing>)

  predicate WellPlanned(p: Plan) {
    && NoNumber(p.before, PAYLOAD_NUMBER) && p.payload.number == PAYLOAD_NUMBER
    && Insecure(p.before + [p.payload] + p.after)
    && (p.seal.Some? ==> KeyFits(p.seal.value.key, p.seal.value.aes, p.seal.value.wrapped))
  }

  function Top(p: Plan): nat {
    MaxNumber(p.before + [p.payload] + p.after)
  }

  /** The number of the BIB of the primary block, of the payload's, and of their BCBs. */
  function N0(p: Plan): nat {
    Top(p) + 1
  }

  function N1(p: Plan): nat {
    Top(p) + (if p.signPrimary.Some? then 2 else 1)
  }

  function M1(p: Plan): nat {
    N1(p) + 1
  }

  function M2(p: Plan): nat {
    if p.signPayload.Some? then N1(p) + 2 else N1(p)
  }

  /** The primary block all MACs and ciphertexts are made under. */
  function View(p: Plan): Primary {
    if p.signPrimary.Some? then p.primary.(crc := CrcNo) else p.primary
  }

  function Bib0(p: Plan): Block
    requires p.signPrimary.Some?
  {
    var s := p.signPrimary.value;
    Block(N0(p), Integrity, Asb([PRIMARY_NUMBER],
      [Mac(s.key, s.sha, View(p), PRIMARY_NUMBER, ThePrimary(View(p)), N0(p))]), CrcNo)
  }

  function Asb1(p: Plan): Content
    requires p.signPayload.Some?
  {
    var s := p.signPayload.value;
    Asb([PAYLOAD_NUMBER],
      [Mac(s.key, s.sha, View(p), PAYLOAD_NUMBER, TheBlock(p.payload.blockType, p.payload.content), N1(p))])
  }

  function Sealed(p: Plan, c: Content): Content
    requires p.seal.Some?
  {
    Cipher(p.seal.value.key, p.seal.value.wrapped, View(p), c)
  }

  function Bib1(p: Plan, hidden: bool, crc: CrcType): Block
    requires p.signPayload.Some? && (hidden ==> p.seal.Some?)
  {
    Block(N1(p), Integrity, if hidden then Sealed(p, Asb1(p)) else Asb1(p), crc)
  }

  function BcbFor(n: nat, target: nat): Block {
    Block(n, Confidentiality, Asb([target], []), CrcNo)
  }

  /** Which security blocks are there, whether the payload's BIB is encrypted, and the CRC types. */
  datatype Stage = Stage(has0: bool, has1: bool, hidden: bool, sealed: bool, primaryCrc: CrcType, payloadCrc: CrcType,
                         bibCrc: CrcType)

  predicate StageOf(p: Plan, s: Stage) {
    && (s.has0 ==> p.signPrimary.Some?) && (s.has1 ==> p.signPayload.Some?)
    && (s.hidden ==> s.has1 && p.seal.Some?) && (s.sealed ==> p.seal.Some?)
  }

  function PayloadAt(p: Plan, s: Stage): Block
    requires StageOf(p, s)
  {
    p.payload.(content := if s.sealed then Sealed(p, p.payload.content) else p.payload.content, crc := s.payloadCrc)
  }

  function PlainPart(p: Plan, s: Stage): seq<Block>
    requires StageOf(p, s)
  {
    p.before + [PayloadAt(p, s)] + p.after
  }

  function First(p: Plan, s: Stage): seq<Block>
    requires StageOf(p, s)
  {
    if s.has0 then [Bib0(p)] else []
  }

  function Second(p: Plan, s: Stage): seq<Block>
    requires StageOf(p, s)
  {
    if s.has1 then [Bib1(p, s.hidden, s.bibCrc)] else []
  }

  function Third(p: Plan, s: Stage): seq<Block> {
    if s.hidden then [BcbFor(M1(p), N1(p))] else []
  }

  function Fourth(p: Plan, s: Stage): seq<Block> {
    if s.sealed then [BcbFor(M2(p), PAYLOAD_NUMBER)] else []
  }

  function Extra(p: Plan, s: Stage): seq<Block>
    requires StageOf(p, s)
  {
    First(p, s) + Second(p, s) + Third(p, s) + Fourth(p, s)
  }

  function BundleAt(p: Plan, s: Stage): Bundle
    requires StageOf(p, s)
  {
    Bundle(p.primary.(crc := s.primaryCrc), PlainPart(p, s) + Extra(p, s))
  }

  // ---------------------------------------------------------------- numbers at a stage

  lemma {:induction false} MaxAppend(x: seq<Block>, y: seq<Block>)
    ensures MaxNumber(x + y) == if MaxNumber(x) < MaxNumber(y) then MaxNumber(y) else MaxNumber(x)
  {
    if x == [] {
      assert x + y == y;
    } else {
      MaxAppend(x[1..], y);
      assert (x + y)[1..] == x[1..] + y;
    }
  }

  lemma PlainNumbers(p: Plan, s: Stage)
    requires StageOf(p, s) && WellPlanned(p)
    ensures MaxNumber(PlainPart(p, s)) == Top(p)
    ensures Insecure(PlainPart(p, s))
    ensures forall n :: n > Top(p) ==> NoNumber(PlainPart(p, s), n)
    ensures Top(p) >= PAYLOAD_NUMBER
  {
    var x, y := PlainPart(p, s), p.before + [p.payload] + p.after;
    assert Shape(x) == Shape(y) by {
      assert forall i :: 0 <= i < |x| ==> (x[i].number, x[i].blockType) == (y[i].number, y[i].blockType);
    }
    Accounting.MaxByShape(x, y);
    assert y[|p.before|] == p.payload;
    forall i | 0 <= i < |x| ensures x[i].blockType != Integrity && x[i].blockType != Confidentiality {
      assert Shape(x)[i] == Shape(y)[i];
    }
  }

  /** The number bp7 gives the next block. */
  function NextNumber(p: Plan, s: Stage): nat {
    if s.hidden then M2(p) else if s.has1 then M1(p) else if s.has0 then N0(p) + 1 else N0(p)
  }

  lemma FreshAt(p: Plan, s: Stage)
    requires StageOf(p, s) && WellPlanned(p) && !s.sealed
    requires s.has1 ==> s.has0 == p.signPrimary.Some?
    ensures FreshNumber(BundleAt(p, s)) == NextNumber(p, s)
  {
    PlainNumbers(p, s);
    var f, g, h := First(p, s), Second(p, s), Third(p, s);
    assert Extra(p, s) == f + g + h by { assert Fourth(p, s) == []; }
    ExtraNumbers(p, s);
    hide MaxNumber, PlainPart, Extra, First, Second, Third;
    MaxAppend(PlainPart(p, s), f + g + h);
    MaxAppend(f + g, h);
    MaxAppend(f, g);
  }

  lemma ExtraNumbers(p: Plan, s: Stage)
    requires StageOf(p, s)
    ensures MaxNumber(First(p, s)) == if s.has0 then N0(p) else 0
    ensures MaxNumber(Second(p, s)) == if s.has1 then N1(p) else 0
    ensures MaxNumber(Third(p, s)) == if s.hidden then M1(p) else 0
  {
    hide N0, N1, M1;
    assert MaxNumber([]) == 0;
    if s.has0 { MaxOne(Bib0(p)); }
    if s.has1 { MaxOne(Bib1(p, s.hidden, s.bibCrc)); }
    if s.hidden { MaxOne(BcbFor(M1(p), N1(p))); }
  }

  lemma MaxOne(x: Block)
    ensures MaxNumber([x]) == x.number
  {
    assert [x][1..] == [];
  }

  // ---------------------------------------------------------------- what the source does

  lemma SignPrimaryStep(p: Plan, s: Stage)
    requires WellPlanned(p) && StageOf(p, s) && p.signPrimary.Some?
    requires !s.has0 && !s.has1 && !s.hidden && !s.sealed
    ensures var key := p.signPrimary.value;
      Sign(BundleAt(p, s), PRIMARY_NUMBER, key.key, key.sha)
      == Some(BundleAt(p, s.(has0 := true, primaryCrc := CrcNo)))
  {
    var s1 := s.(primaryCrc := CrcNo);
    FreshAt(p, s1);
    assert SetCrc(BundleAt(p, s), PRIMARY_NUMBER, CrcNo) == BundleAt(p, s1);
    assert Extra(p, s1) == [];
    assert Extra(p, s1.(has0 := true)) == [Bib0(p)];
    assert PlainPart(p, s1) == PlainPart(p, s1.(has0 := true));
    assert PlainPart(p, s1) + [] + [Bib0(p)] == PlainPart(p, s1) + [Bib0(p)];
  }

  /** The payload at a stage, by its number. */
  lemma PayloadStep(p: Plan, s: Stage, s1: Stage)
    requires WellPlanned(p) && StageOf(p, s) && StageOf(p, s1)
    ensures var blocks := BundleAt(p, s).canonicals;
      && Has(blocks, PAYLOAD_NUMBER) && Get(blocks, PAYLOAD_NUMBER) == PayloadAt(p, s)
      && Put(blocks, PAYLOAD_NUMBER, PayloadAt(p, s1)) == PlainPart(p, s1) + Extra(p, s)
  {
    var x, y, z := Extra(p, s), PayloadAt(p, s), PayloadAt(p, s1);
    hide Extra, Has, Get, Put;
    Regroup(p.before, [y], p.after, x);
    Regroup(p.before, [z], p.after, x);
    Middle(p.before, y, p.after + x);
  }

  lemma SignPayloadStep(p: Plan, s: Stage)
    requires WellPlanned(p) && StageOf(p, s) && p.signPayload.Some?
    requires s.has0 == p.signPrimary.Some? && !s.has1 && !s.hidden && !s.sealed && s.primaryCrc == View(p).crc
    ensures var key := p.signPayload.value;
      Sign(BundleAt(p, s), PAYLOAD_NUMBER, key.key, key.sha)
      == Some(BundleAt(p, s.(has1 := true, payloadCrc := CrcNo, bibCrc := CrcNo)))
  {
    var s1 := s.(payloadCrc := CrcNo);
    var s2 := s.(has1 := true, payloadCrc := CrcNo, bibCrc := CrcNo);
    PayloadStep(p, s, s1);
    PayloadStep(p, s1, s1);
    FreshAt(p, s1);
    assert Extra(p, s1) == Extra(p, s);
    assert SetCrc(BundleAt(p, s), PAYLOAD_NUMBER, CrcNo) == BundleAt(p, s1);
    assert Extra(p, s2) == Extra(p, s1) + [Bib1(p, false, CrcNo)];
    assert PlainPart(p, s1) == PlainPart(p, s2);
    assert View(p) == BundleAt(p, s1).primary;
    assert PlainPart(p, s2) + Extra(p, s2) == PlainPart(p, s1) + Extra(p, s1) + [Bib1(p, false, CrcNo)];
  }

  /** The payload's BIB at a stage, by its number. */
  lemma BibStep(p: Plan, s: Stage, hidden: bool, crc: CrcType)
    requires WellPlanned(p) && StageOf(p, s) && s.has1 && (hidden ==> p.seal.Some?)
    ensures var blocks := BundleAt(p, s).canonicals;
      && Has(blocks, N1(p)) && Get(blocks, N1(p)) == Bib1(p, s.hidden, s.bibCrc)
      && Put(blocks, N1(p), Bib1(p, hidden, crc))
         == PlainPart(p, s) + (First(p, s) + [Bib1(p, hidden, crc)] + Third(p, s) + Fourth(p, s))
      && Drop(blocks, N1(p)) == PlainPart(p, s) + (First(p, s) + Third(p, s) + Fourth(p, s))
  {
    var l, f, t, x, y := PlainPart(p, s), First(p, s), Third(p, s) + Fourth(p, s), Bib1(p, s.hidden, s.bibCrc),
      Bib1(p, hidden, crc);
    assert NoNumber(l + f, N1(p)) by { PlainNumbers(p, s); }
    assert Extra(p, s) == f + [x] + t by { Regroup(f, [x], Third(p, s), Fourth(p, s)); }
    hide Extra, Has, Get, Put, Drop, PlainPart, First, Third, Fourth, NoNumber;
    Regroup(l, f, [x], t);
    Regroup(l, f, [y], t);
    Regroup(f, [y], Third(p, s), Fourth(p, s));
    Regroup(l, f, Third(p, s), Fourth(p, s));
    Middle(l + f, x, t);
  }

  lemma HideBibStep(p: Plan, s: Stage)
    requires WellPlanned(p) && StageOf(p, s) && p.seal.Some?
    requires s.has0 == p.signPrimary.Some? && s.has1 && !s.hidden && !s.sealed && s.primaryCrc == View(p).crc
    ensures var seal := p.seal.value;
      EncryptBlock(BundleAt(p, s), N1(p), seal.key, seal.aes, seal.wrapped)
      == Some(BundleAt(p, s.(hidden := true, bibCrc := CrcNo)))
  {
    var s1 := s.(hidden := true, bibCrc := CrcNo);
    FreshAt(p, s);
    BibStep(p, s, true, CrcNo);
    assert View(p) == BundleAt(p, s).primary;
    assert Fourth(p, s) == Third(p, s) == [];
    assert PlainPart(p, s) == PlainPart(p, s1);
    assert Extra(p, s1) == First(p, s) + [Bib1(p, true, CrcNo)] + [BcbFor(M1(p), N1(p))];
    assert PlainPart(p, s) + (First(p, s) + [Bib1(p, true, CrcNo)] + [] + []) + [BcbFor(M1(p), N1(p))]
        == PlainPart(p, s1) + Extra(p, s1);
  }

  lemma SealStep(p: Plan, s: Stage)
    requires WellPlanned(p) && StageOf(p, s) && p.seal.Some? && s.primaryCrc == View(p).crc && !s.sealed
    requires s.has0 == p.signPrimary.Some? && s.has1 == s.hidden == p.signPayload.Some?
    ensures var seal := p.seal.value;
      EncryptBlock(BundleAt(p, s), PAYLOAD_NUMBER, seal.key, seal.aes, seal.wrapped)
      == Some(BundleAt(p, s.(sealed := true, payloadCrc := CrcNo)))
  {
    var s1 := s.(sealed := true, payloadCrc := CrcNo);
    FreshAt(p, s);
    PayloadStep(p, s, s1);
    assert View(p) == BundleAt(p, s).primary;
    assert Extra(p, s1) == Extra(p, s) + [BcbFor(M2(p), PAYLOAD_NUMBER)];
    assert PlainPart(p, s1) + Extra(p, s) + [BcbFor(M2(p), PAYLOAD_NUMBER)] == PlainPart(p, s1) + Extra(p, s1);
  }

  // ---------------------------------------------------------------- what the acceptor does

  /** Decrypting the only target of a BCB. */
  lemma DecryptOne(b: Bundle, bcb: Block, target: nat, key: Key, crc: CrcType)
    requires Has(b.canonicals, bcb.number) && Get(b.canonicals, bcb.number) == bcb
    requires bcb.blockType == Confidentiality && bcb.content == Asb([target], [])
    requires var rest := Drop(b.canonicals, bcb.number);
      && Has(rest, target)
      && var c := Get(rest, target).content;
      c.Cipher? && c.key == key && c.view == b.primary
    ensures var rest := Drop(b.canonicals, bcb.number);
      var block := Get(rest, target);
      Decrypt(b, bcb.number, key, crc)
      == Some(b.(canonicals := Put(rest, target, block.(content := block.content.inner, crc := crc))))
  {
    hide Has, Get, Put, Drop;
    var rest := Drop(b.canonicals, bcb.number);
    var block := Get(rest, target);
    var plain := b.(canonicals := Put(rest, target, block.(content := block.content.inner, crc := crc)));
    assert DecryptTargets(plain, [], key, crc) == Some(plain);
    assert [target][1..] == [];
    assert DecryptTargets(b.(canonicals := rest), [target], key, crc) == DecryptTargets(plain, [], key, crc);
  }

  lemma RevealBibStep(p: Plan, s: Stage)
    requires WellPlanned(p) && StageOf(p, s) && s.hidden && s.primaryCrc == View(p).crc
    ensures Decrypt(BundleAt(p, s), M1(p), p.seal.value.key, Crc32)
      == Some(BundleAt(p, s.(hidden := false, bibCrc := Crc32)))
  {
    var s1 := s.(hidden := false, bibCrc := Crc32);
    var bcb, x, y := BcbFor(M1(p), N1(p)), Bib1(p, true, s.bibCrc), Bib1(p, false, Crc32);
    var l, f, t := PlainPart(p, s), First(p, s), Fourth(p, s);
    assert NoNumber(l + f + [x], M1(p)) && NoNumber(l + f, N1(p)) by { PlainNumbers(p, s); }
    assert Extra(p, s) == f + [x] + [bcb] + t;
    assert Extra(p, s1) == f + [y] + t by { assert Third(p, s1) == []; }
    assert l == PlainPart(p, s1);
    assert View(p) == BundleAt(p, s).primary;
    hide Extra, Has, Get, Put, Drop, PlainPart, First, Fourth, NoNumber, Decrypt;
    RegroupFive(l, f, [x], [bcb], t);
    Regroup(l, f, [x], t);
    Regroup(l, f, [y], t);
    Middle(l + f + [x], bcb, t);
    Middle(l + f, x, t);
    DecryptOne(BundleAt(p, s), bcb, N1(p), p.seal.value.key, Crc32);
  }

  lemma RegroupFive<T>(a: seq<T>, b: seq<T>, c: seq<T>, d: seq<T>, e: seq<T>)
    ensures a + (b + c + d + e) == (a + b + c) + d + e
  {}

  lemma UnsealStep(p: Plan, s: Stage)
    requires WellPlanned(p) && StageOf(p, s) && s.sealed && s.primaryCrc == View(p).crc
    ensures Decrypt(BundleAt(p, s), M2(p), p.seal.value.key, Crc32)
      == Some(BundleAt(p, s.(sealed := false, payloadCrc := Crc32)))
  {
    var s1 := s.(sealed := false, payloadCrc := Crc32);
    var l, rest := PlainPart(p, s), First(p, s) + Second(p, s) + Third(p, s);
    var bcb, x, y := BcbFor(M2(p), PAYLOAD_NUMBER), PayloadAt(p, s), PayloadAt(p, s1);
    SealedBlocks(p, s);
    assert Extra(p, s1) == rest by { assert Fourth(p, s1) == []; }
    assert View(p) == BundleAt(p, s).primary;
    hide Extra, Has, Get, Put, Drop, First, Second, Third, Fourth, NoNumber, Decrypt;
    Regroup(p.before, [x], p.after, rest);
    Regroup(p.before, [y], p.after, rest);
    Middle(p.before, x, p.after + rest);
    DecryptOne(BundleAt(p, s), bcb, PAYLOAD_NUMBER, p.seal.value.key, Crc32);
  }

  /** The BCB of the payload is the last block. */
  lemma SealedBlocks(p: Plan, s: Stage)
    requires WellPlanned(p) && StageOf(p, s) && s.sealed
    ensures var blocks := BundleAt(p, s).canonicals;
      && Has(blocks, M2(p)) && Get(blocks, M2(p)) == BcbFor(M2(p), PAYLOAD_NUMBER)
      && Drop(blocks, M2(p)) == PlainPart(p, s) + (First(p, s) + Second(p, s) + Third(p, s))
  {
    var l, rest, bcb := PlainPart(p, s), First(p, s) + Second(p, s) + Third(p, s), BcbFor(M2(p), PAYLOAD_NUMBER);
    assert NoNumber(l + rest, M2(p)) by { PlainNumbers(p, s); }
    assert Extra(p, s) == rest + [bcb];
    hide Extra, Has, Get, Drop, First, Second, Third, Fourth, NoNumber, PlainPart;
    assert l + (rest + [bcb]) == (l + rest) + [bcb] + [];
    assert (l + rest) + [] == l + rest;
    Middle(l + rest, bcb, []);
  }

  /** Accepting a BIB with one target: it has to be the MAC the target has now. */
  lemma AcceptOne(b: Bundle, n: nat, target: nat, mac: Mac, key: Key, crc: CrcType)
    requires Has(b.canonicals, n) && Get(b.canonicals, n).blockType == Integrity
    requires Get(b.canonicals, n).content == Asb([target], [mac])
    ensures Accept(b, n, key, crc) ==
      if mac == Mac(key, mac.sha, b.primary, target, CoveredBy(b, target), n)
      then Some((true, SetCrc(b.(canonicals := Drop(b.canonicals, n)), target, crc)))
      else Some((false, b))
  {
    var b1 := b.(canonicals := Drop(b.canonicals, n));
    hide CoveredBy, SetCrc, Has, Get, Drop;
    assert [target][1..] == [];
    assert SetCrcs(SetCrc(b1, target, crc), [], crc) == SetCrc(b1, target, crc);
    assert SetCrcs(b1, [target], crc) == SetCrc(b1, target, crc);
    assert [target][0] == target && [mac][0] == mac;
  }

  /** The BIB of the payload fits the payload under the view it was made under. */
  lemma AcceptPayloadStep(p: Plan, s: Stage)
    requires WellPlanned(p) && StageOf(p, s) && s.has1 && !s.hidden && !s.sealed && s.primaryCrc == View(p).crc
    ensures Accept(BundleAt(p, s), N1(p), p.signPayload.value.key, Crc32)
      == Some((true, BundleAt(p, s.(has1 := false, payloadCrc := Crc32))))
  {
    var b, s1, s2 := BundleAt(p, s), s.(has1 := false), s.(has1 := false, payloadCrc := Crc32);
    BibStep(p, s, false, CrcNo);
    PayloadStep(p, s, s);
    PayloadStep(p, s1, s2);
    assert View(p) == b.primary;
    assert First(p, s) + Third(p, s) + Fourth(p, s) == Extra(p, s1) == Extra(p, s2);
    assert PlainPart(p, s) == PlainPart(p, s1);
    hide Accept, Has, Get, Put, Drop, Extra, PlainPart, First, Third, Fourth;
    assert b.(canonicals := Drop(b.canonicals, N1(p))) == BundleAt(p, s1);
    assert SetCrc(BundleAt(p, s1), PAYLOAD_NUMBER, Crc32) == BundleAt(p, s2);
    AcceptOne(b, N1(p), PAYLOAD_NUMBER, Asb1(p).macs[0], p.signPayload.value.key, Crc32);
  }

  /** The BIB of the primary block at a stage, by its number. */
  lemma PrimaryBibStep(p: Plan, s: Stage)
    requires WellPlanned(p) && StageOf(p, s) && s.has0
    ensures var blocks := BundleAt(p, s).canonicals;
      && Has(blocks, N0(p)) && Get(blocks, N0(p)) == Bib0(p)
      && Drop(blocks, N0(p)) == BundleAt(p, s.(has0 := false)).canonicals
  {
    hide Has, Get, Drop;
    var l, t := PlainPart(p, s), Second(p, s) + Third(p, s) + Fourth(p, s);
    var s1 := s.(has0 := false);
    PrimaryBibBlocks(p, s);
    hide Extra, PlainPart, Second, Third, Fourth, NoNumber;
    assert l + ([Bib0(p)] + t) == l + [Bib0(p)] + t;
    Middle(l, Bib0(p), t);
  }

  lemma PrimaryBibBlocks(p: Plan, s: Stage)
    requires WellPlanned(p) && StageOf(p, s) && s.has0
    ensures NoNumber(PlainPart(p, s), N0(p))
    ensures var t, s1 := Second(p, s) + Third(p, s) + Fourth(p, s), s.(has0 := false);
      Extra(p, s) == [Bib0(p)] + t && Extra(p, s1) == t && PlainPart(p, s) == PlainPart(p, s1)
  {
    PlainNumbers(p, s);
    hide NoNumber, Second, Third, Fourth, PayloadAt;
    var s1 := s.(has0 := false);
    SameLater(p, s, s1);
    assert First(p, s) == [Bib0(p)] && First(p, s1) == [];
  }

  /** The BIB of the primary block is all that tells the stages apart. */
  lemma SameLater(p: Plan, s: Stage, s1: Stage)
    requires StageOf(p, s) && s1 == s.(has0 := false)
    ensures Second(p, s) == Second(p, s1) && Third(p, s) == Third(p, s1) && Fourth(p, s) == Fourth(p, s1)
    ensures PayloadAt(p, s) == PayloadAt(p, s1)
  {}

  lemma AcceptPrimaryStep(p: Plan, s: Stage)
    requires WellPlanned(p) && StageOf(p, s) && s.has0 && s.primaryCrc == CrcNo
    ensures Accept(BundleAt(p, s), N0(p), p.signPrimary.value.key, Crc32)
      == Some((true, BundleAt(p, s.(has0 := false, primaryCrc := Crc32))))
  {
    var b, s1, s2 := BundleAt(p, s), s.(has0 := false), s.(has0 := false, primaryCrc := Crc32);
    PrimaryBibStep(p, s);
    assert View(p) == b.primary;
    assert PlainPart(p, s1) + Extra(p, s1) == PlainPart(p, s2) + Extra(p, s2);
    hide Accept, Has, Get, Drop, Extra, PlainPart;
    assert b.(canonicals := Drop(b.canonicals, N0(p))) == BundleAt(p, s1);
    assert SetCrc(BundleAt(p, s1), PRIMARY_NUMBER, Crc32) == BundleAt(p, s2);
    AcceptOne(b, N0(p), PRIMARY_NUMBER, Bib0(p).content.macs[0], p.signPrimary.value.key, Crc32);
  }

  // ---------------------------------------------------------------- what the policy sees at a stage

  function See(s: Stage, p: Plan): seq<SecurityBlock> {
    See0(s, p) + See1(s, p) + See2(s, p) + See3(s, p)
  }

  lemma {:induction false} VisibleAll(decoded: seq<SecurityBlock>, encrypted: set<nat>)
    requires forall i :: 0 <= i < |decoded| ==> decoded[i].operation == Bcb || decoded[i].number !in encrypted
    ensures Visible(decoded, encrypted) == decoded
  {
    if decoded != [] {
      VisibleAll(decoded[1..], encrypted);
    }
  }

  /** The numbers of the BIBs at a stage. */
  lemma BibNumbersAt(p: Plan, s: Stage)
    requires StageOf(p, s)
    ensures BibNumbers(Extra(p, s)) == (if s.has0 then {N0(p)} else {}) + (if s.has1 then {N1(p)} else {})
  {
    var f, g, h, k := First(p, s), Second(p, s), Third(p, s), Fourth(p, s);
    BibNumbersAppend(f + g + h, k);
    BibNumbersAppend(f + g, h);
    BibNumbersAppend(f, g);
  }

  lemma DecodedSingle(x: Block, bibs: set<nat>)
    ensures Decoded([x], bibs) == Listed(DecodeOne(x, bibs))
  {
    assert [x][1..] == [];
  }

  function See0(s: Stage, p: Plan): seq<SecurityBlock> {
    if s.has0 then [SecurityBlock(N0(p), Bib, [PRIMARY_NUMBER], false)] else []
  }

  function See1(s: Stage, p: Plan): seq<SecurityBlock> {
    if s.has1 && !s.hidden then [SecurityBlock(N1(p), Bib, [PAYLOAD_NUMBER], false)] else []
  }

  function See2(s: Stage, p: Plan): seq<SecurityBlock> {
    if s.hidden then [SecurityBlock(M1(p), Bcb, [N1(p)], true)] else []
  }

  function See3(s: Stage, p: Plan): seq<SecurityBlock> {
    if s.sealed then [SecurityBlock(M2(p), Bcb, [PAYLOAD_NUMBER], false)] else []
  }

  lemma DecodedBibs(p: Plan, s: Stage, bibs: set<nat>)
    requires StageOf(p, s)
    ensures Decoded(First(p, s), bibs) == See0(s, p) && Decoded(Second(p, s), bibs) == See1(s, p)
  {
    hide Decoded;
    assert Decoded([], bibs) == [] by { DecodedNone(bibs); }
    if s.has0 { DecodedSingle(Bib0(p), bibs); }
    if s.has1 { DecodedSingle(Bib1(p, s.hidden, s.bibCrc), bibs); }
  }

  lemma DecodedNone(bibs: set<nat>)
    ensures Decoded([], bibs) == []
  {}

  lemma DecodedBcbs(p: Plan, s: Stage, bibs: set<nat>)
    requires StageOf(p, s) && PAYLOAD_NUMBER !in bibs && (s.hidden ==> N1(p) in bibs)
    ensures Decoded(Third(p, s), bibs) == See2(s, p) && Decoded(Fourth(p, s), bibs) == See3(s, p)
  {
    hide Decoded;
    assert Decoded([], bibs) == [] by { DecodedNone(bibs); }
    if s.hidden {
      DecodedSingle(BcbFor(M1(p), N1(p)), bibs);
      assert N1(p) in [N1(p)];
    }
    if s.sealed { DecodedSingle(BcbFor(M2(p), PAYLOAD_NUMBER), bibs); }
  }

  lemma DecodedAt(p: Plan, s: Stage)
    requires StageOf(p, s) && Top(p) >= PAYLOAD_NUMBER
    ensures Decoded(Extra(p, s), BibNumbers(Extra(p, s))) == See(s, p)
  {
    hide Decoded, BibNumbers, First, Second, Third, Fourth;
    BibNumbersAt(p, s);
    var bibs := BibNumbers(Extra(p, s));
    var f, g, h, k := First(p, s), Second(p, s), Third(p, s), Fourth(p, s);
    DecodedBibs(p, s, bibs);
    DecodedBcbs(p, s, bibs);
    DecodedAppend(f + g + h, k, bibs);
    DecodedAppend(f + g, h, bibs);
    DecodedAppend(f, g, bibs);
  }

  lemma TargetsByMembers(xs: seq<SecurityBlock>, op: Operation, t: nat)
    ensures t in TargetsOf(xs, op) <==> exists x :: x in xs && x.operation == op && t in x.targets
  {
    if x :| x in xs && x.operation == op && t in x.targets {
      var i :| 0 <= i < |xs| && xs[i] == x;
    }
  }

  predicate SealedAt(p: Plan, s: Stage, t: nat) {
    (s.hidden && t == N1(p)) || (s.sealed && t == PAYLOAD_NUMBER)
  }

  predicate SignedAt(s: Stage, t: nat) {
    (s.has0 && t == PRIMARY_NUMBER) || (s.has1 && !s.hidden && t == PAYLOAD_NUMBER)
  }

  lemma SeeTargets(p: Plan, s: Stage)
    ensures forall t :: t in TargetsOf(See(s, p), Bcb) <==> SealedAt(p, s, t)
    ensures forall t :: t in TargetsOf(See(s, p), Bib) <==> SignedAt(s, t)
  {
    SeeMembers(p, s);
    hide See, TargetsOf, N0, N1, M1, M2;
    forall t ensures t in TargetsOf(See(s, p), Bcb) <==> SealedAt(p, s, t) {
      TargetsByMembers(See(s, p), Bcb, t);
      if SealedAt(p, s, t) {
        var x := if s.hidden && t == N1(p) then SecurityBlock(M1(p), Bcb, [N1(p)], true)
          else SecurityBlock(M2(p), Bcb, [PAYLOAD_NUMBER], false);
        assert x in See(s, p) && t in x.targets;
      }
    }
    forall t ensures t in TargetsOf(See(s, p), Bib) <==> SignedAt(s, t) {
      TargetsByMembers(See(s, p), Bib, t);
      if SignedAt(s, t) {
        var x := if s.has0 && t == PRIMARY_NUMBER then SecurityBlock(N0(p), Bib, [PRIMARY_NUMBER], false)
          else SecurityBlock(N1(p), Bib, [PAYLOAD_NUMBER], false);
        assert x in See(s, p) && t in x.targets;
      }
    }
  }

  lemma SeeMembers(p: Plan, s: Stage)
    ensures forall x :: x in See(s, p) <==>
      || (s.has0 && x == SecurityBlock(N0(p), Bib, [PRIMARY_NUMBER], false))
      || (s.has1 && !s.hidden && x == SecurityBlock(N1(p), Bib, [PAYLOAD_NUMBER], false))
      || (s.hidden && x == SecurityBlock(M1(p), Bcb, [N1(p)], true))
      || (s.sealed && x == SecurityBlock(M2(p), Bcb, [PAYLOAD_NUMBER], false))
  {}

  lemma SeenAt(p: Plan, s: Stage)
    requires WellPlanned(p) && StageOf(p, s)
    ensures SecurityBlocks(BundleAt(p, s)) == See(s, p)
  {
    hide TargetsOf, See, Decoded, Visible, SecurityBlocks, Extra, PlainPart, Insecure;
    PlainNumbers(p, s);
    SecurityBlocksOf(BundleAt(p, s), PlainPart(p, s), Extra(p, s));
    DecodedAt(p, s);
    SeeTargets(p, s);
    SeeMembers(p, s);
    var all, e := See(s, p), TargetsOf(See(s, p), Bcb);
    forall i | 0 <= i < |all| ensures all[i].operation == Bcb || all[i].number !in e {
      assert all[i] in all;
    }
    VisibleAll(all, e);
  }

  // ---------------------------------------------------------------- runs without a failure

  predicate Leads(actions: seq<Action>, keys: KeySet, b: Bundle, b1: Bundle) {
    RunAll(actions, keys, b).verdict == Process && RunAll(actions, keys, b).bundle == b1
  }

  lemma LeadsOne(a: Action, keys: KeySet, b: Bundle, b1: Bundle)
    requires Applied(a, keys, b).Done? && Applied(a, keys, b).bundle == b1
    ensures Leads([a], keys, b, b1)
  {
    hide Applied;
    assert [a][1..] == [];
    assert RunAll([], keys, b1) == Run(b1, [], Process, []);
  }

  lemma {:induction false} LeadsAppend(x: seq<Action>, y: seq<Action>, keys: KeySet, b: Bundle, b1: Bundle, b2: Bundle)
    requires Leads(x, keys, b, b1) && Leads(y, keys, b1, b2)
    ensures Leads(x + y, keys, b, b2)
    decreases |x|
  {
    hide CarriedOut;
    if x == [] {
      assert x + y == y;
    } else {
      var first := CarriedOut(x[0], keys, b);
      LeadsAppend(x[1..], y, keys, first.bundle, b1, b2);
      assert (x + y)[1..] == x[1..] + y;
    }
  }

  // ---------------------------------------------------------------- lists given by members and order

  predicate Strictly<T(!new)>(xs: seq<T>, rank: T -> nat) {
    forall i, j :: 0 <= i < j < |xs| ==> rank(xs[i]) < rank(xs[j])
  }

  lemma HeadOrTail<T(!new)>(xs: seq<T>)
    requires xs != []
    ensures forall x :: x in xs <==> x == xs[0] || x in xs[1..]
  {
    assert xs == [xs[0]] + xs[1..];
  }

  lemma {:induction false} SameSorted<T(!new)>(xs: seq<T>, ys: seq<T>, rank: T -> nat)
    requires Strictly(xs, rank) && Strictly(ys, rank)
    requires forall x :: x in xs <==> x in ys
    ensures xs == ys
  {
    if xs == [] {
      assert forall i :: 0 <= i < |ys| ==> ys[i] in ys;
    } else {
      assert xs[0] in ys && ys[0] in xs;
      var i :| 0 <= i < |ys| && ys[i] == xs[0];
      var j :| 0 <= j < |xs| && xs[j] == ys[0];
      assert i == 0;
      HeadOrTail(xs);
      HeadOrTail(ys);
      forall x ensures x in xs[1..] <==> x in ys[1..] {
        if x in xs[1..] {
          var k :| 0 <= k < |xs[1..]| && xs[1..][k] == x;
          assert xs[k + 1] == x && rank(xs[0]) < rank(x);
        }
        if x in ys[1..] {
          var k :| 0 <= k < |ys[1..]| && ys[1..][k] == x;
          assert ys[k + 1] == x && rank(ys[0]) < rank(x);
        }
      }
      SameSorted(xs[1..], ys[1..], rank);
    }
  }

  /** Ascending lists without repetition whose members have different ranks. */
  lemma Pinned<T(!new), K(!new)>(xs: seq<T>, ys: seq<T>, rank: T -> nat, key: T -> K)
    requires Ascending(xs, rank) && DistinctKeys(xs, key) && Strictly(ys, rank)
    requires forall x :: x in xs <==> x in ys
    ensures xs == ys
  {
    forall i, j | 0 <= i < j < |xs| ensures rank(xs[i]) < rank(xs[j]) {
      assert xs[i] in ys && xs[j] in ys;
      var k :| 0 <= k < |ys| && ys[k] == xs[i];
      var l :| 0 <= l < |ys| && ys[l] == xs[j];
    }
    SameSorted(xs, ys, rank);
  }

  lemma {:induction false} FilterAscending<T(!new)>(xs: seq<T>, p: T -> bool, rank: T -> nat)
    requires Ascending(xs, rank)
    ensures Ascending(Filter(xs, p), rank)
  {
    if xs != [] {
      FilterAscending(xs[1..], p, rank);
      FilterMembers(xs[1..], p);
      var rest := Filter(xs[1..], p);
      forall i | 0 <= i < |rest| ensures rank(xs[0]) <= rank(rest[i]) {
        assert rest[i] in xs[1..];
        var j :| 0 <= j < |xs[1..]| && xs[1..][j] == rest[i];
        assert xs[j + 1] == rest[i];
      }
    }
  }
}
