/** What the policy sees of a bundle, and how signing and encrypting change it. */
module BpsecVisible {
  import opened Options
  import opened BpsecBundle
  import opened BpsecPolicy
  import opened BpsecPolicySpec
  import opened BpsecEnforcement
  import opened BpsecStages
  import Accounting = BpsecAccounting

  // ---------------------------------------------------------------- visible security blocks

  predicate VisibleBib(b: Bundle, x: SecurityBlock) {
    x in SecurityBlocks(b) && x.operation == Bib
  }

  /** The targets of the BCBs. */
  function Enc(b: Bundle): set<nat> {
    TargetsOf(SecurityBlocks(b), Bcb)
  }

  function Sig(b: Bundle): set<nat> {
    TargetsOf(SecurityBlocks(b), Bib)
  }

  /** No visible BIB targets an encrypted block. */
  predicate Interaction(b: Bundle) {
    Sig(b) !! Enc(b)
  }

  /** Numbers are unique and not that of the primary block, and block 1 is no security block. */
  predicate Sound(b: Bundle) {
    && UniqueNumbers(b.canonicals)
    && NoNumber(b.canonicals, PRIMARY_NUMBER)
    && (forall i :: 0 <= i < |b.canonicals| && b.canonicals[i].number == PAYLOAD_NUMBER ==>
          b.canonicals[i].blockType != Integrity && b.canonicals[i].blockType != Confidentiality)
  }

  lemma SigMember(b: Bundle, t: nat)
    ensures t in Sig(b) <==> exists x :: VisibleBib(b, x) && t in x.targets
  {
    TargetsByMembers(SecurityBlocks(b), Bib, t);
    if x :| x in SecurityBlocks(b) && x.operation == Bib && t in x.targets {
      assert VisibleBib(b, x);
    }
  }

  // ---------------------------------------------------------------- membership by block

  predicate Decodes(blocks: seq<Block>, bibs: set<nat>, x: SecurityBlock) {
    exists i :: 0 <= i < |blocks| && DecodeOne(blocks[i], bibs) == Some(x)
  }

  lemma {:induction false} DecodedMembers(blocks: seq<Block>, bibs: set<nat>, x: SecurityBlock)
    ensures x in Decoded(blocks, bibs) <==> Decodes(blocks, bibs, x)
  {
    if blocks != [] {
      var rest := blocks[1..];
      DecodedMembers(rest, bibs, x);
      DecodedAppend([blocks[0]], rest, bibs);
      assert blocks == [blocks[0]] + rest;
      DecodedSingle(blocks[0], bibs);
      if Decodes(rest, bibs, x) {
        var i :| 0 <= i < |rest| && DecodeOne(rest[i], bibs) == Some(x);
        assert blocks[i + 1] == rest[i];
      }
      if Decodes(blocks, bibs, x) {
        var i :| 0 <= i < |blocks| && DecodeOne(blocks[i], bibs) == Some(x);
        if i > 0 {
          assert rest[i - 1] == blocks[i];
        }
      }
    }
  }

  /** What the policy sees, block by block. */
  lemma Seen(b: Bundle, x: SecurityBlock)
    ensures x in SecurityBlocks(b) <==>
      Decodes(b.canonicals, BibNumbers(b.canonicals), x) && (x.operation == Bcb || x.number !in Enc(b))
  {
    var bibs := BibNumbers(b.canonicals);
    var decoded := Decoded(b.canonicals, bibs);
    Accounting.VisibleMembers(decoded, TargetsOf(decoded, Bcb));
    DecodedMembers(b.canonicals, bibs, x);
    forall t ensures t in TargetsOf(decoded, Bcb) <==> t in Enc(b) {
      TargetsByMembers(decoded, Bcb, t);
      TargetsByMembers(SecurityBlocks(b), Bcb, t);
    }
  }

  /** A number is encrypted if a BCB that decodes targets it. */
  lemma EncMember(b: Bundle, t: nat)
    ensures t in Enc(b) <==>
      exists x :: Decodes(b.canonicals, BibNumbers(b.canonicals), x) && x.operation == Bcb && t in x.targets
  {
    TargetsByMembers(SecurityBlocks(b), Bcb, t);
    forall x {
      Seen(b, x);
    }
  }

  /** A block decodes to the BIB. */
  predicate DecodesBib(blocks: seq<Block>, x: SecurityBlock) {
    exists i :: 0 <= i < |blocks| && BibOf(blocks[i]) == Some(x)
  }

  function BibOf(block: Block): Option<SecurityBlock> {
    if block.blockType == Integrity && block.content.Asb? then
      Some(SecurityBlock(block.number, Bib, block.content.targets, false))
    else None
  }

  predicate TargetedBy(block: Block, t: nat) {
    block.blockType == Confidentiality && block.content.Asb? && t in block.content.targets
  }

  /** A BCB that decodes targets the number. */
  predicate Targeted(blocks: seq<Block>, t: nat) {
    exists i :: 0 <= i < |blocks| && TargetedBy(blocks[i], t)
  }

  lemma VisibleExactly(b: Bundle, x: SecurityBlock)
    ensures VisibleBib(b, x) <==> DecodesBib(b.canonicals, x) && x.number !in Enc(b)
  {
    hide SecurityBlocks, Enc, BibNumbers;
    Seen(b, x);
    var bibs := BibNumbers(b.canonicals);
    if Decodes(b.canonicals, bibs, x) && x.operation == Bib {
      var i :| 0 <= i < |b.canonicals| && DecodeOne(b.canonicals[i], bibs) == Some(x);
      assert BibOf(b.canonicals[i]) == Some(x);
    }
    if DecodesBib(b.canonicals, x) {
      var i :| 0 <= i < |b.canonicals| && BibOf(b.canonicals[i]) == Some(x);
      assert DecodeOne(b.canonicals[i], bibs) == Some(x);
    }
  }

  lemma EncExactly(b: Bundle, t: nat)
    ensures t in Enc(b) <==> Targeted(b.canonicals, t)
  {
    hide SecurityBlocks, Enc, BibNumbers;
    EncMember(b, t);
    var bibs := BibNumbers(b.canonicals);
    if x :| Decodes(b.canonicals, bibs, x) && x.operation == Bcb && t in x.targets {
      var i :| 0 <= i < |b.canonicals| && DecodeOne(b.canonicals[i], bibs) == Some(x);
      assert TargetedBy(b.canonicals[i], t);
    }
    if i :| 0 <= i < |b.canonicals| && TargetedBy(b.canonicals[i], t) {
      var x := DecodeOne(b.canonicals[i], bibs).value;
      assert Decodes(b.canonicals, bibs, x) && x.operation == Bcb && t in x.targets;
    }
  }

  // ---------------------------------------------------------------- signing

  predicate SameButCrc(x: seq<Block>, y: seq<Block>) {
    |x| == |y| && forall i :: 0 <= i < |x| ==> y[i] == x[i].(crc := y[i].crc)
  }

  lemma {:induction false} CrcBlind(x: seq<Block>, y: seq<Block>, bibs: set<nat>)
    requires SameButCrc(x, y)
    ensures Decoded(x, bibs) == Decoded(y, bibs) && BibNumbers(x) == BibNumbers(y) && MaxNumber(x) == MaxNumber(y)
  {
    if x != [] {
      assert y[0] == x[0].(crc := y[0].crc);
      assert forall i :: 0 <= i < |x[1..]| ==> x[1..][i] == x[i + 1] && y[1..][i] == y[i + 1];
      CrcBlind(x[1..], y[1..], bibs);
    }
  }

  lemma SetCrcSees(b: Bundle, t: nat, crc: CrcType)
    ensures var b1 := SetCrc(b, t, crc);
      && SameButCrc(b.canonicals, b1.canonicals)
      && SecurityBlocks(b1) == SecurityBlocks(b) && MaxNumber(b1.canonicals) == MaxNumber(b.canonicals)
      && (Sound(b) ==> Sound(b1))
  {
    var b1 := SetCrc(b, t, crc);
    assert SameButCrc(b.canonicals, b1.canonicals);
    hide SetCrc;
    CrcBlind(b.canonicals, b1.canonicals, BibNumbers(b.canonicals));
    assert SecurityBlocks(b1) == SecurityBlocks(b);
    hide SecurityBlocks, SameButCrc;
    if Sound(b) {
      SameNumbers(b, b1);
    }
  }

  lemma SameNumbers(b: Bundle, b1: Bundle)
    requires SameButCrc(b.canonicals, b1.canonicals) && Sound(b)
    requires SecurityBlocks(b1) == SecurityBlocks(b) && MaxNumber(b1.canonicals) == MaxNumber(b.canonicals)
    ensures Sound(b1)
  {
    hide SecurityBlocks, MaxNumber;
    assert forall i :: 0 <= i < |b.canonicals| ==>
        b1.canonicals[i].number == b.canonicals[i].number && b1.canonicals[i].blockType == b.canonicals[i].blockType;
  }

  function NewBib(n: nat, t: nat): SecurityBlock {
    SecurityBlock(n, Bib, [t], false)
  }

  lemma AppendBibSees(b: Bundle, block: Block, t: nat)
    requires block.blockType == Integrity && block.content.Asb? && block.content.targets == [t]
    ensures var b1 := Append(b, block);
      && Enc(b1) == Enc(b)
      && forall y :: VisibleBib(b1, y) <==>
           VisibleBib(b, y) || (y == NewBib(block.number, t) && block.number !in Enc(b))
  {
    var b1, c := Append(b, block), b.canonicals;
    assert b1.canonicals == c + [block];
    hide Enc, VisibleBib;
    forall k ensures k in Enc(b1) <==> k in Enc(b) {
      EncExactly(b, k);
      EncExactly(b1, k);
      if i :| 0 <= i < |c| && TargetedBy(c[i], k) {
        assert TargetedBy(b1.canonicals[i], k);
      }
    }
    assert Enc(b1) == Enc(b);
    forall y ensures DecodesBib(c + [block], y) <==> DecodesBib(c, y) || y == NewBib(block.number, t) {
      AppendDecodes(c, block, t, y);
    }
    hide DecodesBib;
    forall y ensures VisibleBib(b1, y) <==>
      VisibleBib(b, y) || (y == NewBib(block.number, t) && block.number !in Enc(b))
    {
      VisibleExactly(b, y);
      VisibleExactly(b1, y);
    }
  }

  lemma AppendDecodes(c: seq<Block>, block: Block, t: nat, y: SecurityBlock)
    requires block.blockType == Integrity && block.content.Asb? && block.content.targets == [t]
    ensures DecodesBib(c + [block], y) <==> DecodesBib(c, y) || y == NewBib(block.number, t)
  {
    var c1 := c + [block];
    assert BibOf(c1[|c|]) == Some(NewBib(block.number, t));
    if i :| 0 <= i < |c| && BibOf(c[i]) == Some(y) {
      assert BibOf(c1[i]) == Some(y);
    }
  }

  lemma AppendSound(b: Bundle, block: Block)
    requires Sound(b) && block.number == FreshNumber(b) && PAYLOAD_NUMBER <= MaxNumber(b.canonicals)
    ensures Sound(Append(b, block)) && MaxNumber(Append(b, block).canonicals) == block.number
  {
    MaxAppend(b.canonicals, [block]);
    assert MaxNumber([block]) == block.number;
    assert forall i :: 0 <= i < |b.canonicals| ==> b.canonicals[i].number <= MaxNumber(b.canonicals);
  }

  /** Signing adds one BIB, visible unless a BCB already targets the number it gets. */
  lemma SignSees(b: Bundle, t: nat, key: Key, sha: ShaVariant)
    requires Sound(b) && PAYLOAD_NUMBER <= MaxNumber(b.canonicals) && Sign(b, t, key, sha).Some?
    ensures var b1, n := Sign(b, t, key, sha).value, FreshNumber(b);
      && (forall y :: VisibleBib(b1, y) <==> VisibleBib(b, y) || (y == NewBib(n, t) && n !in Enc(b)))
      && Enc(b1) == Enc(b)
      && Sound(b1) && MaxNumber(b1.canonicals) == n
  {
    var b0, n := SetCrc(b, t, CrcNo), FreshNumber(b);
    SetCrcSees(b, t, CrcNo);
    var mac := Mac(key, sha, b0.primary, t, CoveredBy(b0, t), n);
    var block := Block(n, Integrity, Asb([t], [mac]), CrcNo);
    assert Sign(b, t, key, sha).value == Append(b0, block);
    hide SecurityBlocks, Sound, MaxNumber, SetCrc, CoveredBy, Sign;
    AppendBibSees(b0, block, t);
    AppendSound(b0, block);
  }

  // ---------------------------------------------------------------- encrypting

  /** The block may be encrypted together with its target: there, and no BCB. */
  predicate Coverable(b: Bundle, k: nat) {
    Has(b.canonicals, k) && Get(b.canonicals, k).blockType != Confidentiality
  }

  lemma UniqueIndex(blocks: seq<Block>, i: nat)
    requires UniqueNumbers(blocks) && i < |blocks|
    ensures IndexOf(blocks, blocks[i].number) == i
  {}

  /** How the blocks decode after one of them has been encrypted. */
  lemma CoverDecodes(blocks: seq<Block>, k: nat, cipher: Block, bcb: Block)
    requires UniqueNumbers(blocks) && Has(blocks, k) && Get(blocks, k).blockType != Confidentiality
    requires cipher.number == k && cipher.blockType == Get(blocks, k).blockType && cipher.content.Cipher?
    requires bcb.blockType == Confidentiality && bcb.content == Asb([k], [])
    ensures var c1 := Put(blocks, k, cipher) + [bcb];
      && (forall y :: DecodesBib(c1, y) <==> DecodesBib(blocks, y) && y.number != k)
      && (forall t :: Targeted(c1, t) <==> Targeted(blocks, t) || t == k)
  {
    var i0 := IndexOf(blocks, k);
    var c1 := Put(blocks, k, cipher) + [bcb];
    assert forall i :: 0 <= i < |blocks| && i != i0 ==> c1[i] == blocks[i];
    assert c1[i0] == cipher && c1[|blocks|] == bcb;
    forall y | DecodesBib(blocks, y) && y.number != k ensures DecodesBib(c1, y) {
      var i :| 0 <= i < |blocks| && BibOf(blocks[i]) == Some(y);
      assert BibOf(c1[i]) == Some(y);
    }
    forall t | Targeted(blocks, t) ensures Targeted(c1, t) {
      var i :| 0 <= i < |blocks| && TargetedBy(blocks[i], t);
      assert TargetedBy(c1[i], t);
    }
    assert TargetedBy(c1[|blocks|], k);
  }

  lemma CoverSees(b: Bundle, k: nat, key: Key, aes: AesVariant, wrapped: bool)
    requires UniqueNumbers(b.canonicals) && Coverable(b, k) && EncryptBlock(b, k, key, aes, wrapped).Some?
    ensures var b1 := EncryptBlock(b, k, key, aes, wrapped).value;
      && Enc(b1) == Enc(b) + {k}
      && (forall y :: VisibleBib(b1, y) <==> VisibleBib(b, y) && y.number != k)
  {
    var b1 := EncryptBlock(b, k, key, aes, wrapped).value;
    var block := Get(b.canonicals, k);
    var cipher := block.(content := Cipher(key, wrapped, b.primary, block.content), crc := CrcNo);
    var bcb := Block(FreshNumber(b), Confidentiality, Asb([k], []), CrcNo);
    assert b1.canonicals == Put(b.canonicals, k, cipher) + [bcb];
    CoverDecodes(b.canonicals, k, cipher, bcb);
    hide SecurityBlocks, DecodesBib, Targeted, Enc, EncryptBlock, VisibleBib;
    forall t ensures t in Enc(b1) <==> t in Enc(b) + {k} {
      EncExactly(b, t);
      EncExactly(b1, t);
    }
    assert Enc(b1) == Enc(b) + {k};
    forall y ensures VisibleBib(b1, y) <==> VisibleBib(b, y) && y.number != k {
      VisibleExactly(b, y);
      VisibleExactly(b1, y);
    }
  }

  /** Encrypting several blocks hides the BIBs among them and nothing else. */
  lemma {:induction false} CoverAllSees(b: Bundle, ks: seq<nat>, r: Rule, key: Key)
    requires UniqueNumbers(b.canonicals) && EncryptBlocks(b, ks, r, key).Some?
    requires forall i :: 0 <= i < |ks| ==> Coverable(b, ks[i])
    ensures var b1 := EncryptBlocks(b, ks, r, key).value;
      && (forall t :: t in Enc(b1) <==> t in Enc(b) || t in ks)
      && (forall y :: VisibleBib(b1, y) <==> VisibleBib(b, y) && y.number !in ks)
    decreases |ks|
  {
    hide Enc, VisibleBib, UniqueNumbers, Coverable, EncryptBlock;
    if ks != [] {
      var b1 := EncryptBlock(b, ks[0], key, r.aes, r.wrapped).value;
      CoverSees(b, ks[0], key, r.aes, r.wrapped);
      forall i | 0 <= i < |ks[1..]| ensures Coverable(b1, ks[1..][i]) {
        CoverableKept(b, ks[0], key, r.aes, r.wrapped, ks[i + 1]);
      }
      Accounting.EncryptBlockChanges(b, ks[0], key, r.aes, r.wrapped, OfBlock(0));
      CoverAllSees(b1, ks[1..], r, key);
      assert ks == [ks[0]] + ks[1..];
    }
  }

  lemma CoverableKept(b: Bundle, k: nat, key: Key, aes: AesVariant, wrapped: bool, m: nat)
    requires EncryptBlock(b, k, key, aes, wrapped).Some? && Coverable(b, m)
    ensures Coverable(EncryptBlock(b, k, key, aes, wrapped).value, m)
  {
    var b1 := EncryptBlock(b, k, key, aes, wrapped).value;
    var i := IndexOf(b.canonicals, m);
    assert b1.canonicals[i].number == m && b1.canonicals[i].blockType == b.canonicals[i].blockType;
    assert forall j :: 0 <= j < i ==> b1.canonicals[j].number == b.canonicals[j].number;
    assert IndexOf(b1.canonicals, m) == i;
  }

  /** Blocks that are there are encrypted if the key fits, and only then. */
  lemma {:induction false} CoverAllSucceeds(b: Bundle, ks: seq<nat>, r: Rule, key: Key)
    requires ks != [] && forall i :: 0 <= i < |ks| ==> Coverable(b, ks[i])
    ensures EncryptBlocks(b, ks, r, key).Some? <==> KeyFits(key, r.aes, r.wrapped)
    decreases |ks|
  {
    if KeyFits(key, r.aes, r.wrapped) {
      assert Coverable(b, ks[0]);
      var b1 := EncryptBlock(b, ks[0], key, r.aes, r.wrapped).value;
      forall i | 0 <= i < |ks[1..]| ensures Coverable(b1, ks[1..][i]) {
        CoverableKept(b, ks[0], key, r.aes, r.wrapped, ks[i + 1]);
      }
      if |ks| > 1 {
        CoverAllSucceeds(b1, ks[1..], r, key);
      }
    }
  }

  lemma {:induction false} BibsAmongMembers(blocks: seq<SecurityBlock>, t: nat, k: nat)
    ensures k in BibsAmong(blocks, t) <==> exists x :: x in blocks && x.operation == Bib && t in x.targets && x.number == k
  {
    if blocks != [] {
      BibsAmongMembers(blocks[1..], t, k);
      assert blocks == [blocks[0]] + blocks[1..];
    }
  }

  /** The BIBs that protect the payload. */
  predicate PayloadBib(b: Bundle, x: SecurityBlock) {
    VisibleBib(b, x) && PAYLOAD_NUMBER in x.targets
  }

  lemma BibsOfMember(b: Bundle, k: nat)
    ensures k in BibsOf(b, PAYLOAD_NUMBER) <==> exists x :: PayloadBib(b, x) && x.number == k
  {
    hide SecurityBlocks;
    BibsAmongMembers(SecurityBlocks(b), PAYLOAD_NUMBER, k);
    if x :| x in SecurityBlocks(b) && x.operation == Bib && PAYLOAD_NUMBER in x.targets && x.number == k {
      assert PayloadBib(b, x);
    }
  }

  /** The blocks encrypted with the payload. */
  function SealedWith(b: Bundle): seq<nat> {
    BibsOf(b, PAYLOAD_NUMBER) + [PAYLOAD_NUMBER]
  }

  lemma AllCoverable(b: Bundle, i: nat)
    requires Sound(b) && Has(b.canonicals, PAYLOAD_NUMBER) && i < |SealedWith(b)|
    ensures Coverable(b, SealedWith(b)[i])
  {
    var ks := BibsOf(b, PAYLOAD_NUMBER);
    if i < |ks| {
      hide BibsOf, Sound;
      assert ks[i] in ks;
      BibsOfMember(b, ks[i]);
      var x :| PayloadBib(b, x) && x.number == ks[i];
      BibCoverable(b, x);
    } else {
      assert SealedWith(b)[i] == PAYLOAD_NUMBER;
    }
  }

  lemma SealedNumbers(b: Bundle, t: nat)
    ensures t in SealedWith(b) <==> t == PAYLOAD_NUMBER || exists x :: PayloadBib(b, x) && x.number == t
  {
    hide BibsOf, PayloadBib;
    BibsOfMember(b, t);
  }

  lemma SealedBibs(b: Bundle, y: SecurityBlock)
    requires Sound(b) && VisibleBib(b, y)
    ensures y.number in SealedWith(b) <==> PAYLOAD_NUMBER in y.targets
  {
    assert UniqueNumbers(b.canonicals);
    hide SealedWith, Sound, VisibleBib, UniqueNumbers;
    SealedNumbers(b, y.number);
    BibNotPayload(b, y);
    if PAYLOAD_NUMBER in y.targets {
      assert PayloadBib(b, y);
    }
    if x :| PayloadBib(b, x) && x.number == y.number {
      OneBibPerNumber(b, x, y);
    }
  }

  lemma EncryptSucceeds(b: Bundle, r: Rule, key: Key)
    requires Sound(b) && Has(b.canonicals, PAYLOAD_NUMBER)
    ensures var outcome := EncryptWithBibs(b, PAYLOAD_NUMBER, r, key);
      && (outcome.Done? <==> KeyFits(key, r.aes, r.wrapped))
      && (outcome.Done? ==> outcome.blocks > 0)
  {
    hide Sound, BibsOf, EncryptBlocks, KeyFits;
    var ks := SealedWith(b);
    forall i | 0 <= i < |ks| ensures Coverable(b, ks[i]) {
      AllCoverable(b, i);
    }
    CoverAllSucceeds(b, ks, r, key);
  }

  /** Encrypting the payload hides exactly the BIBs that cover it, and encrypts them and it. */
  lemma EncryptSees(b: Bundle, r: Rule, key: Key)
    requires Sound(b) && Has(b.canonicals, PAYLOAD_NUMBER) && EncryptWithBibs(b, PAYLOAD_NUMBER, r, key).Done?
    ensures var b1 := EncryptWithBibs(b, PAYLOAD_NUMBER, r, key).bundle;
      && (forall t :: t in Enc(b1) <==>
            t in Enc(b) || t == PAYLOAD_NUMBER || exists x :: PayloadBib(b, x) && x.number == t)
      && (forall y :: VisibleBib(b1, y) <==> VisibleBib(b, y) && PAYLOAD_NUMBER !in y.targets)
  {
    var ks := SealedWith(b);
    var b1 := EncryptWithBibs(b, PAYLOAD_NUMBER, r, key).bundle;
    assert EncryptBlocks(b, ks, r, key) == Some(b1) && UniqueNumbers(b.canonicals);
    hide *;
    forall i | 0 <= i < |ks| ensures Coverable(b, ks[i]) {
      AllCoverable(b, i);
    }
    CoverAllSees(b, ks, r, key);
    forall t ensures t in ks <==> t == PAYLOAD_NUMBER || exists x :: PayloadBib(b, x) && x.number == t {
      SealedNumbers(b, t);
    }
    forall y | VisibleBib(b, y) ensures y.number in ks <==> PAYLOAD_NUMBER in y.targets {
      SealedBibs(b, y);
    }
  }

  lemma BibCoverable(b: Bundle, x: SecurityBlock)
    requires Sound(b) && VisibleBib(b, x)
    ensures Coverable(b, x.number)
  {
    hide SecurityBlocks;
    Accounting.SecurityBlockShape(b, x);
    var i :| 0 <= i < |b.canonicals| && Shape(b.canonicals)[i] == (x.number, Integrity);
    UniqueIndex(b.canonicals, i);
  }

  lemma BibNotPayload(b: Bundle, x: SecurityBlock)
    requires Sound(b) && VisibleBib(b, x)
    ensures x.number != PAYLOAD_NUMBER && x.number != PRIMARY_NUMBER && x.number <= MaxNumber(b.canonicals)
  {
    hide SecurityBlocks;
    Accounting.SecurityBlockShape(b, x);
    var i :| 0 <= i < |b.canonicals| && Shape(b.canonicals)[i] == (x.number, Integrity);
  }

  lemma OneBibPerNumber(b: Bundle, x: SecurityBlock, y: SecurityBlock)
    requires UniqueNumbers(b.canonicals) && VisibleBib(b, x) && VisibleBib(b, y) && x.number == y.number
    ensures x == y
  {
    VisibleExactly(b, x);
    VisibleExactly(b, y);
    var i :| 0 <= i < |b.canonicals| && BibOf(b.canonicals[i]) == Some(x);
    var j :| 0 <= j < |b.canonicals| && BibOf(b.canonicals[j]) == Some(y);
    assert i == j;
  }
}
