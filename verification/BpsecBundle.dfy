/** Bundles as BPSec sees them and the security operations of bp7 on them, with symbolic cryptography: a MAC and a
    ciphertext are the terms they were made from (sections 3.7 and 4.7 of RFC 9173). */
module BpsecBundle {
  import opened Options

  type Key = seq<nat>

  datatype CrcType = CrcNo | Crc16 | Crc32

  /** `fields` stands for all of the primary block that no security operation changes. */
  datatype Primary = Primary(fields: nat, source: string, destination: string, crc: CrcType)

  datatype BlockType = Payload | Integrity | Confidentiality | Other(code: nat)

  datatype ShaVariant = Sha256 | Sha384 | Sha512

  datatype AesVariant = Aes128 | Aes256

  /** What a MAC covers of its target. */
  datatype Covered = ThePrimary(primary: Primary) | TheBlock(blockType: BlockType, content: Content) | Nothing

  /** A MAC over the primary block with its CRC type, the target, and the block number of its BIB. */
  datatype Mac = Mac(key: Key, sha: ShaVariant, view: Primary, target: nat, covered: Covered, bib: nat)

  /** The data of a canonical block: bytes, a decodable abstract security block, or a ciphertext bound to the primary
      block it was made under. */
  datatype Content =
    | Bytes(bytes: seq<nat>)
    | Asb(targets: seq<nat>, macs: seq<Mac>)
    | Cipher(key: Key, wrapped: bool, view: Primary, inner: Content)

  datatype Block = Block(number: nat, blockType: BlockType, content: Content, crc: CrcType)

  datatype Bundle = Bundle(primary: Primary, canonicals: seq<Block>)

  const PRIMARY_NUMBER: nat := 0
  const PAYLOAD_NUMBER: nat := 1

  // ---------------------------------------------------------------- blocks by number

  /** The first block with the number, |blocks| if there is none. */
  function IndexOf(blocks: seq<Block>, n: nat): (i: nat)
    ensures i <= |blocks|
    ensures i < |blocks| ==> blocks[i].number == n
    ensures forall j :: 0 <= j < i ==> blocks[j].number != n
  {
    if blocks == [] || blocks[0].number == n then 0 else 1 + IndexOf(blocks[1..], n)
  }

  predicate Has(blocks: seq<Block>, n: nat) {
    IndexOf(blocks, n) < |blocks|
  }

  function Get(blocks: seq<Block>, n: nat): Block
    requires Has(blocks, n)
  {
    blocks[IndexOf(blocks, n)]
  }

  function Put(blocks: seq<Block>, n: nat, block: Block): seq<Block>
    requires Has(blocks, n)
  {
    blocks[IndexOf(blocks, n) := block]
  }

  function Drop(blocks: seq<Block>, n: nat): seq<Block>
    requires Has(blocks, n)
  {
    var i := IndexOf(blocks, n);
    blocks[..i] + blocks[i + 1..]
  }

  function MaxNumber(blocks: seq<Block>): (m: nat)
    ensures forall i :: 0 <= i < |blocks| ==> blocks[i].number <= m
  {
    if blocks == [] then 0
    else
      var m := MaxNumber(blocks[1..]);
      if m < blocks[0].number then blocks[0].number else m
  }

  /** The number bp7 gives a new block. */
  function FreshNumber(b: Bundle): nat {
    MaxNumber(b.canonicals) + 1
  }

  function CoveredBy(b: Bundle, target: nat): Covered {
    if target == PRIMARY_NUMBER then ThePrimary(b.primary)
    else if Has(b.canonicals, target) then
      var block := Get(b.canonicals, target);
      TheBlock(block.blockType, block.content)
    else Nothing
  }

  /** Sets the CRC type of a block if it exists. */
  function SetCrc(b: Bundle, target: nat, crc: CrcType): Bundle {
    if target == PRIMARY_NUMBER then b.(primary := b.primary.(crc := crc))
    else if Has(b.canonicals, target) then
      b.(canonicals := Put(b.canonicals, target, Get(b.canonicals, target).(crc := crc)))
    else b
  }

  function SetCrcs(b: Bundle, targets: seq<nat>, crc: CrcType): Bundle
    decreases |targets|
  {
    if targets == [] then b else SetCrcs(SetCrc(b, targets[0], crc), targets[1..], crc)
  }

  function Append(b: Bundle, block: Block): Bundle {
    b.(canonicals := b.canonicals + [block])
  }

  // ---------------------------------------------------------------- bp7's operations

  /** Adds a BIB for one target; signing removes the CRC of the target. */
  function Sign(b: Bundle, target: nat, key: Key, sha: ShaVariant): Option<Bundle> {
    if target != PRIMARY_NUMBER && !Has(b.canonicals, target) then None
    else
      var b1 := SetCrc(b, target, CrcNo);
      var n := FreshNumber(b1);
      var mac := Mac(key, sha, b1.primary, target, CoveredBy(b1, target), n);
      Some(Append(b1, Block(n, Integrity, Asb([target], [mac]), CrcNo)))
  }

  predicate IsBib(b: Bundle, n: nat) {
    Has(b.canonicals, n)
    && var block := Get(b.canonicals, n);
    block.blockType == Integrity && block.content.Asb? && |block.content.targets| == |block.content.macs|
  }

  /** Every result of the BIB is the MAC its target has now. */
  predicate Authentic(b: Bundle, n: nat, key: Key)
    requires IsBib(b, n)
  {
    var asb := Get(b.canonicals, n).content;
    forall i :: 0 <= i < |asb.targets| ==>
      asb.macs[i] == Mac(key, asb.macs[i].sha, b.primary, asb.targets[i], CoveredBy(b, asb.targets[i]), n)
  }

  /** None if there is no such BIB, otherwise whether it is authentic. */
  function Verify(b: Bundle, n: nat, key: Key): Option<bool> {
    if IsBib(b, n) then Some(Authentic(b, n, key)) else None
  }

  /** Verifies a BIB and, if it is authentic, removes it and gives its targets a CRC. */
  function Accept(b: Bundle, n: nat, key: Key, crc: CrcType): Option<(bool, Bundle)> {
    if !IsBib(b, n) then None
    else if !Authentic(b, n, key) then Some((false, b))
    else
      var targets := Get(b.canonicals, n).content.targets;
      Some((true, SetCrcs(b.(canonicals := Drop(b.canonicals, n)), targets, crc)))
  }

  predicate KeyFits(key: Key, aes: AesVariant, wrapped: bool) {
    if wrapped then |key| == 16 || |key| == 24 || |key| == 32
    else |key| == match aes case Aes128 => 16 case Aes256 => 32
  }

  /** Replaces the data of a block by its ciphertext and adds a BCB for it. */
  function EncryptBlock(b: Bundle, target: nat, key: Key, aes: AesVariant, wrapped: bool): Option<Bundle> {
    if !KeyFits(key, aes, wrapped) || !Has(b.canonicals, target) then None
    else
      var block := Get(b.canonicals, target);
      var cipher := block.(content := Cipher(key, wrapped, b.primary, block.content), crc := CrcNo);
      Some(Append(b.(canonicals := Put(b.canonicals, target, cipher)),
                  Block(FreshNumber(b), Confidentiality, Asb([target], []), CrcNo)))
  }

  function DecryptTargets(b: Bundle, targets: seq<nat>, key: Key, crc: CrcType): Option<Bundle>
    decreases |targets|
  {
    if targets == [] then Some(b)
    else if !Has(b.canonicals, targets[0]) then None
    else
      var block := Get(b.canonicals, targets[0]);
      if block.content.Cipher? && block.content.key == key && block.content.view == b.primary then
        var plain := block.(content := block.content.inner, crc := crc);
        DecryptTargets(b.(canonicals := Put(b.canonicals, targets[0], plain)), targets[1..], key, crc)
      else None
  }

  /** Decrypts all targets of a BCB and removes it, or fails without a change. */
  function Decrypt(b: Bundle, n: nat, key: Key, crc: CrcType): Option<Bundle> {
    if !Has(b.canonicals, n) then None
    else
      var bcb := Get(b.canonicals, n);
      if bcb.blockType != Confidentiality || !bcb.content.Asb? then None
      else DecryptTargets(b.(canonicals := Drop(b.canonicals, n)), bcb.content.targets, key, crc)
  }

  /** Removes a block, keeping everything else. */
  function RemoveBlock(b: Bundle, n: nat): Option<Bundle> {
    if Has(b.canonicals, n) then Some(b.(canonicals := Drop(b.canonicals, n))) else None
  }

  // ---------------------------------------------------------------- numbers and types

  /** The numbers and types of the blocks, which only adding and removing blocks changes. */
  function Shape(blocks: seq<Block>): (s: seq<(nat, BlockType)>)
    ensures |s| == |blocks| && forall i :: 0 <= i < |s| ==> s[i] == (blocks[i].number, blocks[i].blockType)
  {
    seq(|blocks|, i requires 0 <= i < |blocks| => (blocks[i].number, blocks[i].blockType))
  }

  predicate UniqueNumbers(blocks: seq<Block>) {
    forall i, j :: 0 <= i < j < |blocks| ==> blocks[i].number != blocks[j].number
  }

  function CountType(s: seq<(nat, BlockType)>, t: BlockType): nat {
    if s == [] then 0 else (if s[0].1 == t then 1 else 0) + CountType(s[1..], t)
  }

  function Count(b: Bundle, t: BlockType): nat {
    CountType(Shape(b.canonicals), t)
  }

  lemma {:induction false} CountAppend(x: seq<(nat, BlockType)>, y: seq<(nat, BlockType)>, t: BlockType)
    ensures CountType(x + y, t) == CountType(x, t) + CountType(y, t)
  {
    if x == [] {
      assert x + y == y;
    } else {
      CountAppend(x[1..], y, t);
      assert (x + y)[1..] == x[1..] + y;
    }
  }

  lemma AppendShape(b: Bundle, block: Block, t: BlockType)
    ensures Shape(Append(b, block).canonicals) == Shape(b.canonicals) + [(block.number, block.blockType)]
    ensures Count(Append(b, block), t) == Count(b, t) + (if block.blockType == t then 1 else 0)
  {
    CountAppend(Shape(b.canonicals), [(block.number, block.blockType)], t);
    assert Shape(Append(b, block).canonicals) == Shape(b.canonicals) + [(block.number, block.blockType)];
  }

  lemma CountDrop(blocks: seq<Block>, n: nat, t: BlockType)
    requires Has(blocks, n)
    ensures CountType(Shape(Drop(blocks, n)), t)
      == CountType(Shape(blocks), t) - (if Get(blocks, n).blockType == t then 1 else 0)
  {
    var i := IndexOf(blocks, n);
    var all := Shape(blocks);
    var x, y, z := all[..i], [all[i]], all[i + 1..];
    assert Shape(Drop(blocks, n)) == x + z;
    assert all == x + y + z;
    assert CountType(y, t) == if Get(blocks, n).blockType == t then 1 else 0;
    hide CountType, Shape;
    CountAppend(x + y, z, t);
    CountAppend(x, y, t);
    CountAppend(x, z, t);
  }

  lemma DropShape(blocks: seq<Block>, n: nat)
    requires Has(blocks, n)
    ensures forall x :: x in Shape(blocks) && x.0 != n ==> x in Shape(Drop(blocks, n))
    ensures UniqueNumbers(blocks) ==> UniqueNumbers(Drop(blocks, n))
  {
    var i := IndexOf(blocks, n);
    var all := Shape(blocks);
    assert Shape(Drop(blocks, n)) == all[..i] + all[i + 1..];
  }

  lemma PutShape(blocks: seq<Block>, n: nat, block: Block)
    requires Has(blocks, n) && block.number == n && block.blockType == Get(blocks, n).blockType
    ensures Shape(Put(blocks, n, block)) == Shape(blocks)
  {}

  lemma SetCrcShape(b: Bundle, target: nat, crc: CrcType)
    ensures Shape(SetCrc(b, target, crc).canonicals) == Shape(b.canonicals)
  {}

  lemma {:induction false} SetCrcsShape(b: Bundle, targets: seq<nat>, crc: CrcType)
    ensures Shape(SetCrcs(b, targets, crc).canonicals) == Shape(b.canonicals)
    decreases |targets|
  {
    if targets != [] {
      SetCrcShape(b, targets[0], crc);
      SetCrcsShape(SetCrc(b, targets[0], crc), targets[1..], crc);
    }
  }

  lemma {:induction false} DecryptTargetsShape(b: Bundle, targets: seq<nat>, key: Key, crc: CrcType)
    ensures var r := DecryptTargets(b, targets, key, crc);
      r.Some? ==> Shape(r.value.canonicals) == Shape(b.canonicals)
    decreases |targets|
  {
    if targets != [] && DecryptTargets(b, targets, key, crc).Some? {
      var block := Get(b.canonicals, targets[0]);
      var plain := block.(content := block.content.inner, crc := crc);
      PutShape(b.canonicals, targets[0], plain);
      DecryptTargetsShape(b.(canonicals := Put(b.canonicals, targets[0], plain)), targets[1..], key, crc);
    }
  }

  lemma UniqueByShape(x: seq<Block>, y: seq<Block>)
    requires Shape(x) == Shape(y) && UniqueNumbers(x)
    ensures UniqueNumbers(y)
  {
    forall i, j | 0 <= i < j < |y| ensures y[i].number != y[j].number {
      assert Shape(x)[i] == Shape(y)[i] && Shape(x)[j] == Shape(y)[j];
    }
  }
}
