/**
 * The `Escrow` account of programs/globe_swap/src/state/escrow.rs: its nine fields, their Borsh
 * serialisation (the bytes Anchor stores after the 8-byte account discriminator) and the
 * hand-computed `INIT_SPACE`.
 */
module EscrowState {
  import opened Primitives

  datatype Escrow = Escrow(
    seed: u64,
    maker: Pubkey,
    taker: Option<Pubkey>,
    mintA: Pubkey,
    mintB: Pubkey,
    vaultA: Pubkey,
    vaultB: Pubkey,
    receiveAmt: u64,
    bump: u8)

  const DISCRIMINATOR_LEN: nat := 8

  /** `Escrow::INIT_SPACE`, term by term as the source writes it. */
  const INIT_SPACE: nat := 8 + 32 + 1 + 32 + 32 + 32 + 32 + 8 + 1

  /** The `space` the `init` constraint allocates: discriminator plus `INIT_SPACE`. */
  const ACCOUNT_SPACE: nat := DISCRIMINATOR_LEN + INIT_SPACE

  lemma InitSpaceValues()
    ensures INIT_SPACE == 178 && ACCOUNT_SPACE == 186
  {
  }

  /** Borsh `Option<Pubkey>`: a tag byte 0 for `None`, or 1 followed by the key. */
  function EncodeTaker(taker: Option<Pubkey>): (bs: seq<byte>)
    ensures |bs| == if taker.None? then 1 else 1 + PUBKEY_LEN
  {
    match taker
    case None => [0]
    case Some(k) => [1] + k
  }

  /** Borsh serialisation of the record: the fields in declaration order, integers little-endian. */
  function Encode(e: Escrow): (bs: seq<byte>)
    ensures |bs| == if e.taker.None? then INIT_SPACE else INIT_SPACE + PUBKEY_LEN
  {
    U64Le(e.seed) + e.maker + EncodeTaker(e.taker) + e.mintA + e.mintB + e.vaultA + e.vaultB
    + U64Le(e.receiveAmt) + [e.bump]
  }

  /** What a field reader yields: the value and the bytes after it. */
  datatype Read<+T> = Read(value: T, rest: seq<byte>)

  function ReadU64(bs: seq<byte>): (r: Option<Read<u64>>)
    ensures r.Some? <==> |bs| >= 8
    ensures r.Some? ==> r.value.rest == bs[8..]
  {
    if |bs| < 8 then None else Some(Read(U64FromLe(bs[..8]), bs[8..]))
  }

  function ReadKey(bs: seq<byte>): (r: Option<Read<Pubkey>>)
    ensures r.Some? <==> |bs| >= PUBKEY_LEN
    ensures r.Some? ==> r.value.value + r.value.rest == bs
  {
    if |bs| < PUBKEY_LEN then None else Some(Read(bs[..PUBKEY_LEN], bs[PUBKEY_LEN..]))
  }

  function ReadByte(bs: seq<byte>): (r: Option<Read<byte>>)
    ensures r.Some? <==> |bs| >= 1
    ensures r.Some? ==> [r.value.value] + r.value.rest == bs
  {
    if |bs| < 1 then None else Some(Read(bs[0], bs[1..]))
  }

  /** Borsh `Option<Pubkey>`: any tag other than 0 or 1 is rejected. */
  function ReadTaker(bs: seq<byte>): (r: Option<Read<Option<Pubkey>>>)
    ensures r.Some? ==> EncodeTaker(r.value.value) + r.value.rest == bs
  {
    var tag :- ReadByte(bs);
    if tag.value == 0 then Some(Read(None, tag.rest))
    else if tag.value == 1 then
      var key :- ReadKey(tag.rest);
      Some(Read(Some(key.value), key.rest))
    else None
  }

  /**
   * Borsh deserialisation of a record from the front of `bs`: fails when the bytes run out or the
   * `Option` tag is neither 0 nor 1; bytes after the record are left unread.
   */
  function Decode(bs: seq<byte>): (r: Option<Escrow>)
    ensures r.Some? ==> |Encode(r.value)| <= |bs|
  {
    var seed :- ReadU64(bs);
    var maker :- ReadKey(seed.rest);
    var taker :- ReadTaker(maker.rest);
    var mintA :- ReadKey(taker.rest);
    var mintB :- ReadKey(mintA.rest);
    var vaultA :- ReadKey(mintB.rest);
    var vaultB :- ReadKey(vaultA.rest);
    var receiveAmt :- ReadU64(vaultB.rest);
    var bump :- ReadByte(receiveAmt.rest);
    Some(Escrow(seed.value, maker.value, taker.value, mintA.value, mintB.value,
                vaultA.value, vaultB.value, receiveAmt.value, bump.value))
  }

  lemma ReadU64Le(x: u64, rest: seq<byte>)
    ensures ReadU64(U64Le(x) + rest) == Some(Read(x, rest))
  {
    assert (U64Le(x) + rest)[..8] == U64Le(x);
    assert (U64Le(x) + rest)[8..] == rest;
  }

  lemma ReadKeyOf(k: Pubkey, rest: seq<byte>)
    ensures ReadKey(k + rest) == Some(Read(k, rest))
  {
    assert (k + rest)[..PUBKEY_LEN] == k;
    assert (k + rest)[PUBKEY_LEN..] == rest;
  }

  lemma ReadTakerOf(taker: Option<Pubkey>, rest: seq<byte>)
    ensures ReadTaker(EncodeTaker(taker) + rest) == Some(Read(taker, rest))
  {
    var bs := EncodeTaker(taker) + rest;
    match taker
    case None =>
      assert bs[1..] == rest;
    case Some(k) =>
      assert bs[1..] == k + rest;
      ReadKeyOf(k, rest);
  }

  lemma ReadByteOf(b: byte, rest: seq<byte>)
    ensures ReadByte([b] + rest) == Some(Read(b, rest))
  {
    assert ([b] + rest)[1..] == rest;
  }

  lemma AppendAssoc(a: seq<byte>, b: seq<byte>, c: seq<byte>)
    ensures (a + b) + c == a + (b + c)
  {
  }

  /** Decoding reads back every record from its encoding, whatever bytes follow it. */
  lemma DecodeEncode(e: Escrow, rest: seq<byte>)
    ensures Decode(Encode(e) + rest) == Some(e)
  {
    // The encoding as the prefixes Borsh writes one field at a time ...
    var p1 := U64Le(e.seed);
    var p2 := p1 + e.maker;
    var p3 := p2 + EncodeTaker(e.taker);
    var p4 := p3 + e.mintA;
    var p5 := p4 + e.mintB;
    var p6 := p5 + e.vaultA;
    var p7 := p6 + e.vaultB;
    var p8 := p7 + U64Le(e.receiveAmt);
    // ... and the suffixes each reader leaves behind.
    var r8 := [e.bump] + rest;
    var r7 := U64Le(e.receiveAmt) + r8;
    var r6 := e.vaultB + r7;
    var r5 := e.vaultA + r6;
    var r4 := e.mintB + r5;
    var r3 := e.mintA + r4;
    var r2 := EncodeTaker(e.taker) + r3;
    var r1 := e.maker + r2;
    AppendAssoc(p8, [e.bump], rest);
    AppendAssoc(p7, U64Le(e.receiveAmt), r8);
    AppendAssoc(p6, e.vaultB, r7);
    AppendAssoc(p5, e.vaultA, r6);
    AppendAssoc(p4, e.mintB, r5);
    AppendAssoc(p3, e.mintA, r4);
    AppendAssoc(p2, EncodeTaker(e.taker), r3);
    AppendAssoc(p1, e.maker, r2);
    assert Encode(e) + rest == p1 + r1;
    ReadU64Le(e.seed, r1);
    ReadKeyOf(e.maker, r2);
    ReadTakerOf(e.taker, r3);
    ReadKeyOf(e.mintA, r4);
    ReadKeyOf(e.mintB, r5);
    ReadKeyOf(e.vaultA, r6);
    ReadKeyOf(e.vaultB, r7);
    ReadU64Le(e.receiveAmt, r8);
    ReadByteOf(e.bump, rest);
  }

  /** Each reader splits its input into the field's encoding and the rest. */
  lemma ReadersSplit(bs: seq<byte>)
    ensures ReadU64(bs).Some? ==> bs == U64Le(ReadU64(bs).value.value) + ReadU64(bs).value.rest
    ensures ReadKey(bs).Some? ==> bs == ReadKey(bs).value.value + ReadKey(bs).value.rest
    ensures ReadByte(bs).Some? ==> bs == [ReadByte(bs).value.value] + ReadByte(bs).value.rest
    ensures ReadTaker(bs).Some? ==> bs == EncodeTaker(ReadTaker(bs).value.value) + ReadTaker(bs).value.rest
  {
    if |bs| >= 8 {
      assert bs == bs[..8] + bs[8..];
    }
    if |bs| >= PUBKEY_LEN {
      assert bs == bs[..PUBKEY_LEN] + bs[PUBKEY_LEN..];
    }
    if |bs| >= 1 {
      assert bs == [bs[0]] + bs[1..];
      if bs[0] == 1 && |bs| >= 1 + PUBKEY_LEN {
        var tail := bs[1..];
        assert tail == tail[..PUBKEY_LEN] + tail[PUBKEY_LEN..];
      }
    }
  }

  /** Whatever decodes is the encoding of the record it decodes to, followed by the unread bytes. */
  lemma EncodeDecode(bs: seq<byte>)
    requires Decode(bs).Some?
    ensures |Encode(Decode(bs).value)| <= |bs|
    ensures bs == Encode(Decode(bs).value) + bs[|Encode(Decode(bs).value)|..]
  {
    var e := Decode(bs).value;
    var seed := ReadU64(bs).value;
    var maker := ReadKey(seed.rest).value;
    var taker := ReadTaker(maker.rest).value;
    var mintA := ReadKey(taker.rest).value;
    var mintB := ReadKey(mintA.rest).value;
    var vaultA := ReadKey(mintB.rest).value;
    var vaultB := ReadKey(vaultA.rest).value;
    var receiveAmt := ReadU64(vaultB.rest).value;
    var bump := ReadByte(receiveAmt.rest).value;
    ReadersSplit(bs);
    ReadersSplit(seed.rest);
    ReadersSplit(maker.rest);
    ReadersSplit(taker.rest);
    ReadersSplit(mintA.rest);
    ReadersSplit(mintB.rest);
    ReadersSplit(vaultA.rest);
    ReadersSplit(vaultB.rest);
    ReadersSplit(receiveAmt.rest);
    var rest := bump.rest;
    DecodeEncode(e, rest);
    // bs and Encode(e) + rest both decode field by field into the same pieces.
    var p1 := U64Le(e.seed);
    var p2 := p1 + e.maker;
    var p3 := p2 + EncodeTaker(e.taker);
    var p4 := p3 + e.mintA;
    var p5 := p4 + e.mintB;
    var p6 := p5 + e.vaultA;
    var p7 := p6 + e.vaultB;
    var p8 := p7 + U64Le(e.receiveAmt);
    AppendAssoc(p8, [e.bump], rest);
    AppendAssoc(p7, U64Le(e.receiveAmt), receiveAmt.rest);
    AppendAssoc(p6, e.vaultB, vaultB.rest);
    AppendAssoc(p5, e.vaultA, vaultA.rest);
    AppendAssoc(p4, e.mintB, mintB.rest);
    AppendAssoc(p3, e.mintA, mintA.rest);
    AppendAssoc(p2, EncodeTaker(e.taker), taker.rest);
    AppendAssoc(p1, e.maker, maker.rest);
    assert bs == Encode(e) + rest;
    assert bs[|Encode(e)|..] == rest;
  }

  /** Distinct records never serialise to the same bytes. */
  lemma EncodeInjective(e1: Escrow, e2: Escrow)
    requires Encode(e1) == Encode(e2)
    ensures e1 == e2
  {
    DecodeEncode(e1, []);
    DecodeEncode(e2, []);
    assert Encode(e1) + [] == Encode(e2) + [];
  }

  /**
   * The account data Anchor writes when the instruction ends: discriminator and record at the front of
   * the `ACCOUNT_SPACE` bytes allocated by `init`, the rest left zero; `None` when they do not fit
   * (the serialisation error that aborts the transaction).
   */
  function Store(disc: seq<byte>, e: Escrow): (data: Option<seq<byte>>)
    requires |disc| == DISCRIMINATOR_LEN
    ensures data.Some? <==> e.taker.None?
    ensures data.Some? ==> |data.value| == ACCOUNT_SPACE && data.value[..DISCRIMINATOR_LEN] == disc
  {
    var image := disc + Encode(e);
    if |image| <= ACCOUNT_SPACE then Some(image + seq(ACCOUNT_SPACE - |image|, i => 0)) else None
  }

  /** Anchor's `try_deserialize`: the discriminator must match, then the record is decoded. */
  function Load(disc: seq<byte>, data: seq<byte>): (r: Option<Escrow>)
    requires |disc| == DISCRIMINATOR_LEN
    ensures r.Some? ==> |data| >= DISCRIMINATOR_LEN + INIT_SPACE && data[..DISCRIMINATOR_LEN] == disc
  {
    if |data| < DISCRIMINATOR_LEN || data[..DISCRIMINATOR_LEN] != disc then None
    else Decode(data[DISCRIMINATOR_LEN..])
  }

  /** `INIT_SPACE` holds a record exactly when it has no taker: with one it is 32 bytes short. */
  lemma StoreFitsIffNoTaker(disc: seq<byte>, e: Escrow)
    requires |disc| == DISCRIMINATOR_LEN
    ensures Store(disc, e).Some? <==> e.taker.None?
    ensures e.taker.None? ==> |Encode(e)| == INIT_SPACE == 178
    ensures e.taker.Some? ==> |Encode(e)| == INIT_SPACE + 32 == 210
  {
  }

  /** A stored record loads back unchanged from the account data. */
  lemma LoadStore(disc: seq<byte>, e: Escrow)
    requires |disc| == DISCRIMINATOR_LEN
    requires e.taker.None?
    ensures Store(disc, e).Some? && |Store(disc, e).value| == ACCOUNT_SPACE
    ensures Load(disc, Store(disc, e).value) == Some(e)
  {
    var data := Store(disc, e).value;
    assert data[..DISCRIMINATOR_LEN] == disc;
    assert data[DISCRIMINATOR_LEN..] == Encode(e) + [];
    DecodeEncode(e, []);
  }
}
