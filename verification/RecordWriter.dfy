/** WAL records written out: the inverse of parsing, which fixes the place of every field. */
module RecordWriter {
  import opened Bytes
  import opened XLogRecords

  // ---- layout ---------------------------------------------------------------

  function EncodeHeader(h: RecordHeader): (b: Bytes)
    requires h.info < 256 && h.resourceManager < 256
    ensures |b| == RECORD_HEADER
  {
    Encode(h.totalLength, 4) + Encode(h.xactId, 4) + Encode(h.prevRecord, 8) + [h.info, h.resourceManager, 0, 0]
    + Encode(h.crc, 4)
  }

  /** The hole length is written only for a compressed image with a hole. */
  function EncodeImage(i: ImageHeader): Bytes
    requires i.info < 256
  {
    Encode(i.imageLength, 2) + Encode(i.holeOffset, 2) + [i.info]
    + (if Bit(i.info, 2) && Bit(i.info, 1) then Encode(i.holeLength, 2) else [])
  }

  function EncodeImagePart(image: Option<ImageHeader>): Bytes
    requires image.Some? ==> image.value.info < 256
  {
    if image.Some? then EncodeImage(image.value) else []
  }

  function EncodeRelation(r: RelFileNode): Bytes {
    Encode(r.spcNode, 4) + Encode(r.dbNode, 4) + Encode(r.relNode, 4)
  }

  /** The relation is left out when it is that of the block before. */
  function EncodeLocation(l: BlockLocation, sameRel: bool): Bytes {
    (if sameRel then [] else EncodeRelation(l.relation)) + Encode(l.blockNo, 4)
  }

  function EncodeBlockRest(h: BlockHeader): Bytes
    requires h.forkFlags < 256 && (h.image.Some? ==> h.image.value.info < 256)
  {
    [h.forkFlags] + Encode(h.dataLength, 2) + EncodeImagePart(h.image)
    + EncodeLocation(h.location, Bit(h.forkFlags, 0x80))
  }

  predicate ValidImage(i: ImageHeader) {
    && i.imageLength < 0x1_0000 && i.holeOffset < 0x1_0000 && i.info < 256 && CheckImage(i).Good?
    && (if !Bit(i.info, 2) then i.holeLength == ImpliedHole(i.imageLength)
        else if Bit(i.info, 1) then i.holeLength < 0x1_0000
        else i.holeLength == 0)
  }

  predicate ValidBlock(h: BlockHeader, maxId: int, last: Option<RelFileNode>) {
    && maxId < h.id <= MAX_BLOCK_ID && h.forkFlags < 256 && h.dataLength < 0x1_0000
    && (Bit(h.forkFlags, 0x20) <==> h.dataLength != 0)
    && (Bit(h.forkFlags, 0x10) <==> h.image.Some?) && (h.image.Some? ==> ValidImage(h.image.value))
    && ValidLocation(h.location) && (Bit(h.forkFlags, 0x80) ==> last == Some(h.location.relation))
  }

  // ---- reading what is written ----------------------------------------------

  /** `b` stands in the data at `pos`. */
  predicate Stands(data: Bytes, pos: nat, b: Bytes) {
    pos + |b| <= |data| && data[pos..pos + |b|] == b
  }

  lemma Split(data: Bytes, pos: nat, a: Bytes, b: Bytes)
    requires Stands(data, pos, a + b)
    ensures Stands(data, pos, a) && Stands(data, pos + |a|, b)
  {
    assert data[pos..pos + |a + b|][..|a|] == data[pos..pos + |a|];
    assert data[pos..pos + |a + b|][|a|..] == data[pos + |a|..pos + |a| + |b|];
  }

  /** A cursor moved over `n` bytes. */
  function Over(c: Cursor, n: nat): Cursor
    requires n <= c.budget
  {
    Cursor(c.pos + n, c.budget - n)
  }

  lemma FieldReads(data: Bytes, c: Cursor, v: nat, width: nat)
    requires v < Range(width) && width <= c.budget && Stands(data, c.pos, Encode(v, width))
    ensures ReadField(data, c, width) == Good((v, Over(c, width)))
  {
    hide Encode, Decode, Range;
    DecodeEncode(v, width);
  }

  lemma ByteReads(data: Bytes, c: Cursor, v: Byte)
    requires 1 <= c.budget && Stands(data, c.pos, [v])
    ensures ReadField(data, c, 1) == Good((v, Over(c, 1)))
  {
    assert Decode([v]) == v + 256 * Decode([]);
  }

  lemma HeaderReads(h: RecordHeader, rest: Bytes)
    requires h.totalLength < UINT32 && h.xactId < UINT32 && h.prevRecord < UINT64 && h.crc < UINT32
    requires h.info < 256 && h.resourceManager < 22 && RECORD_HEADER <= h.totalLength
    ensures ReadRecordHeader(EncodeHeader(h) + rest) == Good(h)
  {
    hide Encode, Decode, Range;
    var b := EncodeHeader(h) + rest;
    assert b[0..4] == Encode(h.totalLength, 4) && b[4..8] == Encode(h.xactId, 4);
    assert b[8..16] == Encode(h.prevRecord, 8) && b[20..24] == Encode(h.crc, 4);
    assert b[16] == h.info && b[17] == h.resourceManager;
    DecodeEncode4(h.totalLength);
    DecodeEncode4(h.xactId);
    DecodeEncode4(h.crc);
    Widths();
    DecodeEncode(h.prevRecord, 8);
  }

  lemma ImageFieldsRead(data: Bytes, c: Cursor, i: ImageHeader)
    requires ValidImage(i) && |EncodeImage(i)| <= c.budget && Stands(data, c.pos, EncodeImage(i))
    ensures 5 <= |EncodeImage(i)| <= 7
    ensures ReadField(data, c, 2) == Good((i.imageLength, Over(c, 2)))
    ensures ReadField(data, Over(c, 2), 2) == Good((i.holeOffset, Over(c, 4)))
    ensures ReadField(data, Over(c, 4), 1) == Good((i.info, Over(c, 5)))
    ensures Bit(i.info, 2) && Bit(i.info, 1) ==>
      |EncodeImage(i)| == 7 && ReadField(data, Over(c, 5), 2) == Good((i.holeLength, Over(c, 7)))
    ensures !(Bit(i.info, 2) && Bit(i.info, 1)) ==> |EncodeImage(i)| == 5
  {
    hide Encode, ReadField, Bit, CheckImage, ImpliedHole, Stands;
    Widths();
    var a, b, d := Encode(i.imageLength, 2), Encode(i.holeOffset, 2), [i.info];
    var e := if Bit(i.info, 2) && Bit(i.info, 1) then Encode(i.holeLength, 2) else [];
    Split(data, c.pos, a + b + d, e);
    Split(data, c.pos, a + b, d);
    Split(data, c.pos, a, b);
    FieldReads(data, c, i.imageLength, 2);
    FieldReads(data, Over(c, 2), i.holeOffset, 2);
    ByteReads(data, Over(c, 4), i.info);
    if Bit(i.info, 2) && Bit(i.info, 1) {
      FieldReads(data, Over(c, 5), i.holeLength, 2);
    }
  }

  lemma ImageReads(data: Bytes, c: Cursor, i: ImageHeader)
    requires ValidImage(i) && |EncodeImage(i)| <= c.budget && Stands(data, c.pos, EncodeImage(i))
    ensures ReadImageHeader(data, c) == Good((i, Over(c, |EncodeImage(i)|)))
  {
    hide Encode, ReadField, Bit, EncodeImage, Stands, Decode, Range;
    ImageFieldsRead(data, c, i);
  }

  lemma RelationReads(data: Bytes, c: Cursor, r: RelFileNode)
    requires r.spcNode < UINT32 && r.dbNode < UINT32 && r.relNode < UINT32
    requires 12 <= c.budget && Stands(data, c.pos, EncodeRelation(r))
    ensures ReadRelation(data, c) == Good((r, Over(c, 12)))
  {
    hide Encode, ReadField, Stands;
    Widths();
    var a, b, d := Encode(r.spcNode, 4), Encode(r.dbNode, 4), Encode(r.relNode, 4);
    Split(data, c.pos, a + b, d);
    Split(data, c.pos, a, b);
    FieldReads(data, c, r.spcNode, 4);
    FieldReads(data, Over(c, 4), r.dbNode, 4);
    FieldReads(data, Over(c, 8), r.relNode, 4);
  }

  lemma LocationReads(data: Bytes, c: Cursor, l: BlockLocation, sameRel: bool, last: Option<RelFileNode>)
    requires ValidLocation(l) && (sameRel ==> last == Some(l.relation))
    requires |EncodeLocation(l, sameRel)| <= c.budget && Stands(data, c.pos, EncodeLocation(l, sameRel))
    ensures ReadLocation(data, c, sameRel, last) == Good((l, Over(c, |EncodeLocation(l, sameRel)|)))
  {
    hide Encode, ReadField, Stands, ReadRelation;
    Widths();
    var a := if sameRel then [] else EncodeRelation(l.relation);
    Split(data, c.pos, a, Encode(l.blockNo, 4));
    if !sameRel {
      RelationReads(data, c, l.relation);
    }
    FieldReads(data, Over(c, |a|), l.blockNo, 4);
  }

  lemma ImagePartReads(data: Bytes, c: Cursor, image: Option<ImageHeader>, bytes: Bytes)
    requires image.Some? ==> ValidImage(image.value)
    requires bytes == if image.Some? then EncodeImage(image.value) else []
    requires |bytes| + ImageLength(image) <= c.budget && Stands(data, c.pos, bytes)
    ensures ReadImagePart(data, c, image.Some?)
         == Good((image, Cursor(c.pos + |bytes|, c.budget - |bytes| - ImageLength(image))))
  {
    hide ReadImageHeader, EncodeImage, ValidImage, Stands;
    if image.Some? {
      ImageReads(data, c, image.value);
    }
  }

  lemma BlockFieldsRead(data: Bytes, c: Cursor, h: BlockHeader)
    requires h.forkFlags < 256 && h.dataLength < 0x1_0000 && (h.image.Some? ==> h.image.value.info < 256)
    requires |EncodeBlockRest(h)| <= c.budget && Stands(data, c.pos, EncodeBlockRest(h))
    ensures var image, location := EncodeImagePart(h.image), EncodeLocation(h.location, Bit(h.forkFlags, 0x80));
      && |EncodeBlockRest(h)| == 3 + |image| + |location|
      && ReadField(data, c, 1) == Good((h.forkFlags, Over(c, 1)))
      && ReadField(data, Over(c, 1), 2) == Good((h.dataLength, Over(c, 3)))
      && Stands(data, c.pos + 3, image) && Stands(data, c.pos + 3 + |image|, location)
  {
    hide Encode, ReadField, Stands, EncodeImagePart, EncodeLocation, Bit;
    var flags, length := [h.forkFlags], Encode(h.dataLength, 2);
    var image, location := EncodeImagePart(h.image), EncodeLocation(h.location, Bit(h.forkFlags, 0x80));
    Split(data, c.pos, flags + length + image, location);
    Split(data, c.pos, flags + length, image);
    Split(data, c.pos, flags, length);
    ByteReads(data, c, h.forkFlags);
    Widths();
    FieldReads(data, Over(c, 1), h.dataLength, 2);
  }

  /** A block header after its id byte: reading it sets its payload aside. */
  lemma BlockRestReads(data: Bytes, c: Cursor, h: BlockHeader, maxId: int, last: Option<RelFileNode>)
    requires ValidBlock(h, maxId, last)
    requires |EncodeBlockRest(h)| + PayloadOf(h) <= c.budget && Stands(data, c.pos, EncodeBlockRest(h))
    ensures ReadBlockHeader(data, c, h.id, maxId, last)
         == Good((h, Cursor(c.pos + |EncodeBlockRest(h)|, c.budget - |EncodeBlockRest(h)| - PayloadOf(h))))
  {
    hide Encode, ReadField, Stands, ReadImagePart, ReadLocation, EncodeImage, EncodeLocation, EncodeBlockRest, Bit,
      CheckImage, ImpliedHole, ValidLocation;
    BlockFieldsRead(data, c, h);
    var image := EncodeImagePart(h.image);
    var c3 := Cursor(c.pos + 3, c.budget - 3 - h.dataLength);
    ImagePartReads(data, c3, h.image, image);
    var c4 := Cursor(c3.pos + |image|, c3.budget - |image| - ImageLength(h.image));
    LocationReads(data, c4, h.location, Bit(h.forkFlags, 0x80), last);
  }

  // ---- the headers of a record ----------------------------------------------

  predicate ValidBlocks(hs: seq<BlockHeader>, maxId: int, last: Option<RelFileNode>)
    decreases |hs|
  {
    hs == [] || (ValidBlock(hs[0], maxId, last) && ValidBlocks(hs[1..], hs[0].id, Some(hs[0].location.relation)))
  }

  predicate Encodable(hs: seq<BlockHeader>) {
    forall i :: 0 <= i < |hs| ==>
      hs[i].id < 256 && hs[i].forkFlags < 256 && (hs[i].image.Some? ==> hs[i].image.value.info < 256)
  }

  function EncodeBlocks(hs: seq<BlockHeader>): Bytes
    requires Encodable(hs)
  {
    if hs == [] then [] else [hs[0].id] + EncodeBlockRest(hs[0]) + EncodeBlocks(hs[1..])
  }

  /** The replication origin, when there is one. */
  function EncodeOrigin(origin: nat): Bytes {
    if origin == 0 then [] else [253] + Encode(origin, 2)
  }

  /** The main-data header: short, long or none. */
  function EncodeMain(length: nat): Bytes {
    if length == 0 then [] else if length < 256 then [255, length] else [254] + Encode(length, 4)
  }

  lemma {:induction false} PayloadFront(hs: seq<BlockHeader>)
    requires hs != []
    ensures Payload(hs) == PayloadOf(hs[0]) + Payload(hs[1..])
  {
    if |hs| > 1 {
      PayloadFront(hs[..|hs| - 1]);
      assert hs[..|hs| - 1][1..] == hs[1..][..|hs| - 2];
    }
  }

  lemma BlockStep(data: Bytes, s: Scan, h: BlockHeader)
    requires ValidBlock(h, s.maxId, s.lastRelation) && s.maxId >= -1
    requires 1 + |EncodeBlockRest(h)| + PayloadOf(h) <= s.cursor.budget
    requires Stands(data, s.cursor.pos, [h.id] + EncodeBlockRest(h))
    ensures HeaderStep(data, s) == Good(s.(
      cursor := Cursor(s.cursor.pos + 1 + |EncodeBlockRest(h)|, s.cursor.budget - 1 - |EncodeBlockRest(h)| - PayloadOf(h)),
      blocks := s.blocks + [h], maxId := h.id, lastRelation := Some(h.location.relation)))
  {
    hide Stands, ReadBlockHeader, EncodeBlockRest, ReadField, Bit;
    Split(data, s.cursor.pos, [h.id], EncodeBlockRest(h));
    ByteReads(data, s.cursor, h.id);
    BlockRestReads(data, Over(s.cursor, 1), h, s.maxId, s.lastRelation);
  }

  lemma OriginStep(data: Bytes, s: Scan, origin: nat)
    requires 0 < origin < 0x1_0000 && 3 <= s.cursor.budget && Stands(data, s.cursor.pos, EncodeOrigin(origin))
    ensures HeaderStep(data, s) == Good(s.(cursor := Over(s.cursor, 3), origin := origin))
  {
    hide Stands, ReadBlockHeader, ReadField, Encode;
    Widths();
    Split(data, s.cursor.pos, [253], Encode(origin, 2));
    ByteReads(data, s.cursor, 253);
    FieldReads(data, Over(s.cursor, 1), origin, 2);
  }

  lemma MainStep(data: Bytes, s: Scan, length: nat)
    requires 0 < length < UINT32 && s.cursor.budget == |EncodeMain(length)| + length
    requires Stands(data, s.cursor.pos, EncodeMain(length)) && s.mainDataLen == 0
    ensures HeaderStep(data, s) == Good(s.(
      cursor := Cursor(s.cursor.pos + |EncodeMain(length)|, 0), mainDataLen := length, mainHeaders := s.mainHeaders + 1))
  {
    hide Stands, ReadBlockHeader, ReadField, Encode;
    Widths();
    if length < 256 {
      assert EncodeMain(length) == [255] + [length];
      Split(data, s.cursor.pos, [255], [length]);
      ByteReads(data, s.cursor, 255);
      ByteReads(data, Over(s.cursor, 1), length);
    } else {
      Split(data, s.cursor.pos, [254], Encode(length, 4));
      ByteReads(data, s.cursor, 254);
      FieldReads(data, Over(s.cursor, 1), length, 4);
    }
  }

  /** What the loop has read when it is done. */
  ghost predicate IsDone(s: Scan, r: Parsed<Scan>, hs: seq<BlockHeader>, pos: nat, origin: nat, length: nat) {
    && r.Good? && r.value.cursor == Cursor(pos, 0) && r.value.blocks == s.blocks + hs
    && r.value.mainDataLen == length && r.value.origin == origin
  }

  lemma MainReads(data: Bytes, s: Scan, length: nat)
    requires length < UINT32 && s.cursor.budget == |EncodeMain(length)| + length
    requires Stands(data, s.cursor.pos, EncodeMain(length)) && s.mainDataLen == 0
    ensures IsDone(s, HeaderLoop(data, s), [], s.cursor.pos + |EncodeMain(length)|, s.origin, length)
  {
    hide Stands, HeaderStep;
    assert s.blocks + [] == s.blocks;
    if length > 0 {
      MainStep(data, s, length);
    }
  }

  lemma TrailerReads(data: Bytes, s: Scan, origin: nat, length: nat)
    requires origin < 0x1_0000 && length < UINT32 && s.mainDataLen == 0 && s.origin == 0
    requires s.cursor.budget == |EncodeOrigin(origin) + EncodeMain(length)| + length
    requires Stands(data, s.cursor.pos, EncodeOrigin(origin) + EncodeMain(length))
    ensures IsDone(s, HeaderLoop(data, s), [], s.cursor.pos + |EncodeOrigin(origin) + EncodeMain(length)|, origin, length)
  {
    hide Stands, HeaderStep, EncodeMain;
    Split(data, s.cursor.pos, EncodeOrigin(origin), EncodeMain(length));
    if origin == 0 {
      MainReads(data, s, length);
    } else {
      OriginStep(data, s, origin);
      MainReads(data, s.(cursor := Over(s.cursor, 3), origin := origin), length);
    }
  }

  lemma {:induction false} HeadersRead(data: Bytes, s: Scan, hs: seq<BlockHeader>, origin: nat, length: nat)
    requires origin < 0x1_0000 && length < UINT32 && s.mainDataLen == 0 && s.origin == 0 && s.maxId >= -1
    requires ValidBlocks(hs, s.maxId, s.lastRelation) && Encodable(hs)
    requires var bytes := EncodeBlocks(hs) + (EncodeOrigin(origin) + EncodeMain(length));
      s.cursor.budget == |bytes| + Payload(hs) + length && Stands(data, s.cursor.pos, bytes)
    ensures IsDone(s, HeaderLoop(data, s), hs,
      s.cursor.pos + |EncodeBlocks(hs) + (EncodeOrigin(origin) + EncodeMain(length))|, origin, length)
    decreases |hs|
  {
    hide Stands, HeaderStep, EncodeMain, EncodeOrigin, EncodeBlockRest, ValidBlock, PayloadOf;
    var trailer := EncodeOrigin(origin) + EncodeMain(length);
    if hs == [] {
      assert [] + trailer == trailer;
      TrailerReads(data, s, origin, length);
    } else {
      var h, rest := hs[0], hs[1..];
      var first := [h.id] + EncodeBlockRest(h);
      assert EncodeBlocks(hs) + trailer == first + (EncodeBlocks(rest) + trailer);
      Split(data, s.cursor.pos, first, EncodeBlocks(rest) + trailer);
      PayloadFront(hs);
      BlockStep(data, s, h);
      var next := HeaderStep(data, s).value;
      HeadersRead(data, next, rest, origin, length);
      assert s.blocks + [h] + rest == s.blocks + hs;
    }
  }

  // ---- payload and the whole record -----------------------------------------

  function HeadersOf(bs: seq<Block>): (hs: seq<BlockHeader>)
    ensures |hs| == |bs|
  {
    seq(|bs|, i requires 0 <= i < |bs| => bs[i].header)
  }

  /** Image and data of every block, one after the other. */
  function EncodePayload(bs: seq<Block>): Bytes {
    if bs == [] then [] else EncodePayload(bs[..|bs| - 1]) + bs[|bs| - 1].image + bs[|bs| - 1].data
  }

  predicate PayloadFits(bs: seq<Block>) {
    forall i :: 0 <= i < |bs| ==>
      |bs[i].image| == ImageLength(bs[i].header.image) && |bs[i].data| == bs[i].header.dataLength
  }

  lemma {:induction false} PayloadLength(bs: seq<Block>)
    requires PayloadFits(bs)
    ensures |EncodePayload(bs)| == Payload(HeadersOf(bs))
  {
    if bs != [] {
      PayloadLength(bs[..|bs| - 1]);
      assert HeadersOf(bs)[..|bs| - 1] == HeadersOf(bs[..|bs| - 1]);
    }
  }

  lemma BlockReads(data: Bytes, pos: nat, b: Block)
    requires |b.image| == ImageLength(b.header.image) && |b.data| == b.header.dataLength
    requires Stands(data, pos, b.image) && Stands(data, pos + |b.image|, b.data)
    ensures ReadBlock(data, pos, b.header) == b
  {
  }

  lemma BlocksAppend(data: Bytes, pos: nat, hs: seq<BlockHeader>, h: BlockHeader)
    requires pos + Payload(hs) + PayloadOf(h) <= |data|
    ensures Payload(hs + [h]) == Payload(hs) + PayloadOf(h)
    ensures ReadBlocks(data, pos, hs + [h]) == ReadBlocks(data, pos, hs) + [ReadBlock(data, pos + Payload(hs), h)]
  {
    assert (hs + [h])[..|hs|] == hs;
  }

  lemma LastBlock(bs: seq<Block>)
    requires bs != [] && PayloadFits(bs)
    ensures var front, b := bs[..|bs| - 1], bs[|bs| - 1];
      && bs == front + [b] && PayloadFits(front)
      && |b.image| == ImageLength(b.header.image) && |b.data| == b.header.dataLength
      && HeadersOf(bs) == HeadersOf(front) + [b.header]
      && EncodePayload(bs) == EncodePayload(front) + b.image + b.data
  {
  }

  lemma {:induction false} PayloadReads(data: Bytes, pos: nat, bs: seq<Block>)
    requires PayloadFits(bs) && Stands(data, pos, EncodePayload(bs))
    ensures pos + Payload(HeadersOf(bs)) <= |data| && ReadBlocks(data, pos, HeadersOf(bs)) == bs
  {
    hide ReadBlock, ReadBlocks, Stands, Payload, HeadersOf, EncodePayload, PayloadFits, ImageLength;
    PayloadLength(bs);
    StandsInside(data, pos, EncodePayload(bs));
    if bs == [] {
      NoBlocks(data, pos);
    } else {
      LastBlock(bs);
      var front, b := bs[..|bs| - 1], bs[|bs| - 1];
      var before := EncodePayload(front);
      PayloadLength(front);
      Split(data, pos, before + b.image, b.data);
      Split(data, pos, before, b.image);
      PayloadReads(data, pos, front);
      BlockReads(data, pos + |before|, b);
      BlocksAppend(data, pos, HeadersOf(front), b.header);
    }
  }

  lemma StandsInside(data: Bytes, pos: nat, b: Bytes)
    requires Stands(data, pos, b)
    ensures pos + |b| <= |data|
  {
  }

  lemma NoBlocks(data: Bytes, pos: nat)
    requires pos <= |data|
    ensures Payload([]) == 0 && ReadBlocks(data, pos, []) == []
  {
  }

  /** Everything after the record header. */
  function EncodeBody(r: Record): Bytes
    requires Encodable(HeadersOf(r.blocks))
  {
    EncodeBlocks(HeadersOf(r.blocks)) + (EncodeOrigin(r.origin) + EncodeMain(|r.mainData|))
    + (EncodePayload(r.blocks) + r.mainData)
  }

  predicate ValidRecord(r: Record) {
    && r.header.totalLength < UINT32 && r.header.xactId < UINT32 && r.header.prevRecord < UINT64 && r.header.crc < UINT32
    && r.header.info < 256 && r.header.resourceManager < 22
    && ValidBlocks(HeadersOf(r.blocks), -1, None) && Encodable(HeadersOf(r.blocks)) && PayloadFits(r.blocks)
    && r.origin < 0x1_0000 && r.mainDataLen == |r.mainData| < UINT32
    && r.header.totalLength == RECORD_HEADER + |EncodeBody(r)|
  }

  function EncodeRecord(r: Record): Bytes
    requires ValidRecord(r)
  {
    EncodeHeader(r.header) + EncodeBody(r)
  }

  lemma BodyStands(data: Bytes, r: Record)
    requires ValidRecord(r) && data == EncodeRecord(r)
    ensures var headers := EncodeBlocks(HeadersOf(r.blocks)) + (EncodeOrigin(r.origin) + EncodeMain(|r.mainData|));
      && Stands(data, RECORD_HEADER, headers)
      && Stands(data, RECORD_HEADER + |headers|, EncodePayload(r.blocks))
      && Stands(data, RECORD_HEADER + |headers| + |EncodePayload(r.blocks)|, r.mainData)
      && |data| == RECORD_HEADER + |headers| + |EncodePayload(r.blocks)| + |r.mainData|
  {
    hide Stands, ValidBlocks, EncodeBlocks, EncodeOrigin, EncodeMain, EncodePayload, EncodeHeader, HeadersOf;
    var headers := EncodeBlocks(HeadersOf(r.blocks)) + (EncodeOrigin(r.origin) + EncodeMain(|r.mainData|));
    var payload := EncodePayload(r.blocks) + r.mainData;
    Whole(data);
    Split(data, 0, EncodeHeader(r.header), EncodeBody(r));
    Split(data, RECORD_HEADER, headers, payload);
    Split(data, RECORD_HEADER + |headers|, EncodePayload(r.blocks), r.mainData);
  }

  lemma Whole(data: Bytes)
    ensures Stands(data, 0, data)
  {
  }

  /** Parsing a written record gives it back, field by field, and consumes all of it. */
  lemma ParseEncodeRecord(r: Record)
    requires ValidRecord(r)
    ensures ReadRecord(EncodeRecord(r)) == Good((r, |EncodeRecord(r)|)) && ParseRecord(EncodeRecord(r)) == Good(r)
  {
    hide Stands, ValidBlocks, EncodeBlocks, EncodeOrigin, EncodeMain, EncodePayload, EncodeHeader, HeaderLoop,
      ReadRecordHeader, ReadBlocks, Encodable, PayloadFits, Payload;
    var data := EncodeRecord(r);
    BodyStands(data, r);
    HeaderReads(r.header, EncodeBody(r));
    PayloadLength(r.blocks);
    HeadersRead(data, StartScan(r.header), HeadersOf(r.blocks), r.origin, |r.mainData|);
    var headers := EncodeBlocks(HeadersOf(r.blocks)) + (EncodeOrigin(r.origin) + EncodeMain(|r.mainData|));
    assert [] + HeadersOf(r.blocks) == HeadersOf(r.blocks);
    PayloadReads(data, RECORD_HEADER + |headers|, r.blocks);
    MainDataStands(data, RECORD_HEADER + |headers| + |EncodePayload(r.blocks)|, r.mainData);
  }

  lemma MainDataStands(data: Bytes, pos: nat, main: Bytes)
    requires Stands(data, pos, main)
    ensures pos + |main| <= |data| && data[pos..pos + |main|] == main
  {
  }
}
