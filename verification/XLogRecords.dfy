/** Parsing one WAL record: header, block and main-data headers read under a shrinking budget, then the payload. */
module XLogRecords {
  import opened Bytes

  const RECORD_HEADER: nat := 24
  const BLOCK_SIZE: nat := 8192
  const MAX_BLOCK_ID: nat := 32

  datatype ParseError =
    | Truncated
    | ZeroRecordHeader
    | ShortTotalLength
    | BadResourceManager
    | NotEnoughToShrink
    | BadBlockId
    | BadSlot
    | BlockIdOutOfOrder
    | BadDataState
    | BadImageHole
    | BadImageLength
    | NoPreviousRelation
    | ZeroPageHeader
    | BadPageHeader
    | ZeroPage
    | ContinuationNotFound
    | NoDeltaFileWriter

  datatype Parsed<+T> = Good(value: T) | Bad(error: ParseError) {
    predicate IsFailure() {
      Bad?
    }
    function PropagateFailure<U>(): Parsed<U>
      requires Bad?
    {
      Bad(error)
    }
    function Extract(): T
      requires Good?
    {
      value
    }
  }

  datatype RecordHeader = RecordHeader(
    totalLength: nat, xactId: nat, prevRecord: nat, info: nat, resourceManager: nat, crc: nat)

  datatype RelFileNode = RelFileNode(spcNode: nat, dbNode: nat, relNode: nat)

  datatype BlockLocation = BlockLocation(relation: RelFileNode, blockNo: nat)

  /** Object and block numbers are 32 bits wide. */
  predicate ValidLocation(l: BlockLocation) {
    ValidRelation(l.relation) && l.blockNo < UINT32
  }

  predicate ValidRelation(r: RelFileNode) {
    r.spcNode < UINT32 && r.dbNode < UINT32 && r.relNode < UINT32
  }

  datatype ImageHeader = ImageHeader(imageLength: nat, holeOffset: nat, holeLength: nat, info: nat)

  datatype BlockHeader = BlockHeader(
    id: nat, forkFlags: nat, dataLength: nat, image: Option<ImageHeader>, location: BlockLocation)

  datatype Block = Block(header: BlockHeader, image: Bytes, data: Bytes)

  datatype Record = Record(header: RecordHeader, mainDataLen: nat, origin: nat, blocks: seq<Block>, mainData: Bytes)

  predicate Bit(x: nat, mask: nat)
    requires mask > 0
  {
    (x / mask) % 2 == 1
  }

  /** Info bits above the low four are 0x40 and the resource manager is XLOG. */
  predicate IsWalSwitch(h: RecordHeader) {
    h.resourceManager == 0 && h.info - h.info % 16 == 0x40
  }

  // ---- the record header ----------------------------------------------------

  function HeaderFields(data: Bytes): RecordHeader
    requires RECORD_HEADER <= |data|
  {
    RecordHeader(Decode(data[0..4]), Decode(data[4..8]), Decode(data[8..16]), data[16], data[17], Decode(data[20..24]))
  }

  function ReadRecordHeader(data: Bytes): (r: Parsed<RecordHeader>)
    ensures r.Good? ==> && RECORD_HEADER <= |data| && r.value == HeaderFields(data)
                        && RECORD_HEADER <= r.value.totalLength && r.value.resourceManager < 22
    ensures r.Bad? ==> |data| < RECORD_HEADER || HeaderFields(data).totalLength < RECORD_HEADER
                       || HeaderFields(data).resourceManager >= 22
  {
    if |data| < RECORD_HEADER then Bad(Truncated)
    else
      var h := HeaderFields(data);
      if h.totalLength < RECORD_HEADER then
        (if h == RecordHeader(0, 0, 0, 0, 0, 0) then Bad(ZeroRecordHeader) else Bad(ShortTotalLength))
      else if h.resourceManager >= 22 then Bad(BadResourceManager)
      else Good(h)
  }

  // ---- reading under a budget -----------------------------------------------

  /** ShrinkableReader over the record's bytes: the position reached and the bytes still allowed. */
  datatype Cursor = Cursor(pos: nat, budget: nat)

  /** A fixed-width field; fails when either the budget or the data ends inside it. */
  function ReadField(data: Bytes, c: Cursor, width: nat): (r: Parsed<(nat, Cursor)>)
    ensures r.Good? <==> width <= c.budget && c.pos + width <= |data|
    ensures r.Good? ==> r.value.1.pos == c.pos + width && r.value.1.budget == c.budget - width
  {
    if c.budget < width || |data| < c.pos + width then Bad(Truncated)
    else Good((Decode(data[c.pos..c.pos + width]), Cursor(c.pos + width, c.budget - width)))
  }

  /** Sets aside `n` bytes of payload announced by a header. */
  function Shrink(c: Cursor, n: nat): (r: Parsed<Cursor>)
    ensures r.Good? ==> r.value.pos == c.pos && r.value.budget == c.budget - n
  {
    if c.budget < n then Bad(NotEnoughToShrink) else Good(c.(budget := c.budget - n))
  }

  // ---- block headers --------------------------------------------------------

  /** The 16-bit subtraction that fills in the hole length of an uncompressed image. */
  function ImpliedHole(imageLength: nat): nat
    requires imageLength < 0x1_0000
  {
    (BLOCK_SIZE + 0x1_0000 - imageLength) % 0x1_0000
  }

  function CheckImage(i: ImageHeader): Parsed<()> {
    var hole, compressed := Bit(i.info, 1), Bit(i.info, 2);
    if (hole && (i.holeOffset == 0 || i.holeLength == 0 || i.imageLength == BLOCK_SIZE))
       || (!hole && (i.holeOffset != 0 || i.holeLength != 0)) then Bad(BadImageHole)
    else if (compressed && i.imageLength == BLOCK_SIZE)
            || (!hole && !compressed && i.imageLength != BLOCK_SIZE) then Bad(BadImageLength)
    else Good(())
  }

  /**
   * Which images are accepted: with a hole (bit 1) all of its numbers are there and the image is not a whole block, without
   * one none are; a compressed image (bit 2) is not a whole block, and one with neither is.
   */
  lemma ImageRules(i: ImageHeader)
    ensures var hole, compressed := i.info % 2 == 1, i.info / 2 % 2 == 1;
      && (CheckImage(i) == Bad(BadImageHole) <==>
            !(if hole then i.holeOffset > 0 && i.holeLength > 0 && i.imageLength != 8192
              else i.holeOffset == 0 && i.holeLength == 0))
      && (CheckImage(i).Good? ==> (compressed ==> i.imageLength != 8192) && (!hole && !compressed ==> i.imageLength == 8192))
      && (CheckImage(i) == Bad(BadImageLength) ==> (compressed <==> i.imageLength == 8192))
  {
  }

  function ReadImageHeader(data: Bytes, c: Cursor): (r: Parsed<(ImageHeader, Cursor)>)
    ensures r.Good? ==> && c.pos < r.value.1.pos <= |data|
                        && r.value.1.pos + r.value.1.budget == c.pos + c.budget
                        && CheckImage(r.value.0).Good?
  {
    var (imageLength, c1) :- ReadField(data, c, 2);
    var (holeOffset, c2) :- ReadField(data, c1, 2);
    var (info, c3) :- ReadField(data, c2, 1);
    DecodeBound(data[c.pos..c.pos + 2]);
    Widths();
    var (holeLength, c4) :-
      if !Bit(info, 2) then Good((ImpliedHole(imageLength), c3))
      else if Bit(info, 1) then ReadField(data, c3, 2)
      else Good((0, c3));
    var image := ImageHeader(imageLength, holeOffset, holeLength, info);
    var _ :- CheckImage(image);
    Good((image, c4))
  }

  function ReadRelation(data: Bytes, c: Cursor): (r: Parsed<(RelFileNode, Cursor)>)
    ensures r.Good? ==> r.value.1.pos == c.pos + 12 <= |data| && r.value.1.budget == c.budget - 12
  {
    var (spc, c1) :- ReadField(data, c, 4);
    var (db, c2) :- ReadField(data, c1, 4);
    var (rel, c3) :- ReadField(data, c2, 4);
    Good((RelFileNode(spc, db, rel), c3))
  }

  function ReadLocation(data: Bytes, c: Cursor, sameRel: bool, last: Option<RelFileNode>): (r: Parsed<(BlockLocation, Cursor)>)
    ensures r.Good? ==> && c.pos < r.value.1.pos <= |data|
                        && r.value.1.pos + r.value.1.budget == c.pos + c.budget
                        && (sameRel ==> last == Some(r.value.0.relation))
  {
    var (rel, c1) :-
      if !sameRel then ReadRelation(data, c)
      else if last.None? then Bad(NoPreviousRelation)
      else Good((last.value, c));
    var (blockNo, c2) :- ReadField(data, c1, 4);
    Good((BlockLocation(rel, blockNo), c2))
  }

  function ReadImagePart(data: Bytes, c: Cursor, hasImage: bool): (r: Parsed<(Option<ImageHeader>, Cursor)>)
    ensures r.Good? ==> && c.pos <= r.value.1.pos && (c.pos <= |data| ==> r.value.1.pos <= |data|)
                        && r.value.1.pos + r.value.1.budget + ImageLength(r.value.0) == c.pos + c.budget
  {
    if !hasImage then Good((None, c))
    else
      var (image, c1) :- ReadImageHeader(data, c);
      var c2 :- Shrink(c1, image.imageLength);
      Good((Some(image), c2))
  }

  function ImageLength(image: Option<ImageHeader>): nat {
    if image.Some? then image.value.imageLength else 0
  }

  function PayloadOf(h: BlockHeader): nat {
    h.dataLength + ImageLength(h.image)
  }

  /** The rest of a block header, after its id byte. */
  function ReadBlockHeader(data: Bytes, c: Cursor, id: nat, maxId: int, last: Option<RelFileNode>):
    (r: Parsed<(BlockHeader, Cursor)>)
    ensures r.Good? ==> && r.value.0.id == id && maxId < id <= MAX_BLOCK_ID
                        && c.pos < r.value.1.pos <= |data|
                        && r.value.1.pos + r.value.1.budget + PayloadOf(r.value.0) == c.pos + c.budget
                        && (Bit(r.value.0.forkFlags, 0x20) <==> r.value.0.dataLength != 0)
                        && (Bit(r.value.0.forkFlags, 0x10) <==> r.value.0.image.Some?)
  {
    if id > MAX_BLOCK_ID then Bad(BadBlockId)
    else if id <= maxId then Bad(BlockIdOutOfOrder)
    else
      var (forkFlags, c1) :- ReadField(data, c, 1);
      var (dataLength, c2) :- ReadField(data, c1, 2);
      if Bit(forkFlags, 0x20) != (dataLength != 0) then Bad(BadDataState)
      else
        var c3 :- Shrink(c2, dataLength);
        var (image, c4) :- ReadImagePart(data, c3, Bit(forkFlags, 0x10));
        var (location, c5) :- ReadLocation(data, c4, Bit(forkFlags, 0x80), last);
        Good((BlockHeader(id, forkFlags, dataLength, image, location), c5))
  }

  /** What the flag byte of an accepted header says: 32 for data, 16 for an image, 128 for the relation of the block before. */
  lemma BlockFlags(data: Bytes, c: Cursor, id: nat, maxId: int, last: Option<RelFileNode>)
    requires ReadBlockHeader(data, c, id, maxId, last).Good?
    ensures var h := ReadBlockHeader(data, c, id, maxId, last).value.0;
      && h.forkFlags < 256
      && (h.forkFlags / 32 % 2 == 1 <==> h.dataLength > 0)
      && (h.forkFlags / 16 % 2 == 1 <==> h.image.Some?)
      && (h.forkFlags >= 128 ==> last == Some(h.location.relation))
      && (h.forkFlags < 128 ==> ReadBlockHeader(data, c, id, maxId, None).Good?)
  {
    hide ReadImagePart, ReadRelation;
    DecodeBound(data[c.pos..c.pos + 1]);
    Widths();
  }

  // ---- the header loop ------------------------------------------------------

  /**
   * The record under construction. `mainHeaders` counts main-data headers and `replaced` adds up
   * the lengths that a later one overwrote; the source keeps neither.
   */
  datatype Scan = Scan(cursor: Cursor, blocks: seq<BlockHeader>, mainDataLen: nat, origin: nat,
                       maxId: int, lastRelation: Option<RelFileNode>, mainHeaders: nat, replaced: nat)

  function Announce(s: Scan, c: Cursor, length: nat): (r: Parsed<Scan>)
    ensures r.Good? ==> && r.value.cursor.pos == c.pos && r.value.cursor.budget == c.budget - length
                        && r.value == s.(cursor := r.value.cursor, mainDataLen := length,
                                         mainHeaders := s.mainHeaders + 1, replaced := s.replaced + s.mainDataLen)
  {
    var c1 :- Shrink(c, length);
    Good(s.(cursor := c1, mainDataLen := length,
            mainHeaders := s.mainHeaders + 1, replaced := s.replaced + s.mainDataLen))
  }

  /** One turn of the loop: a main-data header, an origin, or a block header. */
  function HeaderStep(data: Bytes, s: Scan): (r: Parsed<Scan>)
    ensures r.Good? ==> r.value.cursor.budget < s.cursor.budget && r.value.cursor.pos <= |data|
  {
    var (id, c) :- ReadField(data, s.cursor, 1);
    if id == 255 then
      var (length, c1) :- ReadField(data, c, 1);
      Announce(s, c1, length)
    else if id == 254 then
      var (length, c1) :- ReadField(data, c, 4);
      Announce(s, c1, length)
    else if id == 253 then
      var (origin, c1) :- ReadField(data, c, 2);
      Good(s.(cursor := c1, origin := origin))
    else
      var (h, c1) :- ReadBlockHeader(data, c, id, s.maxId, s.lastRelation);
      Good(s.(cursor := c1, blocks := s.blocks + [h], maxId := id, lastRelation := Some(h.location.relation)))
  }

  function HeaderLoop(data: Bytes, s: Scan): (r: Parsed<Scan>)
    ensures r.Good? ==> r.value.cursor.budget == 0 && (s.cursor.pos <= |data| ==> r.value.cursor.pos <= |data|)
    decreases s.cursor.budget
  {
    if s.cursor.budget == 0 then Good(s)
    else
      var s1 :- HeaderStep(data, s);
      HeaderLoop(data, s1)
  }

  function StartScan(h: RecordHeader): Scan
    requires RECORD_HEADER <= h.totalLength
  {
    Scan(Cursor(RECORD_HEADER, h.totalLength - RECORD_HEADER), [], 0, 0, -1, None, 0, 0)
  }

  method ReadBlockHeaderPart(data: Bytes, h: RecordHeader) returns (r: Parsed<Scan>)
    requires RECORD_HEADER <= h.totalLength
    ensures r == HeaderLoop(data, StartScan(h))
  {
    var s := StartScan(h);
    while s.cursor.budget > 0
      invariant HeaderLoop(data, s) == HeaderLoop(data, StartScan(h))
      decreases s.cursor.budget
    {
      var step := HeaderStep(data, s);
      if step.Bad? {
        return Bad(step.error);
      }
      s := step.value;
    }
    return Good(s);
  }

  // ---- payload --------------------------------------------------------------

  function Payload(hs: seq<BlockHeader>): nat {
    if hs == [] then 0 else Payload(hs[..|hs| - 1]) + PayloadOf(hs[|hs| - 1])
  }

  /** Image, then data, of one block header, starting at `pos`. */
  function ReadBlock(data: Bytes, pos: nat, h: BlockHeader): Block
    requires pos + PayloadOf(h) <= |data|
  {
    var mid := pos + ImageLength(h.image);
    Block(h, data[pos..mid], data[mid..mid + h.dataLength])
  }

  function ReadBlocks(data: Bytes, pos: nat, hs: seq<BlockHeader>): (bs: seq<Block>)
    requires pos + Payload(hs) <= |data|
    ensures |bs| == |hs|
  {
    if hs == [] then []
    else
      var n := |hs| - 1;
      ReadBlocks(data, pos, hs[..n]) + [ReadBlock(data, pos + Payload(hs[..n]), hs[n])]
  }

  /** Payload and main data after the headers, with the number of bytes consumed in all. */
  function ReadPayload(data: Bytes, h: RecordHeader, s: Scan): Parsed<(Record, nat)> {
    var mainAt := s.cursor.pos + Payload(s.blocks);
    var end := mainAt + s.mainDataLen;
    if |data| < end then Bad(Truncated)
    else Good((Record(h, s.mainDataLen, s.origin, ReadBlocks(data, s.cursor.pos, s.blocks), data[mainAt..end]), end))
  }

  function ReadRecord(data: Bytes): Parsed<(Record, nat)> {
    var h :- ReadRecordHeader(data);
    var s :- HeaderLoop(data, StartScan(h));
    ReadPayload(data, h, s)
  }

  /** What ParseXLogRecordFromBytes returns. */
  function ParseRecord(data: Bytes): Parsed<Record> {
    var (record, _) :- ReadRecord(data);
    Good(record)
  }

  method ParseXLogRecordFromBytes(data: Bytes) returns (r: Parsed<Record>)
    ensures r == ParseRecord(data)
  {
    var header := ReadRecordHeader(data);
    if header.Bad? {
      return Bad(header.error);
    }
    var part := ReadBlockHeaderPart(data, header.value);
    if part.Bad? {
      return Bad(part.error);
    }
    var body := ReadBody(data, header.value, part.value);
    r := if body.Bad? then Bad(body.error) else Good(body.value.0);
  }

  /** Images and data block by block, then the main data. */
  method ReadBody(data: Bytes, h: RecordHeader, s: Scan) returns (r: Parsed<(Record, nat)>)
    requires s.cursor.pos <= |data|
    ensures r == ReadPayload(data, h, s)
  {
    var blocks := ReadBlockDataAndImages(data, s.cursor.pos, s.blocks);
    if blocks.Bad? {
      return Bad(blocks.error);
    }
    var pos := s.cursor.pos + Payload(s.blocks);
    var end := pos + s.mainDataLen;
    if |data| < end {
      return Bad(Truncated);
    }
    return Good((Record(h, s.mainDataLen, s.origin, blocks.value, data[pos..end]), end));
  }

  method ReadBlockDataAndImages(data: Bytes, start: nat, hs: seq<BlockHeader>) returns (r: Parsed<seq<Block>>)
    requires start <= |data|
    ensures r == if start + Payload(hs) <= |data| then Good(ReadBlocks(data, start, hs)) else Bad(Truncated)
  {
    var pos := start;
    var blocks: seq<Block> := [];
    for i := 0 to |hs|
      invariant pos == start + Payload(hs[..i]) <= |data|
      invariant blocks == ReadBlocks(data, start, hs[..i])
    {
      assert hs[..i + 1][..i] == hs[..i];
      if |data| < pos + PayloadOf(hs[i]) {
        PayloadGrows(hs, i + 1, |hs|);
        assert hs[..|hs|] == hs;
        return Bad(Truncated);
      }
      blocks := blocks + [ReadBlock(data, pos, hs[i])];
      pos := pos + PayloadOf(hs[i]);
    }
    assert hs[..|hs|] == hs;
    return Good(blocks);
  }

  lemma {:induction false} PayloadGrows(hs: seq<BlockHeader>, i: nat, j: nat)
    requires i <= j <= |hs|
    ensures Payload(hs[..i]) <= Payload(hs[..j])
  {
    if i < j {
      PayloadGrows(hs, i, j - 1);
      assert hs[..j][..j - 1] == hs[..j - 1];
    }
  }

  // ---- what a successful parse accounts for ----------------------------------

  /** Every byte of the record is read, still allowed, set aside for payload, or announced and replaced. */
  predicate Accounted(s: Scan, total: nat) {
    && s.cursor.pos + s.cursor.budget + Payload(s.blocks) + s.mainDataLen + s.replaced == total
    && (s.mainHeaders == 0 ==> s.mainDataLen == 0)
    && (s.mainHeaders <= 1 ==> s.replaced == 0)
  }

  predicate IdsAscend(s: Scan) {
    && -1 <= s.maxId <= MAX_BLOCK_ID
    && (forall k :: 0 <= k < |s.blocks| ==> s.blocks[k].id <= s.maxId)
    && (forall j, k :: 0 <= j < k < |s.blocks| ==> s.blocks[j].id < s.blocks[k].id)
    && |s.blocks| <= s.maxId + 1
  }

  lemma StepAccounts(data: Bytes, s: Scan, total: nat)
    requires Accounted(s, total) && IdsAscend(s) && HeaderStep(data, s).Good?
    ensures Accounted(HeaderStep(data, s).value, total) && IdsAscend(HeaderStep(data, s).value)
  {
    hide ReadField, ReadBlockHeader, Shrink;
    var t := HeaderStep(data, s).value;
    if t.blocks != s.blocks {
      assert t.blocks[..|t.blocks| - 1] == s.blocks;
    }
  }

  lemma {:induction false} LoopAccounts(data: Bytes, s: Scan, total: nat)
    requires Accounted(s, total) && IdsAscend(s) && HeaderLoop(data, s).Good?
    ensures Accounted(HeaderLoop(data, s).value, total) && IdsAscend(HeaderLoop(data, s).value)
    decreases s.cursor.budget
  {
    if s.cursor.budget > 0 {
      StepAccounts(data, s, total);
      LoopAccounts(data, HeaderStep(data, s).value, total);
    }
  }

  /** The header part of a record that parses. */
  function Headers(data: Bytes): Scan
    requires ReadRecord(data).Good?
  {
    HeaderLoop(data, StartScan(ReadRecordHeader(data).value)).value
  }

  /**
   * A successful parse has strictly increasing block ids, so at most 33 blocks, and consumes its total
   * length less the replaced main-data lengths: exactly the total length when at most one main-data header is present.
   */
  lemma ParseAccounts(data: Bytes)
    requires ReadRecord(data).Good?
    ensures var (record, consumed) := ReadRecord(data).value;
            && consumed + Headers(data).replaced == record.header.totalLength
            && (Headers(data).mainHeaders <= 1 ==> consumed == record.header.totalLength)
            && consumed <= |data|
            && |record.blocks| <= MAX_BLOCK_ID + 1
            && (forall j, k :: 0 <= j < k < |record.blocks| ==> record.blocks[j].header.id < record.blocks[k].header.id)
  {
    var h := ReadRecordHeader(data).value;
    var s := HeaderLoop(data, StartScan(h)).value;
    LoopAccounts(data, StartScan(h), h.totalLength);
    ReadBlocksHeaders(data, s.cursor.pos, s.blocks);
  }

  lemma {:induction false} ReadBlocksHeaders(data: Bytes, pos: nat, hs: seq<BlockHeader>)
    requires pos + Payload(hs) <= |data|
    ensures forall k :: 0 <= k < |hs| ==> ReadBlocks(data, pos, hs)[k].header == hs[k]
  {
    if hs != [] {
      ReadBlocksHeaders(data, pos, hs[..|hs| - 1]);
    }
  }

  // ---- parsed locations -----------------------------------------------------

  lemma FieldFits(data: Bytes, c: Cursor)
    requires ReadField(data, c, 4).Good?
    ensures ReadField(data, c, 4).value.0 < UINT32
  {
    hide Decode;
    DecodeBound(data[c.pos..c.pos + 4]);
    Widths();
  }

  /** A location is read from its own bytes, or takes the relation of the block before: the numbers stay 32 bits wide. */
  lemma LocationFits(data: Bytes, c: Cursor, sameRel: bool, last: Option<RelFileNode>)
    requires ReadLocation(data, c, sameRel, last).Good? && (last.Some? ==> ValidRelation(last.value))
    ensures ValidLocation(ReadLocation(data, c, sameRel, last).value.0)
  {
    hide ReadField;
    var c1 := c;
    if !sameRel {
      FieldFits(data, c);
      FieldFits(data, ReadField(data, c, 4).value.1);
      FieldFits(data, ReadField(data, ReadField(data, c, 4).value.1, 4).value.1);
      c1 := ReadRelation(data, c).value.1;
    }
    FieldFits(data, c1);
  }

  predicate LocationsFit(s: Scan) {
    && (forall k :: 0 <= k < |s.blocks| ==> ValidLocation(s.blocks[k].location))
    && (s.lastRelation.Some? ==> ValidRelation(s.lastRelation.value))
  }

  lemma BlockLocationFits(data: Bytes, c: Cursor, id: nat, maxId: int, last: Option<RelFileNode>)
    requires ReadBlockHeader(data, c, id, maxId, last).Good? && (last.Some? ==> ValidRelation(last.value))
    ensures ValidLocation(ReadBlockHeader(data, c, id, maxId, last).value.0.location)
  {
    hide ReadField, ReadImagePart, ReadLocation, ValidLocation;
    var (forkFlags, c1) := ReadField(data, c, 1).value;
    var (dataLength, c2) := ReadField(data, c1, 2).value;
    var c3 := Shrink(c2, dataLength).value;
    var (image, c4) := ReadImagePart(data, c3, Bit(forkFlags, 0x10)).value;
    LocationFits(data, c4, Bit(forkFlags, 0x80), last);
  }

  lemma StepKeepsFit(data: Bytes, s: Scan)
    requires LocationsFit(s) && HeaderStep(data, s).Good?
    ensures LocationsFit(HeaderStep(data, s).value)
  {
    hide ReadField, ReadBlockHeader, Announce;
    var (id, c) := ReadField(data, s.cursor, 1).value;
    if id < 253 || id > 255 {
      BlockLocationFits(data, c, id, s.maxId, s.lastRelation);
    }
  }

  lemma {:induction false} LoopKeepsFit(data: Bytes, s: Scan)
    requires LocationsFit(s) && HeaderLoop(data, s).Good?
    ensures LocationsFit(HeaderLoop(data, s).value)
    decreases s.cursor.budget
  {
    hide HeaderStep, LocationsFit;
    if s.cursor.budget > 0 {
      StepKeepsFit(data, s);
      LoopKeepsFit(data, HeaderStep(data, s).value);
    }
  }

  /** Every location of a parsed record can be saved. */
  lemma ParsedLocationsValid(data: Bytes)
    requires ParseRecord(data).Good?
    ensures forall k :: 0 <= k < |ParseRecord(data).value.blocks| ==>
                          ValidLocation(ParseRecord(data).value.blocks[k].header.location)
  {
    hide HeaderLoop, ReadRecordHeader, ReadBlocks, Payload;
    var h := ReadRecordHeader(data).value;
    var s := HeaderLoop(data, StartScan(h)).value;
    LoopKeepsFit(data, StartScan(h));
    ReadBlocksHeaders(data, s.cursor.pos, s.blocks);
  }
}
