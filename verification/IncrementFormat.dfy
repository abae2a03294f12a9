/** The increment file: "wi1" and a magic byte, file size, number of changed pages, their block numbers, their pages. */
module IncrementFormat {
  import opened Bytes

  /** IncrementFileHeader: 'w', 'i', '1', SignatureMagicNumber. */
  const SIGNATURE: Bytes := [0x77, 0x69, 0x31, 0x55]

  /** The parsed fields; page `k` of `body` belongs to block `blocks[k]`. */
  datatype Increment = Increment(fileSize: nat, blocks: seq<nat>, body: Bytes)

  /** What the fixed-width fields can hold; the diff map length 4 * count is itself a 32-bit product. */
  predicate Encodable(inc: Increment) {
    && inc.fileSize < UINT64
    && 4 * |inc.blocks| < UINT32
    && forall i :: 0 <= i < |inc.blocks| ==> inc.blocks[i] < UINT32
  }

  function DiffMap(blocks: seq<nat>): (m: Bytes)
    ensures |m| == 4 * |blocks|
  {
    if blocks == [] then []
    else DiffMap(blocks[..|blocks| - 1]) + Encode(blocks[|blocks| - 1], 4)
  }

  function BlockNo(diffMap: Bytes, i: nat): nat
    requires 4 * i + 4 <= |diffMap|
  {
    Decode(diffMap[4 * i..4 * i + 4])
  }

  function BlocksOf(diffMap: Bytes): (blocks: seq<nat>)
    ensures |blocks| == |diffMap| / 4
  {
    seq(|diffMap| / 4, i requires 0 <= i < |diffMap| / 4 => BlockNo(diffMap, i))
  }

  function EncodeIncrement(inc: Increment): Bytes {
    EncodeHeader(inc.fileSize, inc.blocks) + inc.body
  }

  function EncodeHeader(fileSize: nat, blocks: seq<nat>): (h: Bytes)
    ensures |h| == 16 + 4 * |blocks|
  {
    SIGNATURE + Encode(fileSize, 8) + Encode(|blocks|, 4) + DiffMap(blocks)
  }

  /** io.ReadFull distinguishes an empty reader from one that ends inside the field. */
  function ShortRead(available: nat): Error {
    if available == 0 then Eof else UnexpectedEof
  }

  /** ReadIncrementFileHeader, on a reader holding `s`. */
  function CheckSignature(s: Bytes): Result<()> {
    if |s| < 4 then Err(ShortRead(|s|))
    else if s[0] != SIGNATURE[0] || s[1] != SIGNATURE[1] || s[3] != SIGNATURE[3] then Err(InvalidHeader)
    else if s[2] != SIGNATURE[2] then Err(UnknownHeader)
    else Ok(())
  }

  /** GetIncrementHeaderFields; what the reader still holds afterwards becomes the body. */
  function ParseIncrement(s: Bytes): Result<Increment> {
    match CheckSignature(s)
    case Err(e) => Err(e)
    case Ok(_) =>
      if |s| < 12 then Err(ShortRead(|s| - 4))
      else if |s| < 16 then Err(ShortRead(|s| - 12))
      else
        var count := Decode(s[12..16]);
        if 4 * count >= UINT32 then Err(DiffMapTooLong)
        else if |s| < 16 + 4 * count then Err(ShortRead(|s| - 16))
        else Ok(Increment(Decode(s[4..12]), BlocksOf(s[16..16 + 4 * count]), s[16 + 4 * count..]))
  }

  lemma {:induction false} BlockNoOfDiffMap(blocks: seq<nat>, i: nat)
    requires i < |blocks| && blocks[i] < UINT32
    ensures BlockNo(DiffMap(blocks), i) == blocks[i]
  {
    var n := |blocks| - 1;
    var prefix := DiffMap(blocks[..n]);
    if i == n {
      assert DiffMap(blocks)[4 * i..4 * i + 4] == Encode(blocks[n], 4);
      Widths();
      DecodeEncode(blocks[n], 4);
    } else {
      assert DiffMap(blocks)[4 * i..4 * i + 4] == prefix[4 * i..4 * i + 4];
      BlockNoOfDiffMap(blocks[..n], i);
    }
  }

  lemma BlocksOfSnoc(m: Bytes, w: Bytes)
    requires |m| % 4 == 0 && |w| == 4
    ensures BlocksOf(m + w) == BlocksOf(m) + [Decode(w)]
  {
    forall i | 0 <= i < |m| / 4
      ensures BlockNo(m + w, i) == BlockNo(m, i)
    {
      assert (m + w)[4 * i..4 * i + 4] == m[4 * i..4 * i + 4];
    }
    assert (m + w)[|m|..|m| + 4] == w;
  }

  lemma DiffMapSnoc(blocks: seq<nat>, b: nat)
    ensures DiffMap(blocks + [b]) == DiffMap(blocks) + Encode(b, 4)
  {
    assert (blocks + [b])[..|blocks|] == blocks;
  }

  lemma {:induction false} DiffMapOfBlocks(m: Bytes)
    requires |m| % 4 == 0
    ensures DiffMap(BlocksOf(m)) == m
  {
    if |m| > 0 {
      var init, w := m[..|m| - 4], m[|m| - 4..];
      assert m == init + w;
      DiffMapOfBlocks(init);
      calc {
        DiffMap(BlocksOf(m));
        { BlocksOfSnoc(init, w); }
        DiffMap(BlocksOf(init) + [Decode(w)]);
        { DiffMapSnoc(BlocksOf(init), Decode(w)); }
        DiffMap(BlocksOf(init)) + Encode(Decode(w), 4);
        { EncodeDecode(w); }
        m;
      }
    }
  }

  lemma {:induction false} DiffMapAt(blocks: seq<nat>, k: nat)
    requires k < |blocks|
    ensures DiffMap(blocks)[4 * k..4 * k + 4] == Encode(blocks[k], 4)
  {
    var n := |blocks| - 1;
    if k < n {
      DiffMapAt(blocks[..n], k);
      assert DiffMap(blocks)[4 * k..4 * k + 4] == DiffMap(blocks[..n])[4 * k..4 * k + 4];
    }
  }

  /** Where everything is: "wi1U", the size in eight bytes, the count in four, four bytes for each block, then the pages. */
  lemma IncrementLayout(inc: Increment, k: nat)
    requires k < |inc.blocks|
    ensures var s, n := EncodeIncrement(inc), |inc.blocks|;
      && s[..4] == [0x77, 0x69, 0x31, 0x55] && s[4..12] == Encode(inc.fileSize, 8) && s[12..16] == Encode(n, 4)
      && s[16 + 4 * k..16 + 4 * k + 4] == Encode(inc.blocks[k], 4) && s[16 + 4 * n..] == inc.body
  {
    hide Encode, DiffMap;
    var s, n := EncodeIncrement(inc), |inc.blocks|;
    DiffMapAt(inc.blocks, k);
    assert s[16..16 + 4 * n] == DiffMap(inc.blocks);
    assert s[16 + 4 * k..16 + 4 * k + 4] == s[16..16 + 4 * n][4 * k..4 * k + 4];
  }

  /** The signature is accepted exactly as written; another version character is an unknown version, anything else invalid. */
  lemma SignatureExactly(s: Bytes)
    ensures CheckSignature(s).Ok? <==> |s| >= 4 && s[..4] == SIGNATURE
    ensures CheckSignature(s) == Err(UnknownHeader) <==>
      |s| >= 4 && s[..4] != SIGNATURE && s[..4] == SIGNATURE[2 := s[2]]
    ensures CheckSignature(s) == Err(Eof) <==> s == []
  {
    if |s| >= 4 {
      assert s[..4] == [s[0], s[1], s[2], s[3]];
      assert SIGNATURE[2 := s[2]] == [SIGNATURE[0], SIGNATURE[1], s[2], SIGNATURE[3]];
      assert SIGNATURE == [SIGNATURE[0], SIGNATURE[1], SIGNATURE[2], SIGNATURE[3]];
    }
  }

  /** Reading back what was written gives the same increment. */
  lemma ParseEncode(inc: Increment)
    requires Encodable(inc)
    ensures ParseIncrement(EncodeIncrement(inc)) == Ok(inc)
  {
    var s := EncodeIncrement(inc);
    var n := |inc.blocks|;
    assert s[..4] == SIGNATURE;
    assert s[0] == SIGNATURE[0] && s[1] == SIGNATURE[1] && s[2] == SIGNATURE[2] && s[3] == SIGNATURE[3];
    assert s[4..12] == Encode(inc.fileSize, 8);
    assert s[12..16] == Encode(n, 4);
    assert s[16..16 + 4 * n] == DiffMap(inc.blocks);
    assert s[16 + 4 * n..] == inc.body;
    Widths();
    DecodeEncode(inc.fileSize, 8);
    DecodeEncode(n, 4);
    forall i | 0 <= i < n
      ensures BlockNo(DiffMap(inc.blocks), i) == inc.blocks[i]
    {
      BlockNoOfDiffMap(inc.blocks, i);
    }
    assert BlocksOf(DiffMap(inc.blocks)) == inc.blocks;
  }

  /** Only encodings are accepted: an accepted input is the encoding of what was read. */
  lemma EncodeParse(s: Bytes)
    requires ParseIncrement(s).Ok?
    ensures Encodable(ParseIncrement(s).value) && EncodeIncrement(ParseIncrement(s).value) == s
  {
    var n := Decode(s[12..16]);
    var m := s[16..16 + 4 * n];
    var inc := ParseIncrement(s).value;
    assert inc.blocks == BlocksOf(m) && |inc.blocks| == n;
    assert Encodable(inc) by {
      FieldBounds(s[4..12], m);
    }
    assert EncodeIncrement(inc) == s by {
      FieldsEncode(s[4..12], s[12..16], m);
      Assemble(s, inc.fileSize, inc.blocks);
    }
  }

  lemma FieldsEncode(size: Bytes, count: Bytes, diffMap: Bytes)
    requires |size| == 8 && |count| == 4 && |diffMap| % 4 == 0
    ensures Encode(Decode(size), 8) == size && Encode(Decode(count), 4) == count
    ensures DiffMap(BlocksOf(diffMap)) == diffMap
  {
    EncodeDecode(size);
    EncodeDecode(count);
    DiffMapOfBlocks(diffMap);
  }

  lemma Assemble(s: Bytes, fileSize: nat, blocks: seq<nat>)
    requires 16 + 4 * |blocks| <= |s| && CheckSignature(s).Ok?
    requires s[4..12] == Encode(fileSize, 8) && s[12..16] == Encode(|blocks|, 4)
    requires s[16..16 + 4 * |blocks|] == DiffMap(blocks)
    ensures EncodeHeader(fileSize, blocks) + s[16 + 4 * |blocks|..] == s
  {
    hide Encode, DiffMap, Decode;
    assert s[..4] == SIGNATURE;
    FiveParts(s, 16 + 4 * |blocks|);
  }

  lemma FiveParts(s: Bytes, n: nat)
    requires 16 <= n <= |s|
    ensures s[..4] + s[4..12] + s[12..16] + s[16..n] + s[n..] == s
  {
  }

  lemma FieldBounds(size: Bytes, diffMap: Bytes)
    requires |size| == 8
    ensures Decode(size) < UINT64
    ensures forall i :: 0 <= i < |BlocksOf(diffMap)| ==> BlocksOf(diffMap)[i] < UINT32
  {
    Widths();
    DecodeBound(size);
    forall i | 0 <= i < |diffMap| / 4
      ensures BlockNo(diffMap, i) < UINT32
    {
      DecodeBound(diffMap[4 * i..4 * i + 4]);
    }
  }
}
