/** IncrementalPageReader: choosing the changed blocks of a page file and streaming the increment in chunks of any size. */
module IncrementReader {
  import opened Bytes
  import opened PageFiles
  import opened IncrementFormat
  import opened Restore
  import opened RestoreEquivalence

  // ---- page headers ---------------------------------------------------------

  function Field(p: Bytes, at: nat, width: nat): nat
    requires at + width <= |p|
  {
    Decode(p[at..at + width])
  }

  function Lsn(p: Bytes): nat
    requires |p| == PAGE
  {
    Field(p, 0, 4) * UINT32 + Field(p, 4, 4)
  }

  /** PageHeader.isNew: pd_upper is zero. */
  predicate IsNew(p: Bytes)
    requires |p| == PAGE
  {
    Field(p, 14, 2) == 0
  }

  /** PageHeader.isValid: known flags, ordered pointers inside the page, an LSN, page size with layout version 4. */
  predicate IsValid(p: Bytes)
    requires |p| == PAGE
  {
    var lower, upper, special := Field(p, 12, 2), Field(p, 14, 2), Field(p, 16, 2);
    && Field(p, 10, 2) <= 7
    && HEADER_SIZE <= lower <= upper <= special <= PAGE
    && Lsn(p) != 0
    && Field(p, 18, 2) == PAGE + 4
  }

  lemma {:induction false} DecodeZeros(n: nat)
    ensures Decode(Zeros(n)) == 0
  {
    if n > 0 {
      assert Zeros(n)[1..] == Zeros(n - 1);
      DecodeZeros(n - 1);
    }
  }

  /** A valid page is never mistaken for a missing one. */
  lemma ValidPageHasHeader(p: Bytes)
    requires |p| == PAGE && IsValid(p)
    ensures !ZeroHeader(p)
  {
    if ZeroHeader(p) {
      assert p[0..4] == p[..HEADER_SIZE][0..4] == Zeros(4);
      assert p[4..8] == p[..HEADER_SIZE][4..8] == Zeros(4);
      DecodeZeros(4);
    }
  }

  /** A page header as PostgreSQL writes it, little-endian, in the order of its fields. */
  datatype PageHeader = PageHeader(
    lsnHigh: nat, lsnLow: nat, checksum: nat, flags: nat, lower: nat, upper: nat, special: nat, sizeVersion: nat)

  predicate ValidFields(h: PageHeader) {
    && h.lsnHigh < UINT32 && h.lsnLow < UINT32 && h.checksum < 0x1_0000 && h.flags < 0x1_0000 && h.lower < 0x1_0000
    && h.upper < 0x1_0000 && h.special < 0x1_0000 && h.sizeVersion < 0x1_0000
  }

  function HeaderBytes(h: PageHeader): (b: Bytes)
    ensures |b| == 20
  {
    Encode(h.lsnHigh, 4) + Encode(h.lsnLow, 4) + Encode(h.checksum, 2) + Encode(h.flags, 2) + Encode(h.lower, 2)
    + Encode(h.upper, 2) + Encode(h.special, 2) + Encode(h.sizeVersion, 2)
  }

  lemma FieldReads(before: Bytes, x: nat, width: nat, rest: Bytes)
    requires x < Range(width)
    ensures Field(before + Encode(x, width) + rest, |before|, width) == x
  {
    var p := before + Encode(x, width) + rest;
    assert p[|before|..|before| + width] == Encode(x, width);
    DecodeEncode(x, width);
  }

  lemma HeaderFieldsRead(h: PageHeader, rest: Bytes)
    requires ValidFields(h) && |rest| == PAGE - 20
    ensures var p := HeaderBytes(h) + rest;
      && Field(p, 0, 4) == h.lsnHigh && Field(p, 4, 4) == h.lsnLow && Field(p, 10, 2) == h.flags
      && Field(p, 12, 2) == h.lower && Field(p, 14, 2) == h.upper && Field(p, 16, 2) == h.special
      && Field(p, 18, 2) == h.sizeVersion
  {
    hide Field, Encode;
    Widths();
    var p := HeaderBytes(h) + rest;
    var a, b, c, d := Encode(h.lsnHigh, 4), Encode(h.lsnLow, 4), Encode(h.checksum, 2), Encode(h.flags, 2);
    var e, f, g, i := Encode(h.lower, 2), Encode(h.upper, 2), Encode(h.special, 2), Encode(h.sizeVersion, 2);
    assert p == [] + a + (b + c + d + e + f + g + i + rest);
    FieldReads([], h.lsnHigh, 4, b + c + d + e + f + g + i + rest);
    assert p == a + b + (c + d + e + f + g + i + rest);
    FieldReads(a, h.lsnLow, 4, c + d + e + f + g + i + rest);
    assert p == (a + b + c) + d + (e + f + g + i + rest);
    FieldReads(a + b + c, h.flags, 2, e + f + g + i + rest);
    assert p == (a + b + c + d) + e + (f + g + i + rest);
    FieldReads(a + b + c + d, h.lower, 2, f + g + i + rest);
    assert p == (a + b + c + d + e) + f + (g + i + rest);
    FieldReads(a + b + c + d + e, h.upper, 2, g + i + rest);
    assert p == (a + b + c + d + e + f) + g + (i + rest);
    FieldReads(a + b + c + d + e + f, h.special, 2, i + rest);
    assert p == (a + b + c + d + e + f + g) + i + rest;
    FieldReads(a + b + c + d + e + f + g, h.sizeVersion, 2, rest);
  }

  /** What the reader makes of a page with a given header: its LSN, whether it is new, and whether it is valid. */
  lemma HeaderMeans(h: PageHeader, rest: Bytes)
    requires ValidFields(h) && |rest| == PAGE - 20
    ensures var p := HeaderBytes(h) + rest;
      && Lsn(p) == h.lsnHigh * 0x1_0000_0000 + h.lsnLow
      && (IsNew(p) <==> h.upper == 0)
      && (IsValid(p) <==> && h.flags < 8 && 24 <= h.lower <= h.upper <= h.special <= 8192
                          && (h.lsnHigh != 0 || h.lsnLow != 0) && h.sizeVersion == 8196)
      && (Readable(p) <==> IsValid(p) || h.upper == 0)
  {
    hide Field, HeaderBytes;
    HeaderFieldsRead(h, rest);
  }

  // ---- block selection ------------------------------------------------------

  /** SelectNewValidPage: does the full scan put this page into the increment? */
  predicate Selected(p: Bytes, lsn: nat)
    requires |p| == PAGE
  {
    if IsValid(p) then lsn <= Lsn(p) else IsNew(p)
  }

  predicate Readable(p: Bytes)
    requires |p| == PAGE
  {
    IsValid(p) || IsNew(p)
  }

  predicate Scannable(file: Bytes, n: nat)
    requires n <= PageCount(file)
  {
    forall i :: 0 <= i < n ==> Readable(PageAt(file, i))
  }

  /** The blocks a full scan selects among the first `n`. */
  function Scan(file: Bytes, lsn: nat, n: nat): seq<nat>
    requires n <= PageCount(file)
  {
    if n == 0 then []
    else Scan(file, lsn, n - 1) + if Selected(PageAt(file, n - 1), lsn) then [n - 1] else []
  }

  /** "whole block fits into file", with the 32-bit addition of the source. */
  predicate FitsWrapped(fileSize: nat, b: nat) {
    ((b + 1) % UINT32) * PAGE <= fileSize
  }

  predicate Fits(fileSize: nat, b: nat) {
    (b + 1) * PAGE <= fileSize
  }

  /** The bitmap loop: stop at the first block that does not fit. */
  function TakeFitting(bits: seq<nat>, fileSize: nat): seq<nat> {
    if bits == [] || !FitsWrapped(fileSize, bits[0]) then [] else [bits[0]] + TakeFitting(bits[1..], fileSize)
  }

  function FilterFitting(bits: seq<nat>, fileSize: nat): seq<nat> {
    if bits == [] then []
    else (if Fits(fileSize, bits[0]) then [bits[0]] else []) + FilterFitting(bits[1..], fileSize)
  }

  predicate Ascending(bits: seq<nat>) {
    forall j, k :: 0 <= j < k < |bits| ==> bits[j] < bits[k]
  }

  /** The values a bitmap iterator yields. */
  predicate IsBitmap(bits: seq<nat>) {
    Ascending(bits) && forall k :: 0 <= k < |bits| ==> bits[k] < UINT32
  }

  /** The only bitmap for which the loop keeps a block outside the file: block 2^32 - 1 last, everything before it fitting. */
  predicate LastBlockWraps(bits: seq<nat>, fileSize: nat) {
    && bits != []
    && bits[|bits| - 1] == UINT32 - 1
    && !Fits(fileSize, UINT32 - 1)
    && forall k :: 0 <= k < |bits| - 1 ==> Fits(fileSize, bits[k])
  }

  lemma {:induction false} NothingFits(bits: seq<nat>, fileSize: nat)
    requires Ascending(bits) && bits != [] && !Fits(fileSize, bits[0])
    ensures FilterFitting(bits, fileSize) == []
  {
    if |bits| > 1 {
      NothingFits(bits[1..], fileSize);
    }
  }

  lemma WrapsLater(bits: seq<nat>, fileSize: nat)
    requires |bits| > 1 && Fits(fileSize, bits[0])
    ensures LastBlockWraps(bits, fileSize) <==> LastBlockWraps(bits[1..], fileSize)
  {
    assert forall k :: 1 <= k < |bits| ==> bits[k] == bits[1..][k - 1];
  }

  lemma OneBit(b: nat, fileSize: nat)
    requires b < UINT32
    ensures TakeFitting([b], fileSize) == FilterFitting([b], fileSize) <==> !LastBlockWraps([b], fileSize)
  {
    assert [b][1..] == [];
    assert TakeFitting([b], fileSize) == if FitsWrapped(fileSize, b) then [b] else [];
    assert FilterFitting([b], fileSize) == if Fits(fileSize, b) then [b] else [];
  }

  /** Breaking out of the bitmap loop equals filtering by "fits in the file", except in the wrapping case. */
  lemma {:induction false} BreakEqualsFilter(bits: seq<nat>, fileSize: nat)
    requires IsBitmap(bits)
    ensures TakeFitting(bits, fileSize) == FilterFitting(bits, fileSize) <==> !LastBlockWraps(bits, fileSize)
  {
    if |bits| == 1 {
      OneBit(bits[0], fileSize);
      assert bits == [bits[0]];
    } else if |bits| > 1 {
      assert bits[0] < bits[1] < UINT32;
      if Fits(fileSize, bits[0]) {
        BreakEqualsFilter(bits[1..], fileSize);
        WrapsLater(bits, fileSize);
        assert TakeFitting(bits, fileSize)[1..] == TakeFitting(bits[1..], fileSize);
        assert FilterFitting(bits, fileSize)[1..] == FilterFitting(bits[1..], fileSize);
      } else {
        NothingFits(bits, fileSize);
      }
    }
  }

  lemma {:induction false} ScanAscending(file: Bytes, lsn: nat, n: nat)
    requires n <= PageCount(file)
    ensures Ascending(Scan(file, lsn, n))
    ensures forall b :: b in Scan(file, lsn, n) <==> 0 <= b < n && Selected(PageAt(file, b), lsn)
  {
    hide Selected, PageAt;
    if n > 0 {
      ScanAscending(file, lsn, n - 1);
      var s := Scan(file, lsn, n - 1);
      assert forall k :: 0 <= k < |s| ==> s[k] in s;
    }
  }

  /** A scan that gets through selects exactly the pages that are new or have an LSN not before the start. */
  lemma ScanMembers(file: Bytes, lsn: nat, b: nat)
    requires Scannable(file, PageCount(file))
    ensures b in Scan(file, lsn, PageCount(file)) <==>
      b < PageCount(file) && (IsNew(PageAt(file, b)) || lsn <= Lsn(PageAt(file, b)))
  {
    hide PageAt, Scan, Lsn, Field;
    ScanAscending(file, lsn, PageCount(file));
    if b < PageCount(file) {
      assert Readable(PageAt(file, b));
    }
  }

  lemma {:induction false} FilterMembers(bits: seq<nat>, fileSize: nat)
    ensures forall b :: b in FilterFitting(bits, fileSize) <==> b in bits && Fits(fileSize, b)
  {
    if bits != [] {
      FilterMembers(bits[1..], fileSize);
      assert bits == [bits[0]] + bits[1..];
    }
  }

  lemma {:induction false} FilterAscending(bits: seq<nat>, fileSize: nat)
    requires Ascending(bits)
    ensures Ascending(FilterFitting(bits, fileSize))
  {
    if bits != [] {
      var rest := bits[1..];
      FilterAscending(rest, fileSize);
      FilterMembers(rest, fileSize);
      Prepend(bits[0], FilterFitting(rest, fileSize), rest);
    }
  }

  lemma Prepend(b: nat, chosen: seq<nat>, rest: seq<nat>)
    requires Ascending(chosen) && (forall c :: c in chosen ==> c in rest) && forall k :: 0 <= k < |rest| ==> b < rest[k]
    ensures Ascending([b] + chosen)
  {
    forall k | 0 <= k < |chosen|
      ensures b < chosen[k]
    {
      assert chosen[k] in rest;
    }
  }

  // ---- the reader -----------------------------------------------------------

  /** The pages of `blocks`, up to the first block the file does not hold. */
  function PagesOf(file: Bytes, blocks: seq<nat>): Bytes {
    if blocks == [] || PageCount(file) <= blocks[0] then []
    else PageAt(file, blocks[0]) + PagesOf(file, blocks[1..])
  }

  predicate AllHeld(file: Bytes, blocks: seq<nat>) {
    forall k :: 0 <= k < |blocks| ==> blocks[k] < PageCount(file)
  }

  datatype Status = More | Done | Failed

  class IncrementalPageReader {
    const file: Bytes
    const fileSize: nat
    const lsn: nat
    var next: Bytes
    var blocks: seq<nat>

    constructor (file: Bytes, fileSize: nat, lsn: nat)
      ensures this.file == file && this.fileSize == fileSize && this.lsn == lsn
      ensures next == [] && blocks == []
    {
      this.file, this.fileSize, this.lsn := file, fileSize, lsn;
      next, blocks := [], [];
    }

    /** What is still to be read. */
    ghost function Remaining(): Bytes
      reads this
    {
      next + PagesOf(file, blocks)
    }

    /** Returns the announced size of the increment; fails on a page that is neither valid nor new. */
    method Initialize(deltaBitmap: Option<seq<nat>>) returns (r: Result<nat>)
      requires deltaBitmap.Some? ==> IsBitmap(deltaBitmap.value)
      modifies this
      ensures r.Ok? <==> deltaBitmap.Some? || Scannable(file, PageCount(file))
      ensures r.Ok? ==> && blocks == (match deltaBitmap
                                      case Some(bits) => TakeFitting(bits, fileSize)
                                      case None => Scan(file, lsn, PageCount(file)))
                        && next == EncodeHeader(fileSize, blocks)
                        && r.value == |EncodeHeader(fileSize, blocks)| + |blocks| * PAGE
                        && (r.value == |Remaining()| <==> AllHeld(file, blocks))
    {
      hide PagesOf, TakeFitting, Scan, PageAt;
      var headerBuffer := SIGNATURE + Encode(fileSize, 8);
      blocks := [];
      match deltaBitmap {
        case None =>
          var scanned := FullScanInitialize();
          if scanned.Err? {
            return Err(scanned.error);
          }
        case Some(bits) =>
          DeltaBitmapInitialize(bits);
      }
      headerBuffer := headerBuffer + Encode(|blocks|, 4) + DiffMap(blocks);
      next := headerBuffer;
      PagesOfComplete(file, blocks);
      return Ok(|headerBuffer| + |blocks| * PAGE);
    }

    method DeltaBitmapInitialize(bits: seq<nat>)
      requires IsBitmap(bits)
      modifies this`blocks
      ensures blocks == old(blocks) + TakeFitting(bits, fileSize)
    {
      var i := 0;
      while i < |bits|
        invariant i <= |bits|
        invariant blocks + TakeFitting(bits[i..], fileSize) == old(blocks) + TakeFitting(bits, fileSize)
      {
        var blockNo := bits[i];
        assert bits[i..][1..] == bits[i + 1..];
        if fileSize < ((blockNo + 1) % UINT32) * PAGE {
          break;
        }
        blocks := blocks + [blockNo];
        i := i + 1;
      }
    }

    method FullScanInitialize() returns (r: Result<()>)
      modifies this`blocks
      ensures r.Ok? <==> Scannable(file, PageCount(file))
      ensures r.Ok? ==> blocks == old(blocks) + Scan(file, lsn, PageCount(file))
    {
      hide IsValid, IsNew, Selected;
      var current := 0;
      while (current + 1) * PAGE <= |file|
        invariant current <= PageCount(file) && Scannable(file, current)
        invariant blocks == old(blocks) + Scan(file, lsn, current)
        decreases |file| - current * PAGE
      {
        var valid := SelectNewValidPage(PageAt(file, current), current);
        if !valid {
          return Err(InvalidBlock);
        }
        current := current + 1;
      }
      return Ok(());
    }

    method SelectNewValidPage(page: Bytes, blockNo: nat) returns (valid: bool)
      requires |page| == PAGE
      modifies this`blocks
      ensures valid <==> Readable(page)
      ensures blocks == old(blocks) + if Selected(page, lsn) then [blockNo] else []
    {
      valid := IsValid(page);
      var isNew := false;
      if !valid {
        if IsNew(page) {
          isNew, valid := true, true;
        } else {
          return false;
        }
      }
      if isNew || lsn <= Lsn(page) {
        blocks := blocks + [blockNo];
      }
    }

    /**
     * Fills the buffer from what remains. A block at or past the end of the file reads as the end of the stream, as it
     * does for the source's caller; only a block that the end cuts is an error.
     */
    method Read(p: array<Byte>) returns (n: nat, status: Status)
      modifies this, p
      ensures n <= p.Length && n <= |old(Remaining())|
      ensures p[..n] == old(Remaining())[..n]
      ensures status.More? ==> n == p.Length && Remaining() == old(Remaining())[n..]
      ensures status.More? ==> AllHeld(file, old(blocks)) ==> AllHeld(file, blocks)
      ensures !status.More? ==> n == |old(Remaining())| < p.Length
      ensures status.Done? && AllHeld(file, old(blocks)) ==> Remaining() == []
      ensures AllHeld(file, old(blocks)) || WholePages(file) ==> !status.Failed?
    {
      hide PagesOf, PageAt;
      n := 0;
      ghost var all := Remaining();
      while true
        invariant n <= p.Length && n <= |all|
        invariant Remaining() == all[n..]
        invariant p[..n] == all[..n]
        invariant AllHeld(file, old(blocks)) ==> AllHeld(file, blocks)
        decreases |blocks|
      {
        var copied := CopyNext(p, n);
        assert all[..n + copied] == all[..n] + all[n..][..copied];
        assert all[n..][copied..] == all[n + copied..];
        n := n + copied;
        if n == p.Length {
          return n, More;
        }
        status := DrainMoreData();
        if !status.More? {
          return;
        }
      }
    }

    /** The page of the next block. */
    method DrainMoreData() returns (status: Status)
      requires next == []
      modifies this
      ensures status.More? ==> Remaining() == old(Remaining()) && |blocks| < |old(blocks)|
      ensures !status.More? ==> old(Remaining()) == []
      ensures AllHeld(file, old(blocks)) ==> AllHeld(file, blocks) && (status.Done? ==> Remaining() == [])
      ensures AllHeld(file, old(blocks)) || WholePages(file) ==> !status.Failed?
    {
      hide PagesOf, PageAt;
      StartsWith(file, blocks);
      if blocks == [] {
        return Done;
      }
      var blockNo := blocks[0];
      blocks := blocks[1..];
      if PageCount(file) <= blockNo {
        return if |file| <= blockNo * PAGE then Done else Failed;
      }
      next := PageAt(file, blockNo);
      return More;
    }

    /** Copies what fits of the bytes at hand. */
    method CopyNext(p: array<Byte>, at: nat) returns (copied: nat)
      requires at <= p.Length
      modifies this`next, p
      ensures at + copied <= p.Length && copied <= |old(Remaining())|
      ensures p[..at + copied] == old(p[..at]) + old(Remaining())[..copied]
      ensures Remaining() == old(Remaining())[copied..]
      ensures at + copied == p.Length || next == []
    {
      hide PagesOf;
      copied := if |next| < p.Length - at then |next| else p.Length - at;
      CopyInto(p, at, next[..copied]);
      next := next[copied..];
    }
  }

  lemma StartsWith(file: Bytes, blocks: seq<nat>)
    ensures blocks == [] || PageCount(file) <= blocks[0] ==> PagesOf(file, blocks) == []
    ensures blocks != [] && blocks[0] < PageCount(file) ==>
      PagesOf(file, blocks) == PageAt(file, blocks[0]) + PagesOf(file, blocks[1..])
  {
  }

  method CopyInto(p: array<Byte>, at: nat, data: Bytes)
    requires at + |data| <= p.Length
    modifies p
    ensures p[..at + |data|] == old(p[..at]) + data
  {
    for i := 0 to |data|
      invariant p[..at] == old(p[..at]) && p[at..at + i] == data[..i]
    {
      p[at + i] := data[i];
    }
    assert p[..at + |data|] == p[..at] + p[at..at + |data|];
  }

  /** A consumer reading with buffers of the given sizes until the reader ends: the chunks join to what remained. */
  method Drain(reader: IncrementalPageReader, sizes: seq<nat>) returns (out: Bytes, status: Status)
    modifies reader
    ensures |out| <= |old(reader.Remaining())| && out == old(reader.Remaining())[..|out|]
    ensures !status.More? ==> out == old(reader.Remaining())
    ensures status.More? ==> |out| == Sum(sizes)
    ensures WholePages(reader.file) ==> !status.Failed?
  {
    hide PagesOf;
    out, status := [], More;
    ghost var all := reader.Remaining();
    for i := 0 to |sizes|
      invariant status.More?
      invariant |out| == Sum(sizes[..i]) && |out| <= |all|
      invariant out == all[..|out|] && reader.Remaining() == all[|out|..]
    {
      var buffer := new Byte[sizes[i]];
      var n;
      n, status := reader.Read(buffer);
      assert all[..|out| + n] == all[..|out|] + all[|out|..][..n];
      out := out + buffer[..n];
      if !status.More? {
        return;
      }
      assert sizes[..i + 1][..i] == sizes[..i];
    }
    assert sizes[..|sizes|] == sizes;
  }

  function Sum(ns: seq<nat>): nat {
    if ns == [] then 0 else Sum(ns[..|ns| - 1]) + ns[|ns| - 1]
  }

  // ---- round trip -----------------------------------------------------------

  lemma {:induction false} PagesOfAt(file: Bytes, blocks: seq<nat>, k: nat)
    requires AllHeld(file, blocks) && k < |blocks|
    ensures |PagesOf(file, blocks)| == |blocks| * PAGE
    ensures PageAt(PagesOf(file, blocks), k) == PageAt(file, blocks[k])
  {
    var rest := PagesOf(file, blocks[1..]);
    PagesOfSize(file, blocks[1..]);
    if k > 0 {
      PagesOfAt(file, blocks[1..], k - 1);
      assert PageAt(PagesOf(file, blocks), k) == PageAt(rest, k - 1);
    }
  }

  lemma {:induction false} PagesOfSize(file: Bytes, blocks: seq<nat>)
    requires AllHeld(file, blocks)
    ensures |PagesOf(file, blocks)| == |blocks| * PAGE
  {
    if blocks != [] {
      PagesOfSize(file, blocks[1..]);
    }
  }

  /** What an initialized reader streams, as a parsed increment. */
  function IncrementOf(file: Bytes, blocks: seq<nat>): Increment {
    Increment(|file|, blocks, PagesOf(file, blocks))
  }

  /** The pages streamed are as many as selected exactly when the file holds all selected blocks. */
  lemma {:induction false} PagesOfComplete(file: Bytes, blocks: seq<nat>)
    ensures |PagesOf(file, blocks)| <= |blocks| * PAGE
    ensures |PagesOf(file, blocks)| == |blocks| * PAGE <==> AllHeld(file, blocks)
  {
    if blocks != [] {
      PagesOfComplete(file, blocks[1..]);
      assert blocks == [blocks[0]] + blocks[1..];
    }
  }

  /** The bytes streamed parse back to the increment; they are as many as announced exactly when the file holds all blocks. */
  lemma StreamParses(file: Bytes, blocks: seq<nat>)
    requires |file| < UINT64 && 4 * |blocks| < UINT32
    requires forall k :: 0 <= k < |blocks| ==> blocks[k] < UINT32
    ensures var s := EncodeHeader(|file|, blocks) + PagesOf(file, blocks);
            && (|s| == |EncodeHeader(|file|, blocks)| + |blocks| * PAGE <==> AllHeld(file, blocks))
            && ParseIncrement(s) == Ok(IncrementOf(file, blocks))
            && (BodyMatches(IncrementOf(file, blocks)) <==> AllHeld(file, blocks))
  {
    hide PagesOf, EncodeHeader;
    PagesOfComplete(file, blocks);
    ParseEncode(IncrementOf(file, blocks));
  }

  lemma IncrementWellFormed(file: Bytes, blocks: seq<nat>)
    requires WholePages(file) && Ascending(blocks) && AllHeld(file, blocks)
    ensures WellFormed(IncrementOf(file, blocks))
  {
    PagesOfSize(file, blocks);
  }

  /** The page that applying an increment starts from: the old one, or zeros where the old file had none. */
  function OldPage(oldFile: Bytes, i: nat): Bytes {
    if i < PageCount(oldFile) then PageAt(oldFile, i) else Zeros(PAGE)
  }

  /** Pages outside `blocks` are as in the old file, or zeros where it had none. */
  predicate UnchangedOutside(oldFile: Bytes, newFile: Bytes, blocks: seq<nat>) {
    forall i :: 0 <= i < PageCount(newFile) && i !in blocks ==>
      PageAt(newFile, i) == OldPage(oldFile, i)
  }

  /** Applying the increment of a file to its previous version gives the file exactly when no unselected page differs. */
  lemma IncrementRoundTrip(oldFile: Bytes, newFile: Bytes, blocks: seq<nat>)
    requires WholePages(oldFile) && WholePages(newFile)
    requires Ascending(blocks) && AllHeld(newFile, blocks)
    ensures WellFormed(IncrementOf(newFile, blocks))
    ensures Applied(oldFile, IncrementOf(newFile, blocks)) == newFile
       <==> UnchangedOutside(oldFile, newFile, blocks)
  {
    var inc := IncrementOf(newFile, blocks);
    IncrementWellFormed(newFile, blocks);
    var r := Applied(oldFile, inc);
    OverwrittenSize(Resize(oldFile, inc.fileSize), inc);
    forall i | 0 <= i < PageCount(newFile)
      ensures i in blocks ==> PageAt(r, i) == PageAt(newFile, i)
      ensures i !in blocks ==> PageAt(r, i) == if i < PageCount(oldFile) then PageAt(oldFile, i) else Zeros(PAGE)
    {
      AppliedBlock(oldFile, inc, i);
      if i in blocks {
        var k :| 0 <= k < |blocks| && blocks[k] == i;
        PageForAt(inc, i, |blocks|, k);
        PagesOfAt(newFile, blocks, k);
      } else {
        PageForNone(inc, i, |blocks|);
      }
    }
    if UnchangedOutside(oldFile, newFile, blocks) {
      SamePages(r, newFile);
    }
  }

  /** Every page that changed is new or has an LSN not before the start of the increment. */
  predicate ChangesAreRecent(oldFile: Bytes, newFile: Bytes, lsn: nat) {
    forall i :: 0 <= i < PageCount(newFile) && PageAt(newFile, i) != OldPage(oldFile, i) ==>
      IsNew(PageAt(newFile, i)) || lsn <= Lsn(PageAt(newFile, i))
  }

  /** The scan's increment turns the old file into the new one exactly when every change is recent. */
  lemma FullScanRoundTrip(oldFile: Bytes, newFile: Bytes, lsn: nat)
    requires WholePages(oldFile) && WholePages(newFile) && Scannable(newFile, PageCount(newFile))
    ensures var blocks := Scan(newFile, lsn, PageCount(newFile));
      && WellFormed(IncrementOf(newFile, blocks))
      && (Applied(oldFile, IncrementOf(newFile, blocks)) == newFile <==> ChangesAreRecent(oldFile, newFile, lsn))
  {
    hide PageAt, Scan, Lsn, IsNew, Applied, PagesOf;
    var blocks := Scan(newFile, lsn, PageCount(newFile));
    ScanAscending(newFile, lsn, PageCount(newFile));
    assert forall k :: 0 <= k < |blocks| ==> blocks[k] in blocks;
    IncrementRoundTrip(oldFile, newFile, blocks);
    RecentIsOutside(oldFile, newFile, lsn);
  }

  lemma RecentIsOutside(oldFile: Bytes, newFile: Bytes, lsn: nat)
    requires Scannable(newFile, PageCount(newFile))
    ensures UnchangedOutside(oldFile, newFile, Scan(newFile, lsn, PageCount(newFile))) <==>
      ChangesAreRecent(oldFile, newFile, lsn)
  {
    hide PageAt, Scan, Lsn, IsNew;
    forall i | 0 <= i < PageCount(newFile)
      ensures i in Scan(newFile, lsn, PageCount(newFile)) <==>
        IsNew(PageAt(newFile, i)) || lsn <= Lsn(PageAt(newFile, i))
    {
      ScanMembers(newFile, lsn, i);
    }
  }

  /** Without new pages a full scan's increment has a header on every page, as the reverse restore needs. */
  lemma FullScanHeaders(file: Bytes, lsn: nat)
    requires WholePages(file)
    requires forall i :: 0 <= i < PageCount(file) ==> IsValid(PageAt(file, i))
    ensures WellFormed(IncrementOf(file, Scan(file, lsn, PageCount(file))))
    ensures HeaderPresent(IncrementOf(file, Scan(file, lsn, PageCount(file))))
  {
    var blocks := Scan(file, lsn, PageCount(file));
    ScanAscending(file, lsn, PageCount(file));
    assert forall k :: 0 <= k < |blocks| ==> blocks[k] in blocks;
    IncrementWellFormed(file, blocks);
    forall k | 0 <= k < |blocks|
      ensures !ZeroHeader(PageAt(PagesOf(file, blocks), k))
    {
      PagesOfAt(file, blocks, k);
      ValidPageHasHeader(PageAt(file, blocks[k]));
    }
  }

  // ---- the bitmap strategy --------------------------------------------------

  lemma {:induction false} TakesAll(bits: seq<nat>, fileSize: nat)
    requires forall k :: 0 <= k < |bits| ==> FitsWrapped(fileSize, bits[k])
    ensures TakeFitting(bits, fileSize) == bits
  {
    hide FitsWrapped;
    if bits != [] {
      TakesAll(bits[1..], fileSize);
    }
  }

  /** In the wrapping case the loop takes every block, the one outside the file included. */
  lemma WrapsTakesAll(bits: seq<nat>, fileSize: nat)
    requires IsBitmap(bits) && LastBlockWraps(bits, fileSize)
    ensures TakeFitting(bits, fileSize) == bits
  {
    hide TakeFitting;
    var last := |bits| - 1;
    forall k | 0 <= k < |bits|
      ensures FitsWrapped(fileSize, bits[k])
    {
      assert k < last ==> bits[k] < bits[last];
    }
    TakesAll(bits, fileSize);
  }

  /** The file holds every block a bitmap selects exactly when the 32-bit successor of the last one does not wrap. */
  lemma BitmapHeld(bits: seq<nat>, file: Bytes)
    requires IsBitmap(bits)
    ensures AllHeld(file, TakeFitting(bits, |file|)) <==> !LastBlockWraps(bits, |file|)
    ensures !LastBlockWraps(bits, |file|) ==>
      forall b :: b in TakeFitting(bits, |file|) <==> b in bits && b < PageCount(file)
  {
    BreakEqualsFilter(bits, |file|);
    var taken := TakeFitting(bits, |file|);
    if LastBlockWraps(bits, |file|) {
      WrapsTakesAll(bits, |file|);
      assert taken[|taken| - 1] == UINT32 - 1;
    } else {
      FilterMembers(bits, |file|);
      assert forall k :: 0 <= k < |taken| ==> taken[k] in taken;
    }
  }

  /** What a bitmap selects is strictly increasing. */
  lemma {:induction false} TakenAscending(bits: seq<nat>, fileSize: nat)
    requires IsBitmap(bits)
    ensures IsBitmap(TakeFitting(bits, fileSize)) && TakeFitting(bits, fileSize) <= bits
  {
    if bits != [] && FitsWrapped(fileSize, bits[0]) {
      TakenAscending(bits[1..], fileSize);
      assert bits == [bits[0]] + bits[1..];
    }
  }

  /** A bitmap's increment turns the old file into the new one exactly when every page outside the bitmap is unchanged. */
  lemma BitmapRoundTrip(oldFile: Bytes, newFile: Bytes, bits: seq<nat>)
    requires WholePages(oldFile) && WholePages(newFile) && IsBitmap(bits) && !LastBlockWraps(bits, |newFile|)
    ensures var blocks := TakeFitting(bits, |newFile|);
      && WellFormed(IncrementOf(newFile, blocks))
      && (Applied(oldFile, IncrementOf(newFile, blocks)) == newFile <==> UnchangedOutside(oldFile, newFile, bits))
  {
    hide PageAt, Applied, PagesOf;
    var blocks := TakeFitting(bits, |newFile|);
    BitmapHeld(bits, newFile);
    TakenAscending(bits, |newFile|);
    IncrementRoundTrip(oldFile, newFile, blocks);
    assert UnchangedOutside(oldFile, newFile, blocks) <==> UnchangedOutside(oldFile, newFile, bits);
  }

  /** The wrap at a concrete input: a bitmap with only the last block number, over an empty file. */
  lemma LastBlockIsTaken(bits: seq<nat>, file: Bytes)
    requires bits == [UINT32 - 1] && file == []
    ensures IsBitmap(bits) && TakeFitting(bits, |file|) == bits && FilterFitting(bits, |file|) == []
    ensures |PagesOf(file, bits)| < |bits| * PAGE
  {
    assert bits[1..] == [];
  }

  // ---- from backup to restore -----------------------------------------------

  /** The blocks a reader selects: those of the bitmap, or those of a full scan. */
  function Chosen(file: Bytes, lsn: nat, bitmap: Option<seq<nat>>): seq<nat> {
    match bitmap
    case Some(bits) => TakeFitting(bits, |file|)
    case None => Scan(file, lsn, PageCount(file))
  }

  /** The stream of a chosen selection is complete in all cases but the wrapping bitmap. */
  lemma ChosenHeld(file: Bytes, lsn: nat, bitmap: Option<seq<nat>>)
    requires (bitmap.Some? ==> IsBitmap(bitmap.value)) && PageCount(file) < UINT32
    ensures Ascending(Chosen(file, lsn, bitmap))
    ensures forall k :: 0 <= k < |Chosen(file, lsn, bitmap)| ==> Chosen(file, lsn, bitmap)[k] < UINT32
    ensures AllHeld(file, Chosen(file, lsn, bitmap)) <==> bitmap.None? || !LastBlockWraps(bitmap.value, |file|)
  {
    hide Selected, PageAt;
    var blocks := Chosen(file, lsn, bitmap);
    match bitmap
    case Some(bits) =>
      BitmapHeld(bits, file);
      TakenAscending(bits, |file|);
    case None =>
      ScanAscending(file, lsn, PageCount(file));
      assert forall k :: 0 <= k < |blocks| ==> blocks[k] in blocks;
  }

  /**
   * The whole way round, with either strategy: choose the blocks of the new file, stream the increment through buffers
   * of any sizes (enough of them to reach the end), and apply what arrived to the old file. It fails exactly on an
   * unreadable page of a scan or on the wrapping bitmap, and gives the new file exactly when what was not chosen is
   * unchanged.
   */
  method BackupThenApply(oldFile: Bytes, newFile: Bytes, lsn: nat, bitmap: Option<seq<nat>>, sizes: seq<nat>)
    returns (r: Result<Bytes>)
    requires WholePages(oldFile) && WholePages(newFile) && PageCount(newFile) < UINT32 && |newFile| < UINT64 / 2
    requires bitmap.Some? ==> IsBitmap(bitmap.value)
    requires 4 * |Chosen(newFile, lsn, bitmap)| < UINT32
    requires 16 + |Chosen(newFile, lsn, bitmap)| * (PAGE + 4) < Sum(sizes)
    ensures bitmap.None? ==> (r.Ok? <==> Scannable(newFile, PageCount(newFile)))
    ensures bitmap.Some? ==> (r.Ok? <==> !LastBlockWraps(bitmap.value, |newFile|))
    ensures bitmap.None? && r.Ok? ==> (r.value == newFile <==> ChangesAreRecent(oldFile, newFile, lsn))
    ensures bitmap.Some? && r.Ok? ==> (r.value == newFile <==> UnchangedOutside(oldFile, newFile, bitmap.value))
  {
    hide Selected, Readable, ParseIncrement, EncodeHeader, Applied, WellFormed, Scan, TakeFitting, PagesOf, LastBlockWraps,
         UnchangedOutside, ChangesAreRecent;
    var reader := new IncrementalPageReader(newFile, |newFile|, lsn);
    var announced := reader.Initialize(bitmap);
    if announced.Err? {
      return Err(announced.error);
    }
    ghost var blocks := Chosen(newFile, lsn, bitmap);
    ChosenHeld(newFile, lsn, bitmap);
    StreamParses(newFile, blocks);
    PagesOfComplete(newFile, blocks);
    var increment, status := Drain(reader, sizes);
    if AllHeld(newFile, blocks) {
      IncrementRoundTrip(oldFile, newFile, blocks);
      if bitmap.Some? {
        BitmapRoundTrip(oldFile, newFile, bitmap.value);
      } else {
        FullScanRoundTrip(oldFile, newFile, lsn);
      }
    }
    var file := new LocalFile(true, oldFile);
    var applied := ApplyFileIncrement(file, increment, false);
    r := if applied.Ok? then Ok(file.data) else Err(applied.error);
  }
}
