/** The writing side: laying a stream of records over pages the way PostgreSQL does, for the parser to read back. */
module WalWriter {
  import opened Bytes
  import opened XLogRecords
  import opened WalPages
  import opened WalLayout
  import RecordWriter

  /** The header fields a writer chooses; the rest follow from the stream. */
  datatype PageInfo = PageInfo(magic: nat, isLong: bool, timeline: nat, address: nat)

  predicate ValidInfo(i: PageInfo) {
    0 < i.magic < 0x1_0000 && i.timeline < UINT32 && i.address < UINT64
  }

  function Flags(i: PageInfo, remaining: nat): nat {
    (if remaining > 0 then 1 else 0) + (if i.isLong then 2 else 0)
  }

  /** Header and padding: 24 bytes, or 40 on the first page of a segment. */
  function PageHeaderBytes(i: PageInfo, remaining: nat): (h: Bytes)
    ensures |h| == if i.isLong then 40 else 24
  {
    Encode(i.magic, 2) + Encode(Flags(i, remaining), 2) + Encode(i.timeline, 4) + Encode(i.address, 8)
    + Encode(remaining, 4) + Zeros(if i.isLong then 20 else 4)
  }

  /** `width` bytes of aligned records, zero padded; a switch leaves the rest empty. */
  function FillRecords(width: nat, rs: seq<Rec>): (b: Bytes)
    requires width % 8 == 0
    ensures |b| == width
    decreases |rs|
  {
    if width == 0 then []
    else if rs == [] then Zeros(width)
    else
      var r := rs[0].bytes;
      if width < |r| then r[..width]
      else r + Zeros(Align(|r|) - |r|) + FillRecords(width - Align(|r|), if Switches(rs[0]) then [] else rs[1..])
  }

  function FillPage(width: nat, s: Stream): (b: Bytes)
    requires width % 8 == 0
    ensures |b| == width
  {
    if width < |s.tail| then s.tail[..width]
    else s.tail + Zeros(Align(|s.tail|) - |s.tail|) + FillRecords(width - Align(|s.tail|), OnPage(s))
  }

  function DataWidth(i: PageInfo): (w: nat)
    ensures w % 8 == 0
  {
    if i.isLong then WAL_PAGE - 40 else WAL_PAGE - 24
  }

  function WritePage(i: PageInfo, s: Stream): (page: Bytes)
    ensures |page| == WAL_PAGE
  {
    PageHeaderBytes(i, |s.tail|) + FillPage(DataWidth(i), s)
  }

  function WritePages(infos: seq<PageInfo>, s: Stream): seq<Bytes>
    decreases |infos|
  {
    if infos == [] then [] else [WritePage(infos[0], s)] + WritePages(infos[1..], Advance(DataWidth(infos[0]), s))
  }

  // ---- what is written is laid ----------------------------------------------

  lemma {:induction false} FilledIsLaid(page: Bytes, q: nat, rs: seq<Rec>)
    requires |page| == WAL_PAGE && q <= |page| && q % 8 == 0 && page[q..] == FillRecords(|page| - q, rs)
    ensures LaidRecords(page, q, rs)
    decreases |rs|
  {
    hide Align, AllZero, Zeros;
    if q < |page| {
      if rs == [] {
        ZerosAreZero(|page| - q);
      } else if |rs[0].bytes| <= |page| - q {
        var r, rest := rs[0].bytes, if Switches(rs[0]) then [] else rs[1..];
        AlignStep(q, |r|);
        var end := q + Align(|r|);
        Sliced(page, q, r, Align(|r|) - |r|, FillRecords(|page| - end, rest));
        FilledIsLaid(page, end, rest);
      }
    }
  }

  lemma ZerosAreZero(n: nat)
    ensures AllZero(Zeros(n))
  {
  }

  lemma Sliced(page: Bytes, q: nat, r: Bytes, gap: nat, rest: Bytes)
    requires q <= |page| && page[q..] == r + Zeros(gap) + rest
    ensures page[q..q + |r|] == r && page[q + |r| + gap..] == rest
  {
    assert page[q..q + |r|] == page[q..][..|r|];
    assert page[q + |r| + gap..] == page[q..][|r| + gap..];
  }

  lemma HeaderReads(i: PageInfo, remaining: nat, page: Bytes)
    requires ValidInfo(i) && remaining < UINT32 && PageHeaderBytes(i, remaining) <= page
    ensures ReadPageHeader(page)
         == Good((PageHeader(i.magic, Flags(i, remaining), i.timeline, i.address, remaining), if i.isLong then 36 else 20))
  {
    var h := PageHeaderBytes(i, remaining);
    assert page[0..2] == h[0..2] == Encode(i.magic, 2);
    assert page[2..4] == h[2..4] == Encode(Flags(i, remaining), 2);
    assert page[4..8] == h[4..8] == Encode(i.timeline, 4);
    assert page[8..16] == h[8..16] == Encode(i.address, 8);
    assert page[16..20] == h[16..20] == Encode(remaining, 4);
    FieldsDecode(i, remaining);
  }

  lemma FieldsDecode(i: PageInfo, remaining: nat)
    requires ValidInfo(i) && remaining < UINT32
    ensures Decode(Encode(i.magic, 2)) == i.magic && Decode(Encode(Flags(i, remaining), 2)) == Flags(i, remaining)
    ensures Decode(Encode(i.timeline, 4)) == i.timeline && Decode(Encode(i.address, 8)) == i.address
    ensures Decode(Encode(remaining, 4)) == remaining
  {
    Widths();
    DecodeEncode(i.magic, 2);
    DecodeEncode(Flags(i, remaining), 2);
    DecodeEncode(i.timeline, 4);
    DecodeEncode(i.address, 8);
    DecodeEncode(remaining, 4);
  }

  lemma BodyIsLaid(page: Bytes, at: nat, s: Stream)
    requires |page| == WAL_PAGE && at % 8 == 0 && at + |s.tail| <= |page|
    requires page[at..] == FillPage(|page| - at, s)
    ensures page[at..at + |s.tail|] == s.tail
    ensures Align(at + |s.tail|) <= |page| && LaidRecords(page, Align(at + |s.tail|), OnPage(s))
  {
    hide LaidRecords, FillRecords;
    AlignStep(at, |s.tail|);
    var end := Align(at + |s.tail|);
    assert page[at..at + |s.tail|] == page[at..][..|s.tail|];
    assert page[end..] == page[at..][Align(|s.tail|)..] == FillRecords(|page| - end, OnPage(s));
    FilledIsLaid(page, end, OnPage(s));
  }

  lemma WrittenIsLaid(i: PageInfo, s: Stream)
    requires ValidInfo(i) && |s.tail| < UINT32
    ensures Laid(WritePage(i, s), s) && Width(WritePage(i, s)) == DataWidth(i)
  {
    hide PageHeaderBytes, ReadPageHeader, LaidRecords, FillRecords;
    var page := WritePage(i, s);
    HeaderReads(i, |s.tail|, page);
    var at := WAL_PAGE - DataWidth(i);
    assert DataStart(page) == at;
    assert page[at..] == FillPage(DataWidth(i), s);
    if |s.tail| <= DataWidth(i) {
      BodyIsLaid(page, at, s);
    }
  }

  /** Record lengths and tails stay below the 32-bit limit of the length field. */
  predicate LengthsFit(s: Stream) {
    |s.tail| < UINT32 && forall k :: 0 <= k < |s.records| ==> |s.records[k].bytes| < UINT32
  }

  lemma AdvanceFits(width: nat, s: Stream)
    requires width % 8 == 0 && LengthsFit(s)
    ensures LengthsFit(Advance(width, s))
  {
  }

  lemma {:induction false} WrittenPagesAreLaid(infos: seq<PageInfo>, s: Stream)
    requires LengthsFit(s) && forall k :: 0 <= k < |infos| ==> ValidInfo(infos[k])
    ensures LaidPages(WritePages(infos, s), s)
    decreases |infos|
  {
    hide WritePage, Laid, Advance, Width, DataWidth;
    if infos != [] {
      var w := DataWidth(infos[0]);
      WrittenIsLaid(infos[0], s);
      AdvanceFits(w, s);
      WrittenPagesAreLaid(infos[1..], Advance(w, s));
      var rest := WritePages(infos[1..], Advance(w, s));
      assert ([WritePage(infos[0], s)] + rest)[1..] == rest;
    }
  }

  /** Writing records over any number of pages and reading them back: the records that end on the pages, in order. */
  lemma ReadBack(infos: seq<PageInfo>, rs: seq<Rec>)
    requires AllRecords(rs) && forall k :: 0 <= k < |infos| ==> ValidInfo(infos[k])
    ensures var pages := WritePages(infos, Stream([], None, rs));
            && LaidPages(pages, Stream([], None, rs))
            && RunPages(FRESH, pages).Good?
            && RecordsOf(RunPages(FRESH, pages).value.outputs) == Values(CompletedBy(FRESH, pages, Stream([], None, rs)))
            && CompletedBy(FRESH, pages, Stream([], None, rs)) <= rs
  {
    hide IsRecord;
    var s := Stream([], None, rs);
    forall k | 0 <= k < |rs|
      ensures |rs[k].bytes| < UINT32
    {
      TotalLengthFits(rs[k]);
    }
    WrittenPagesAreLaid(infos, s);
    var pages := WritePages(infos, s);
    PagesGiveRecords(rs, pages, CompletedBy(FRESH, pages, s));
  }

  // ---- from values to pages and back ----------------------------------------

  predicate AllWritable(values: seq<Record>) {
    forall k :: 0 <= k < |values| ==> RecordWriter.ValidRecord(values[k])
  }

  function Written(values: seq<Record>): seq<Rec>
    requires AllWritable(values)
  {
    seq(|values|, k requires 0 <= k < |values| && RecordWriter.ValidRecord(values[k]) =>
      Rec(RecordWriter.EncodeRecord(values[k]), values[k]))
  }

  lemma WrittenAreRecords(values: seq<Record>)
    requires AllWritable(values)
    ensures AllRecords(Written(values)) && Values(Written(values)) == values
  {
    hide ParseRecord;
    forall k | 0 <= k < |values|
      ensures IsRecord(Written(values)[k])
    {
      RecordWriter.ParseEncodeRecord(values[k]);
    }
  }

  // ---- how many pages are enough --------------------------------------------

  /** The bytes taken up, padding included, by the records up to the first switch. */
  function PieceLoad(rs: seq<Rec>): nat {
    if rs == [] then 0 else Align(|rs[0].bytes|) + if Switches(rs[0]) then 0 else PieceLoad(rs[1..])
  }

  /** The records behind the first switch. */
  function BehindSwitch(rs: seq<Rec>): (later: seq<Rec>)
    ensures |later| <= |rs| && (rs != [] ==> |later| < |rs|)
    ensures forall r :: r in later ==> r in rs
  {
    if rs == [] then [] else if Switches(rs[0]) then rs[1..] else BehindSwitch(rs[1..])
  }

  /**
   * There is room for everything: each page takes its width off the piece being written, and a piece that ends in a switch
   * leaves the rest of its last page unused.
   */
  predicate Room(infos: seq<PageInfo>, load: nat, later: seq<Rec>)
    decreases |infos|
  {
    if load == 0 && later == [] then true
    else if infos == [] then false
    else if load <= DataWidth(infos[0]) then Room(infos[1..], PieceLoad(later), BehindSwitch(later))
    else Room(infos[1..], load - DataWidth(infos[0]), later)
  }

  function Load(s: Stream): nat {
    Align(|s.tail|) + PieceLoad(OnPage(s))
  }

  function Later(s: Stream): seq<Rec> {
    if OnPage(s) == s.records then BehindSwitch(s.records) else s.records
  }

  predicate NoneEmpty(rs: seq<Rec>) {
    forall k :: 0 <= k < |rs| ==> 0 < |rs[k].bytes|
  }

  lemma AlignMinus(n: nat, w: nat)
    requires w % 8 == 0 && w <= n
    ensures Align(n - w) == Align(n) - w
  {
  }

  lemma AlignNothing()
    ensures Align(0) == 0
  {
  }

  /** The stream behind what fits. */
  function BehindFit(c: Fitted, rs: seq<Rec>): Stream
    requires c.count <= |rs| && (c.head > 0 ==> c.count < |rs| && c.head < |rs[c.count].bytes|)
  {
    if c.head == 0 then Stream([], None, rs[c.count..])
    else Stream(rs[c.count].bytes[c.head..], Some(rs[c.count]), rs[c.count + 1..])
  }

  lemma BehindShifts(c: Fitted, rs: seq<Rec>)
    requires rs != [] && c.count < |rs| && (c.head > 0 ==> c.count + 1 < |rs| && c.head < |rs[c.count + 1].bytes|)
    ensures BehindFit(Fitted(c.count + 1, c.head), rs) == BehindFit(c, rs[1..])
  {
    assert rs[1..][c.count..] == rs[c.count + 1..];
    if c.head > 0 {
      assert rs[1..][c.count + 1..] == rs[c.count + 2..];
    }
  }

  /** A width takes itself off the piece, or all of the piece. */
  lemma {:induction false} FitLoad(width: nat, rs: seq<Rec>)
    requires width % 8 == 0 && NoneEmpty(rs)
    ensures var s := BehindFit(Fit(width, rs), rs);
      if PieceLoad(rs) <= width then s == Stream([], None, BehindSwitch(rs))
      else Load(s) == PieceLoad(rs) - width && Later(s) == BehindSwitch(rs)
    decreases |rs|
  {
    hide Align, Load, Later, BehindFit;
    if width == 0 || rs == [] {
      WholePiece(rs);
    } else if width < |rs[0].bytes| {
      AlignMinus(|rs[0].bytes|, width);
      CutFirst(width, rs);
    } else if Switches(rs[0]) {
      SwitchFits(rs);
    } else {
      FitLoad(width - Align(|rs[0].bytes|), rs[1..]);
      BehindShifts(Fit(width - Align(|rs[0].bytes|), rs[1..]), rs);
    }
  }

  lemma WholePiece(rs: seq<Rec>)
    requires NoneEmpty(rs)
    ensures var s := BehindFit(Fitted(0, 0), rs);
      && s == Stream([], None, rs) && Load(s) == PieceLoad(rs) && Later(s) == BehindSwitch(rs)
      && (PieceLoad(rs) == 0 ==> rs == [])
  {
    hide Align;
    AlignNothing();
    assert rs[0..] == rs;
  }

  lemma SwitchFits(rs: seq<Rec>)
    requires rs != [] && Switches(rs[0])
    ensures BehindFit(Fitted(1, 0), rs) == Stream([], None, BehindSwitch(rs))
  {
  }

  lemma CutFirst(width: nat, rs: seq<Rec>)
    requires rs != [] && 0 < width < |rs[0].bytes|
    ensures var s := BehindFit(Fitted(0, width), rs);
      && Load(s) == Align(|rs[0].bytes| - width) + (if Switches(rs[0]) then 0 else PieceLoad(rs[1..]))
      && Later(s) == BehindSwitch(rs)
  {
    hide Align;
    var s := BehindFit(Fitted(0, width), rs);
    assert s.tail != [] && s.cut == Some(rs[0]) && s.records == rs[1..];
  }

  /** A page takes its width off the piece being written, or all of it. */
  lemma AdvanceLoad(width: nat, s: Stream)
    requires width % 8 == 0 && NoneEmpty(s.records)
    ensures if Load(s) <= width then Advance(width, s) == Stream([], None, Later(s))
            else Load(Advance(width, s)) == Load(s) - width && Later(Advance(width, s)) == Later(s)
  {
    hide Fit, Align, PieceLoad, BehindSwitch;
    AlignNothing();
    if width < |s.tail| {
      AlignMinus(|s.tail|, width);
    } else {
      FitLoad(Left(width, s), OnPage(s));
      if OnPage(s) == s.records {
        assert Advance(width, s) == BehindFit(Fit(Left(width, s), OnPage(s)), s.records);
      } else {
        NothingFits(Left(width, s));
        assert s.records[0..] == s.records;
      }
    }
  }

  lemma NothingFits(width: nat)
    requires width % 8 == 0
    ensures Fit(width, []) == Fitted(0, 0) && PieceLoad([]) == 0
  {
  }

  /** Everything is written exactly when there is room. */
  lemma {:induction false} WrittenLoad(infos: seq<PageInfo>, s: Stream)
    requires LengthsFit(s) && NoneEmpty(s.records) && forall k :: 0 <= k < |infos| ==> ValidInfo(infos[k])
    requires s.tail == [] ==> s.cut.None?
    ensures LaidPages(WritePages(infos, s), s)
    ensures Load(After(WritePages(infos, s), s)) == 0 && Later(After(WritePages(infos, s), s)) == []
       <==> Room(infos, Load(s), Later(s))
    decreases |infos|
  {
    hide WritePage, Laid, Advance, Width, DataWidth, Load, Later, PieceLoad, BehindSwitch;
    WrittenPagesAreLaid(infos, s);
    if infos != [] {
      var w := DataWidth(infos[0]);
      var next := Advance(w, s);
      WrittenIsLaid(infos[0], s);
      AdvanceFits(w, s);
      AdvanceLoad(w, s);
      AdvanceKeeps(w, s);
      WrittenLoad(infos[1..], next);
      var rest := WritePages(infos[1..], next);
      assert ([WritePage(infos[0], s)] + rest)[1..] == rest;
      if Load(s) <= w {
        PieceStarts(Later(s));
        if Load(s) == 0 && Later(s) == [] {
          RoomForNothing(infos[1..]);
        }
      }
    }
  }

  lemma RoomForNothing(infos: seq<PageInfo>)
    ensures Room(infos, PieceLoad([]), BehindSwitch([]))
  {
  }

  lemma AdvanceKeeps(w: nat, s: Stream)
    requires w % 8 == 0 && NoneEmpty(s.records)
    requires s.tail == [] ==> s.cut.None?
    ensures NoneEmpty(Advance(w, s).records) && (Advance(w, s).tail == [] ==> Advance(w, s).cut.None?)
  {
    hide Fit;
  }

  lemma PieceStarts(rs: seq<Rec>)
    ensures Load(Stream([], None, rs)) == PieceLoad(rs) && Later(Stream([], None, rs)) == BehindSwitch(rs)
  {
    AlignNothing();
  }

  lemma NothingLeft(s: Stream)
    requires ValidStream(s)
    ensures Load(s) == 0 && Later(s) == [] <==> InProgress(s) + s.records == []
  {
    hide IsRecord, Align;
    AlignNothing();
    if OnPage(s) != [] {
      RecordFacts(s.records[0]);
    }
  }

  /**
   * Records written as bytes, laid over pages and parsed page by page come back in order: those that end on the pages,
   * and all of them exactly when the pages have room for all records, their padding, and what switches leave unused.
   */
  lemma ValuesReadBack(infos: seq<PageInfo>, values: seq<Record>)
    requires AllWritable(values)
    requires forall k :: 0 <= k < |infos| ==> ValidInfo(infos[k])
    ensures var s := Stream([], None, Written(values));
      var pages := WritePages(infos, s);
      var r := RunPages(FRESH, pages);
      && LaidPages(pages, s) && r.Good?
      && |CompletedBy(FRESH, pages, s)| <= |values|
      && RecordsOf(r.value.outputs) == values[..|CompletedBy(FRESH, pages, s)|]
      && (RecordsOf(r.value.outputs) == values
          <==> Room(infos, PieceLoad(Written(values)), BehindSwitch(Written(values))))
  {
    hide IsRecord, RunPages, WritePages, CompletedBy, Written, After, LaidPages, PieceLoad, BehindSwitch, Room, Load, Later;
    WrittenAreRecords(values);
    var s := Stream([], None, Written(values));
    ReadBack(infos, Written(values));
    var pages := WritePages(infos, s);
    var done, rest := CompletedBy(FRESH, pages, s), After(pages, s);
    assert Values(done) == Values(Written(values))[..|done|];
    PagesGiveRecords(Written(values), pages, done);
    assert Written(values) == done + (InProgress(rest) + rest.records);
    assert LengthsFit(s) && NoneEmpty(s.records) by {
      forall k | 0 <= k < |s.records|
        ensures 0 < |s.records[k].bytes| < UINT32
      {
        TotalLengthFits(s.records[k]);
        RecordFacts(s.records[k]);
      }
    }
    WrittenLoad(infos, s);
    PieceStarts(Written(values));
    assert ValidStream(rest) by {
      RunLaid(FRESH, pages, s);
    }
    NothingLeft(rest);
  }

  function TotalWidth(infos: seq<PageInfo>): nat {
    if infos == [] then 0 else DataWidth(infos[0]) + TotalWidth(infos[1..])
  }

  /** Without a switch there is room exactly when the pages are wide enough in all. */
  lemma {:induction false} RoomWithoutSwitch(infos: seq<PageInfo>, load: nat)
    ensures Room(infos, load, []) <==> load <= TotalWidth(infos)
    decreases |infos|
  {
    if infos != [] {
      RoomWithoutSwitch(infos[1..], if load <= DataWidth(infos[0]) then 0 else load - DataWidth(infos[0]));
    }
  }

  function LoadOf(rs: seq<Rec>): nat {
    if rs == [] then 0 else Align(|rs[0].bytes|) + LoadOf(rs[1..])
  }

  lemma {:induction false} PiecesAddUp(rs: seq<Rec>)
    ensures LoadOf(rs) == PieceLoad(rs) + LoadOf(BehindSwitch(rs))
  {
    if rs != [] && !Switches(rs[0]) {
      PiecesAddUp(rs[1..]);
    }
  }

  /** As many pages as there are bytes to write are always enough. */
  lemma {:induction false} PagesSuffice(infos: seq<PageInfo>, load: nat, later: seq<Rec>)
    requires load + LoadOf(later) <= |infos| && (load == 0 ==> later == []) && NoneEmpty(later)
    ensures Room(infos, load, later)
    decreases |infos|
  {
    if load > 0 {
      if load <= DataWidth(infos[0]) {
        PiecesAddUp(later);
        assert forall k :: 0 <= k < |BehindSwitch(later)| ==> BehindSwitch(later)[k] in later;
        PagesSuffice(infos[1..], PieceLoad(later), BehindSwitch(later));
      } else {
        PagesSuffice(infos[1..], load - DataWidth(infos[0]), later);
      }
    }
  }
}
