/** Records laid over pages come back whole and in order, wherever page boundaries cut them. */
module WalLayout {
  import opened Bytes
  import opened XLogRecords
  import opened WalPages

  /** A record as written, with the value it parses to. */
  datatype Rec = Rec(bytes: Bytes, value: Record)

  /** The bytes parse to the value, and the header announces their length. */
  predicate IsRecord(r: Rec) {
    ParseRecord(r.bytes) == Good(r.value) && r.value.header.totalLength == |r.bytes|
  }

  /** A WAL switch, the XLOG record of kind four: nothing follows it on its page. */
  predicate Switches(r: Rec) {
    r.value.header.resourceManager == 0 && r.value.header.info / 16 == 4
  }

  predicate AllRecords(rs: seq<Rec>) {
    forall k :: 0 <= k < |rs| ==> IsRecord(rs[k])
  }

  function Values(rs: seq<Rec>): seq<Record> {
    seq(|rs|, i requires 0 <= i < |rs| => rs[i].value)
  }

  /** What is still to come at a page boundary: the rest of a cut record, then whole records. */
  datatype Stream = Stream(tail: Bytes, cut: Option<Rec>, records: seq<Rec>)

  /** The records that may come on the page behind the tail: none when the tail is the end of a switch. */
  function OnPage(s: Stream): seq<Rec> {
    if s.tail != [] && s.cut.Some? && Switches(s.cut.value) then [] else s.records
  }

  // ---- how a stream lies on a page ------------------------------------------

  /**
   * From `q` on the page holds the records one after the other, each aligned, up to a switch, the end of the page or the
   * end of the records.
   */
  predicate LaidRecords(page: Bytes, q: nat, rs: seq<Rec>)
    requires |page| == WAL_PAGE && q <= |page|
    decreases |rs|
  {
    q == |page|
    || (if rs == [] then AllZero(page[q..])
        else
          var r := rs[0].bytes;
          if |page| - q < |r| then page[q..] == r[..|page| - q]
          else page[q..q + |r|] == r && (Switches(rs[0]) || LaidRecords(page, Align(q + |r|), rs[1..])))
  }

  /** A full page with a valid header. */
  predicate IsPage(page: Bytes) {
    |page| == WAL_PAGE && ReadPageHeader(page).Good?
  }

  function DataStart(page: Bytes): (at: nat)
    requires IsPage(page)
    ensures at % 8 == 0 && at <= 40
  {
    Align(ReadPageHeader(page).value.1)
  }

  function Width(page: Bytes): (w: nat)
    requires IsPage(page)
    ensures w % 8 == 0 && w > 0
  {
    WAL_PAGE - DataStart(page)
  }

  /** The page announces what remains of the cut record and carries the stream's next bytes. */
  predicate Laid(page: Bytes, s: Stream) {
    && IsPage(page)
    && ReadPageHeader(page).value.0.remaining == |s.tail|
    && var at := DataStart(page);
       if Width(page) < |s.tail| then page[at..] == s.tail[..Width(page)]
       else page[at..at + |s.tail|] == s.tail && LaidRecords(page, Align(at + |s.tail|), OnPage(s))
  }

  // ---- how far a stream gets in a given width -------------------------------

  /** How many whole records fit, and how many bytes of the next one. */
  datatype Fitted = Fitted(count: nat, head: nat)

  function Fit(width: nat, rs: seq<Rec>): (c: Fitted)
    requires width % 8 == 0
    ensures c.count <= |rs|
    ensures c.head > 0 ==> c.count < |rs| && c.head < |rs[c.count].bytes|
    decreases |rs|
  {
    if width == 0 || rs == [] then Fitted(0, 0)
    else if width < |rs[0].bytes| then Fitted(0, width)
    else if Switches(rs[0]) then Fitted(1, 0)
    else
      var c := Fit(width - Align(|rs[0].bytes|), rs[1..]);
      Fitted(c.count + 1, c.head)
  }

  /** The part of a width left after the cut record's end and its padding. */
  function Left(width: nat, s: Stream): (w: nat)
    requires width % 8 == 0 && |s.tail| <= width
    ensures w % 8 == 0
  {
    width - Align(|s.tail|)
  }

  /** The stream at the next page boundary. */
  function Advance(width: nat, s: Stream): Stream
    requires width % 8 == 0
  {
    if width < |s.tail| then s.(tail := s.tail[width..])
    else
      var c := Fit(Left(width, s), OnPage(s));
      if c.head == 0 then Stream([], None, s.records[c.count..])
      else
        var r := s.records[c.count];
        Stream(r.bytes[c.head..], Some(r), s.records[c.count + 1..])
  }

  /** The records that begin and end in the width. */
  function Emitted(width: nat, s: Stream): seq<Rec>
    requires width % 8 == 0 && |s.tail| <= width
  {
    OnPage(s)[..Fit(Left(width, s), OnPage(s)).count]
  }

  /** The beginning of the record the width cuts. */
  function Heading(width: nat, rs: seq<Rec>): Bytes
    requires width % 8 == 0
  {
    var c := Fit(width, rs);
    if c.head == 0 then [] else rs[c.count].bytes[..c.head]
  }

  // ---- one record on a page -------------------------------------------------

  /** What the page parser needs to know of a record. */
  lemma RecordFacts(r: Rec)
    requires IsRecord(r)
    ensures RECORD_HEADER <= |r.bytes|
    ensures ReadRecordHeader(r.bytes) == ReadRecordHeader(r.bytes[..RECORD_HEADER]) == Good(r.value.header)
    ensures !AllZero(r.bytes[..8])
  {
    hide ParseRecord, HeaderFields;
    HeaderIsThere(r);
    var b, p := r.bytes, r.bytes[..RECORD_HEADER];
    assert p + b[RECORD_HEADER..] == b;
    SameHeader(p, b[RECORD_HEADER..]);
    NotZero(b);
  }

  lemma HeaderIsThere(r: Rec)
    requires IsRecord(r)
    ensures RECORD_HEADER <= |r.bytes| && ReadRecordHeader(r.bytes) == Good(r.value.header)
  {
    hide HeaderLoop;
  }

  lemma NotZero(b: Bytes)
    requires RECORD_HEADER <= |b| && RECORD_HEADER <= HeaderFields(b).totalLength
    ensures !AllZero(b[..8])
  {
    if AllZero(b[..8]) {
      assert forall i :: 0 <= i < 4 ==> b[0..4][i] == b[..8][i];
      ZeroFields(b[0..4]);
    }
  }

  lemma NextWhole(page: Bytes, q: nat, r: Rec)
    requires |page| <= WAL_PAGE && IsRecord(r) && q + |r.bytes| <= |page| && page[q..q + |r.bytes|] == r.bytes
    ensures q < |page| && NextRecord(page, q) == Whole(r.value, q + |r.bytes|)
  {
    hide ParseRecord, ReadRecordHeader;
    RecordFacts(r);
    assert page[q..q + RECORD_HEADER] == r.bytes[..RECORD_HEADER];
    assert r.bytes == r.bytes[..RECORD_HEADER] + page[q + RECORD_HEADER..q + |r.bytes|];
  }

  lemma NextCut(page: Bytes, q: nat, r: Rec)
    requires |page| <= WAL_PAGE && IsRecord(r) && 8 <= |page| - q < |r.bytes| && page[q..] == r.bytes[..|page| - q]
    ensures NextRecord(page, q) == Cut(page[q..])
  {
    hide ParseRecord, ReadRecordHeader;
    RecordFacts(r);
    var w := |page| - q;
    if w < RECORD_HEADER {
      var i :| 0 <= i < 8 && r.bytes[..8][i] != 0;
      assert page[q..Min(q + RECORD_HEADER, |page|)] == page[q..] && page[q..][i] != 0;
    } else {
      assert page[q..q + RECORD_HEADER] == page[q..][..RECORD_HEADER] == r.bytes[..RECORD_HEADER];
      assert page[q..] == page[q..q + RECORD_HEADER] + page[q + RECORD_HEADER..];
    }
  }

  lemma NextZero(page: Bytes, q: nat)
    requires q < |page| && AllZero(page[q..])
    ensures NextRecord(page, q) == Failed(ZeroRecordHeader, Min(q + RECORD_HEADER, |page|))
    ensures AllZero(page[Min(q + RECORD_HEADER, |page|)..])
  {
    hide ParseRecord;
    var m := Min(q + RECORD_HEADER, |page|);
    var h, rest := page[q..m], page[m..];
    assert forall i :: 0 <= i < |h| ==> h[i] == page[q..][i];
    assert forall i :: 0 <= i < |rest| ==> rest[i] == page[q..][m - q + i];
    if |h| == RECORD_HEADER {
      ZeroHeader(h);
    }
  }

  lemma ZeroHeader(h: Bytes)
    requires |h| == RECORD_HEADER && AllZero(h)
    ensures ReadRecordHeader(h) == Bad(ZeroRecordHeader)
  {
    assert h[16] == 0 && h[17] == 0;
    ZeroFields(h[0..4]);
    ZeroFields(h[4..8]);
    ZeroFields(h[8..16]);
    ZeroFields(h[20..24]);
  }

  // ---- the records of a page ------------------------------------------------

  /** From `q` the parser finds the records that fit, then the beginning of the next. */
  predicate ReadsAs(page: Bytes, q: nat, rs: seq<Rec>, found: seq<Record>)
    requires |page| == WAL_PAGE && q <= |page| && q % 8 == 0
  {
    var w := |page| - q;
    var r := ReadRecords(page, q, found);
    && r.Good? && r.value.records == found + Values(rs[..Fit(w, rs).count]) && r.value.heading == Heading(w, rs)
    && r.value.partial == Padded(w, rs)
  }

  /** Only zeros follow the last record: it is neither cut nor a switch, and something is left of the width. */
  predicate Padded(width: nat, rs: seq<Rec>)
    requires width % 8 == 0
    decreases |rs|
  {
    width > 0 && (rs == [] || (|rs[0].bytes| <= width && !Switches(rs[0]) && Padded(width - Align(|rs[0].bytes|), rs[1..])))
  }

  lemma AlignStep(q: nat, n: nat)
    requires q % 8 == 0 && q + n <= WAL_PAGE
    ensures Align(q + n) == q + Align(n) <= WAL_PAGE
  {
  }

  /** A record's length is in its 32-bit length field. */
  lemma TotalLengthFits(r: Rec)
    requires IsRecord(r)
    ensures |r.bytes| < UINT32
  {
    hide HeaderLoop, ReadPayload;
    RecordFacts(r);
    DecodeBound(r.bytes[0..4]);
    Widths();
  }

  /** A whole record is read; behind a switch the reading stops, else it goes on after the padding. */
  lemma ReadsOn(page: Bytes, q: nat, r: Rec, end: nat, found: seq<Record>)
    requires |page| == WAL_PAGE && q % 8 == 0 && q + |r.bytes| <= end <= |page| && end == Align(q + |r.bytes|)
    requires page[q..q + |r.bytes|] == r.bytes && IsRecord(r)
    ensures ReadRecords(page, q, found) == if Switches(r) then Good(PageRecords(found + [r.value], [], false))
                                           else ReadRecords(page, end, found + [r.value])
  {
    hide IsRecord, NextRecord, IsWalSwitch;
    NextWhole(page, q, r);
    SwitchKind(r.value.header);
    AlignedAgain(page, q + |r.bytes|, found + [r.value]);
  }

  /** The info byte keeps four bits for flags; the other four are the kind of the record. */
  lemma SwitchKind(h: RecordHeader)
    ensures IsWalSwitch(h) <==> h.resourceManager == 0 && h.info / 16 == 4
  {
  }

  lemma AlignedAgain(page: Bytes, n: nat, found: seq<Record>)
    requires n <= |page| && Align(n) <= |page|
    ensures ReadRecords(page, n, found) == ReadRecords(page, Align(n), found)
  {
    hide NextRecord;
  }

  lemma ReadsLast(page: Bytes, q: nat, rs: seq<Rec>, found: seq<Record>)
    requires |page| == WAL_PAGE && q < |page| && q % 8 == 0 && AllRecords(rs) && LaidRecords(page, q, rs)
    requires rs == [] || |page| - q < |rs[0].bytes|
    ensures ReadsAs(page, q, rs, found)
  {
    hide IsRecord, NextRecord;
    if rs == [] {
      NextZero(page, q);
    } else {
      NextCut(page, q, rs[0]);
    }
  }

  /** What fits when the first record does. */
  lemma FitWhole(w: nat, rs: seq<Rec>, left: nat)
    requires w % 8 == 0 && rs != [] && 0 < w && |rs[0].bytes| <= w && left == w - Align(|rs[0].bytes|)
    requires !Switches(rs[0])
    ensures Padded(w, rs) == Padded(left, rs[1..])
    ensures Heading(w, rs) == Heading(left, rs[1..])
    ensures Values(rs[..Fit(w, rs).count]) == [rs[0].value] + Values(rs[1..][..Fit(left, rs[1..]).count])
  {
    hide Align, Values;
    ValuesFront(rs, Fit(left, rs[1..]).count);
  }

  lemma ValuesFront(rs: seq<Rec>, n: nat)
    requires n < |rs|
    ensures Values(rs[..n + 1]) == [rs[0].value] + Values(rs[1..][..n])
  {
  }

  lemma ReadsStep(page: Bytes, q: nat, end: nat, rs: seq<Rec>, found: seq<Record>)
    requires |page| == WAL_PAGE && q < |page| && q <= end <= |page| && q % 8 == 0 && end % 8 == 0
    requires rs != [] && q + |rs[0].bytes| <= |page| && end == q + Align(|rs[0].bytes|) && !Switches(rs[0])
    requires ReadRecords(page, q, found) == ReadRecords(page, end, found + [rs[0].value])
    requires ReadsAs(page, end, rs[1..], found + [rs[0].value])
    ensures ReadsAs(page, q, rs, found)
  {
    hide ReadRecords, Heading, Fit, Values, Padded;
    FitWhole(|page| - q, rs, |page| - end);
  }

  lemma ReadsNothing(page: Bytes, rs: seq<Rec>, found: seq<Record>)
    requires |page| == WAL_PAGE
    ensures ReadsAs(page, |page|, rs, found)
  {
    hide NextRecord;
  }

  lemma {:induction false} ReadLaid(page: Bytes, q: nat, rs: seq<Rec>, found: seq<Record>)
    requires |page| == WAL_PAGE && q <= |page| && q % 8 == 0 && AllRecords(rs) && LaidRecords(page, q, rs)
    ensures ReadsAs(page, q, rs, found)
    decreases |rs|
  {
    hide IsRecord, Align, ReadRecords, ReadsAs;
    if q == |page| {
      ReadsNothing(page, rs, found);
    } else if rs == [] || |page| - q < |rs[0].bytes| {
      ReadsLast(page, q, rs, found);
    } else {
      var r, rest := rs[0], rs[1..];
      AlignStep(q, |r.bytes|);
      var end := Align(q + |r.bytes|);
      ReadsOn(page, q, r, end, found);
      if Switches(r) {
        ReadsSwitch(page, q, rs, found);
      } else {
        ReadLaid(page, end, rest, found + [r.value]);
        ReadsStep(page, q, end, rs, found);
      }
    }
  }

  lemma ReadsSwitch(page: Bytes, q: nat, rs: seq<Rec>, found: seq<Record>)
    requires |page| == WAL_PAGE && q < |page| && q % 8 == 0 && rs != [] && q + |rs[0].bytes| <= |page| && Switches(rs[0])
    requires ReadRecords(page, q, found) == Good(PageRecords(found + [rs[0].value], [], false))
    ensures ReadsAs(page, q, rs, found)
  {
    hide ReadRecords;
    assert Values(rs[..1]) == [rs[0].value];
  }

  /** A laid page with its first switch at `k`, if it is whole: exactly the records up to it, and no beginning of another. */
  lemma SwitchEndsPage(page: Bytes, q: nat, rs: seq<Rec>, k: nat, found: seq<Record>)
    requires |page| == WAL_PAGE && q <= WAL_PAGE && q % 8 == 0 && k < Fit(WAL_PAGE - q, rs).count && Switches(rs[k])
    requires forall i :: 0 <= i < k ==> !Switches(rs[i])
    requires LaidRecords(page, q, rs) && AllRecords(rs)
    ensures ReadRecords(page, q, found) == Good(PageRecords(found + Values(rs[..k + 1]), [], false))
  {
    hide IsRecord, ReadRecords, LaidRecords;
    ReadLaid(page, q, rs, found);
    FitsToSwitch(WAL_PAGE - q, rs, k);
  }

  lemma {:induction false} FitsToSwitch(w: nat, rs: seq<Rec>, k: nat)
    requires w % 8 == 0 && k < |rs| && Switches(rs[k]) && k < Fit(w, rs).count
    requires forall i :: 0 <= i < k ==> !Switches(rs[i])
    ensures Fit(w, rs) == Fitted(k + 1, 0) && !Padded(w, rs)
    decreases |rs|
  {
    hide Align;
    if k > 0 {
      FitsToSwitch(w - Align(|rs[0].bytes|), rs[1..], k - 1);
    }
  }

  // ---- one page -------------------------------------------------------------

  /** Whole records to come are records, and a cut record ends with the tail still to come. */
  predicate ValidStream(s: Stream) {
    && AllRecords(s.records)
    && (s.tail != [] ==> s.cut.Some? && IsRecord(s.cut.value) && EndsWith(s.cut.value.bytes, s.tail))
  }

  predicate EndsWith(b: Bytes, tail: Bytes) {
    |tail| <= |b| && b[|b| - |tail|..] == tail
  }

  /** A parser that claims a beginning holds the cut record up to the boundary. */
  predicate InSync(st: ParserState, s: Stream) {
    if st.hasBeginning then st.data != [] && s.tail != [] && s.cut.Some? && st.data + s.tail == s.cut.value.bytes
    else s.tail == [] ==> st.data == []
  }

  /** The records a page completes for a parser in this state. */
  function Completed(st: ParserState, width: nat, s: Stream): seq<Rec>
    requires width % 8 == 0
  {
    if width < |s.tail| then []
    else (if st.hasBeginning && s.cut.Some? then [s.cut.value] else []) + Emitted(width, s)
  }

  function NextState(st: ParserState, width: nat, s: Stream): ParserState
    requires width % 8 == 0
  {
    if width < |s.tail| then st.(data := st.data + s.tail[..width])
    else Holding(Heading(Left(width, s), OnPage(s)))
  }

  /** The tail handed back for a record whose beginning the parser never saw. */
  function TailOut(st: ParserState, width: nat, s: Stream): Bytes {
    if width < |s.tail| || st.hasBeginning then [] else st.data + s.tail
  }

  lemma AdvanceValid(st: ParserState, width: nat, s: Stream)
    requires width % 8 == 0 && ValidStream(s) && InSync(st, s)
    ensures ValidStream(Advance(width, s)) && InSync(NextState(st, width, s), Advance(width, s))
  {
    hide IsRecord;
    if width < |s.tail| {
      assert (st.data + s.tail[..width]) + s.tail[width..] == st.data + s.tail;
    } else {
      var c := Fit(Left(width, s), OnPage(s));
      if c.head > 0 {
        var b := s.records[c.count].bytes;
        assert b[..c.head] + b[c.head..] == b;
      }
    }
  }

  lemma StartLaid(page: Bytes, s: Stream)
    requires Laid(page, s)
    ensures var p := StartPage(page);
            && p.Good? && p.value.remaining == |s.tail|
            && (Width(page) < |s.tail| ==> p.value.tail == s.tail[..Width(page)])
            && (|s.tail| <= Width(page) ==> p.value.tail == s.tail && p.value.end == DataStart(page) + |s.tail|)
  {
    hide ReadPageHeader, LaidRecords;
  }

  lemma FinishLaid(st: ParserState, tail: Bytes, cut: Option<Rec>, found: Parsed<PageRecords>)
    requires st.hasBeginning ==> cut.Some? && IsRecord(cut.value) && st.data + tail == cut.value.bytes
    requires found.Good?
    ensures var (st', r) := FinishPage(st, tail, found);
            && st' == Holding(found.value.heading)
            && r.Good?
            && r.value.records == (if st.hasBeginning then [cut.value.value] else []) + found.value.records
            && r.value.tail == (if st.hasBeginning then [] else st.data + tail)
            && r.value.partial == found.value.partial
  {
    hide ParseRecord, ReadRecordHeader;
    if st.hasBeginning {
      RecordFacts(cut.value);
    }
  }

  lemma AfterLaid(st: ParserState, page: Bytes, at: nat, tail: Bytes, cut: Option<Rec>)
    requires at <= |page|
    requires st.hasBeginning ==> cut.Some? && IsRecord(cut.value) && st.data + tail == cut.value.bytes
    ensures RecordsAfter(st, page, at, tail)
         == if st.hasBeginning && Switches(cut.value) then Good(PageRecords([], [], false)) else ReadRecords(page, at, [])
  {
    hide ParseRecord, ReadRecords, IsWalSwitch;
    if st.hasBeginning {
      SwitchKind(cut.value.value.header);
    }
  }

  /** What one page of a laid stream gives. */
  predicate StepGives(st: ParserState, page: Bytes, s: Stream)
    requires IsPage(page)
  {
    var (st', r) := ParseStep(st, page);
    var w := Width(page);
    && st' == NextState(st, w, s)
    && r.Good?
    && r.value.records == Values(Completed(st, w, s))
    && r.value.tail == TailOut(st, w, s)
    && r.value.partial == PartialOut(st, w, s)
  }

  /** Whether the parser reports that only zeros follow; behind a switch it knows of it does not look. */
  predicate PartialOut(st: ParserState, width: nat, s: Stream)
    requires width % 8 == 0
  {
    |s.tail| <= width && !(st.hasBeginning && s.cut.Some? && Switches(s.cut.value)) && Padded(Left(width, s), OnPage(s))
  }

  lemma ReadRest(page: Bytes, s: Stream)
    requires Laid(page, s) && AllRecords(s.records) && |s.tail| <= Width(page)
    ensures var w, r := Width(page), ReadRecords(page, DataStart(page) + |s.tail|, []);
            && r.Good? && r.value.records == Values(Emitted(w, s))
            && r.value.heading == Heading(Left(w, s), OnPage(s)) && r.value.partial == Padded(Left(w, s), OnPage(s))
  {
    hide IsRecord, LaidRecords, ReadPageHeader, ReadRecords, Fit, Heading, Values, Padded;
    var start := DataStart(page);
    AlignStep(start, |s.tail|);
    AlignedAgain(page, start + |s.tail|, []);
    ReadLaid(page, Align(start + |s.tail|), OnPage(s), []);
  }

  /** Parsing one page of a laid stream completes the right records and leaves the parser in the right state. */
  lemma StepLaid(st: ParserState, page: Bytes, s: Stream)
    requires Laid(page, s) && ValidStream(s) && InSync(st, s)
    ensures StepGives(st, page, s)
  {
    hide IsRecord, ReadRecords, ReadPageHeader, StartPage, LaidRecords, FinishPage, RecordsAfter;
    StartLaid(page, s);
    if |s.tail| <= Width(page) {
      var end := DataStart(page) + |s.tail|;
      ReadRest(page, s);
      AfterLaid(st, page, end, s.tail, s.cut);
      FinishLaid(st, s.tail, s.cut, RecordsAfter(st, page, end, s.tail));
      assert Values(Completed(st, Width(page), s))
          == (if st.hasBeginning then [s.cut.value.value] else []) + Values(Emitted(Width(page), s));
    }
  }

  // ---- all pages ------------------------------------------------------------

  /** Feeding pages in order: the parser's state at the end and what each call returned. */
  datatype Run = Run(state: ParserState, outputs: seq<Output>)

  function RunPages(st: ParserState, pages: seq<Bytes>): Parsed<Run>
    decreases |pages|
  {
    if pages == [] then Good(Run(st, []))
    else
      var (st', r) := ParseStep(st, pages[0]);
      var out :- r;
      var rest :- RunPages(st', pages[1..]);
      Good(Run(rest.state, [out] + rest.outputs))
  }

  function RecordsOf(outputs: seq<Output>): seq<Record> {
    if outputs == [] then [] else outputs[0].records + RecordsOf(outputs[1..])
  }

  /** Pages that carry the stream one after the other. */
  predicate LaidPages(pages: seq<Bytes>, s: Stream)
    decreases |pages|
  {
    pages == [] || (Laid(pages[0], s) && LaidPages(pages[1..], Advance(Width(pages[0]), s)))
  }

  /** The stream after the pages. */
  function After(pages: seq<Bytes>, s: Stream): Stream
    requires LaidPages(pages, s)
    decreases |pages|
  {
    if pages == [] then s else After(pages[1..], Advance(Width(pages[0]), s))
  }

  function StateAfter(st: ParserState, pages: seq<Bytes>, s: Stream): ParserState
    requires LaidPages(pages, s)
    decreases |pages|
  {
    if pages == [] then st
    else
      var w := Width(pages[0]);
      StateAfter(NextState(st, w, s), pages[1..], Advance(w, s))
  }

  /** The records the pages complete for a parser in this state. */
  function CompletedBy(st: ParserState, pages: seq<Bytes>, s: Stream): seq<Rec>
    requires LaidPages(pages, s)
    decreases |pages|
  {
    if pages == [] then []
    else
      var w := Width(pages[0]);
      Completed(st, w, s) + CompletedBy(NextState(st, w, s), pages[1..], Advance(w, s))
  }

  /** A run over laid pages never fails, returns exactly the completed records and ends in the expected state. */
  lemma {:induction false} RunLaid(st: ParserState, pages: seq<Bytes>, s: Stream)
    requires LaidPages(pages, s) && ValidStream(s) && InSync(st, s)
    ensures var r := RunPages(st, pages);
            && r.Good? && r.value.state == StateAfter(st, pages, s)
            && RecordsOf(r.value.outputs) == Values(CompletedBy(st, pages, s))
    ensures ValidStream(After(pages, s)) && InSync(StateAfter(st, pages, s), After(pages, s))
    decreases |pages|
  {
    hide IsRecord, ParseStep, Laid, NextState, Advance, Completed, ValidStream, InSync, IsPage, Width;
    if pages != [] {
      PageOf(pages[0], s);
      var w := Width(pages[0]);
      StepLaid(st, pages[0], s);
      AdvanceValid(st, w, s);
      RunLaid(NextState(st, w, s), pages[1..], Advance(w, s));
      var out := ParseStep(st, pages[0]).1.value;
      var rest := RunPages(NextState(st, w, s), pages[1..]).value.outputs;
      assert ([out] + rest)[1..] == rest;
    }
  }

  lemma PageOf(page: Bytes, s: Stream)
    requires Laid(page, s)
    ensures IsPage(page) && Width(page) % 8 == 0
  {
  }

  // ---- nothing is lost or reordered -----------------------------------------

  /** The record in progress at a boundary, as a list of none or one. */
  function InProgress(s: Stream): seq<Rec> {
    if s.tail == [] || s.cut.None? then [] else [s.cut.value]
  }

  /** A parser that has seen everything up to the boundary. */
  predicate Knowing(st: ParserState, s: Stream) {
    InSync(st, s) && (st.hasBeginning <==> s.tail != [])
  }

  lemma Regroup<T>(x: seq<T>, a: seq<T>, p: seq<T>, b: seq<T>)
    ensures x + (a + p + b) == (x + a) + p + b
  {
  }

  /** The records split into those that fit, the cut one, and those to come. */
  lemma FitSplits(width: nat, s: Stream)
    requires width % 8 == 0 && |s.tail| <= width
    ensures s.records == Emitted(width, s) + InProgress(Advance(width, s)) + Advance(width, s).records
  {
    hide Fit, Align, Left;
    SplitAt(s.records, Fit(Left(width, s), OnPage(s)).count);
  }

  lemma SplitAt<T>(s: seq<T>, k: nat)
    requires k <= |s|
    ensures s == s[..k] + [] + s[k..]
    ensures k < |s| ==> s == s[..k] + [s[k]] + s[k + 1..]
  {
  }

  lemma StepConserves(st: ParserState, width: nat, s: Stream)
    requires width % 8 == 0 && ValidStream(s) && Knowing(st, s)
    ensures var st', s' := NextState(st, width, s), Advance(width, s);
            Knowing(st', s') && InProgress(s) + s.records == Completed(st, width, s) + InProgress(s') + s'.records
  {
    hide IsRecord, Fit, EndsWith;
    AdvanceValid(st, width, s);
    if |s.tail| <= width {
      var s' := Advance(width, s);
      FitSplits(width, s);
      Regroup(InProgress(s), Emitted(width, s), InProgress(s'), s'.records);
      assert Completed(st, width, s) == InProgress(s) + Emitted(width, s);
    } else {
      assert [] + InProgress(s) == InProgress(s);
    }
  }

  /** Completed records, then the one in progress, then those to come: always the same list. */
  lemma {:induction false} RunConserves(st: ParserState, pages: seq<Bytes>, s: Stream)
    requires LaidPages(pages, s) && ValidStream(s) && Knowing(st, s)
    ensures Knowing(StateAfter(st, pages, s), After(pages, s))
    ensures InProgress(s) + s.records
         == CompletedBy(st, pages, s) + InProgress(After(pages, s)) + After(pages, s).records
    decreases |pages|
  {
    hide IsRecord, NextState, Advance, Completed, ValidStream, InSync, InProgress, Knowing, Laid, Width, IsPage;
    if pages == [] {
      assert CompletedBy(st, pages, s) + InProgress(s) == InProgress(s);
    } else {
      PageOf(pages[0], s);
      var w := Width(pages[0]);
      var st1, s1, rest := NextState(st, w, s), Advance(w, s), pages[1..];
      StepConserves(st, w, s);
      KnowingInSync(st, s);
      AdvanceValid(st, w, s);
      RunConserves(st1, rest, s1);
      assert Completed(st, w, s) + InProgress(s1) + s1.records == Completed(st, w, s) + (InProgress(s1) + s1.records);
      Regroup(Completed(st, w, s), CompletedBy(st1, rest, s1), InProgress(After(rest, s1)), After(rest, s1).records);
    }
  }

  lemma KnowingInSync(st: ParserState, s: Stream)
    requires Knowing(st, s)
    ensures InSync(st, s)
  {
  }

  /**
   * Page-by-page parsing equals whole-stream parsing: a fresh parser fed the pages of a stream of records never
   * fails and returns, in order, exactly the records that end on the pages; the rest of the list is the record the
   * last page cuts, whose beginning the parser holds, and the records to come.
   */
  lemma PagesGiveRecords(rs: seq<Rec>, pages: seq<Bytes>, done: seq<Rec>)
    requires AllRecords(rs) && LaidPages(pages, Stream([], None, rs))
    requires done == CompletedBy(FRESH, pages, Stream([], None, rs))
    ensures var r := RunPages(FRESH, pages);
            var s' := After(pages, Stream([], None, rs));
            && r.Good? && RecordsOf(r.value.outputs) == Values(done)
            && rs == done + InProgress(s') + s'.records
            && (s'.tail != [] ==> s'.cut.Some? && r.value.state.data + s'.tail == s'.cut.value.bytes)
            && (s'.tail == [] ==> r.value.state == FRESH)
  {
    hide IsRecord;
    var s := Stream([], None, rs);
    assert ValidStream(s) && Knowing(FRESH, s);
    RunLaid(FRESH, pages, s);
    RunConserves(FRESH, pages, s);
    assert InProgress(s) + s.records == rs;
  }
}
