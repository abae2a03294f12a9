/** The page parser: cuts WAL pages into records and carries a record that crosses pages from one call to the next. */
module WalPages {
  import opened Bytes
  import opened XLogRecords

  const WAL_PAGE: nat := 8192

  function AllZero(data: Bytes): bool {
    forall i :: 0 <= i < |data| ==> data[i] == 0
  }

  /** The next multiple of XLogRecordAlignment. */
  function Align(n: nat): (m: nat)
    ensures n <= m < n + 8 && m % 8 == 0
  {
    if n % 8 == 0 then n else n + 8 - n % 8
  }

  // ---- page header ----------------------------------------------------------

  datatype PageHeader = PageHeader(magic: nat, info: nat, timeline: nat, address: nat, remaining: nat)

  predicate ValidPageHeader(h: PageHeader) {
    h.info <= 7 && (Bit(h.info, 1) <==> h.remaining != 0)
  }

  function PageHeaderFields(page: Bytes): PageHeader
    requires |page| >= 20
  {
    PageHeader(Decode(page[0..2]), Decode(page[2..4]), Decode(page[4..8]), Decode(page[8..16]), Decode(page[16..20]))
  }

  /** The header and the position after it; a long header is 16 bytes longer. */
  function ReadPageHeader(page: Bytes): (r: Parsed<(PageHeader, nat)>)
    ensures r.Good? ==> r.value.1 <= |page| && (r.value.1 == 20 || r.value.1 == 36)
  {
    if |page| < 20 then Bad(Truncated)
    else
      var h := PageHeaderFields(page);
      if h == PageHeader(0, 0, 0, 0, 0) then
        (if AllZero(page[20..]) then Bad(ZeroPage) else Bad(ZeroPageHeader))
      else if !ValidPageHeader(h) then Bad(BadPageHeader)
      else if !Bit(h.info, 2) then Good((h, 20))
      else if |page| < 36 then Bad(Truncated)
      else Good((h, 36))
  }

  /** A header is accepted exactly when it is there, not zero and consistent; a page is zero exactly when all its bytes are. */
  lemma HeaderExactly(page: Bytes)
    ensures var r := ReadPageHeader(page);
      && (r.Good? <==> && |page| >= 20 && PageHeaderFields(page) != PageHeader(0, 0, 0, 0, 0)
                       && PageHeaderFields(page).info < 8
                       && (PageHeaderFields(page).info % 2 == 1 <==> PageHeaderFields(page).remaining > 0)
                       && (PageHeaderFields(page).info / 2 % 2 == 1 ==> |page| >= 36))
      && (r.Good? ==> r.value == (PageHeaderFields(page), if PageHeaderFields(page).info / 2 % 2 == 1 then 36 else 20))
      && (r == Bad(ZeroPage) <==> |page| >= 20 && AllZero(page))
  {
    if |page| >= 20 && PageHeaderFields(page) == PageHeader(0, 0, 0, 0, 0) {
      ZeroFields(page[0..2]);
      ZeroFields(page[2..4]);
      ZeroFields(page[4..8]);
      ZeroFields(page[8..16]);
      ZeroFields(page[16..20]);
      forall i | 0 <= i < 20
        ensures page[i] == 0
      {
        assert i < 2 ==> page[i] == page[0..2][i];
        assert 2 <= i < 4 ==> page[i] == page[2..4][i - 2];
        assert 4 <= i < 8 ==> page[i] == page[4..8][i - 4];
        assert 8 <= i < 16 ==> page[i] == page[8..16][i - 8];
        assert 16 <= i ==> page[i] == page[16..20][i - 16];
      }
      assert forall i :: 20 <= i < |page| ==> page[i] == page[20..][i - 20];
    }
    if |page| >= 20 && AllZero(page) {
      ZeroFields(page[0..2]);
      ZeroFields(page[2..4]);
      ZeroFields(page[4..8]);
      ZeroFields(page[8..16]);
      ZeroFields(page[16..20]);
    }
  }

  /** A number is zero exactly when its bytes are. */
  lemma {:induction false} ZeroFields(b: Bytes)
    ensures Decode(b) == 0 <==> AllZero(b)
  {
    if b != [] {
      ZeroFields(b[1..]);
      assert AllZero(b) <==> b[0] == 0 && AllZero(b[1..]);
    }
  }

  // ---- records of a page ----------------------------------------------------

  /** tryReadXLogRecordData at an aligned position: the bytes of the next record, and whether they are all of it. */
  datatype RecordData = RecordData(data: Bytes, whole: bool)

  /** The header of a record does not depend on what follows it. */
  lemma SameHeader(header: Bytes, rest: Bytes)
    requires |header| == RECORD_HEADER
    ensures HeaderFields(header + rest) == HeaderFields(header)
  {
    var b := header + rest;
    assert b[0..4] == header[0..4] && b[4..8] == header[4..8] && b[8..16] == header[8..16] && b[20..24] == header[20..24];
  }

  function TryReadRecord(page: Bytes, pos: nat): (r: Parsed<RecordData>)
    requires pos <= |page|
    ensures r.Good? ==> |r.value.data| <= |page| - pos
    ensures r.Good? && r.value.whole ==> RECORD_HEADER <= |r.value.data|
  {
    var header := page[pos..Min(pos + RECORD_HEADER, |page|)];
    if |header| < RECORD_HEADER then
      (if header != [] && AllZero(header) then Bad(ZeroRecordHeader) else Good(RecordData(header, false)))
    else
      var h :- ReadRecordHeader(header);
      var wanted := h.totalLength - RECORD_HEADER;
      var bodyAt := pos + RECORD_HEADER;
      var read := Min(Min(wanted, WAL_PAGE), |page| - bodyAt);
      Good(RecordData(header + page[bodyAt..bodyAt + read], read == wanted))
  }

  /** The bytes from the position on: a whole record of exactly its announced length, or a part that uses up the page. */
  lemma TryReadExactly(page: Bytes, pos: nat)
    requires pos <= |page| && TryReadRecord(page, pos).Good?
    ensures var d := TryReadRecord(page, pos).value;
      && d.data == page[pos..pos + |d.data|]
      && (d.whole ==> |d.data| == HeaderFields(d.data).totalLength)
      && (!d.whole && |page| <= WAL_PAGE ==> pos + |d.data| == |page|)
  {
    var header := page[pos..Min(pos + RECORD_HEADER, |page|)];
    if |header| == RECORD_HEADER {
      var bodyAt := pos + RECORD_HEADER;
      var wanted := HeaderFields(header).totalLength - RECORD_HEADER;
      SameHeader(header, page[bodyAt..bodyAt + Min(Min(wanted, WAL_PAGE), |page| - bodyAt)]);
    }
  }

  /** Records found on a page and the beginning of the one it cuts; `partial` when only zeros follow. */
  datatype PageRecords = PageRecords(records: seq<Record>, heading: Bytes, partial: bool)

  /** An error while reading records is forgiven when it is a zero header and everything not yet read is zero. */
  function CheckPartial(page: Bytes, readTo: nat, records: seq<Record>, error: ParseError): Parsed<PageRecords>
    requires readTo <= |page|
  {
    if error == ZeroRecordHeader && AllZero(page[readTo..])
    then Good(PageRecords(records, [], true)) else Bad(error)
  }

  /** The next thing on a page: an error and how far was read, a cut record, or a whole one and where it ends. */
  datatype Next = Failed(error: ParseError, readTo: nat) | Cut(data: Bytes) | Whole(record: Record, end: nat)

  function NextRecord(page: Bytes, pos: nat): (n: Next)
    requires pos < |page|
    ensures n.Failed? ==> n.readTo <= |page|
    ensures n.Whole? ==> pos < n.end <= |page|
  {
    match TryReadRecord(page, pos)
    case Bad(e) => Failed(e, Min(pos + RECORD_HEADER, |page|))
    case Good(d) =>
      if !d.whole then Cut(d.data)
      else
        match ParseRecord(d.data)
        case Bad(e) => Failed(e, pos + |d.data|)
        case Good(record) => Whole(record, pos + |d.data|)
  }

  function ReadRecords(page: Bytes, start: nat, records: seq<Record>): Parsed<PageRecords>
    requires start <= |page|
    decreases |page| - start
  {
    var pos := Align(start);
    if |page| <= pos then Good(PageRecords(records, [], false))
    else
      match NextRecord(page, pos)
      case Failed(e, readTo) => CheckPartial(page, readTo, records, e)
      case Cut(data) => Good(PageRecords(records, data, false))
      case Whole(record, end) =>
        if IsWalSwitch(record.header) then Good(PageRecords(records + [record], [], false))
        else ReadRecords(page, end, records + [record])
  }

  // ---- the stateful parser --------------------------------------------------

  /** What WalParser keeps: bytes of the record in progress, and whether they start at its beginning. */
  datatype ParserState = ParserState(data: Bytes, hasBeginning: bool)

  const FRESH: ParserState := ParserState([], false)

  function Holding(data: Bytes): ParserState {
    ParserState(data, |data| > 0)
  }

  /** What one call returns: the tail of a record whose beginning was never seen, and the records completed. */
  datatype Output = Output(tail: Bytes, records: seq<Record>, partial: bool)

  /** The rest of a page once the end of the previous record, `tail`, is known to be on it. */
  function FinishPage(st: ParserState, tail: Bytes, found: Parsed<PageRecords>): (ParserState, Parsed<Output>) {
    match found
    case Bad(e) => (st, Bad(e))
    case Good(p) =>
      var current := st.data + tail;
      if !st.hasBeginning then (Holding(p.heading), Good(Output(current, p.records, p.partial)))
      else
        match ReadRecordHeader(current)
        case Bad(e) => (st, Bad(e))
        case Good(h) =>
          if h.totalLength != |current| then (st, Bad(ContinuationNotFound))
          else
            match ParseRecord(current)
            case Bad(e) => (st, Bad(e))
            case Good(record) => (Holding(p.heading), Good(Output([], [record] + p.records, p.partial)))
  }

  /** What follows the remaining data: nothing after a WAL switch, otherwise the page's records. */
  function RecordsAfter(st: ParserState, page: Bytes, at: nat, tail: Bytes): Parsed<PageRecords>
    requires at <= |page|
  {
    if !st.hasBeginning then ReadRecords(page, at, [])
    else
      match ParseRecord(st.data + tail)
      case Bad(e) => Bad(e)
      case Good(record) =>
        if IsWalSwitch(record.header) then Good(PageRecords([], [], false)) else ReadRecords(page, at, [])
  }

  /** A page up to the end of its remaining data: how much its header announces, what there is of it, where it ends. */
  datatype PageStart = PageStart(remaining: nat, tail: Bytes, end: nat)

  function StartPage(page: Bytes): (r: Parsed<PageStart>)
    ensures r.Good? ==> r.value.end <= |page|
  {
    var (h, headerEnd) :- ReadPageHeader(page);
    if headerEnd == |page| then Bad(Truncated)
    else
      var at := Min(Align(headerEnd), |page|);
      var end := at + Min(Min(h.remaining, WAL_PAGE), |page| - at);
      Good(PageStart(h.remaining, page[at..end], end))
  }

  function ParseStep(st: ParserState, page: Bytes): (ParserState, Parsed<Output>) {
    match StartPage(page)
    case Bad(e) => (st, Bad(e))
    case Good(p) =>
      if |p.tail| < p.remaining then (st.(data := st.data + p.tail), Good(Output([], [], false)))
      else FinishPage(st, p.tail, RecordsAfter(st, page, p.end, p.tail))
  }

  class WalParser {
    var currentRecordData: Bytes
    var hasCurrentRecordBeginning: bool

    constructor ()
      ensures State() == FRESH
    {
      currentRecordData, hasCurrentRecordBeginning := [], false;
    }

    /** LoadWalParserFromCurrentRecordHead: claims a beginning even when the head is empty. */
    constructor FromHead(head: Bytes)
      ensures State() == ParserState(head, true)
    {
      currentRecordData, hasCurrentRecordBeginning := head, true;
    }

    /** LoadWalParser gives back a saved parser. */
    constructor Loaded(saved: ParserState)
      ensures State() == saved
    {
      currentRecordData, hasCurrentRecordBeginning := saved.data, saved.hasBeginning;
    }

    ghost function State(): ParserState
      reads this
    {
      ParserState(currentRecordData, hasCurrentRecordBeginning)
    }

    method SetCurrentRecordData(data: Bytes)
      modifies this
      ensures State() == Holding(data)
    {
      currentRecordData := data;
      hasCurrentRecordBeginning := |data| > 0;
    }

    method Invalidate()
      modifies this
      ensures State() == FRESH
    {
      SetCurrentRecordData([]);
    }

    method ParseRecordsFromPage(page: Bytes) returns (r: Parsed<Output>)
      modifies this
      ensures (State(), r) == ParseStep(old(State()), page)
    {
      var start := StartPage(page);
      if start.Bad? {
        return Bad(start.error);
      }
      var p := start.value;
      if |p.tail| < p.remaining {
        currentRecordData := currentRecordData + p.tail;
        return Good(Output([], [], false));
      }
      r := FinishRecord(page, p.end, p.tail);
    }

    /** The part of parsePage and ParseRecordsFromPage that runs once the previous record's end has been read. */
    method FinishRecord(page: Bytes, at: nat, remainingData: Bytes) returns (r: Parsed<Output>)
      requires at <= |page|
      modifies this
      ensures (State(), r) == FinishPage(old(State()), remainingData, RecordsAfter(old(State()), page, at, remainingData))
    {
      var current := currentRecordData + remainingData;
      var found := PageRecords([], [], false);
      var isSwitch := false;
      if hasCurrentRecordBeginning {
        var record := ParseXLogRecordFromBytes(current);
        if record.Bad? {
          return Bad(record.error);
        }
        isSwitch := IsWalSwitch(record.value.header);
      }
      if !isSwitch {
        var records := ReadXLogPage(page, at);
        if records.Bad? {
          return Bad(records.error);
        }
        found := records.value;
      }
      if !hasCurrentRecordBeginning {
        SetCurrentRecordData(found.heading);
        return Good(Output(current, found.records, found.partial));
      }
      var header := ReadRecordHeader(current);
      if header.Bad? {
        return Bad(header.error);
      }
      if header.value.totalLength != |current| {
        return Bad(ContinuationNotFound);
      }
      // the same bytes parsed above, so this cannot fail
      var record := ParseXLogRecordFromBytes(current);
      SetCurrentRecordData(found.heading);
      return Good(Output([], [record.value] + found.records, found.partial));
    }
  }

  method ReadXLogPage(page: Bytes, start: nat) returns (r: Parsed<PageRecords>)
    requires start <= |page|
    ensures r == ReadRecords(page, start, [])
  {
    var at := start;
    var records: seq<Record> := [];
    while true
      invariant at <= |page| && ReadRecords(page, at, records) == ReadRecords(page, start, [])
      decreases |page| - at
    {
      var pos := Align(at);
      if |page| <= pos {
        return Good(PageRecords(records, [], false));
      }
      var next := ReadNextRecord(page, pos);
      match next {
        case Failed(error, readTo) =>
          return CheckPartial(page, readTo, records, error);
        case Cut(data) =>
          return Good(PageRecords(records, data, false));
        case Whole(record, end) =>
          records := records + [record];
          if IsWalSwitch(record.header) {
            return Good(PageRecords(records, [], false));
          }
          at := end;
      }
    }
  }

  method ReadNextRecord(page: Bytes, pos: nat) returns (n: Next)
    requires pos < |page|
    ensures n == NextRecord(page, pos)
  {
    var next := TryReadRecord(page, pos);
    if next.Bad? {
      return Failed(next.error, Min(pos + RECORD_HEADER, |page|));
    }
    var d := next.value;
    if !d.whole {
      return Cut(d.data);
    }
    var record := ParseXLogRecordFromBytes(d.data);
    n := if record.Bad? then Failed(record.error, pos + |d.data|) else Whole(record.value, pos + |d.data|);
  }
}
