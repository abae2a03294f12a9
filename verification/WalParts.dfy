/** Recording WAL segments one by one into part files, and gluing the records that segment boundaries cut. */
module WalParts {
  import opened Bytes
  import opened XLogRecords
  import opened WalPages

  /** WalFileInDelta. */
  const SEGMENTS: nat := 16

  // ---- recording one segment ------------------------------------------------

  /** WalDeltaRecordingReader while it reads one segment: `saved` is the tail it stored, `records` what it recorded. */
  datatype Recording = Recording(
    parser: ParserState, canSaveTail: bool, saved: Option<Bytes>, records: seq<Record>, cancelled: bool)

  const START: Recording := Recording(FRESH, true, None, [], false)

  /** RecordBlockLocationsFromPage after the parser returned `r` in state `st`. */
  function Record1(rec: Recording, st: ParserState, r: Parsed<Output>): Recording {
    match r
    case Bad(ZeroPage) => rec.(parser := st)
    case Bad(_) => rec.(parser := FRESH, cancelled := true)
    case Good(out) =>
      if out.tail == [] && out.records == [] then rec.(parser := st)
      else if rec.canSaveTail then
        rec.(parser := st, canSaveTail := false, saved := Some(out.tail), records := rec.records + out.records)
      else if out.tail != [] then rec.(parser := st, cancelled := true)
      else rec.(parser := st, records := rec.records + out.records)
  }

  function RecordPage(rec: Recording, page: Bytes): Recording {
    var (st, r) := ParseStep(rec.parser, page);
    Record1(rec, st, r)
  }

  function RecordPages(rec: Recording, pages: seq<Bytes>): Recording
    decreases |pages|
  {
    if pages == [] then rec else RecordPages(RecordPage(rec, pages[0]), pages[1..])
  }

  // ---- pages that are not recorded ------------------------------------------

  predicate IsZeroPage(page: Bytes) {
    |page| >= 20 && AllZero(page)
  }

  /** A segment that ends early, after a switch or because the server has not got further: zero pages to its end. */
  predicate PaddedTo(pages: seq<Bytes>, laid: seq<Bytes>) {
    laid <= pages && forall k :: |laid| <= k < |pages| ==> IsZeroPage(pages[k])
  }

  lemma ZeroPageParses(st: ParserState, page: Bytes)
    requires IsZeroPage(page)
    ensures ParseStep(st, page) == (st, Bad(ZeroPage))
  {
    hide ReadPageHeader;
    HeaderExactly(page);
  }

  /** Zero pages at the end of a segment leave its recording as it is. */
  lemma {:induction false} PaddingIgnored(rec: Recording, pages: seq<Bytes>, laid: seq<Bytes>)
    requires PaddedTo(pages, laid)
    ensures RecordPages(rec, pages) == RecordPages(rec, laid)
    decreases |pages|
  {
    hide ParseStep;
    if laid != [] {
      PaddingIgnored(RecordPage(rec, pages[0]), pages[1..], laid[1..]);
    } else if pages != [] {
      ZeroPageParses(rec.parser, pages[0]);
      PaddingIgnored(rec, pages[1..], []);
    }
  }

  /** The page gives up the recording: it does not parse and is not zero, or a record ends on it that should have before. */
  predicate Troubles(rec: Recording, page: Bytes) {
    var r := ParseStep(rec.parser, page).1;
    if r.Bad? then r.error != ZeroPage else r.value.tail != [] && !rec.canSaveTail
  }

  /** A recording is given up exactly when some page on its way troubles it. */
  lemma {:induction false} CancelledExactly(rec: Recording, pages: seq<Bytes>)
    ensures RecordPages(rec, pages).cancelled <==>
      rec.cancelled || exists k :: 0 <= k < |pages| && Troubles(RecordPages(rec, pages[..k]), pages[k])
    decreases |pages|
  {
    hide ParseStep;
    if pages != [] {
      var next, rest := RecordPage(rec, pages[0]), pages[1..];
      CancelledExactly(next, rest);
      assert next.cancelled <==> rec.cancelled || Troubles(rec, pages[0]);
      forall k | 0 <= k < |rest|
        ensures RecordPages(next, rest[..k]) == RecordPages(rec, pages[..k + 1]) && rest[k] == pages[k + 1]
      {
        assert pages[..k + 1][1..] == rest[..k] && pages[..k + 1][0] == pages[0];
      }
      assert RecordPages(rec, pages[..0]) == rec;
      if k :| 0 <= k < |rest| && Troubles(RecordPages(next, rest[..k]), rest[k]) {
        assert Troubles(RecordPages(rec, pages[..k + 1]), pages[k + 1]);
      }
      if k :| 0 <= k < |pages| && Troubles(RecordPages(rec, pages[..k]), pages[k]) {
        if k > 0 {
          assert Troubles(RecordPages(next, rest[..k - 1]), rest[k - 1]);
        }
      }
    }
  }

  // ---- part files -----------------------------------------------------------

  /** The slots of a part file; a slot not yet saved is absent, which is not the same as saved empty. */
  datatype PartFile = PartFile(tails: map<nat, Bytes>, previousHead: Option<Bytes>, heads: map<nat, Bytes>)

  type PartFiles = map<nat, PartFile>

  /** GetPartFile: a part file not seen yet starts empty. */
  function PartOf(parts: PartFiles, delta: nat): PartFile {
    if delta in parts then parts[delta] else PartFile(map[], None, map[])
  }

  function WithTail(parts: PartFiles, segment: nat, tail: Bytes): PartFiles {
    var d := segment / SEGMENTS;
    var p := PartOf(parts, d);
    parts[d := p.(tails := p.tails[segment % SEGMENTS := tail])]
  }

  /** The head goes to the segment's own slot and, after the last segment of a delta, to the next delta as well. */
  function WithHead(parts: PartFiles, segment: nat, head: Bytes): PartFiles {
    var d := segment / SEGMENTS;
    var p := PartOf(parts, d);
    var own := parts[d := p.(heads := p.heads[segment % SEGMENTS := head])];
    if segment % SEGMENTS == SEGMENTS - 1
    then own[d + 1 := PartOf(own, d + 1).(previousHead := Some(head))] else own
  }

  // ---- locations ------------------------------------------------------------

  function LocationsOf(blocks: seq<Block>): seq<BlockLocation> {
    seq(|blocks|, i requires 0 <= i < |blocks| => blocks[i].header.location)
  }

  /** ExtractBlockLocations. */
  function Locations(records: seq<Record>): seq<BlockLocation> {
    if records == [] then []
    else Locations(records[..|records| - 1]) + LocationsOf(records[|records| - 1].blocks)
  }

  lemma {:induction false} LocationsAppend(a: seq<Record>, b: seq<Record>)
    ensures Locations(a + b) == Locations(a) + Locations(b)
  {
    hide LocationsOf;
    if b == [] {
      assert a + b == a;
    } else {
      var n := |b| - 1;
      LocationsAppend(a, b[..n]);
      assert (a + b)[..|a + b| - 1] == a + b[..n];
      assert (a + b)[|a + b| - 1] == b[n];
      var last := LocationsOf(b[n].blocks);
      assert Locations(a) + Locations(b[..n]) + last == Locations(a) + (Locations(b[..n]) + last);
    }
  }

  /** Some block of some record is at this location. */
  ghost predicate Touches(records: seq<Record>, x: BlockLocation) {
    exists i, j :: 0 <= i < |records| && 0 <= j < |records[i].blocks| && records[i].blocks[j].header.location == x
  }

  /** The locations of records are those of all their blocks. */
  lemma {:induction false} LocationsAreBlocks(records: seq<Record>, x: BlockLocation)
    ensures x in Locations(records) <==> Touches(records, x)
  {
    if records != [] {
      var n := |records| - 1;
      var rest, last := records[..n], LocationsOf(records[n].blocks);
      LocationsAreBlocks(rest, x);
      if x in last {
        var j :| 0 <= j < |last| && last[j] == x;
        assert records[n].blocks[j].header.location == x;
      }
      if Touches(rest, x) {
        var i, j :| 0 <= i < |rest| && 0 <= j < |rest[i].blocks| && rest[i].blocks[j].header.location == x;
        assert records[i].blocks[j].header.location == x;
      }
      if Touches(records, x) {
        var i, j :| 0 <= i < |records| && 0 <= j < |records[i].blocks| && records[i].blocks[j].header.location == x;
        if i < n {
          assert rest[i].blocks[j].header.location == x;
        } else {
          assert last[j] == x;
        }
      }
    }
  }

  /** One record gives the locations of its blocks one by one; several records give theirs one after the other. */
  lemma OneRecordLocations(r: Record)
    ensures |Locations([r])| == |r.blocks|
    ensures forall j :: 0 <= j < |r.blocks| ==> Locations([r])[j] == r.blocks[j].header.location
  {
    assert [r][..0] == [] && Locations([r][..0]) == [];
    assert Locations([r]) == [] + LocationsOf(r.blocks);
  }

  lemma AllLocationsAreBlocks(records: seq<Record>)
    ensures forall x :: x in Locations(records) <==> Touches(records, x)
  {
    forall x {
      LocationsAreBlocks(records, x);
    }
  }

  // ---- the manager ----------------------------------------------------------

  /** DeltaFileManager: the part files, the locations recorded per delta file, and the delta files given up. */
  class DeltaFileManager {
    var partFiles: PartFiles
    var locations: map<nat, seq<BlockLocation>>
    var cancelledDeltas: set<nat>

    constructor ()
      ensures partFiles == map[] && locations == map[] && cancelledDeltas == {}
    {
      partFiles, locations, cancelledDeltas := map[], map[], {};
    }

    method SavePreviousWalTail(segment: nat, tail: Bytes)
      modifies this`partFiles
      ensures partFiles == WithTail(old(partFiles), segment, tail)
    {
      var d := segment / SEGMENTS;
      var p := PartOf(partFiles, d);
      partFiles := partFiles[d := p.(tails := p.tails[segment % SEGMENTS := tail])];
    }

    method SaveNextWalHead(segment: nat, head: Bytes)
      modifies this`partFiles
      ensures partFiles == WithHead(old(partFiles), segment, head)
    {
      var d := segment / SEGMENTS;
      var p := PartOf(partFiles, d);
      partFiles := partFiles[d := p.(heads := p.heads[segment % SEGMENTS := head])];
      if segment % SEGMENTS == SEGMENTS - 1 {
        var next := PartOf(partFiles, d + 1);
        partFiles := partFiles[d + 1 := next.(previousHead := Some(head))];
      }
    }

    method CancelRecording(segment: nat)
      modifies this`cancelledDeltas
      ensures cancelledDeltas == old(cancelledDeltas) + {segment / SEGMENTS, (segment + 1) / SEGMENTS}
    {
      cancelledDeltas := cancelledDeltas + {segment / SEGMENTS, (segment + 1) / SEGMENTS};
    }

    /** The manager as left by a recording that started from `start`. */
    ghost predicate Shows(start: Snapshot, segment: nat, rec: Recording)
      reads this
    {
      && partFiles == (if rec.saved.Some? then WithTail(start.partFiles, segment, rec.saved.value) else start.partFiles)
      && locations == AddLocations(start.locations, segment / SEGMENTS, Locations(rec.records))
      && cancelledDeltas == start.cancelled + CancelledBy(segment, rec)
      && (rec.canSaveTail ==> rec.saved.None?)
    }

    /** Reading one segment to its end with a fresh parser, then closing the reader. */
    method RecordSegment(segment: nat, pages: seq<Bytes>)
      modifies this
      ensures var rec := RecordPages(START, pages);
              && partFiles == Recorded(old(partFiles), segment, rec)
              && locations == AddLocations(old(locations), segment / SEGMENTS, Locations(rec.records))
              && cancelledDeltas == old(cancelledDeltas) + CancelledBy(segment, rec)
    {
      hide ParseStep, WithHead, WithTail, Record1, AddLocations;
      var parser := new WalParser();
      var canParsePreviousRecordTail := true;
      ghost var rec, start := START, Snapshot(partFiles, locations, cancelledDeltas);
      locations := AddLocations(locations, segment / SEGMENTS, []);
      for i := 0 to |pages|
        invariant parser.State() == rec.parser && canParsePreviousRecordTail == rec.canSaveTail
        invariant fresh(parser)
        invariant RecordPages(rec, pages[i..]) == RecordPages(START, pages)
        invariant Shows(start, segment, rec)
      {
        assert pages[i..][0] == pages[i] && pages[i..][1..] == pages[i + 1..];
        var r := parser.ParseRecordsFromPage(pages[i]);
        ghost var st := parser.State();
        canParsePreviousRecordTail := RecordOutput(segment, r, canParsePreviousRecordTail, start, rec, st);
        if r.Bad? && r.error != ZeroPage {
          parser.Invalidate();
        }
        Record1Parser(rec, st, r);
        rec := Record1(rec, st, r);
      }
      assert pages[|pages|..] == [];
      SaveNextWalHead(segment, parser.currentRecordData);
    }

    /** The bookkeeping of RecordBlockLocationsFromPage for what the parser returned. */
    method RecordOutput(segment: nat, r: Parsed<Output>, canSave: bool,
                        ghost start: Snapshot, ghost rec: Recording, ghost st: ParserState) returns (canStillSave: bool)
      requires Shows(start, segment, rec) && canSave == rec.canSaveTail
      modifies this
      ensures Shows(start, segment, Record1(rec, st, r)) && canStillSave == Record1(rec, st, r).canSaveTail
    {
      hide WithTail, AddLocations, Locations;
      canStillSave := canSave;
      if r.Bad? {
        if r.error != ZeroPage {
          CancelRecording(segment);
        }
        return;
      }
      var out := r.value;
      if out.tail == [] && out.records == [] {
        return;
      }
      if canSave {
        canStillSave := false;
        SavePreviousWalTail(segment, out.tail);
      } else if out.tail != [] {
        CancelRecording(segment);
        return;
      }
      LocationsAppend(rec.records, out.records);
      AddTwice(start.locations, segment / SEGMENTS, Locations(rec.records), Locations(out.records));
      locations := AddLocations(locations, segment / SEGMENTS, Locations(out.records));
    }
  }

  /** The manager's fields when a recording starts. */
  datatype Snapshot = Snapshot(partFiles: PartFiles, locations: map<nat, seq<BlockLocation>>, cancelled: set<nat>)

  /** A recording that failed gives up the delta of its segment and the one of the next segment. */
  function CancelledBy(segment: nat, rec: Recording): set<nat> {
    if rec.cancelled then {segment / SEGMENTS, (segment + 1) / SEGMENTS} else {}
  }

  /** Given up are exactly the deltas that need a part of the segment: its own, and the next one after the last segment. */
  lemma CancelsWhatNeedsIt(segment: nat, rec: Recording, delta: nat)
    ensures delta in CancelledBy(segment, rec) <==>
      rec.cancelled && SEGMENTS * delta <= segment + 1 && segment < SEGMENTS * delta + SEGMENTS
  {
  }

  lemma Record1Parser(rec: Recording, st: ParserState, r: Parsed<Output>)
    ensures Record1(rec, st, r).parser == if r.Bad? && r.error != ZeroPage then FRESH else st
  {
  }

  function AddLocations(m: map<nat, seq<BlockLocation>>, delta: nat, more: seq<BlockLocation>): map<nat, seq<BlockLocation>> {
    m[delta := (if delta in m then m[delta] else []) + more]
  }

  lemma AddTwice(m: map<nat, seq<BlockLocation>>, delta: nat, a: seq<BlockLocation>, b: seq<BlockLocation>)
    ensures AddLocations(AddLocations(m, delta, a), delta, b) == AddLocations(m, delta, a + b)
  {
    var before := if delta in m then m[delta] else [];
    assert before + a + b == before + (a + b);
  }

  /** The part files after a segment was recorded. */
  function Recorded(parts: PartFiles, segment: nat, rec: Recording): PartFiles {
    WithHead(if rec.saved.Some? then WithTail(parts, segment, rec.saved.value) else parts, segment, rec.parser.data)
  }
}
