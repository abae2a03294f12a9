/** From recording to the delta map: delta files that were recorded, saved and loaded are what the map relies on. */
module RecordedDeltas {
  import opened Bytes
  import opened XLogRecords
  import opened WalPages
  import opened WalLayout
  import opened WalParts
  import opened SegmentRecording
  import opened DeltaRecording
  import opened RecordingFiles
  import opened DeltaRange
  import opened DeltaMap

  // ---- one delta: record, save, load ----------------------------------------

  /** The stream and a fresh parser behind the segment before a delta. */
  function Entry(before: seq<Bytes>, s: Stream): Stream {
    if LaidPages(before, s) then After(before, s) else s
  }

  function EntryState(before: seq<Bytes>, s: Stream): ParserState {
    if LaidPages(before, s) then StateAfter(FRESH, before, s) else FRESH
  }

  /** Sixteen segments and the one before them carry the stream, and a record ends in each of them. */
  predicate Ready(before: seq<Bytes>, own: seq<seq<Bytes>>, s: Stream) {
    && |own| == SEGMENTS && ValidStream(s) && LaidPages(before, s) && RecordEnds(before, s)
    && LaidSegments(own, Entry(before, s)) && NoneSpanned(own, Entry(before, s))
  }

  /** The delta file holds the locations that one parser run through the delta finds, and what that parser is left with. */
  ghost predicate FromRecording(file: DeltaFile, before: seq<Bytes>, own: seq<seq<Bytes>>, s: Stream) {
    var run := RunPages(EntryState(before, s), Flat(own));
    && run.Good? && file.parser == run.value.state
    && forall x :: x in file.locations <==> Touches(RecordsOf(run.value.outputs), x)
  }

  lemma {:induction false} LocationsValid(rs: seq<Rec>)
    requires AllRecords(rs)
    ensures forall x :: x in Locations(Values(rs)) ==> ValidLocation(x)
  {
    hide IsRecord;
    if rs != [] {
      var n := |rs| - 1;
      LocationsValid(rs[..n]);
      assert Values(rs)[..n] == Values(rs[..n]);
      RecordLocationsValid(rs[n]);
      var last := LocationsOf(Values(rs)[n].blocks);
      forall x | x in Locations(Values(rs))
        ensures ValidLocation(x)
      {
        assert x in Locations(Values(rs[..n])) || x in last;
      }
    }
  }

  lemma RecordLocationsValid(r: Rec)
    requires IsRecord(r)
    ensures forall x :: x in LocationsOf(r.value.blocks) ==> ValidLocation(x)
  {
    hide ParseRecord, ReadRecordHeader, ValidLocation;
    ParsesBack(r);
    ParsedLocationsValid(r.bytes);
  }

  /** Everything one run over a delta leaves can be saved. */
  lemma RunIsSavable(before: seq<Bytes>, own: seq<seq<Bytes>>, s: Stream)
    requires Ready(before, own, s)
    ensures var run := RunPages(EntryState(before, s), Flat(own));
      && run.Good? && |run.value.state.data| < UINT32 && run.value.state == Holding(run.value.state.data)
      && forall x :: x in Locations(RecordsOf(run.value.outputs)) ==> ValidLocation(x)
  {
    hide IsRecord, RunPages, LaidPages, LaidSegments, StateAfter, After, Flat, CompletedBy, RecordEnds, NoneSpanned,
         Locations, Knowing, ValidStream;
    var st, s0 := EntryState(before, s), Entry(before, s);
    BeforeDelta(before, s);
    SequentialIsOneRun(st, own, s0);
    KnowingInSync(st, s0);
    RunLaid(st, Flat(own), s0);
    RunConserves(st, Flat(own), s0);
    KnownStateFits(StateAfter(st, Flat(own), s0), After(Flat(own), s0));
    CompletedAreRecords(st, Flat(own), s0);
    LocationsValid(CompletedBy(st, Flat(own), s0));
  }

  lemma KnownStateFits(st: ParserState, s: Stream)
    requires Knowing(st, s) && ValidStream(s)
    ensures |st.data| < UINT32 && st == Holding(st.data)
  {
    hide IsRecord;
    KnowingHolds(st, s);
    if st.hasBeginning {
      TotalLengthFits(s.cut.value);
    }
  }

  lemma CompletedAreRecords(st: ParserState, pages: seq<Bytes>, s: Stream)
    requires LaidPages(pages, s) && ValidStream(s) && Knowing(st, s)
    ensures AllRecords(CompletedBy(st, pages, s))
  {
    hide LaidPages, CompletedBy, After, IsRecord;
    RunConserves(st, pages, s);
    var all, done := InProgress(s) + s.records, CompletedBy(st, pages, s);
    assert AllRecords(all);
    forall k | 0 <= k < |done|
      ensures IsRecord(done[k])
    {
      assert done[k] == all[k];
    }
  }

  /**
   * A delta recorded from scratch, combined, saved and loaded again: the loaded file is what the recording found, unless
   * the list of locations contains the terminal one.
   */
  method RecordAndSave(manager: DeltaFileManager, delta: nat, order: seq<nat>, files: map<nat, seq<Bytes>>,
                       ghost pages: map<nat, seq<Bytes>>, ghost s: Stream)
    returns (saved: Bytes)
    requires NeededBy(order, delta) && LaidDelta(pages, delta, s)
    requires forall n :: n in order ==> n in pages && n in files && PaddedTo(files[n], pages[n])
    requires LocationsFor(manager.locations, delta) == []
    modifies manager
    ensures OneRun(pages, delta, s).Good?
    ensures var before, own := pages[SEGMENTS * delta - 1], Segments(pages, SEGMENTS * delta, SEGMENTS);
      && Ready(before, own, s)
      && (!Touches(RecordsOf(OneRun(pages, delta, s).value.outputs), TERMINAL) ==>
            LoadDelta(saved).Good? && FromRecording(LoadDelta(saved).value, before, own, s))
  {
    hide Locations, LoadDelta, SavedDelta, IsComplete, ValidLocation, RecordsOf, RunPages, LaidPages, LaidSegments,
         StateAfter, After, Flat, RecordEnds, NoneSpanned, ValidStream, Touches;
    assert Ready(pages[SEGMENTS * delta - 1], Segments(pages, SEGMENTS * delta, SEGMENTS), s);
    RunIsSavable(pages[SEGMENTS * delta - 1], Segments(pages, SEGMENTS * delta, SEGMENTS), s);
    var r := RecordDelta(manager, delta, order, files, pages, s);
    var locations := LocationsFor(manager.locations, delta);
    SameElements(locations, Locations(RecordsOf(OneRun(pages, delta, s).value.outputs)));
    AllLocationsAreBlocks(RecordsOf(OneRun(pages, delta, s).value.outputs));
    var head := PartOf(manager.partFiles, delta).heads[SEGMENTS - 1];
    var file := DeltaFile(locations, ParserState(head, true));
    saved := Save(file);
    DeltaRoundTrip(file);
  }

  method Save(file: DeltaFile) returns (b: Bytes)
    requires Savable(file)
    ensures b == SavedDelta(file)
  {
    hide EncodeLocation;
    var locations := WriteLocationsTo(file.locations + [TERMINAL]);
    b := locations + Encode(|file.parser.data|, 4) + file.parser.data;
  }

  // ---- consecutive deltas ---------------------------------------------------

  /** The stream at the beginning of the last segment of a delta. */
  function BeforeNext(before: seq<Bytes>, own: seq<seq<Bytes>>, s: Stream): Stream {
    if |own| == SEGMENTS && LaidSegments(own, Entry(before, s)) then At(own, Entry(before, s), SEGMENTS - 1) else s
  }

  /** Deltas one after the other carry the stream, and a record ends in each of their segments. */
  predicate Consecutive(before: seq<Bytes>, groups: seq<seq<seq<Bytes>>>, s: Stream)
    decreases |groups|
  {
    groups == [] ||
      (Ready(before, groups[0], s)
       && Consecutive(groups[0][SEGMENTS - 1], groups[1..], BeforeNext(before, groups[0], s)))
  }

  /** Each of them, from `d` on, has a delta file that comes from recording. */
  ghost predicate AllRecorded(deltas: map<nat, DeltaFile>, d: nat, before: seq<Bytes>, groups: seq<seq<seq<Bytes>>>, s: Stream)
    decreases |groups|
  {
    groups == [] ||
      (|groups[0]| == SEGMENTS && d in deltas && FromRecording(deltas[d], before, groups[0], s)
       && AllRecorded(deltas, d + SEGMENTS, groups[0][SEGMENTS - 1], groups[1..], BeforeNext(before, groups[0], s)))
  }

  lemma {:induction false} OverLast(st: ParserState, segs: seq<seq<Bytes>>, s: Stream)
    requires segs != [] && LaidSegments(segs, s)
    ensures LaidPages(segs[|segs| - 1], At(segs, s, |segs| - 1))
    ensures StreamOver(segs, s) == After(segs[|segs| - 1], At(segs, s, |segs| - 1))
    ensures LaidPages(Flat(segs), s) && StateOver(st, segs, s) == StateAfter(st, Flat(segs), s)
    decreases |segs|
  {
    hide LaidPages, After, StateAfter, Flat, CompletedBy;
    FlatFront(segs);
    if |segs| > 1 {
      OverLast(StateAfter(st, segs[0], s), segs[1..], After(segs[0], s));
      AppendPages(st, segs[0], Flat(segs[1..]), s);
      assert segs[1..][|segs| - 2] == segs[|segs| - 1];
    }
  }

  /** The parser and the stream behind a delta are those of a fresh parser behind its last segment. */
  lemma BehindDelta(before: seq<Bytes>, own: seq<seq<Bytes>>, s: Stream)
    requires Ready(before, own, s)
    ensures LaidPages(own[SEGMENTS - 1], BeforeNext(before, own, s))
    ensures StreamOver(own, Entry(before, s)) == After(own[SEGMENTS - 1], BeforeNext(before, own, s))
    ensures StateOver(EntryState(before, s), own, Entry(before, s))
         == StateAfter(FRESH, own[SEGMENTS - 1], BeforeNext(before, own, s))
  {
    hide LaidPages, After, StateAfter, Flat, CompletedBy, LaidSegments, NoneSpanned, RecordEnds, ValidStream, Knowing, At,
         StreamOver, StateOver;
    var st, s0 := EntryState(before, s), Entry(before, s);
    BeforeDelta(before, s);
    OverLast(st, own, s0);
    LastSegmentDecides(st, own, s0);
  }

  /** What one run finds is what the delta map counts for the delta. */
  lemma RunIsSequential(before: seq<Bytes>, own: seq<seq<Bytes>>, s: Stream)
    requires Ready(before, own, s)
    ensures var st, s0 := EntryState(before, s), Entry(before, s);
      var run := RunPages(st, Flat(own));
      && run.Good? && RecordsOf(run.value.outputs) == Values(Sequential(st, own, s0))
      && run.value.state == StateOver(st, own, s0)
  {
    hide LaidPages, After, StateAfter, Flat, CompletedBy, LaidSegments, NoneSpanned, RecordEnds, ValidStream, Knowing,
         StreamOver, StateOver, RunPages, Sequential, At;
    var st, s0 := EntryState(before, s), Entry(before, s);
    BeforeDelta(before, s);
    KnowingInSync(st, s0);
    SequentialIsOneRun(st, own, s0);
    OverLast(st, own, s0);
    RunLaid(st, Flat(own), s0);
  }

  /** Recorded deltas are faithful, and the last one has the parser that goes on behind them. */
  lemma {:induction false} RecordedIsFaithful(deltas: map<nat, DeltaFile>, d: nat, before: seq<Bytes>,
                                              groups: seq<seq<seq<Bytes>>>, s: Stream)
    requires groups != [] && Consecutive(before, groups, s) && AllRecorded(deltas, d, before, groups, s)
    ensures var st, s0 := EntryState(before, s), Entry(before, s);
      && LaidDeltas(groups, s0) && ValidStream(s0) && InSync(st, s0)
      && Faithful(deltas, d, groups, st, s0)
      && d + SEGMENTS * |groups| - SEGMENTS in deltas
      && deltas[d + SEGMENTS * |groups| - SEGMENTS].parser == Behind(groups, st, s0).0
    decreases |groups|
  {
    hide LaidPages, After, StateAfter, LaidSegments, NoneSpanned, RecordEnds, ValidStream, Knowing, StreamOver, StateOver,
         RunPages, Sequential, At, InSync, Locations, RecordsOf, Flat, Touches;
    var own := groups[0];
    var st, s0 := EntryState(before, s), Entry(before, s);
    BeforeDelta(before, s);
    KnowingInSync(st, s0);
    BehindDelta(before, own, s);
    RunIsSequential(before, own, s);
    AllLocationsAreBlocks(Values(Sequential(st, own, s0)));
    if |groups| > 1 {
      RecordedIsFaithful(deltas, d + SEGMENTS, own[SEGMENTS - 1], groups[1..], BeforeNext(before, own, s));
    }
  }

  /** The storage holds recorded delta files and the WAL files after them. */
  ghost predicate Stored(storage: Storage, firstUsed: nat, firstNotUsed: nat, size: nat,
                         before: seq<Bytes>, groups: seq<seq<seq<Bytes>>>, wals: seq<seq<Bytes>>, s: Stream)
    requires size > 0 && firstUsed < firstNotUsed && LastDelta(firstNotUsed, size) >= SEGMENTS
  {
    var first, last := FirstRead(firstUsed, firstNotUsed, size), LastDelta(firstNotUsed, size);
    && AllRecorded(storage.deltas, first, before, groups, s) && first + SEGMENTS * |groups| == last
    && last + |wals| == SegmentNo(firstNotUsed - 1, size) + 1
    && (forall k: nat :: last <= k < last + |wals| ==> k in storage.wals && PaddedTo(storage.wals[k], wals[k - last]))
  }

  /**
   * From recorded WAL to the map: with delta files that recording left and the WAL files after them, the delta map holds
   * exactly the blocks of the records that end in the covered range.
   */
  lemma RecordedMapIsExact(storage: Storage, firstUsed: nat, firstNotUsed: nat, size: nat,
                           before: seq<Bytes>, groups: seq<seq<seq<Bytes>>>, wals: seq<seq<Bytes>>, s: Stream)
    requires size > 0 && firstUsed < firstNotUsed < UINT64 && LastDelta(firstNotUsed, size) >= SEGMENTS
    requires groups != [] && Consecutive(before, groups, s)
    requires Stored(storage, firstUsed, firstNotUsed, size, before, groups, wals, s)
    requires LaidDeltas(groups, Entry(before, s))
    requires LaidSegments(wals, Behind(groups, EntryState(before, s), Entry(before, s)).1)
    ensures Available(storage, firstUsed, firstNotUsed, size) && FromWals(storage, firstUsed, firstNotUsed, size).Good?
    ensures var st, s0 := EntryState(before, s), Entry(before, s);
      forall x ::
        FromDeltas(storage, firstUsed, firstNotUsed, size, x) || x in FromWals(storage, firstUsed, firstNotUsed, size).value
        <==> Touches(Values(EndingIn(groups, st, s0) + Sequential(Behind(groups, st, s0).0, wals, Behind(groups, st, s0).1)), x)
  {
    hide LaidPages, After, StateAfter, LaidSegments, ValidStream, InSync, Sequential, Locations, Faithful, Behind, EndingIn,
         AllRecorded, SegmentNo, FirstRead, LastDelta, FromDeltas, FromWals, Available, LaidDeltas, Ready, Entry,
         EntryState, Consecutive, Touches;
    var first := FirstRead(firstUsed, firstNotUsed, size);
    RecordedIsFaithful(storage.deltas, first, before, groups, s);
    DeltaMapIsExact(storage, firstUsed, firstNotUsed, size, groups, wals,
                    EntryState(before, s), Entry(before, s));
  }
}
