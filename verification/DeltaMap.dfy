/** The map of changed blocks: PagedFileDeltaMap, filled from delta files and from the WAL files after them. */
module DeltaMap {
  import opened Bytes
  import opened XLogRecords
  import opened WalPages
  import opened WalLayout
  import opened WalParts
  import opened SegmentRecording
  import opened RecordingFiles
  import opened DeltaRange

  // ---- locations of WAL files -----------------------------------------------

  /** ExtractLocationsFromWalFile: zero pages are passed over. */
  function Extract(st: ParserState, pages: seq<Bytes>): Parsed<(ParserState, seq<BlockLocation>)>
    decreases |pages|
  {
    if pages == [] then Good((st, []))
    else
      var (next, r) := ParseStep(st, pages[0]);
      match r
      case Good(out) =>
        var (end, ls) :- Extract(next, pages[1..]);
        Good((end, Locations(out.records) + ls))
      case Bad(ZeroPage) => Extract(next, pages[1..])
      case Bad(e) => Bad(e)
  }

  /** One parser through several WAL files. */
  function ExtractAll(st: ParserState, segs: seq<seq<Bytes>>): Parsed<seq<BlockLocation>>
    decreases |segs|
  {
    if segs == [] then Good([])
    else
      var (next, ls) :- Extract(st, segs[0]);
      var rest :- ExtractAll(next, segs[1..]);
      Good(ls + rest)
  }

  method ExtractLocationsFromWalFile(parser: WalParser, pages: seq<Bytes>) returns (r: Parsed<seq<BlockLocation>>)
    modifies parser
    ensures match Extract(old(parser.State()), pages)
      case Good((st, ls)) => r == Good(ls) && parser.State() == st
      case Bad(e) => r == Bad(e)
  {
    hide ParseStep, Locations;
    ghost var all := Extract(parser.State(), pages);
    var locations := [];
    assert all.Good? ==> [] + all.value.1 == all.value.1;
    for i := 0 to |pages|
      invariant match Extract(parser.State(), pages[i..])
        case Good((st, ls)) => all == Good((st, locations + ls))
        case Bad(e) => all == Bad(e)
    {
      assert pages[i..][1..] == pages[i + 1..];
      var page := parser.ParseRecordsFromPage(pages[i]);
      match page {
        case Good(out) =>
          ghost var rest := Extract(parser.State(), pages[i + 1..]);
          if rest.Good? {
            var ls := rest.value.1;
            assert locations + (Locations(out.records) + ls) == (locations + Locations(out.records)) + ls;
          }
          locations := locations + Locations(out.records);
        case Bad(e) =>
          if e != ZeroPage {
            return Bad(e);
          }
      }
    }
    assert locations + [] == locations;
    return Good(locations);
  }

  lemma {:induction false} ExtractRun(st: ParserState, pages: seq<Bytes>)
    requires RunPages(st, pages).Good?
    ensures var run := RunPages(st, pages).value;
      Extract(st, pages) == Good((run.state, Locations(RecordsOf(run.outputs))))
    decreases |pages|
  {
    hide ParseStep, Locations;
    if pages == [] {
      NoLocations();
    } else {
      var (next, r) := ParseStep(st, pages[0]);
      ExtractRun(next, pages[1..]);
      LocationsAppend(r.value.records, RecordsOf(RunPages(next, pages[1..]).value.outputs));
      var outputs := RunPages(next, pages[1..]).value.outputs;
      assert ([r.value] + outputs)[1..] == outputs;
    }
  }

  lemma NoLocations()
    ensures Locations([]) == []
  {
  }

  /** The parser after all the segments. */
  function StateOver(st: ParserState, segs: seq<seq<Bytes>>, s: Stream): ParserState
    requires LaidSegments(segs, s)
    decreases |segs|
  {
    if segs == [] then st else StateOver(StateAfter(st, segs[0], s), segs[1..], After(segs[0], s))
  }

  /** Laid WAL gives the locations of exactly the records that end in it. */
  lemma {:induction false} ExtractLaid(st: ParserState, segs: seq<seq<Bytes>>, s: Stream)
    requires LaidSegments(segs, s) && ValidStream(s) && InSync(st, s)
    ensures ExtractAll(st, segs) == Good(Locations(Values(Sequential(st, segs, s))))
    decreases |segs|
  {
    hide ParseStep, Locations, LaidPages, ValidStream, InSync, CompletedBy, StateAfter, After, Extract;
    if segs == [] {
      NoLocations();
      assert Values([]) == [];
    } else {
      RunLaid(st, segs[0], s);
      ExtractRun(st, segs[0]);
      var done, rest := CompletedBy(st, segs[0], s), Sequential(StateAfter(st, segs[0], s), segs[1..], After(segs[0], s));
      ExtractLaid(StateAfter(st, segs[0], s), segs[1..], After(segs[0], s));
      assert Values(done + rest) == Values(done) + Values(rest);
      LocationsAppend(Values(done), Values(rest));
    }
  }

  /** Zero pages at the end of a WAL file are passed over. */
  lemma {:induction false} ExtractPadded(st: ParserState, pages: seq<Bytes>, laid: seq<Bytes>)
    requires PaddedTo(pages, laid)
    ensures Extract(st, pages) == Extract(st, laid)
    decreases |pages|
  {
    hide ParseStep, Locations;
    if laid != [] {
      ExtractPadded(ParseStep(st, pages[0]).0, pages[1..], laid[1..]);
    } else if pages != [] {
      ZeroPageParses(st, pages[0]);
      ExtractPadded(st, pages[1..], []);
    }
  }

  lemma {:induction false} ExtractAllPadded(st: ParserState, files: seq<seq<Bytes>>, laid: seq<seq<Bytes>>)
    requires |files| == |laid| && forall k :: 0 <= k < |files| ==> PaddedTo(files[k], laid[k])
    ensures ExtractAll(st, files) == ExtractAll(st, laid)
    decreases |files|
  {
    hide Extract, PaddedTo;
    if files != [] {
      ExtractPadded(st, files[0], laid[0]);
      if Extract(st, files[0]).Good? {
        ExtractAllPadded(Extract(st, files[0]).value.0, files[1..], laid[1..]);
      }
    }
  }

  /** In terms of blocks: what is extracted are the locations of all blocks of the records that end in the WAL. */
  lemma ExtractedBlocks(st: ParserState, segs: seq<seq<Bytes>>, s: Stream)
    requires LaidSegments(segs, s) && ValidStream(s) && InSync(st, s)
    ensures ExtractAll(st, segs).Good?
    ensures forall x :: x in ExtractAll(st, segs).value <==> Touches(Values(Sequential(st, segs, s)), x)
  {
    hide ExtractAll, LaidSegments, ValidStream, InSync, Sequential, Locations, Touches;
    ExtractLaid(st, segs, s);
    AllLocationsAreBlocks(Values(Sequential(st, segs, s)));
  }

  // ---- the map --------------------------------------------------------------

  /** The stored delta files and the pages of the stored WAL files, by number. */
  datatype Storage = Storage(deltas: map<nat, DeltaFile>, wals: map<nat, seq<Bytes>>)

  class PagedFileDeltaMap {
    var bitmaps: map<RelFileNode, set<nat>>

    ghost predicate Has(l: BlockLocation)
      reads this
    {
      l.relation in bitmaps && l.blockNo in bitmaps[l.relation]
    }

    constructor ()
      ensures bitmaps == map[]
    {
      bitmaps := map[];
    }

    method AddLocationToDelta(l: BlockLocation)
      modifies this
      ensures forall x :: Has(x) <==> old(Has(x)) || x == l
    {
      if l.relation !in bitmaps {
        bitmaps := bitmaps[l.relation := {l.blockNo}];
      } else {
        bitmaps := bitmaps[l.relation := bitmaps[l.relation] + {l.blockNo}];
      }
    }

    method AddLocationsToDelta(ls: seq<BlockLocation>)
      modifies this
      ensures forall x :: Has(x) <==> old(Has(x)) || x in ls
    {
      for i := 0 to |ls|
        invariant forall x :: Has(x) <==> old(Has(x)) || x in ls[..i]
      {
        AddLocationToDelta(ls[i]);
        assert ls[..i + 1] == ls[..i] + [ls[i]];
      }
      assert ls[..|ls|] == ls;
    }

    /** getLocationsFromDeltas: the delta files from `first` to before `last`. */
    method GetLocationsFromDeltas(deltas: map<nat, DeltaFile>, first: nat, last: nat) returns (ok: bool)
      requires first % SEGMENTS == 0 && last % SEGMENTS == 0
      modifies this
      ensures ok <==> forall d: nat :: IsDelta(d, first, last) ==> d in deltas
      ensures ok ==> forall x :: Has(x) <==> old(Has(x)) || InDeltas(deltas, first, last, x)
    {
      var d := first;
      while d < last
        invariant d % SEGMENTS == 0 && first <= d && (d <= last || d == first)
        invariant forall e: nat :: IsDelta(e, first, last) && e < d ==> e in deltas
        invariant forall x :: Has(x) <==> old(Has(x)) || InDeltas(deltas, first, d, x)
      {
        assert IsDelta(d, first, last);
        if d !in deltas {
          return false;
        }
        AddLocationsToDelta(deltas[d].locations);
        NextDelta(deltas, first, d);
        d := d + SEGMENTS;
      }
      return true;
    }

    /** getLocationsFromWals: the WAL files from `first` to before `last`, with one parser. */
    method GetLocationsFromWals(wals: map<nat, seq<Bytes>>, first: nat, last: nat, parser: WalParser) returns (ok: bool)
      requires first <= last
      modifies this, parser
      ensures ok <==> AllPresent(wals, first, last) && ExtractAll(old(parser.State()), Files(wals, first, last)).Good?
      ensures ok ==> forall x :: Has(x) <==>
        old(Has(x)) || x in ExtractAll(old(parser.State()), Files(wals, first, last)).value
    {
      hide Extract;
      ghost var st := parser.State();
      ghost var got := [];
      var n := first;
      PrefixedByNothing();
      while n < last
        invariant first <= n <= last && AllPresent(wals, first, n)
        invariant forall x :: Has(x) <==> old(Has(x)) || x in got
        invariant AllPresent(wals, n, last) ==>
          ExtractAll(st, Files(wals, first, last)) == Prefixed(got, ExtractAll(parser.State(), Files(wals, n, last)))
      {
        if n !in wals {
          return false;
        }
        var r := ExtractLocationsFromWalFile(parser, wals[n]);
        if AllPresent(wals, n, last) {
          NextFile(wals, n, last);
        }
        if r.Bad? {
          return false;
        }
        AddLocationsToDelta(r.value);
        if AllPresent(wals, n + 1, last) {
          PrefixedTwice(got, r.value, ExtractAll(parser.State(), Files(wals, n + 1, last)));
        }
        got := got + r.value;
        n := n + 1;
      }
      return true;
    }

    /** GetDeltaBitmapFor: no bitmap when the relation is not in the map. */
    method GetDeltaBitmapFor(relation: RelFileNode, fileId: nat) returns (r: Option<set<nat>>)
      ensures r.None? <==> relation !in bitmaps
      ensures r.Some? ==> forall x :: x in r.value <==>
        0 <= x < FILE_BLOCKS && Has(BlockLocation(relation, fileId * FILE_BLOCKS + x))
    {
      if relation !in bitmaps {
        return None;
      }
      var blocks := SelectRelFileBlocks(bitmaps[relation], fileId);
      return Some(blocks);
    }
  }

  // ---- blocks of one file ---------------------------------------------------

  /** BlocksInRelFile: a relation is stored in files of 1 GB. */
  const FILE_BLOCKS: nat := 131072

  /** SelectRelFileBlocks: the blocks that fall into one file of the relation, counted from its beginning. */
  method SelectRelFileBlocks(bitmap: set<nat>, fileId: nat) returns (blocks: set<nat>)
    ensures forall x :: x in blocks <==> 0 <= x < FILE_BLOCKS && fileId * FILE_BLOCKS + x in bitmap
  {
    var base := fileId * FILE_BLOCKS;
    var rest := set b | b in bitmap && base <= b < base + FILE_BLOCKS;
    blocks := {};
    ghost var range := rest;
    while rest != {}
      invariant rest <= range
      invariant forall b :: b in range && b !in rest ==> b - base in blocks
      invariant forall x :: x in blocks ==> x + base in range
      decreases |rest|
    {
      var b :| b in rest;
      rest := rest - {b};
      blocks := blocks + {b - base};
    }
    forall x | 0 <= x < FILE_BLOCKS && base + x in bitmap
      ensures x in blocks
    {
      assert base + x in range;
    }
  }

  predicate IsDelta(d: nat, first: nat, last: nat) {
    d % SEGMENTS == 0 && first <= d < last
  }

  ghost predicate InDeltas(deltas: map<nat, DeltaFile>, first: nat, last: nat, x: BlockLocation) {
    exists d: nat :: IsDelta(d, first, last) && d in deltas && x in deltas[d].locations
  }

  lemma NextDelta(deltas: map<nat, DeltaFile>, first: nat, d: nat)
    requires first <= d && d % SEGMENTS == 0 && d in deltas
    ensures forall x :: InDeltas(deltas, first, d + SEGMENTS, x) <==> InDeltas(deltas, first, d, x) || x in deltas[d].locations
  {
    hide IsDelta;
    forall e: nat
      ensures IsDelta(e, first, d + SEGMENTS) <==> IsDelta(e, first, d) || e == d
    {
      OneMoreDelta(e, first, d);
    }
    forall x
      ensures InDeltas(deltas, first, d + SEGMENTS, x) <==> InDeltas(deltas, first, d, x) || x in deltas[d].locations
    {
      if x in deltas[d].locations {
        OneMoreDelta(d, first, d);
      }
    }
  }

  lemma OneMoreDelta(e: nat, first: nat, d: nat)
    requires first <= d && d % SEGMENTS == 0
    ensures IsDelta(e, first, d + SEGMENTS) <==> IsDelta(e, first, d) || e == d
  {
  }

  predicate AllPresent(wals: map<nat, seq<Bytes>>, first: nat, last: nat) {
    forall n :: first <= n < last ==> n in wals
  }

  function Files(wals: map<nat, seq<Bytes>>, first: nat, last: nat): seq<seq<Bytes>>
    requires first <= last && AllPresent(wals, first, last)
  {
    seq(last - first, i requires 0 <= i < last - first => wals[first + i])
  }

  lemma NextFile(wals: map<nat, seq<Bytes>>, n: nat, last: nat)
    requires n < last && AllPresent(wals, n, last)
    ensures Files(wals, n, last)[0] == wals[n] && Files(wals, n, last)[1..] == Files(wals, n + 1, last)
  {
  }

  function Prefixed(got: seq<BlockLocation>, r: Parsed<seq<BlockLocation>>): Parsed<seq<BlockLocation>> {
    match r
    case Good(ls) => Good(got + ls)
    case Bad(e) => Bad(e)
  }

  lemma PrefixedTwice(a: seq<BlockLocation>, b: seq<BlockLocation>, r: Parsed<seq<BlockLocation>>)
    ensures Prefixed(a, Prefixed(b, r)) == Prefixed(a + b, r)
  {
    if r.Good? {
      assert a + (b + r.value) == (a + b) + r.value;
    }
  }

  lemma PrefixedByNothing()
    ensures forall r :: Prefixed([], r) == r
  {
    assert forall ls: seq<BlockLocation> :: [] + ls == ls;
  }

  // ---- the download ---------------------------------------------------------

  /** The files a delta map needs: the deltas before the last one, the last one, and the WAL files after it. */
  ghost predicate Available(storage: Storage, firstUsed: nat, firstNotUsed: nat, size: nat)
    requires size > 0 && 0 < firstNotUsed
  {
    && (forall d: nat :: ReadsDelta(firstUsed, firstNotUsed, size, d) ==> d in storage.deltas)
    && (forall n: nat :: ReadsWal(firstNotUsed, size, n) ==> n in storage.wals)
  }

  /** The parser of the last delta file goes on with the WAL files. */
  ghost function FromWals(storage: Storage, firstUsed: nat, firstNotUsed: nat, size: nat): Parsed<seq<BlockLocation>>
    requires size > 0 && firstUsed < firstNotUsed && Available(storage, firstUsed, firstNotUsed, size)
  {
    WalRange(firstUsed, firstNotUsed, size);
    assert ReadsDelta(firstUsed, firstNotUsed, size, Previous(LastDelta(firstNotUsed, size)));
    ExtractAll(storage.deltas[Previous(LastDelta(firstNotUsed, size))].parser,
               Files(storage.wals, LastDelta(firstNotUsed, size), SegmentNo(firstNotUsed - 1, size) + 1))
  }

  lemma WalRange(firstUsed: nat, firstNotUsed: nat, size: nat)
    requires size > 0 && firstUsed < firstNotUsed
    ensures LastDelta(firstNotUsed, size) <= SegmentNo(firstNotUsed - 1, size) + 1
    ensures forall n: nat :: LastDelta(firstNotUsed, size) <= n < SegmentNo(firstNotUsed - 1, size) + 1 ==>
      ReadsWal(firstNotUsed, size, n)
  {
    PreviousSegment(firstNotUsed, size);
    DeltaBounds(SegmentNo(firstNotUsed, size));
  }

  ghost predicate FromDeltas(storage: Storage, firstUsed: nat, firstNotUsed: nat, size: nat, x: BlockLocation)
    requires size > 0
  {
    exists d: nat :: ReadsDelta(firstUsed, firstNotUsed, size, d) && d in storage.deltas && x in storage.deltas[d].locations
  }

  /**
   * getDeltaMap: it succeeds exactly when every file of the coverage is there and the WAL parses, and then holds exactly
   * the locations of those files.
   */
  method GetDeltaMap(storage: Storage, firstUsed: nat, firstNotUsed: nat, size: nat)
    returns (ok: bool, deltaMap: PagedFileDeltaMap)
    requires size > 0 && firstUsed < firstNotUsed < UINT64
    ensures ok <==> Available(storage, firstUsed, firstNotUsed, size)
                    && FromWals(storage, firstUsed, firstNotUsed, size).Good?
    ensures ok ==> forall x :: deltaMap.Has(x) <==>
      FromDeltas(storage, firstUsed, firstNotUsed, size, x) || x in FromWals(storage, firstUsed, firstNotUsed, size).value
  {
    hide SegmentNo, ExtractAll;
    WalRange(firstUsed, firstNotUsed, size);
    deltaMap := new PagedFileDeltaMap();
    var first, last := DeltaNo(SegmentNo(firstUsed, size)), LastDelta(firstNotUsed, size);
    var previous := Previous(last);
    DeltasRead(storage.deltas, firstUsed, firstNotUsed, size);
    ok := deltaMap.GetLocationsFromDeltas(storage.deltas, first, previous);
    if !ok || previous !in storage.deltas {
      return false, deltaMap;
    }
    var lastFile := storage.deltas[previous];
    deltaMap.AddLocationsToDelta(lastFile.locations);
    var parser := new WalParser.Loaded(lastFile.parser);
    ok := deltaMap.GetLocationsFromWals(storage.wals, last, SegmentNo(firstNotUsed - 1, size) + 1, parser);
  }

  /** The delta files of the loop and the last one are those the coverage speaks of. */
  lemma DeltasRead(deltas: map<nat, DeltaFile>, firstUsed: nat, firstNotUsed: nat, size: nat)
    requires size > 0
    ensures var first, last := DeltaNo(SegmentNo(firstUsed, size)), Previous(LastDelta(firstNotUsed, size));
      && first % SEGMENTS == 0 && last % SEGMENTS == 0
      && (forall d: nat :: ReadsDelta(firstUsed, firstNotUsed, size, d) <==> d == last || IsDelta(d, first, last))
  {
    hide SegmentNo;
    DeltaBounds(SegmentNo(firstUsed, size));
    DeltaBounds(SegmentNo(firstNotUsed, size));
  }

  // ---- exactness ------------------------------------------------------------

  function StreamOver(segs: seq<seq<Bytes>>, s: Stream): Stream
    requires LaidSegments(segs, s)
    decreases |segs|
  {
    if segs == [] then s else StreamOver(segs[1..], After(segs[0], s))
  }

  /** The WAL of consecutive deltas, laid out one after the other. */
  ghost predicate LaidDeltas(groups: seq<seq<seq<Bytes>>>, s: Stream)
    decreases |groups|
  {
    groups == [] || (LaidSegments(groups[0], s) && LaidDeltas(groups[1..], StreamOver(groups[0], s)))
  }

  /** All records that end in the deltas, for a parser that goes through them. */
  ghost function EndingIn(groups: seq<seq<seq<Bytes>>>, st: ParserState, s: Stream): seq<Rec>
    requires LaidDeltas(groups, s)
    decreases |groups|
  {
    if groups == [] then []
    else Sequential(st, groups[0], s) + EndingIn(groups[1..], StateOver(st, groups[0], s), StreamOver(groups[0], s))
  }

  /** Parser and stream behind the deltas. */
  ghost function Behind(groups: seq<seq<seq<Bytes>>>, st: ParserState, s: Stream): (ParserState, Stream)
    requires LaidDeltas(groups, s)
    decreases |groups|
  {
    if groups == [] then (st, s) else Behind(groups[1..], StateOver(st, groups[0], s), StreamOver(groups[0], s))
  }

  /** Each delta file from `d` on holds the locations of exactly the records that end in it, as recording leaves it. */
  ghost predicate Faithful(deltas: map<nat, DeltaFile>, d: nat, groups: seq<seq<seq<Bytes>>>, st: ParserState, s: Stream)
    requires LaidDeltas(groups, s)
    decreases |groups|
  {
    groups == [] ||
      (d in deltas
       && (forall x :: x in deltas[d].locations <==> x in Locations(Values(Sequential(st, groups[0], s))))
       && Faithful(deltas, d + SEGMENTS, groups[1..], StateOver(st, groups[0], s), StreamOver(groups[0], s)))
  }

  lemma {:induction false} OverKeepsSync(st: ParserState, segs: seq<seq<Bytes>>, s: Stream)
    requires LaidSegments(segs, s) && ValidStream(s) && InSync(st, s)
    ensures ValidStream(StreamOver(segs, s)) && InSync(StateOver(st, segs, s), StreamOver(segs, s))
    decreases |segs|
  {
    hide LaidPages, ValidStream, InSync, CompletedBy, StateAfter, After;
    if segs != [] {
      RunLaid(st, segs[0], s);
      OverKeepsSync(StateAfter(st, segs[0], s), segs[1..], After(segs[0], s));
    }
  }

  lemma {:induction false} BehindInSync(groups: seq<seq<seq<Bytes>>>, st: ParserState, s: Stream)
    requires LaidDeltas(groups, s) && ValidStream(s) && InSync(st, s)
    ensures ValidStream(Behind(groups, st, s).1) && InSync(Behind(groups, st, s).0, Behind(groups, st, s).1)
    decreases |groups|
  {
    hide LaidSegments, ValidStream, InSync, StateOver, StreamOver;
    if groups != [] {
      OverKeepsSync(st, groups[0], s);
      BehindInSync(groups[1..], StateOver(st, groups[0], s), StreamOver(groups[0], s));
    }
  }

  lemma {:induction false} FaithfulDeltas(deltas: map<nat, DeltaFile>, d: nat, groups: seq<seq<seq<Bytes>>>,
                                          st: ParserState, s: Stream)
    requires d % SEGMENTS == 0 && LaidDeltas(groups, s) && Faithful(deltas, d, groups, st, s)
    ensures forall e: nat :: IsDelta(e, d, d + SEGMENTS * |groups|) ==> e in deltas
    ensures forall x :: InDeltas(deltas, d, d + SEGMENTS * |groups|, x) <==> x in Locations(Values(EndingIn(groups, st, s)))
    decreases |groups|
  {
    hide LaidSegments, StateOver, StreamOver, Sequential, Locations;
    if groups == [] {
      NoLocations();
      assert Values([]) == [];
    } else {
      var next, end := d + SEGMENTS, d + SEGMENTS * |groups|;
      var st', s' := StateOver(st, groups[0], s), StreamOver(groups[0], s);
      FaithfulDeltas(deltas, next, groups[1..], st', s');
      assert next + SEGMENTS * |groups[1..]| == end;
      FirstDelta(deltas, d, end);
      var done, rest := Sequential(st, groups[0], s), EndingIn(groups[1..], st', s');
      assert Values(done + rest) == Values(done) + Values(rest);
      LocationsAppend(Values(done), Values(rest));
    }
  }

  lemma FirstDelta(deltas: map<nat, DeltaFile>, d: nat, end: nat)
    requires d % SEGMENTS == 0 && d in deltas && d < end
    ensures forall e: nat :: IsDelta(e, d, end) <==> e == d || IsDelta(e, d + SEGMENTS, end)
    ensures forall x :: InDeltas(deltas, d, end, x) <==> x in deltas[d].locations || InDeltas(deltas, d + SEGMENTS, end, x)
  {
    hide IsDelta;
    forall e: nat
      ensures IsDelta(e, d, end) <==> e == d || IsDelta(e, d + SEGMENTS, end)
    {
      OneLessDelta(e, d, end);
    }
    forall x
      ensures InDeltas(deltas, d, end, x) <==> x in deltas[d].locations || InDeltas(deltas, d + SEGMENTS, end, x)
    {
      if x in deltas[d].locations {
        OneLessDelta(d, d, end);
      }
    }
  }

  lemma OneLessDelta(e: nat, d: nat, end: nat)
    requires d % SEGMENTS == 0 && d < end
    ensures IsDelta(e, d, end) <==> e == d || IsDelta(e, d + SEGMENTS, end)
  {
  }

  /** The first delta file read. */
  function FirstRead(firstUsed: nat, firstNotUsed: nat, size: nat): nat
    requires size > 0 && LastDelta(firstNotUsed, size) >= SEGMENTS
  {
    var first, last := DeltaNo(SegmentNo(firstUsed, size)), LastDelta(firstNotUsed, size);
    if first < last then first else last - SEGMENTS
  }

  /** The storage holds faithful delta files, the parser of the last one, and the WAL files after it. */
  ghost predicate Recorded(storage: Storage, firstUsed: nat, firstNotUsed: nat, size: nat,
                           groups: seq<seq<seq<Bytes>>>, wals: seq<seq<Bytes>>, st: ParserState, s: Stream)
    requires size > 0 && firstUsed < firstNotUsed && LastDelta(firstNotUsed, size) >= SEGMENTS && LaidDeltas(groups, s)
  {
    var first, last := FirstRead(firstUsed, firstNotUsed, size), LastDelta(firstNotUsed, size);
    && first + SEGMENTS * |groups| == last && Faithful(storage.deltas, first, groups, st, s)
    && last - SEGMENTS in storage.deltas && storage.deltas[last - SEGMENTS].parser == Behind(groups, st, s).0
    && last + |wals| == SegmentNo(firstNotUsed - 1, size) + 1
    && (forall n: nat :: last <= n < last + |wals| ==> n in storage.wals && PaddedTo(storage.wals[n], wals[n - last]))
  }

  /**
   * The delta map holds exactly the blocks of the records that end in the covered range: those the delta files
   * recorded, those of the WAL files after them, and those of the record cut between the two.
   */
  lemma DeltaMapIsExact(storage: Storage, firstUsed: nat, firstNotUsed: nat, size: nat,
                        groups: seq<seq<seq<Bytes>>>, wals: seq<seq<Bytes>>, st: ParserState, s: Stream)
    requires size > 0 && firstUsed < firstNotUsed < UINT64 && LastDelta(firstNotUsed, size) >= SEGMENTS
    requires LaidDeltas(groups, s) && ValidStream(s) && InSync(st, s) && LaidSegments(wals, Behind(groups, st, s).1)
    requires Recorded(storage, firstUsed, firstNotUsed, size, groups, wals, st, s)
    ensures Available(storage, firstUsed, firstNotUsed, size) && FromWals(storage, firstUsed, firstNotUsed, size).Good?
    ensures forall x ::
      FromDeltas(storage, firstUsed, firstNotUsed, size, x) || x in FromWals(storage, firstUsed, firstNotUsed, size).value
      <==> Touches(Values(EndingIn(groups, st, s) + Sequential(Behind(groups, st, s).0, wals, Behind(groups, st, s).1)), x)
  {
    hide SegmentNo, ExtractAll, LaidSegments, Sequential, Locations, EndingIn, Behind, Faithful, LaidDeltas, ValidStream,
         InSync, Touches;
    var first, last := FirstRead(firstUsed, firstNotUsed, size), LastDelta(firstNotUsed, size);
    var (st', s') := Behind(groups, st, s);
    FirstReadIsDelta(firstUsed, firstNotUsed, size);
    FaithfulDeltas(storage.deltas, first, groups, st, s);
    ReadIsInterval(storage, firstUsed, firstNotUsed, size);
    WalRange(firstUsed, firstNotUsed, size);
    ExtractAllPadded(st', Files(storage.wals, last, SegmentNo(firstNotUsed - 1, size) + 1), wals);
    BehindInSync(groups, st, s);
    ExtractLaid(st', wals, s');
    var done, rest := EndingIn(groups, st, s), Sequential(st', wals, s');
    assert Values(done + rest) == Values(done) + Values(rest);
    LocationsAppend(Values(done), Values(rest));
    AllLocationsAreBlocks(Values(done + rest));
  }

  lemma FirstReadIsDelta(firstUsed: nat, firstNotUsed: nat, size: nat)
    requires size > 0 && LastDelta(firstNotUsed, size) >= SEGMENTS
    ensures FirstRead(firstUsed, firstNotUsed, size) % SEGMENTS == 0
  {
    hide SegmentNo;
    DeltaBounds(SegmentNo(firstUsed, size));
    DeltaBounds(SegmentNo(firstNotUsed, size));
  }

  /** The delta files read are all those from the first one read to before the last delta. */
  lemma ReadIsInterval(storage: Storage, firstUsed: nat, firstNotUsed: nat, size: nat)
    requires size > 0 && firstUsed < firstNotUsed < UINT64 && LastDelta(firstNotUsed, size) >= SEGMENTS
    ensures var first, last := FirstRead(firstUsed, firstNotUsed, size), LastDelta(firstNotUsed, size);
      && Previous(last) == last - SEGMENTS
      && (forall d: nat :: ReadsDelta(firstUsed, firstNotUsed, size, d) <==> IsDelta(d, first, last))
      && (forall x :: FromDeltas(storage, firstUsed, firstNotUsed, size, x) <==> InDeltas(storage.deltas, first, last, x))
  {
    hide SegmentNo;
    SegmentsAscend(firstUsed, firstNotUsed, size);
    BelowUint64(firstNotUsed, size);
    DeltaBounds(SegmentNo(firstUsed, size));
    DeltaBounds(SegmentNo(firstNotUsed, size));
  }
}
