/** A whole delta: sixteen segments and the one before them recorded in any order, then the part file combined. */
module DeltaRecording {
  import opened Bytes
  import opened XLogRecords
  import opened WalPages
  import opened WalLayout
  import opened WalParts
  import opened SegmentRecording

  // ---- combining a part file ------------------------------------------------

  predicate IsComplete(p: PartFile) {
    && p.previousHead.Some?
    && forall i :: 0 <= i < SEGMENTS ==> i in p.tails && i in p.heads
  }

  /** The head recorded before slot `id`; an absent part is empty. */
  function HeadBefore(p: PartFile, id: nat): Bytes {
    if id == 0 then (if p.previousHead.Some? then p.previousHead.value else [])
    else if id - 1 in p.heads then p.heads[id - 1] else []
  }

  function Joint(p: PartFile, id: nat): Bytes {
    HeadBefore(p, id) + if id in p.tails then p.tails[id] else []
  }

  /** The records glued in slots `id` and up. */
  function CombinedFrom(p: PartFile, id: nat): Parsed<seq<Record>>
    decreases SEGMENTS - id
  {
    if SEGMENTS <= id then Good([])
    else if Joint(p, id) == [] then CombinedFrom(p, id + 1)
    else
      var record :- ParseRecord(Joint(p, id));
      var rest :- CombinedFrom(p, id + 1);
      Good([record] + rest)
  }

  method CombineRecords(p: PartFile) returns (r: Parsed<seq<Record>>)
    ensures r == CombinedFrom(p, 0)
  {
    hide ParseRecord, Joint;
    var records: seq<Record> := [];
    var id := 0;
    PrefixedNothing(CombinedFrom(p, 0));
    while id < SEGMENTS
      invariant id <= SEGMENTS
      invariant CombinedFrom(p, 0) == Prefixed(records, CombinedFrom(p, id))
    {
      var recordData := Joint(p, id);
      if recordData != [] {
        var record := ParseXLogRecordFromBytes(recordData);
        if record.Bad? {
          return Bad(record.error);
        }
        PrefixedTwice(records, record.value, CombinedFrom(p, id + 1));
        records := records + [record.value];
      }
      id := id + 1;
    }
    assert records + [] == records;
    return Good(records);
  }

  function Prefixed(records: seq<Record>, rest: Parsed<seq<Record>>): Parsed<seq<Record>> {
    match rest
    case Bad(e) => Bad(e)
    case Good(more) => Good(records + more)
  }

  lemma PrefixedNothing(rest: Parsed<seq<Record>>)
    ensures Prefixed([], rest) == rest
  {
    if rest.Good? {
      assert [] + rest.value == rest.value;
    }
  }

  lemma PrefixedTwice(records: seq<Record>, record: Record, rest: Parsed<seq<Record>>)
    ensures Prefixed(records, Prefixed([record], rest)) == Prefixed(records + [record], rest)
  {
    if rest.Good? {
      assert records + ([record] + rest.value) == records + [record] + rest.value;
    }
  }

  // ---- what a part file of laid segments combines to -------------------------

  function CutBytes(s: Stream): Bytes {
    if s.tail == [] || s.cut.None? then [] else s.cut.value.bytes
  }

  lemma {:induction false} Glues(p: PartFile, id: nat, segs: seq<seq<Bytes>>, s: Stream)
    requires id + |segs| == SEGMENTS && LaidSegments(segs, s) && ValidStream(s)
    requires forall k :: 0 <= k < |segs| ==> Joint(p, id + k) == CutBytes(At(segs, s, k))
    ensures CombinedFrom(p, id) == Good(Values(Across(segs, s)))
    decreases |segs|
  {
    hide LaidPages, After, IsRecord, ParseRecord, Joint, CombinedFrom;
    if segs == [] {
      assert Values(Across(segs, s)) == [];
      GluesNone(p, id);
    } else {
      var rest, s1 := segs[1..], After(segs[0], s);
      FreshRunValid(segs[0], s);
      forall k | 0 <= k < |rest|
        ensures Joint(p, id + 1 + k) == CutBytes(At(rest, s1, k))
      {
        assert Joint(p, id + (k + 1)) == CutBytes(At(segs, s, k + 1));
      }
      Glues(p, id + 1, rest, s1);
      assert Joint(p, id + 0) == CutBytes(At(segs, s, 0));
      GluesOne(p, id, s, Values(Across(rest, s1)));
      assert Values(Across(segs, s)) == Values(InProgress(s)) + Values(Across(rest, s1));
    }
  }

  lemma GluesNone(p: PartFile, id: nat)
    requires id == SEGMENTS
    ensures CombinedFrom(p, id) == Good([])
  {
  }

  lemma GluesOne(p: PartFile, id: nat, s: Stream, rest: seq<Record>)
    requires id < SEGMENTS && ValidStream(s) && Joint(p, id) == CutBytes(s) && CombinedFrom(p, id + 1) == Good(rest)
    ensures CombinedFrom(p, id) == Good(Values(InProgress(s)) + rest)
  {
    hide IsRecord, ParseRecord, Joint, EndsWith, AllRecords;
    if InProgress(s) == [] {
      assert Values([]) + rest == rest;
    } else {
      ParsesBack(s.cut.value);
      assert Values(InProgress(s)) == [s.cut.value.value];
    }
  }

  lemma ParsesBack(r: Rec)
    requires IsRecord(r)
    ensures ParseRecord(r.bytes) == Good(r.value) && r.bytes != []
  {
    hide ParseRecord, ReadRecordHeader;
    RecordFacts(r);
  }

  lemma FreshRunValid(pages: seq<Bytes>, s: Stream)
    requires LaidPages(pages, s) && ValidStream(s)
    ensures ValidStream(After(pages, s))
  {
    hide LaidPages, After, IsRecord, RunPages;
    RunLaid(FRESH, pages, s);
  }

  // ---- what the slots hold --------------------------------------------------

  lemma {:induction false} SegmentAt(segs: seq<seq<Bytes>>, s: Stream, k: nat)
    requires LaidSegments(segs, s) && ValidStream(s) && NoneSpanned(segs, s) && k < |segs|
    ensures ValidStream(At(segs, s, k)) && LaidPages(segs[k], At(segs, s, k)) && RecordEnds(segs[k], At(segs, s, k))
    ensures At(segs, s, k + 1) == After(segs[k], At(segs, s, k))
    decreases |segs|
  {
    hide LaidPages, After, IsRecord, RecordEnds;
    if k > 0 {
      FreshRunValid(segs[0], s);
      SegmentAt(segs[1..], After(segs[0], s), k - 1);
    }
  }

  /** The part file of a delta whose segments were all recorded. */
  predicate PartShows(p: PartFile, head: Bytes, segs: seq<seq<Bytes>>, s: Stream)
    requires LaidSegments(segs, s) && |segs| == SEGMENTS
  {
    && p.previousHead == Some(head)
    && forall k :: 0 <= k < SEGMENTS ==> && k in p.tails && p.tails[k] == At(segs, s, k).tail
                                         && k in p.heads && p.heads[k] == RecordPages(START, segs[k]).parser.data
  }

  lemma JointIsCut(p: PartFile, head: Bytes, segs: seq<seq<Bytes>>, s: Stream, k: nat)
    requires LaidSegments(segs, s) && |segs| == SEGMENTS && ValidStream(s) && NoneSpanned(segs, s)
    requires Knowing(Holding(head), s) && PartShows(p, head, segs, s) && k < SEGMENTS
    ensures Joint(p, k) == CutBytes(At(segs, s, k))
  {
    hide LaidPages, After, IsRecord, RecordEnds, RecordPages, LaidSegments, NoneSpanned, Knowing, ValidStream, CutBytes;
    if k == 0 {
      HeadAndTail(Holding(head), s);
    } else {
      SegmentAt(segs, s, k - 1);
      SegmentRecorded(segs[k - 1], At(segs, s, k - 1));
      HeadAndTail(RecordPages(START, segs[k - 1]).parser, At(segs, s, k));
      assert k - 1 in p.heads;
    }
  }

  lemma HeadAndTail(st: ParserState, s: Stream)
    requires Knowing(st, s)
    ensures st.data + s.tail == CutBytes(s)
  {
  }

  lemma PartCombines(p: PartFile, head: Bytes, segs: seq<seq<Bytes>>, s: Stream)
    requires LaidSegments(segs, s) && |segs| == SEGMENTS && ValidStream(s) && NoneSpanned(segs, s)
    requires Knowing(Holding(head), s) && PartShows(p, head, segs, s)
    ensures CombinedFrom(p, 0) == Good(Values(Across(segs, s)))
  {
    hide LaidPages, IsRecord, RecordEnds, RecordPages, LaidSegments, NoneSpanned, Joint, PartShows, CombinedFrom;
    forall k | 0 <= k < |segs|
      ensures Joint(p, 0 + k) == CutBytes(At(segs, s, k))
    {
      JointIsCut(p, head, segs, s, k);
    }
    Glues(p, 0, segs, s);
  }

  // ---- any order ------------------------------------------------------------

  /** The slots of segment `n` hold what its recording left. */
  predicate SlotsShow(parts: PartFiles, n: nat, rec: Recording) {
    var p := PartOf(parts, n / SEGMENTS);
    && (rec.saved.Some? ==> n % SEGMENTS in p.tails && p.tails[n % SEGMENTS] == rec.saved.value)
    && n % SEGMENTS in p.heads && p.heads[n % SEGMENTS] == rec.parser.data
    && (n % SEGMENTS == SEGMENTS - 1 ==> PartOf(parts, n / SEGMENTS + 1).previousHead == Some(rec.parser.data))
  }

  lemma RecordedSetsSlots(parts: PartFiles, n: nat, rec: Recording)
    ensures SlotsShow(Recorded(parts, n, rec), n, rec)
  {
  }

  lemma RecordedKeepsSlots(parts: PartFiles, m: nat, other: Recording, n: nat, rec: Recording)
    requires m != n && SlotsShow(parts, n, rec)
    ensures SlotsShow(Recorded(parts, m, other), n, rec)
  {
  }

  function RecordingOf(pages: map<nat, seq<Bytes>>, n: nat): Recording
    requires n in pages
  {
    RecordPages(START, pages[n])
  }

  /** The locations recorded for `delta` while the segments of `order` are read. */
  function Total(order: seq<nat>, pages: map<nat, seq<Bytes>>, delta: nat): multiset<BlockLocation>
    requires forall n :: n in order ==> n in pages
  {
    if order == [] then multiset{}
    else Total(order[..|order| - 1], pages, delta) + Share(order[|order| - 1], pages, delta)
  }

  function Share(n: nat, pages: map<nat, seq<Bytes>>, delta: nat): multiset<BlockLocation>
    requires n in pages
  {
    if n / SEGMENTS == delta then multiset(Locations(RecordingOf(pages, n).records)) else multiset{}
  }

  function LocationsFor(m: map<nat, seq<BlockLocation>>, delta: nat): seq<BlockLocation> {
    if delta in m then m[delta] else []
  }

  lemma SharesAdd(m: map<nat, seq<BlockLocation>>, n: nat, pages: map<nat, seq<Bytes>>)
    requires n in pages
    ensures var added := AddLocations(m, n / SEGMENTS, Locations(RecordingOf(pages, n).records));
            forall d :: multiset(LocationsFor(added, d)) == multiset(LocationsFor(m, d)) + Share(n, pages, d)
  {
    hide Locations, RecordPages;
  }

  lemma WriterOpened(m: map<nat, seq<BlockLocation>>, delta: nat, more: seq<BlockLocation>)
    ensures AddLocations(m, delta, more).Keys == m.Keys + {delta}
  {
  }

  /** No segment supplies the head before the first delta, so its part file is never complete. */
  lemma NoHeadForFirst(parts: PartFiles, n: nat, rec: Recording)
    ensures PartOf(Recorded(parts, n, rec), 0).previousHead == PartOf(parts, 0).previousHead
  {
  }

  /** The part files after the segments of `order` were recorded one after the other. */
  function RecordedInOrder(parts: PartFiles, order: seq<nat>, pages: map<nat, seq<Bytes>>): PartFiles
    requires forall n :: n in order ==> n in pages
  {
    if order == [] then parts
    else
      var n := order[|order| - 1];
      Recorded(RecordedInOrder(parts, order[..|order| - 1], pages), n, RecordingOf(pages, n))
  }

  /** One recording supplies the head of its own slot, the tail if it saved one, and the head before the next delta. */
  lemma SlotsSupplied(parts: PartFiles, n: nat, rec: Recording, delta: nat, i: nat)
    requires i < SEGMENTS
    ensures var p, q := PartOf(parts, delta), PartOf(Recorded(parts, n, rec), delta);
      && (i in q.heads <==> i in p.heads || n == SEGMENTS * delta + i)
      && (i in q.tails <==> i in p.tails || (n == SEGMENTS * delta + i && rec.saved.Some?))
      && (q.previousHead.Some? <==> p.previousHead.Some? || n == SEGMENTS * delta - 1)
  {
  }

  lemma {:induction false} AllSupplied(order: seq<nat>, pages: map<nat, seq<Bytes>>, delta: nat, i: nat)
    requires i < SEGMENTS && forall n :: n in order ==> n in pages
    ensures var p := PartOf(RecordedInOrder(map[], order, pages), delta);
      && (i in p.heads <==> SEGMENTS * delta + i in order)
      && (i in p.tails <==> SEGMENTS * delta + i in order && RecordingOf(pages, SEGMENTS * delta + i).saved.Some?)
      && (p.previousHead.Some? <==> delta > 0 && SEGMENTS * delta - 1 in order)
  {
    hide RecordPages, Recorded;
    if order != [] {
      var before, n := order[..|order| - 1], order[|order| - 1];
      assert order == before + [n];
      AllSupplied(before, pages, delta, i);
      SlotsSupplied(RecordedInOrder(map[], before, pages), n, RecordingOf(pages, n), delta, i);
    }
  }

  /** A part file is complete exactly when the seventeen segments it needs were recorded and its own sixteen left a tail. */
  lemma CompleteExactly(order: seq<nat>, pages: map<nat, seq<Bytes>>, delta: nat)
    requires forall n :: n in order ==> n in pages
    ensures IsComplete(PartOf(RecordedInOrder(map[], order, pages), delta)) <==>
      && delta > 0 && SEGMENTS * delta - 1 in order
      && forall n :: SEGMENTS * delta <= n < SEGMENTS * delta + SEGMENTS ==>
           n in order && RecordingOf(pages, n).saved.Some?
  {
    hide RecordPages, RecordedInOrder;
    forall i | 0 <= i < SEGMENTS
      ensures var p := PartOf(RecordedInOrder(map[], order, pages), delta);
        && (i in p.heads <==> SEGMENTS * delta + i in order)
        && (i in p.tails <==> SEGMENTS * delta + i in order && RecordingOf(pages, SEGMENTS * delta + i).saved.Some?)
    {
      AllSupplied(order, pages, delta, i);
    }
    AllSupplied(order, pages, delta, 0);
    var p := PartOf(RecordedInOrder(map[], order, pages), delta);
    if IsComplete(p) {
      forall n | SEGMENTS * delta <= n < SEGMENTS * delta + SEGMENTS
        ensures n in order && RecordingOf(pages, n).saved.Some?
      {
        assert n - SEGMENTS * delta in p.tails;
      }
    }
  }

  method RecordAll(manager: DeltaFileManager, order: seq<nat>, pages: map<nat, seq<Bytes>>)
    requires forall n :: n in order ==> n in pages
    requires forall j, k :: 0 <= j < k < |order| ==> order[j] != order[k]
    modifies manager
    ensures forall n :: n in order ==> SlotsShow(manager.partFiles, n, RecordingOf(pages, n))
    ensures forall d :: multiset(LocationsFor(manager.locations, d))
                        == multiset(LocationsFor(old(manager.locations), d)) + Total(order, pages, d)
    ensures (forall n :: n in order ==> !RecordingOf(pages, n).cancelled)
            ==> manager.cancelledDeltas == old(manager.cancelledDeltas)
    ensures forall n :: n in order ==> n / SEGMENTS in manager.locations
    ensures PartOf(manager.partFiles, 0).previousHead == PartOf(old(manager.partFiles), 0).previousHead
    ensures manager.partFiles == RecordedInOrder(old(manager.partFiles), order, pages)
  {
    hide RecordPages, Recorded, SlotsShow, Locations, AddLocations, LocationsFor, Share;
    for i := 0 to |order|
      invariant forall k :: 0 <= k < i ==> SlotsShow(manager.partFiles, order[k], RecordingOf(pages, order[k]))
      invariant forall d :: multiset(LocationsFor(manager.locations, d))
                            == multiset(LocationsFor(old(manager.locations), d)) + Total(order[..i], pages, d)
      invariant (forall n :: n in order ==> !RecordingOf(pages, n).cancelled)
                ==> manager.cancelledDeltas == old(manager.cancelledDeltas)
      invariant forall k :: 0 <= k < i ==> order[k] / SEGMENTS in manager.locations
      invariant PartOf(manager.partFiles, 0).previousHead == PartOf(old(manager.partFiles), 0).previousHead
      invariant manager.partFiles == RecordedInOrder(old(manager.partFiles), order[..i], pages)
    {
      var n := order[i];
      ghost var parts, locations := manager.partFiles, manager.locations;
      manager.RecordSegment(n, pages[n]);
      RecordedSetsSlots(parts, n, RecordingOf(pages, n));
      forall k | 0 <= k < i
        ensures SlotsShow(manager.partFiles, order[k], RecordingOf(pages, order[k]))
      {
        RecordedKeepsSlots(parts, n, RecordingOf(pages, n), order[k], RecordingOf(pages, order[k]));
      }
      assert order[..i + 1][..i] == order[..i] && order[..i + 1][i] == n;
      SharesAdd(locations, n, pages);
      WriterOpened(locations, n / SEGMENTS, Locations(RecordingOf(pages, n).records));
      NoHeadForFirst(parts, n, RecordingOf(pages, n));
    }
    assert order[..|order|] == order;
  }

  // ---- the order does not matter --------------------------------------------

  lemma {:induction false} TotalRemove(order: seq<nat>, k: nat, pages: map<nat, seq<Bytes>>, delta: nat)
    requires k < |order| && forall n :: n in order ==> n in pages
    ensures Total(order, pages, delta) == Total(order[..k] + order[k + 1..], pages, delta) + Share(order[k], pages, delta)
  {
    hide Share;
    var n := |order| - 1;
    if k < n {
      TotalRemove(order[..n], k, pages, delta);
      var without := order[..k] + order[k + 1..];
      assert without[..n - 1] == order[..n][..k] + order[..n][k + 1..] && without[n - 1] == order[n];
    } else {
      assert order[..k] + order[k + 1..] == order[..n];
    }
  }

  lemma SameWithout(a: seq<nat>, b: seq<nat>, k: nat)
    requires multiset(a) == multiset(b) && a != [] && k < |b| && b[k] == a[|a| - 1]
    ensures multiset(a[..|a| - 1]) == multiset(b[..k] + b[k + 1..])
  {
    var n := |a| - 1;
    assert a == a[..n] + [a[n]];
    assert b == b[..k] + [b[k]] + b[k + 1..];
    assert multiset(a[..n]) == multiset(a) - multiset{a[n]};
    assert multiset(b[..k] + b[k + 1..]) == multiset(b) - multiset{b[k]};
  }

  lemma {:induction false} TotalPermuted(a: seq<nat>, b: seq<nat>, pages: map<nat, seq<Bytes>>, delta: nat)
    requires multiset(a) == multiset(b) && (forall n :: n in a ==> n in pages) && forall n :: n in b ==> n in pages
    ensures Total(a, pages, delta) == Total(b, pages, delta)
    decreases |a|
  {
    hide Share;
    if a == [] {
      assert |multiset(b)| == 0;
    } else {
      var n := |a| - 1;
      assert a[n] in multiset(a);
      var k :| 0 <= k < |b| && b[k] == a[n];
      SameWithout(a, b, k);
      TotalRemove(b, k, pages, delta);
      TotalPermuted(a[..n], b[..k] + b[k + 1..], pages, delta);
    }
  }

  // ---- the locations of all segments ----------------------------------------

  function Locs(rs: seq<Rec>): seq<BlockLocation> {
    Locations(Values(rs))
  }

  lemma NoLocs()
    ensures Locs([]) == []
  {
    assert Values([]) == [];
  }

  lemma LocsAppend(a: seq<Rec>, b: seq<Rec>)
    ensures Locs(a + b) == Locs(a) + Locs(b)
  {
    hide Locations;
    assert Values(a + b) == Values(a) + Values(b);
    LocationsAppend(Values(a), Values(b));
  }

  /** Block by block, too, the segments and the glued records give what one run gives. */
  lemma {:induction false} SameLocations(st: ParserState, segs: seq<seq<Bytes>>, s: Stream)
    requires LaidSegments(segs, s) && ValidStream(s) && Knowing(st, s) && NoneSpanned(segs, s)
    ensures multiset(Locs(Sequential(st, segs, s))) == multiset(Locs(Within(segs, s))) + multiset(Locs(Across(segs, s)))
    decreases |segs|
  {
    hide LaidPages, IsRecord, CompletedBy, StateAfter, InProgress, ValidStream, Knowing, RecordEnds, After, Locs;
    if segs == [] {
      NoLocs();
    } else {
      var st1, s1, rest := StateAfter(st, segs[0], s), After(segs[0], s), segs[1..];
      SegmentAddsCut(st, segs[0], s);
      KnowingInSync(st, s);
      RunConserves(st, segs[0], s);
      RunLaid(st, segs[0], s);
      SameLocations(st1, rest, s1);
      LocsAppend(InProgress(s), CompletedBy(FRESH, segs[0], s));
      LocsAppend(CompletedBy(st, segs[0], s), Sequential(st1, rest, s1));
      LocsAppend(CompletedBy(FRESH, segs[0], s), Within(rest, s1));
      LocsAppend(InProgress(s), Across(rest, s1));
    }
  }

  function Numbers(first: nat, count: nat): seq<nat> {
    seq(count, i requires 0 <= i < count => first + i)
  }

  /** The pages of `count` consecutive segments. */
  function Segments(pages: map<nat, seq<Bytes>>, first: nat, count: nat): seq<seq<Bytes>>
    requires forall n :: first <= n < first + count ==> n in pages
  {
    seq(count, i requires 0 <= i < count => pages[first + i])
  }

  lemma NumbersFront(pages: map<nat, seq<Bytes>>, first: nat, count: nat, delta: nat)
    requires count > 0 && forall n :: first <= n < first + count ==> n in pages
    ensures Total(Numbers(first, count), pages, delta)
         == Total(Numbers(first + 1, count - 1), pages, delta) + Share(first, pages, delta)
  {
    hide Share, Total;
    var ns := Numbers(first, count);
    TotalRemove(ns, 0, pages, delta);
    assert ns[..0] + ns[0 + 1..] == Numbers(first + 1, count - 1);
  }

  lemma {:induction false} TotalIsWithin(pages: map<nat, seq<Bytes>>, first: nat, count: nat, delta: nat, s: Stream)
    requires forall n :: first <= n < first + count ==> n in pages && n / SEGMENTS == delta
    requires LaidSegments(Segments(pages, first, count), s) && ValidStream(s)
    ensures Total(Numbers(first, count), pages, delta) == multiset(Locs(Within(Segments(pages, first, count), s)))
    decreases count
  {
    hide LaidPages, IsRecord, CompletedBy, ValidStream, After, Locs, Locations, RecordPages, Share, Total;
    var segs := Segments(pages, first, count);
    if count == 0 {
      NoLocs();
      NoTotal(pages, first, delta);
    } else {
      var rest := Segments(pages, first + 1, count - 1);
      assert segs[1..] == rest;
      FreshRunValid(segs[0], s);
      TotalIsWithin(pages, first + 1, count - 1, delta, After(segs[0], s));
      NumbersFront(pages, first, count, delta);
      ShareIs(pages, first, delta, s);
      LocsAdd(CompletedBy(FRESH, segs[0], s), Within(rest, After(segs[0], s)));
    }
  }

  lemma NoTotal(pages: map<nat, seq<Bytes>>, first: nat, delta: nat)
    ensures Total(Numbers(first, 0), pages, delta) == multiset{}
  {
  }

  lemma LocsAdd(a: seq<Rec>, b: seq<Rec>)
    ensures multiset(Locs(a + b)) == multiset(Locs(b)) + multiset(Locs(a))
  {
    hide Locs;
    LocsAppend(a, b);
  }

  lemma ShareIs(pages: map<nat, seq<Bytes>>, n: nat, delta: nat, s: Stream)
    requires n in pages && n / SEGMENTS == delta && LaidPages(pages[n], s) && ValidStream(s)
    ensures Share(n, pages, delta) == multiset(Locs(CompletedBy(FRESH, pages[n], s)))
  {
    hide LaidPages, IsRecord, CompletedBy, RecordPages, Locations, After;
    SegmentRecorded(pages[n], s);
  }

  // ---- one delta, end to end -------------------------------------------------

  /** The segments a delta file needs: its own sixteen and, for the record cut at its beginning, the one before. */
  predicate NeededBy(order: seq<nat>, delta: nat) {
    && delta > 0
    && multiset(order) == multiset(Numbers(SEGMENTS * delta - 1, SEGMENTS + 1))
    && forall j, k :: 0 <= j < k < |order| ==> order[j] != order[k]
  }

  /**
   * CombinePartFile: a complete part file adds the locations of its glued records to the delta file, provided that this
   * process has a writer for it, which recording one of its segments opens.
   */
  method CombinePartFile(manager: DeltaFileManager, delta: nat) returns (r: Parsed<()>)
    requires IsComplete(PartOf(manager.partFiles, delta))
    modifies manager`locations
    ensures var combined := CombinedFrom(PartOf(manager.partFiles, delta), 0);
            && r == (if delta !in old(manager.locations) then Bad(NoDeltaFileWriter)
                     else if combined.Bad? then Bad(combined.error) else Good(()))
            && manager.locations == if r.Bad? then old(manager.locations)
                                    else AddLocations(old(manager.locations), delta, Locations(combined.value))
  {
    if delta !in manager.locations {
      return Bad(NoDeltaFileWriter);
    }
    var records := CombineRecords(PartOf(manager.partFiles, delta));
    if records.Bad? {
      return Bad(records.error);
    }
    manager.locations := AddLocations(manager.locations, delta, Locations(records.value));
    return Good(());
  }

  lemma NumbersIn(order: seq<nat>, delta: nat)
    requires NeededBy(order, delta)
    ensures forall n :: SEGMENTS * delta - 1 <= n < SEGMENTS * delta + SEGMENTS ==> n in order
    ensures forall n :: n in order ==> SEGMENTS * delta - 1 <= n < SEGMENTS * delta + SEGMENTS
  {
    var ns := Numbers(SEGMENTS * delta - 1, SEGMENTS + 1);
    forall n | SEGMENTS * delta - 1 <= n < SEGMENTS * delta + SEGMENTS
      ensures n in order
    {
      assert n == ns[n - (SEGMENTS * delta - 1)];
      assert n in multiset(order);
    }
    forall n | n in order
      ensures SEGMENTS * delta - 1 <= n < SEGMENTS * delta + SEGMENTS
    {
      assert n in multiset(order);
      assert n in ns;
    }
  }

  lemma SlotsMakePart(parts: PartFiles, delta: nat, pages: map<nat, seq<Bytes>>, s: Stream, segs: seq<seq<Bytes>>)
    requires delta > 0
    requires forall n :: SEGMENTS * delta - 1 <= n < SEGMENTS * delta + SEGMENTS ==>
                           n in pages && SlotsShow(parts, n, RecordingOf(pages, n))
    requires segs == Segments(pages, SEGMENTS * delta, SEGMENTS)
    requires LaidSegments(segs, s) && ValidStream(s) && NoneSpanned(segs, s)
    ensures PartShows(PartOf(parts, delta), RecordingOf(pages, SEGMENTS * delta - 1).parser.data, segs, s)
  {
    hide LaidSegments, NoneSpanned, ValidStream, RecordPages, LaidPages, RecordEnds, At;
    var first := SEGMENTS * delta - 1;
    var p := PartOf(parts, delta);
    assert SlotsShow(parts, first, RecordingOf(pages, first));
    forall k | 0 <= k < SEGMENTS
      ensures k in p.tails && p.tails[k] == At(segs, s, k).tail
      ensures k in p.heads && p.heads[k] == RecordPages(START, segs[k]).parser.data
    {
      var n := first + (k + 1);
      assert SlotsShow(parts, n, RecordingOf(pages, n));
      assert n / SEGMENTS == delta && n % SEGMENTS == k && pages[n] == segs[k];
      SegmentAt(segs, s, k);
      SegmentRecorded(segs[k], At(segs, s, k));
    }
  }

  lemma KnowingHolds(st: ParserState, s: Stream)
    requires Knowing(st, s)
    ensures st == Holding(st.data)
  {
  }

  /** The total of all segments, in the order they were read, plus the glued records: the locations of one run. */
  lemma TotalIsOneRun(pages: map<nat, seq<Bytes>>, order: seq<nat>, delta: nat, head: Bytes,
                      segs: seq<seq<Bytes>>, s: Stream)
    requires NeededBy(order, delta) && forall n :: n in order ==> n in pages
    requires forall n :: SEGMENTS * delta - 1 <= n < SEGMENTS * delta + SEGMENTS ==> n in pages
    requires segs == Segments(pages, SEGMENTS * delta, SEGMENTS)
    requires LaidSegments(segs, s) && ValidStream(s) && NoneSpanned(segs, s) && Knowing(Holding(head), s)
    ensures var run := RunPages(Holding(head), Flat(segs));
            && run.Good?
            && Total(order, pages, delta) + multiset(Locs(Across(segs, s)))
               == multiset(Locations(RecordsOf(run.value.outputs)))
  {
    hide LaidSegments, NoneSpanned, ValidStream, Knowing, Share, Total, RunPages, Sequential, Within, Across, CompletedBy,
         RecordPages, LaidPages;
    var first := SEGMENTS * delta - 1;
    TotalPermuted(order, Numbers(first, SEGMENTS + 1), pages, delta);
    NumbersFront(pages, first, SEGMENTS + 1, delta);
    assert Share(first, pages, delta) == multiset{} by {
      ShareElsewhere(pages, first, delta);
    }
    TotalIsWithin(pages, first + 1, SEGMENTS, delta, s);
    SameLocations(Holding(head), segs, s);
    SequentialIsOneRun(Holding(head), segs, s);
    KnowingInSync(Holding(head), s);
    RunLaid(Holding(head), Flat(segs), s);
  }

  /** A parser behind several segments is where a fresh one is behind the last of them. */
  lemma {:induction false} LastSegmentDecides(st: ParserState, segs: seq<seq<Bytes>>, s: Stream)
    requires segs != [] && LaidSegments(segs, s) && ValidStream(s) && Knowing(st, s) && NoneSpanned(segs, s)
    ensures LaidPages(Flat(segs), s) && LaidPages(segs[|segs| - 1], At(segs, s, |segs| - 1))
    ensures StateAfter(st, Flat(segs), s) == StateAfter(FRESH, segs[|segs| - 1], At(segs, s, |segs| - 1))
    decreases |segs|
  {
    hide LaidPages, CompletedBy, StateAfter, ValidStream, Knowing, RecordEnds, After, Flat, InProgress;
    SegmentAddsCut(st, segs[0], s);
    var rest, next, s1 := segs[1..], StateAfter(st, segs[0], s), After(segs[0], s);
    FlatFront(segs);
    if |segs| > 1 {
      assert ValidStream(s1) && Knowing(next, s1) by {
        KnowingInSync(st, s);
        RunLaid(st, segs[0], s);
        RunConserves(st, segs[0], s);
      }
      LastSegmentDecides(next, rest, s1);
      AppendPages(st, segs[0], Flat(rest), s);
      assert rest[|rest| - 1] == segs[|segs| - 1] && At(segs, s, |segs| - 1) == At(rest, s1, |rest| - 1);
    }
  }

  lemma FlatFront(segs: seq<seq<Bytes>>)
    requires segs != []
    ensures Flat(segs) == segs[0] + Flat(segs[1..]) && (|segs| == 1 ==> Flat(segs) == segs[0])
  {
  }

  /** The head saved after the last segment is what the parser of one run holds at the end. */
  lemma LastHead(head: Bytes, segs: seq<seq<Bytes>>, s: Stream)
    requires |segs| == SEGMENTS && LaidSegments(segs, s) && ValidStream(s) && NoneSpanned(segs, s) && Knowing(Holding(head), s)
    ensures RunPages(Holding(head), Flat(segs)).Good?
    ensures RunPages(Holding(head), Flat(segs)).value.state == Holding(RecordPages(START, segs[SEGMENTS - 1]).parser.data)
  {
    hide LaidPages, StateAfter, ValidStream, Knowing, After, RecordPages, RunPages, Flat, LaidSegments, NoneSpanned, At,
         RecordEnds;
    var last := SEGMENTS - 1;
    LastSegmentDecides(Holding(head), segs, s);
    KnowingInSync(Holding(head), s);
    RunLaid(Holding(head), Flat(segs), s);
    SegmentAt(segs, s, last);
    SegmentRecorded(segs[last], At(segs, s, last));
    KnowingHolds(RecordPages(START, segs[last]).parser, After(segs[last], At(segs, s, last)));
  }

  lemma ShareElsewhere(pages: map<nat, seq<Bytes>>, n: nat, delta: nat)
    requires n in pages && n / SEGMENTS != delta
    ensures Share(n, pages, delta) == multiset{}
  {
  }

  /** The segment before the delta and its own sixteen carry the stream, and a record ends in each of them. */
  predicate LaidDelta(pages: map<nat, seq<Bytes>>, delta: nat, s: Stream) {
    && delta > 0
    && (forall n :: SEGMENTS * delta - 1 <= n < SEGMENTS * delta + SEGMENTS ==> n in pages)
    && ValidStream(s)
    && var before, segs := pages[SEGMENTS * delta - 1], Segments(pages, SEGMENTS * delta, SEGMENTS);
       && LaidPages(before, s) && RecordEnds(before, s)
       && LaidSegments(segs, After(before, s)) && NoneSpanned(segs, After(before, s))
  }

  /** One parser through the sixteen segments, after the segment before them. */
  function OneRun(pages: map<nat, seq<Bytes>>, delta: nat, s: Stream): Parsed<Run>
    requires LaidDelta(pages, delta, s)
  {
    RunPages(StateAfter(FRESH, pages[SEGMENTS * delta - 1], s), Flat(Segments(pages, SEGMENTS * delta, SEGMENTS)))
  }

  /**
   * Seventeen segments recorded in any order, each with a fresh parser, and the part file combined: the delta file
   * gains exactly the locations that one parser, knowing the record cut before the delta, finds in the sixteen segments,
   * and the head its parser is made from is what that one parser is left with. Zero pages may follow in every segment.
   */
  method RecordDelta(manager: DeltaFileManager, delta: nat, order: seq<nat>, files: map<nat, seq<Bytes>>,
                     ghost pages: map<nat, seq<Bytes>>, ghost s: Stream)
    returns (r: Parsed<()>)
    requires NeededBy(order, delta) && LaidDelta(pages, delta, s)
    requires forall n :: n in order ==> n in pages && n in files && PaddedTo(files[n], pages[n])
    modifies manager
    ensures r.Good? && IsComplete(PartOf(manager.partFiles, delta))
    ensures manager.cancelledDeltas == old(manager.cancelledDeltas)
    ensures OneRun(pages, delta, s).Good?
    ensures multiset(LocationsFor(manager.locations, delta))
         == multiset(LocationsFor(old(manager.locations), delta))
            + multiset(Locations(RecordsOf(OneRun(pages, delta, s).value.outputs)))
    ensures forall x :: x in LocationsFor(manager.locations, delta) <==>
      x in LocationsFor(old(manager.locations), delta) || Touches(RecordsOf(OneRun(pages, delta, s).value.outputs), x)
    ensures SEGMENTS - 1 in PartOf(manager.partFiles, delta).heads
    ensures Holding(PartOf(manager.partFiles, delta).heads[SEGMENTS - 1]) == OneRun(pages, delta, s).value.state
  {
    hide LaidDelta, OneRun, RecordPages, SlotsShow, Total, CombinedFrom, Locations, AddLocations, RecordsOf, Touches;
    NumbersIn(order, delta);
    NeverCancelled(pages, order, delta, s);
    SameRecordings(files, pages, order, delta);

    RecordAll(manager, order, files);

    assert SEGMENTS * delta in order && SEGMENTS * delta / SEGMENTS == delta;
    DeltaCombines(manager.partFiles, pages, order, delta, s);
    ghost var before := manager.locations;
    r := CombinePartFile(manager, delta);
    LocationsGain(before, delta, Locations(CombinedFrom(PartOf(manager.partFiles, delta), 0).value));
    ghost var found := RecordsOf(OneRun(pages, delta, s).value.outputs);
    SameElements(LocationsFor(manager.locations, delta), LocationsFor(old(manager.locations), delta) + Locations(found));
    AllLocationsAreBlocks(found);
  }

  lemma {:induction false} SameRecordings(files: map<nat, seq<Bytes>>, pages: map<nat, seq<Bytes>>, order: seq<nat>, delta: nat)
    requires forall n :: n in order ==> n in pages && n in files && PaddedTo(files[n], pages[n])
    ensures forall n :: n in order ==> RecordingOf(files, n) == RecordingOf(pages, n)
    ensures Total(order, files, delta) == Total(order, pages, delta)
  {
    hide RecordPages, Locations;
    forall n | n in order
      ensures RecordingOf(files, n) == RecordingOf(pages, n)
    {
      PaddingIgnored(START, files[n], pages[n]);
    }
    if order != [] {
      SameRecordings(files, pages, order[..|order| - 1], delta);
    }
  }

  lemma BeforeDelta(before: seq<Bytes>, s: Stream)
    requires LaidPages(before, s) && ValidStream(s) && RecordEnds(before, s)
    ensures var s0, head := After(before, s), RecordPages(START, before).parser.data;
      && ValidStream(s0) && Knowing(Holding(head), s0) && Holding(head) == StateAfter(FRESH, before, s)
  {
    hide ValidStream, RecordPages, LaidPages, RecordEnds, StateAfter, After, Knowing;
    SegmentRecorded(before, s);
    FreshRunValid(before, s);
    KnowingHolds(RecordPages(START, before).parser, After(before, s));
  }

  /**
   * The slots of a recorded delta make a complete part file; what it glues and what the segments recorded are together
   * what one run finds, and its last head is what that run is left with.
   */
  lemma DeltaCombines(parts: PartFiles, pages: map<nat, seq<Bytes>>, order: seq<nat>, delta: nat, s: Stream)
    requires NeededBy(order, delta) && LaidDelta(pages, delta, s) && forall n :: n in order ==> n in pages
    requires forall n :: SEGMENTS * delta - 1 <= n < SEGMENTS * delta + SEGMENTS ==>
                           SlotsShow(parts, n, RecordingOf(pages, n))
    ensures OneRun(pages, delta, s).Good?
    ensures var p, run := PartOf(parts, delta), OneRun(pages, delta, s).value;
      && IsComplete(p) && CombinedFrom(p, 0).Good? && Holding(p.heads[SEGMENTS - 1]) == run.state
      && Total(order, pages, delta) + multiset(Locations(CombinedFrom(p, 0).value))
         == multiset(Locations(RecordsOf(run.outputs)))
  {
    hide ValidStream, RecordPages, LaidPages, RecordEnds, SlotsShow, CombinedFrom, RunPages, StateAfter, After, Flat,
         LaidSegments, NoneSpanned, Knowing, Across, Total, Locations, RecordsOf, NeededBy;
    var first, segs := SEGMENTS * delta - 1, Segments(pages, SEGMENTS * delta, SEGMENTS);
    var s0, head := After(pages[first], s), RecordingOf(pages, first).parser.data;
    BeforeDelta(pages[first], s);
    SlotsMakePart(parts, delta, pages, s0, segs);
    PartCombines(PartOf(parts, delta), head, segs, s0);
    LastHead(head, segs, s0);
    TotalIsOneRun(pages, order, delta, head, segs, s0);
  }

  lemma LocationsGain(m: map<nat, seq<BlockLocation>>, delta: nat, more: seq<BlockLocation>)
    ensures multiset(LocationsFor(AddLocations(m, delta, more), delta)) == multiset(LocationsFor(m, delta)) + multiset(more)
  {
  }

  lemma NeverCancelled(pages: map<nat, seq<Bytes>>, order: seq<nat>, delta: nat, s: Stream)
    requires NeededBy(order, delta) && LaidDelta(pages, delta, s) && forall n :: n in order ==> n in pages
    ensures forall n :: n in order ==> !RecordingOf(pages, n).cancelled
  {
    hide LaidSegments, NoneSpanned, ValidStream, RecordPages, LaidPages, RecordEnds, At, After;
    var first, segs := SEGMENTS * delta - 1, Segments(pages, SEGMENTS * delta, SEGMENTS);
    var s0 := After(pages[first], s);
    SegmentRecorded(pages[first], s);
    FreshRunValid(pages[first], s);
    NumbersIn(order, delta);
    forall n | n in order && n > first
      ensures !RecordingOf(pages, n).cancelled
    {
      assert segs[n - first - 1] == pages[n];
      SegmentAt(segs, s0, n - first - 1);
      SegmentRecorded(segs[n - first - 1], At(segs, s0, n - first - 1));
    }
  }
}
