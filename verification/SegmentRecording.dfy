/** Recording segments independently gives the records of one parser run over all of them. */
module SegmentRecording {
  import opened Bytes
  import opened WalPages
  import opened WalLayout
  import opened WalParts

  // ---- recording one laid segment -------------------------------------------

  /** Does the record cut at the beginning of the pages end on them? */
  predicate TailEnds(pages: seq<Bytes>, s: Stream)
    requires LaidPages(pages, s)
    decreases |pages|
  {
    pages != [] && (|s.tail| <= Width(pages[0]) || TailEnds(pages[1..], Advance(Width(pages[0]), s)))
  }

  /** Does any record end on the pages? False exactly when one record covers them from first byte to last. */
  predicate RecordEnds(pages: seq<Bytes>, s: Stream)
    requires LaidPages(pages, s)
  {
    if s.tail != [] then TailEnds(pages, s) else CompletedBy(FRESH, pages, s) != []
  }

  /** What recording makes of a page that gives `tail` and completes `done`. */
  lemma RecordLaidPage(rec: Recording, page: Bytes, s: Stream)
    requires Laid(page, s) && ValidStream(s) && InSync(rec.parser, s)
    requires rec.canSaveTail || TailOut(rec.parser, Width(page), s) == []
    ensures var w := Width(page);
            var tail, done := TailOut(rec.parser, w, s), Completed(rec.parser, w, s);
            RecordPage(rec, page) == Given(rec, NextState(rec.parser, w, s), tail, done)
  {
    hide ParseStep, NextState, Completed, TailOut, Laid, ValidStream, InSync, Width, IsPage;
    PageOf(page, s);
    StepLaid(rec.parser, page, s);
  }

  function Given(rec: Recording, st: ParserState, tail: Bytes, done: seq<Rec>): Recording {
    rec.(parser := st, records := rec.records + Values(done),
         saved := if rec.canSaveTail && (tail != [] || done != []) then Some(tail) else rec.saved,
         canSaveTail := rec.canSaveTail && tail == [] && done == [])
  }

  /** A recording whose parser knows the record in progress. */
  lemma {:induction false} KnownRecording(rec: Recording, pages: seq<Bytes>, s: Stream)
    requires LaidPages(pages, s) && ValidStream(s) && Knowing(rec.parser, s)
    ensures RecordPages(rec, pages)
         == Given(rec, StateAfter(rec.parser, pages, s), [], CompletedBy(rec.parser, pages, s))
    decreases |pages|
  {
    hide RecordPage, NextState, Completed, Laid, ValidStream, InSync, Width, IsPage, Advance;
    if pages != [] {
      PageOf(pages[0], s);
      var w, st := Width(pages[0]), rec.parser;
      assert TailOut(st, w, s) == [] && InSync(st, s) by {
        KnowingGivesNoTail(st, w, s);
      }
      RecordLaidPage(rec, pages[0], s);
      StepConserves(st, w, s);
      AdvanceValid(st, w, s);
      var next := RecordPage(rec, pages[0]);
      KnownRecording(next, pages[1..], Advance(w, s));
      GivenTwice(rec, NextState(st, w, s), Completed(st, w, s),
                 StateAfter(rec.parser, pages, s), CompletedBy(next.parser, pages[1..], Advance(w, s)));
    }
  }

  lemma KnowingGivesNoTail(st: ParserState, w: nat, s: Stream)
    requires Knowing(st, s)
    ensures TailOut(st, w, s) == [] && InSync(st, s)
  {
  }

  lemma GivenTwice(rec: Recording, st1: ParserState, done1: seq<Rec>, st2: ParserState, done2: seq<Rec>)
    ensures Given(Given(rec, st1, [], done1), st2, [], done2) == Given(rec, st2, [], done1 + done2)
    ensures forall tail: Bytes :: tail != [] && rec.canSaveTail ==>
              Given(Given(rec, st1, tail, done1), st2, [], done2) == Given(rec, st2, tail, done1 + done2)
  {
    assert Values(done1 + done2) == Values(done1) + Values(done2);
    assert rec.records + Values(done1) + Values(done2) == rec.records + (Values(done1) + Values(done2));
  }

  /** A recording that starts inside a record. */
  lemma {:induction false} UnknownRecording(rec: Recording, pages: seq<Bytes>, s: Stream)
    requires LaidPages(pages, s) && ValidStream(s) && !rec.parser.hasBeginning && s.tail != [] && rec.canSaveTail
    ensures !TailEnds(pages, s) ==> RecordPages(rec, pages) == rec.(parser := StateAfter(rec.parser, pages, s))
    ensures TailEnds(pages, s) ==>
              && RecordPages(rec, pages) == Given(rec, StateAfter(rec.parser, pages, s), rec.parser.data + s.tail,
                                                  CompletedBy(rec.parser, pages, s))
              && Knowing(StateAfter(rec.parser, pages, s), After(pages, s))
    decreases |pages|
  {
    hide RecordPage, Laid, ValidStream, Width, IsPage, Fit, Heading, Left;
    if pages != [] {
      PageOf(pages[0], s);
      var w, st := Width(pages[0]), rec.parser;
      RecordLaidPage(rec, pages[0], s);
      AdvanceValid(st, w, s);
      var next, s1 := RecordPage(rec, pages[0]), Advance(w, s);
      if w < |s.tail| {
        assert rec.records + Values([]) == rec.records;
        assert st.data + s.tail[..w] + s.tail[w..] == st.data + s.tail;
        assert [] + CompletedBy(next.parser, pages[1..], s1) == CompletedBy(next.parser, pages[1..], s1);
        UnknownRecording(next, pages[1..], s1);
      } else {
        AfterTailKnows(st, w, s);
        KnownRecording(next, pages[1..], s1);
        RunConserves(next.parser, pages[1..], s1);
        GivenTwice(rec, NextState(st, w, s), Completed(st, w, s),
                   StateAfter(rec.parser, pages, s), CompletedBy(next.parser, pages[1..], s1));
      }
    }
  }

  lemma AfterTailKnows(st: ParserState, w: nat, s: Stream)
    requires w % 8 == 0 && ValidStream(s) && InSync(st, s) && |s.tail| <= w
    ensures Knowing(NextState(st, w, s), Advance(w, s))
  {
    hide IsRecord, Fit;
    AdvanceValid(st, w, s);
  }

  /**
   * A fresh recording of a laid segment is never cancelled and records exactly the records that begin and end in it.
   * The tail slot is filled exactly when some record ends in the segment, with the rest of the record cut before it;
   * then the head it keeps is the beginning of the record cut after it.
   */
  lemma SegmentRecorded(pages: seq<Bytes>, s: Stream)
    requires LaidPages(pages, s) && ValidStream(s)
    ensures var rec := RecordPages(START, pages);
            && !rec.cancelled
            && rec.records == Values(CompletedBy(FRESH, pages, s))
            && rec.saved == (if RecordEnds(pages, s) then Some(s.tail) else None)
            && rec.parser == StateAfter(FRESH, pages, s)
            && (RecordEnds(pages, s) ==> Knowing(rec.parser, After(pages, s)))
  {
    hide RecordPage, Laid, IsRecord, Width, IsPage, NextState, Completed, Advance;
    if s.tail == [] {
      KnownRecording(START, pages, s);
      RunConserves(FRESH, pages, s);
    } else {
      UnknownRecording(START, pages, s);
      assert FRESH.data + s.tail == s.tail;
      if !TailEnds(pages, s) {
        NothingCompleted(FRESH, pages, s);
      }
    }
  }

  lemma {:induction false} NothingCompleted(st: ParserState, pages: seq<Bytes>, s: Stream)
    requires LaidPages(pages, s) && !TailEnds(pages, s)
    ensures CompletedBy(st, pages, s) == []
    decreases |pages|
  {
    hide Laid, Width, IsPage;
    if pages != [] {
      PageOf(pages[0], s);
      var w := Width(pages[0]);
      NothingCompleted(NextState(st, w, s), pages[1..], Advance(w, s));
    }
  }

  // ---- one run over several segments ----------------------------------------

  /** Segments that carry the stream one after the other. */
  predicate LaidSegments(segs: seq<seq<Bytes>>, s: Stream)
    decreases |segs|
  {
    segs == [] || (LaidPages(segs[0], s) && LaidSegments(segs[1..], After(segs[0], s)))
  }

  /** The stream at the beginning of segment `i`. */
  function At(segs: seq<seq<Bytes>>, s: Stream, i: nat): Stream
    requires LaidSegments(segs, s) && i <= |segs|
    decreases |segs|
  {
    if i == 0 then s else At(segs[1..], After(segs[0], s), i - 1)
  }

  /** The records a parser that goes through all segments completes. */
  function Sequential(st: ParserState, segs: seq<seq<Bytes>>, s: Stream): seq<Rec>
    requires LaidSegments(segs, s)
    decreases |segs|
  {
    if segs == [] then []
    else CompletedBy(st, segs[0], s) + Sequential(StateAfter(st, segs[0], s), segs[1..], After(segs[0], s))
  }

  /** The records that begin and end in one segment. */
  function Within(segs: seq<seq<Bytes>>, s: Stream): seq<Rec>
    requires LaidSegments(segs, s)
    decreases |segs|
  {
    if segs == [] then [] else CompletedBy(FRESH, segs[0], s) + Within(segs[1..], After(segs[0], s))
  }

  /** The records cut by the boundary before each segment. */
  function Across(segs: seq<seq<Bytes>>, s: Stream): seq<Rec>
    requires LaidSegments(segs, s)
    decreases |segs|
  {
    if segs == [] then [] else InProgress(s) + Across(segs[1..], After(segs[0], s))
  }

  predicate NoneSpanned(segs: seq<seq<Bytes>>, s: Stream)
    requires LaidSegments(segs, s)
    decreases |segs|
  {
    segs == [] || (RecordEnds(segs[0], s) && NoneSpanned(segs[1..], After(segs[0], s)))
  }

  /** The page on which the cut record ends: the known beginning adds the record and changes nothing else. */
  lemma EndAddsCut(h: Bytes, d: Bytes, w: nat, s: Stream)
    requires w % 8 == 0 && |s.tail| <= w && s.cut.Some?
    ensures Completed(ParserState(h + d, true), w, s) == [s.cut.value] + Completed(ParserState(d, false), w, s)
    ensures NextState(ParserState(h + d, true), w, s) == NextState(ParserState(d, false), w, s)
  {
    hide Fit, Heading, Left;
  }

  lemma MiddleAddsNothing(h: Bytes, d: Bytes, w: nat, s: Stream)
    requires w % 8 == 0 && w < |s.tail|
    ensures Completed(ParserState(h + d, true), w, s) == Completed(ParserState(d, false), w, s) == []
    ensures NextState(ParserState(d, false), w, s) == ParserState(d + s.tail[..w], false)
    ensures NextState(ParserState(h + d, true), w, s) == ParserState(h + (d + s.tail[..w]), true)
    ensures Advance(w, s).tail != [] && Advance(w, s).cut == s.cut
  {
    assert h + d + s.tail[..w] == h + (d + s.tail[..w]);
  }

  /** Knowing the beginning of the cut record adds that record and nothing else. */
  lemma {:induction false} KnownAddsCut(h: Bytes, d: Bytes, pages: seq<Bytes>, s: Stream)
    requires LaidPages(pages, s) && TailEnds(pages, s) && s.tail != [] && s.cut.Some?
    ensures var known, blind := ParserState(h + d, true), ParserState(d, false);
            && CompletedBy(known, pages, s) == [s.cut.value] + CompletedBy(blind, pages, s)
            && StateAfter(known, pages, s) == StateAfter(blind, pages, s)
    decreases |pages|
  {
    hide Laid, Width, IsPage, Completed, NextState, Advance;
    PageOf(pages[0], s);
    var w := Width(pages[0]);
    if w < |s.tail| {
      MiddleAddsNothing(h, d, w, s);
      KnownAddsCut(h, d + s.tail[..w], pages[1..], Advance(w, s));
    } else {
      EndAddsCut(h, d, w, s);
    }
  }

  lemma SegmentAddsCut(st: ParserState, pages: seq<Bytes>, s: Stream)
    requires LaidPages(pages, s) && ValidStream(s) && Knowing(st, s) && RecordEnds(pages, s)
    ensures CompletedBy(st, pages, s) == InProgress(s) + CompletedBy(FRESH, pages, s)
    ensures StateAfter(st, pages, s) == StateAfter(FRESH, pages, s)
  {
    hide Laid, IsRecord, CompletedBy, StateAfter;
    if s.tail != [] {
      KnownAddsCut(st.data, [], pages, s);
      assert st.data + [] == st.data;
    } else {
      assert [] + CompletedBy(FRESH, pages, s) == CompletedBy(FRESH, pages, s);
    }
  }

  /** Segment by segment plus the records glued across boundaries: the same records as one run. */
  lemma {:induction false} ParallelEqualsSequential(st: ParserState, segs: seq<seq<Bytes>>, s: Stream)
    requires LaidSegments(segs, s) && ValidStream(s) && Knowing(st, s) && NoneSpanned(segs, s)
    ensures multiset(Sequential(st, segs, s)) == multiset(Within(segs, s)) + multiset(Across(segs, s))
    decreases |segs|
  {
    hide LaidPages, IsRecord, CompletedBy, StateAfter, InProgress, ValidStream, Knowing, RecordEnds, After;
    if segs != [] {
      SegmentAddsCut(st, segs[0], s);
      KnowingInSync(st, s);
      RunConserves(st, segs[0], s);
      RunLaid(st, segs[0], s);
      ParallelEqualsSequential(StateAfter(st, segs[0], s), segs[1..], After(segs[0], s));
    }
  }

  // ---- the run over all pages at once ----------------------------------------

  function Flat(segs: seq<seq<Bytes>>): seq<Bytes> {
    if segs == [] then [] else segs[0] + Flat(segs[1..])
  }

  lemma {:induction false} AppendPages(st: ParserState, a: seq<Bytes>, b: seq<Bytes>, s: Stream)
    requires LaidPages(a, s) && LaidPages(b, After(a, s))
    ensures LaidPages(a + b, s)
    ensures CompletedBy(st, a + b, s) == CompletedBy(st, a, s) + CompletedBy(StateAfter(st, a, s), b, After(a, s))
    ensures StateAfter(st, a + b, s) == StateAfter(StateAfter(st, a, s), b, After(a, s))
    decreases |a|
  {
    hide Laid, Width, IsPage, NextState, Completed, Advance;
    if a == [] {
      assert a + b == b;
      assert [] + CompletedBy(st, b, s) == CompletedBy(st, b, s);
    } else {
      PageOf(a[0], s);
      var w := Width(a[0]);
      assert (a + b)[0] == a[0] && (a + b)[1..] == a[1..] + b;
      AppendPages(NextState(st, w, s), a[1..], b, Advance(w, s));
    }
  }

  lemma {:induction false} SequentialIsOneRun(st: ParserState, segs: seq<seq<Bytes>>, s: Stream)
    requires LaidSegments(segs, s)
    ensures LaidPages(Flat(segs), s) && CompletedBy(st, Flat(segs), s) == Sequential(st, segs, s)
    decreases |segs|
  {
    hide Laid, NextState, Completed, Advance;
    if segs != [] {
      SequentialIsOneRun(StateAfter(st, segs[0], s), segs[1..], After(segs[0], s));
      AppendPages(st, segs[0], Flat(segs[1..]), s);
    }
  }
}
