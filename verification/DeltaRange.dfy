/** Which delta files and WAL files a delta backup reads, and the map of changed blocks it builds from them. */
module DeltaRange {
  import opened Bytes
  import opened WalParts

  // ---- segment and delta numbers --------------------------------------------

  function SegmentNo(lsn: nat, size: nat): nat
    requires size > 0
  {
    lsn / size
  }

  /** The delta file of a segment is named by its first segment. */
  function DeltaNo(segment: nat): nat {
    segment - segment % SEGMENTS
  }

  /** 64-bit subtraction. */
  function Previous(delta: nat): nat {
    (delta + UINT64 - SEGMENTS) % UINT64
  }

  /** The first delta file not used. */
  function LastDelta(firstNotUsed: nat, size: nat): nat
    requires size > 0
  {
    DeltaNo(SegmentNo(firstNotUsed, size))
  }

  /** A delta file that is read: from the one of the first position up to the one before the last delta, and that one. */
  predicate ReadsDelta(firstUsed: nat, firstNotUsed: nat, size: nat, d: nat)
    requires size > 0
  {
    var last := Previous(LastDelta(firstNotUsed, size));
    d == last || (d % SEGMENTS == 0 && DeltaNo(SegmentNo(firstUsed, size)) <= d < last)
  }

  /** A WAL file that is read. */
  predicate ReadsWal(firstNotUsed: nat, size: nat, n: nat)
    requires size > 0 && firstNotUsed > 0
  {
    LastDelta(firstNotUsed, size) <= n <= SegmentNo(firstNotUsed - 1, size)
  }

  /** Segment `n` is read, in a delta file or as a WAL file. */
  ghost predicate Covers(firstUsed: nat, firstNotUsed: nat, size: nat, n: nat)
    requires size > 0 && firstNotUsed > 0
  {
    (exists d: nat :: ReadsDelta(firstUsed, firstNotUsed, size, d) && d <= n < d + SEGMENTS) || ReadsWal(firstNotUsed, size, n)
  }

  /** The range that should be covered: it starts with a delta file, at the latest the one before the last delta. */
  predicate InRange(firstUsed: nat, firstNotUsed: nat, size: nat, n: nat)
    requires size > 0 && firstNotUsed > 0
  {
    var first, last := DeltaNo(SegmentNo(firstUsed, size)), LastDelta(firstNotUsed, size);
    (first <= n || last <= n + SEGMENTS) && n <= SegmentNo(firstNotUsed - 1, size)
  }

  // ---- arithmetic -----------------------------------------------------------

  lemma Times(a: nat, b: nat, size: nat)
    ensures a <= b ==> a * size <= b * size
  {
  }

  lemma Quotient(x: nat, size: nat)
    requires size > 0
    ensures x / size * size <= x < (x / size + 1) * size
  {
  }

  lemma SegmentsAscend(a: nat, b: nat, size: nat)
    requires size > 0 && a <= b
    ensures SegmentNo(a, size) <= SegmentNo(b, size)
  {
    Quotient(a, size);
    Quotient(b, size);
    Times(b / size + 1, a / size, size);
  }

  lemma PreviousSegment(b: nat, size: nat)
    requires size > 0 && b > 0
    ensures SegmentNo(b - 1, size) <= SegmentNo(b, size) <= SegmentNo(b - 1, size) + 1
  {
    SegmentsAscend(b - 1, b, size);
    var q := (b - 1) / size;
    Quotient(b - 1, size);
    Quotient(b, size);
    Times(q + 2, b / size, size);
    assert (q + 2) * size == (q + 1) * size + size;
  }

  lemma DeltaBounds(segment: nat)
    ensures DeltaNo(segment) <= segment < DeltaNo(segment) + SEGMENTS && DeltaNo(segment) % SEGMENTS == 0
  {
  }

  /** A position lies in its segment. */
  lemma SegmentHolds(lsn: nat, size: nat)
    requires size > 0
    ensures SegmentNo(lsn, size) * size <= lsn < (SegmentNo(lsn, size) + 1) * size
  {
    Quotient(lsn, size);
  }

  // ---- coverage -------------------------------------------------------------

  /** From the second delta on, what is read is one contiguous range ending with the last position used. */
  lemma CoverageIsRange(firstUsed: nat, firstNotUsed: nat, size: nat, n: nat)
    requires size > 0 && firstUsed < firstNotUsed < UINT64 && LastDelta(firstNotUsed, size) >= SEGMENTS
    ensures Covers(firstUsed, firstNotUsed, size, n) <==> InRange(firstUsed, firstNotUsed, size, n)
  {
    hide SegmentNo;
    var a, b := SegmentNo(firstUsed, size), SegmentNo(firstNotUsed, size);
    SegmentsAscend(firstUsed, firstNotUsed, size);
    PreviousSegment(firstNotUsed, size);
    BelowUint64(firstNotUsed, size);
    DeltaBounds(a);
    DeltaBounds(b);
    DeltaBounds(n);
    if n < DeltaNo(b) {
      BeforeLast(DeltaNo(a), DeltaNo(b), n);
      assert ReadsDelta(firstUsed, firstNotUsed, size, DeltaNo(n)) <==> DeltaNo(a) <= n || DeltaNo(b) <= n + SEGMENTS;
    }
  }

  /** Delta numbers `first` and `last` and a segment before the last. */
  lemma BeforeLast(first: nat, last: nat, n: nat)
    requires first % SEGMENTS == 0 && last % SEGMENTS == 0 && SEGMENTS <= last < UINT64 && n < last
    ensures Previous(last) == last - SEGMENTS
    ensures first <= DeltaNo(n) <==> first <= n
    ensures DeltaNo(n) == last - SEGMENTS <==> last <= n + SEGMENTS
    ensures DeltaNo(n) <= last - SEGMENTS
    ensures forall d: nat :: d % SEGMENTS == 0 && d <= n < d + SEGMENTS ==> d == DeltaNo(n)
  {
  }

  lemma BelowUint64(lsn: nat, size: nat)
    requires size > 0 && lsn < UINT64
    ensures SegmentNo(lsn, size) < UINT64
  {
    assert lsn / size * size <= lsn;
    Times(1, size, lsn / size);
  }

  /** No segment is read twice. */
  lemma CoveredOnce(firstUsed: nat, firstNotUsed: nat, size: nat, n: nat, d: nat, d': nat)
    requires size > 0 && firstUsed < firstNotUsed < UINT64 && LastDelta(firstNotUsed, size) >= SEGMENTS
    requires ReadsDelta(firstUsed, firstNotUsed, size, d) && d <= n < d + SEGMENTS
    ensures !ReadsWal(firstNotUsed, size, n)
    ensures ReadsDelta(firstUsed, firstNotUsed, size, d') && d' <= n < d' + SEGMENTS ==> d' == d
  {
    hide SegmentNo;
    BelowUint64(firstNotUsed, size);
    DeltaBounds(SegmentNo(firstNotUsed, size));
  }

  /** Every segment touched by a position in the interval is read. */
  lemma PositionsAreCovered(firstUsed: nat, firstNotUsed: nat, size: nat, lsn: nat)
    requires size > 0 && firstUsed <= lsn < firstNotUsed < UINT64 && LastDelta(firstNotUsed, size) >= SEGMENTS
    ensures Covers(firstUsed, firstNotUsed, size, SegmentNo(lsn, size))
  {
    hide SegmentNo;
    SegmentsAscend(firstUsed, lsn, size);
    SegmentsAscend(lsn, firstNotUsed - 1, size);
    DeltaBounds(SegmentNo(firstUsed, size));
    CoverageIsRange(firstUsed, firstNotUsed, size, SegmentNo(lsn, size));
  }

  /**
   * In the first delta the subtraction wraps around: the delta before it is the last of all 64-bit numbers, which is
   * read, and so are all before it. Coverage is the promised range exactly from the second delta on.
   */
  lemma CoverageExactly(firstUsed: nat, firstNotUsed: nat, size: nat)
    requires size > 0 && firstUsed < firstNotUsed < UINT64
    ensures (forall n :: Covers(firstUsed, firstNotUsed, size, n) <==> InRange(firstUsed, firstNotUsed, size, n))
       <==> LastDelta(firstNotUsed, size) >= SEGMENTS
  {
    hide SegmentNo;
    if LastDelta(firstNotUsed, size) >= SEGMENTS {
      forall n
        ensures Covers(firstUsed, firstNotUsed, size, n) <==> InRange(firstUsed, firstNotUsed, size, n)
      {
        CoverageIsRange(firstUsed, firstNotUsed, size, n);
      }
    } else {
      DeltaBounds(SegmentNo(firstNotUsed, size));
      PreviousSegment(firstNotUsed, size);
      var wrapped := UINT64 - SEGMENTS;
      assert ReadsDelta(firstUsed, firstNotUsed, size, wrapped);
      assert Covers(firstUsed, firstNotUsed, size, wrapped) && !InRange(firstUsed, firstNotUsed, size, wrapped);
    }
  }

  /** A delta backup of the very first segment: the last delta file of all is read for it. */
  lemma FirstDeltaWraps(size: nat)
    requires size > 1
    ensures ReadsDelta(0, 1, size, UINT64 - SEGMENTS)
    ensures Covers(0, 1, size, UINT64 - SEGMENTS) && !InRange(0, 1, size, UINT64 - SEGMENTS)
  {
    assert SegmentNo(1, size) == 0;
    assert ReadsDelta(0, 1, size, UINT64 - SEGMENTS);
  }
}
