/** Walking the stored WAL segments backwards: the integrity scan of wal-verify and the gaps wal-show reports. */
module IntegrityScan {
  import opened Bytes

  datatype Segment = Segment(number: nat, timeline: nat)

  datatype Status = Lost | ProbablyUploading | ProbablyDelayed | Found

  datatype Scanned = Scanned(segment: Segment, status: Status)

  // ---- timelines ------------------------------------------------------------

  /**
   * The timeline of segment `n` on the way down from `start`: a history record at a segment number switches the timeline
   * of everything before it.
   */
  function TimelineAt(switches: map<nat, nat>, start: Segment, n: nat): nat
    requires n <= start.number
    decreases start.number - n
  {
    if n == start.number then start.timeline
    else if n + 1 in switches then switches[n + 1]
    else TimelineAt(switches, start, n + 1)
  }

  function At(switches: map<nat, nat>, start: Segment, n: nat): Segment
    requires n <= start.number
  {
    Segment(n, TimelineAt(switches, start, n))
  }

  /** The first record above `n`. */
  predicate IsNearest(switches: map<nat, nat>, n: nat, m: nat) {
    n < m && m in switches && forall k :: n < k < m ==> k !in switches
  }

  /** The timeline is that of the nearest record above `n`, or the one the scan started on. */
  lemma {:induction false} TimelineIsNearest(switches: map<nat, nat>, start: Segment, n: nat)
    requires n <= start.number
    ensures (exists m: nat :: IsNearest(switches, n, m) && m <= start.number && TimelineAt(switches, start, n) == switches[m])
         || (TimelineAt(switches, start, n) == start.timeline && forall k :: n < k <= start.number ==> k !in switches)
    decreases start.number - n
  {
    if n < start.number {
      if n + 1 in switches {
        assert IsNearest(switches, n, n + 1);
      } else {
        TimelineIsNearest(switches, start, n + 1);
        assert forall m: nat :: IsNearest(switches, n + 1, m) ==> IsNearest(switches, n, m);
      }
    }
  }

  // ---- runner and scanner ---------------------------------------------------

  datatype Step = Moved | NotFound | ReachedStop

  class WalSegmentRunner {
    var current: Segment
    const stored: set<Segment>
    const stop: nat
    const switches: map<nat, nat>
    const start: Segment

    ghost predicate Valid()
      reads this
    {
      current.number <= start.number && current == At(switches, start, current.number)
    }

    constructor (start: Segment, stored: set<Segment>, stop: nat, switches: map<nat, nat>)
      ensures Valid() && current == start && this.start == start
      ensures this.stored == stored && this.stop == stop && this.switches == switches
    {
      this.start, current, this.stored, this.stop, this.switches := start, start, stored, stop, switches;
    }

    method GetNextSegment() returns (next: Segment)
      requires Valid() && current.number > 0
      ensures next == At(switches, start, current.number - 1)
    {
      var timeline := current.timeline;
      if current.number in switches {
        timeline := switches[current.number];
      }
      return Segment(current.number - 1, timeline);
    }

    method Next() returns (step: Step)
      requires Valid()
      modifies this
      ensures Valid()
      ensures step == if old(current).number <= stop then ReachedStop
                      else if At(switches, start, old(current).number - 1) in stored then Moved else NotFound
      ensures current == if step == Moved then At(switches, start, old(current).number - 1) else old(current)
    {
      if current.number <= stop {
        return ReachedStop;
      }
      var next := GetNextSegment();
      if next !in stored {
        return NotFound;
      }
      current := next;
      return Moved;
    }

    method ForceMoveNext()
      requires Valid() && current.number > 0
      modifies this
      ensures Valid() && current == At(switches, start, old(current).number - 1)
    {
      current := GetNextSegment();
    }
  }

  /** How many segments a scan may visit, whether it ends with the first one found, and what it calls a missing one. */
  datatype Config = Config(limit: Option<int>, stopOnFound: bool, missing: Status)

  /** What a scan reports of segment `n`. */
  function Report(stored: set<Segment>, segment: Segment, missing: Status): Scanned {
    Scanned(segment, if segment in stored then Found else missing)
  }

  /** The reports of the segments from below `high` down to `low`. */
  function Reports(runner: Run, high: nat, low: nat, missing: Status): seq<Scanned>
    requires low <= high <= runner.start.number
  {
    seq(high - low, i requires 0 <= i < high - low =>
      Report(runner.stored, At(runner.switches, runner.start, high - 1 - i), missing))
  }

  /** The fixed part of a runner. */
  datatype Run = Run(stored: set<Segment>, stop: nat, switches: map<nat, nat>, start: Segment)

  /** Where a scan from `high` may end, having visited everything down to `low`. */
  predicate EndsAt(run: Run, config: Config, high: nat, low: nat)
    requires low <= high <= run.start.number
  {
    && (config.limit.Some? ==> high - low <= if config.limit.value > 0 then config.limit.value else 0)
    && (config.stopOnFound ==> forall n :: low < n < high ==> At(run.switches, run.start, n) !in run.stored)
    && (low < high ==> low >= run.stop)
    && (|| low <= run.stop
        || (config.limit.Some? && high - low == if config.limit.value > 0 then config.limit.value else 0)
        || (config.stopOnFound && low < high && At(run.switches, run.start, low) in run.stored))
  }

  class WalSegmentScanner {
    const runner: WalSegmentRunner
    var scanned: seq<Scanned>

    constructor (runner: WalSegmentRunner)
      ensures this.runner == runner && scanned == []
    {
      this.runner, scanned := runner, [];
    }

    ghost function Fixed(): Run {
      Run(runner.stored, runner.stop, runner.switches, runner.start)
    }

    /** Scan: reports every segment it passes, Found exactly when it is stored, and ends where the configuration says. */
    method Scan(config: Config)
      requires runner.Valid()
      modifies this, runner
      ensures runner.Valid() && runner.current.number <= old(runner.current.number)
      ensures scanned == old(scanned) + Reports(Fixed(), old(runner.current.number), runner.current.number, config.missing)
      ensures EndsAt(Fixed(), config, old(runner.current.number), runner.current.number)
    {
      hide TimelineAt, Reports;
      ghost var high, run := runner.current.number, Fixed();
      NoReports(run, high, config.missing);
      var i := 0;
      while config.limit.None? || i < config.limit.value
        invariant runner.Valid() && runner.current.number <= high && i == high - runner.current.number
        invariant scanned == old(scanned) + Reports(run, high, runner.current.number, config.missing)
        invariant config.limit.Some? ==> i <= if config.limit.value > 0 then config.limit.value else 0
        invariant config.stopOnFound ==>
          forall n :: runner.current.number <= n < high ==> At(run.switches, run.start, n) !in run.stored
        invariant runner.current.number < high ==> runner.current.number >= run.stop
        decreases runner.current.number
      {
        ghost var before := runner.current.number;
        var step := runner.Next();
        if step == ReachedStop {
          return;
        }
        MoreReports(run, high, before, config.missing);
        if step == NotFound {
          runner.ForceMoveNext();
          scanned := scanned + [Scanned(runner.current, config.missing)];
        } else {
          scanned := scanned + [Scanned(runner.current, Found)];
          if config.stopOnFound {
            return;
          }
        }
        i := i + 1;
      }
    }
  }

  lemma NoReports(run: Run, high: nat, missing: Status)
    requires high <= run.start.number
    ensures Reports(run, high, high, missing) == []
  {
  }

  lemma MoreReports(run: Run, high: nat, low: nat, missing: Status)
    requires 0 < low <= high <= run.start.number
    ensures Reports(run, high, low - 1, missing)
         == Reports(run, high, low, missing) + [Report(run.stored, At(run.switches, run.start, low - 1), missing)]
  {
  }

  // ---- the integrity scan ---------------------------------------------------

  /** The three scans: delayed until the first segment found, then those that may still be uploading, then the lost. */
  ghost predicate IsIntegrityScan(run: Run, scanned: seq<Scanned>, delayed: int, uploading: int, a: nat, b: nat)
  {
    var end := if run.start.number <= run.stop then run.start.number else run.stop;
    && end <= b <= a <= run.start.number
    && EndsAt(run, Config(Some(delayed), true, ProbablyDelayed), run.start.number, a)
    && EndsAt(run, Config(Some(uploading), false, ProbablyUploading), a, b)
    && scanned == Reports(run, run.start.number, a, ProbablyDelayed) + Reports(run, a, b, ProbablyUploading)
                  + Reports(run, b, end, Lost)
  }

  method RunWalIntegrityScan(start: Segment, stored: set<Segment>, stop: nat, switches: map<nat, nat>,
                             uploading: int, delayed: int)
    returns (scanned: seq<Scanned>, ghost a: nat, ghost b: nat)
    ensures IsIntegrityScan(Run(stored, stop, switches, start), scanned, delayed, uploading, a, b)
  {
    hide EndsAt, Reports;
    var runner := new WalSegmentRunner(start, stored, stop, switches);
    var scanner := new WalSegmentScanner(runner);
    ghost var run := scanner.Fixed();
    scanner.Scan(Config(Some(delayed), true, ProbablyDelayed));
    a := runner.current.number;
    assert [] + Reports(run, start.number, a, ProbablyDelayed) == Reports(run, start.number, a, ProbablyDelayed);
    scanner.Scan(Config(Some(uploading), false, ProbablyUploading));
    b := runner.current.number;
    scanner.Scan(Config(None, false, Lost));
    UnlimitedEnds(run, a, b, runner.current.number, delayed, uploading);
    return scanner.scanned, a, b;
  }

  lemma UnlimitedEnds(run: Run, a: nat, b: nat, low: nat, delayed: int, uploading: int)
    requires low <= b <= a <= run.start.number
    requires EndsAt(run, Config(Some(delayed), true, ProbablyDelayed), run.start.number, a)
    requires EndsAt(run, Config(Some(uploading), false, ProbablyUploading), a, b)
    requires EndsAt(run, Config(None, false, Lost), b, low)
    ensures low == if run.start.number <= run.stop then run.start.number else run.stop
  {
  }

  /**
   * The three scans together visit every segment from the one before the start down to the stop exactly once, on the
   * timeline of the history, and report Found exactly those that are stored; a missing one is delayed, uploading or lost
   * by where it lies.
   */
  lemma ScanIsComplete(run: Run, scanned: seq<Scanned>, delayed: int, uploading: int, a: nat, b: nat)
    requires IsIntegrityScan(run, scanned, delayed, uploading, a, b)
    ensures |scanned| == if run.start.number <= run.stop then 0 else run.start.number - run.stop
    ensures forall i :: 0 <= i < |scanned| ==>
      var n := run.start.number - 1 - i;
      && scanned[i].segment == At(run.switches, run.start, n)
      && scanned[i].status == if At(run.switches, run.start, n) in run.stored then Found
                              else if n >= a then ProbablyDelayed else if n >= b then ProbablyUploading else Lost
  {
    var end := if run.start.number <= run.stop then run.start.number else run.stop;
    var x, y, z := Reports(run, run.start.number, a, ProbablyDelayed), Reports(run, a, b, ProbablyUploading),
                   Reports(run, b, end, Lost);
    forall i | 0 <= i < |scanned|
      ensures var n := run.start.number - 1 - i;
        scanned[i] == Report(run.stored, At(run.switches, run.start, n),
                             if n >= a then ProbablyDelayed else if n >= b then ProbablyUploading else Lost)
    {
      var n := run.start.number - 1 - i;
      if n >= a {
        assert scanned[i] == x[i];
      } else if n >= b {
        assert scanned[i] == y[i - |x|];
      } else {
        assert scanned[i] == z[i - |x| - |y|];
      }
    }
  }

  /**
   * The delayed range ends at the first segment found, after `delayed` segments or at the stop, whichever comes first; the
   * uploading range after `uploading` more or at the stop.
   */
  lemma StatusRanges(run: Run, scanned: seq<Scanned>, delayed: int, uploading: int, a: nat, b: nat)
    requires IsIntegrityScan(run, scanned, delayed, uploading, a, b)
    ensures forall n :: a < n < run.start.number ==> At(run.switches, run.start, n) !in run.stored
    ensures run.start.number - a <= if delayed >= 0 then delayed else 0
    ensures a > run.stop && run.start.number - a < delayed ==>
      a < run.start.number && At(run.switches, run.start, a) in run.stored
    ensures a - b <= if uploading >= 0 then uploading else 0
    ensures b > run.stop && uploading >= 0 ==> a - b == uploading
  {
  }

  // ---- segment sequences ----------------------------------------------------

  class WalSegmentsSequence {
    const timeline: nat
    var numbers: set<nat>
    var min: nat
    var max: nat

    /** The smallest and the largest number of the collection. */
    ghost predicate Valid()
      reads this
    {
      min in numbers && max in numbers && forall n :: n in numbers ==> min <= n <= max
    }

    constructor (timeline: nat, number: nat)
      ensures Valid() && this.timeline == timeline && numbers == {number} && min == max == number
    {
      this.timeline, numbers, min, max := timeline, {number}, number, number;
    }

    method AddWalSegmentNo(number: nat)
      requires Valid()
      modifies this
      ensures Valid() && numbers == old(numbers) + {number}
      ensures min == if number < old(min) then number else old(min)
      ensures max == if number > old(max) then number else old(max)
    {
      numbers := numbers + {number};
      if min > number {
        min := number;
      }
      if max < number {
        max := number;
      }
    }

    /** newIntegrityScanSegmentSequence. */
    function ToRow(status: Status): Row
      reads this
    {
      Row(timeline, min, max, |numbers|, status)
    }

    /** FindMissingSegments: exactly the numbers between the smallest and the largest that are not there, each once. */
    method FindMissingSegments() returns (missing: seq<Segment>)
      requires Valid()
      ensures Descending(missing)
      ensures forall x :: x in missing <==> x.timeline == timeline && min <= x.number <= max && x.number !in numbers
    {
      hide Reports, EndsAt, At;
      var stored := set n | n in numbers :: Segment(n, timeline);
      var runner := new WalSegmentRunner(Segment(max, timeline), stored, min, map[]);
      var scanner := new WalSegmentScanner(runner);
      scanner.Scan(Config(None, false, Lost));
      UnlimitedReaches(scanner.Fixed(), max, runner.current.number);
      assert [] + Reports(scanner.Fixed(), max, min, Lost) == Reports(scanner.Fixed(), max, min, Lost);
      missing := GetMissingSegments(scanner.scanned);
      Gaps(scanner.Fixed(), max, min);
      assert forall n :: Segment(n, timeline) in stored <==> n in numbers;
    }
  }

  lemma UnlimitedReaches(run: Run, high: nat, low: nat)
    requires low <= high <= run.start.number && run.stop <= high && EndsAt(run, Config(None, false, Lost), high, low)
    ensures low == run.stop
  {
  }

  /** GetMissingSegmentsDescriptions. */
  function MissingOf(scanned: seq<Scanned>): seq<Segment> {
    if scanned == [] then []
    else
      var last := scanned[|scanned| - 1];
      MissingOf(scanned[..|scanned| - 1]) + (if last.status != Found then [last.segment] else [])
  }

  method GetMissingSegments(scanned: seq<Scanned>) returns (missing: seq<Segment>)
    ensures missing == MissingOf(scanned)
  {
    missing := [];
    for i := 0 to |scanned|
      invariant missing == MissingOf(scanned[..i])
    {
      assert scanned[..i + 1][..i] == scanned[..i];
      if scanned[i].status != Found {
        missing := missing + [scanned[i].segment];
      }
    }
    assert scanned[..|scanned|] == scanned;
  }

  predicate Descending(segments: seq<Segment>) {
    forall i, j :: 0 <= i < j < |segments| ==> segments[i].number > segments[j].number
  }

  /** The missing segments of a scan on one timeline are exactly those of the range that are not stored. */
  lemma {:induction false} Gaps(run: Run, high: nat, low: nat)
    requires low <= high <= run.start.number && run.switches == map[]
    ensures var missing := MissingOf(Reports(run, high, low, Lost));
      && Descending(missing)
      && (forall x :: x in missing <==> x.timeline == run.start.timeline && low <= x.number < high && x !in run.stored)
    decreases high - low
  {
    hide Reports, At;
    if low == high {
      NoReports(run, high, Lost);
    } else {
      Gaps(run, high, low + 1);
      MoreReports(run, high, low + 1, Lost);
      OneTimeline(run.start);
      var before, all := Reports(run, high, low + 1, Lost), Reports(run, high, low, Lost);
      assert At(run.switches, run.start, low) == Segment(low, run.start.timeline);
      assert all[..|all| - 1] == before && all[|all| - 1] == Report(run.stored, Segment(low, run.start.timeline), Lost);
    }
  }

  lemma OneTimeline(start: Segment)
    ensures forall n: nat :: n <= start.number ==> At(map[], start, n) == Segment(n, start.timeline)
  {
    forall n: nat | n <= start.number
      ensures At(map[], start, n) == Segment(n, start.timeline)
    {
      TimelineIsNearest(map[], start, n);
    }
  }

  // ---- collapsing -----------------------------------------------------------

  /** Sorting by segment number. */
  function InsertByNumber(s: seq<Scanned>, x: Scanned): seq<Scanned> {
    if s == [] || x.segment.number < s[0].segment.number then [x] + s else [s[0]] + InsertByNumber(s[1..], x)
  }

  function SortByNumber(s: seq<Scanned>): seq<Scanned> {
    if s == [] then [] else InsertByNumber(SortByNumber(s[1..]), s[0])
  }

  function Reversed(s: seq<Scanned>): seq<Scanned> {
    if s == [] then [] else Reversed(s[1..]) + [s[0]]
  }

  /** The scans report in descending order, so sorting their reports turns them around. */
  predicate CountsDown(s: seq<Scanned>) {
    forall i :: 0 <= i < |s| ==> s[i].segment.number + i == s[0].segment.number
  }

  predicate CountsUp(s: seq<Scanned>) {
    forall i :: 0 <= i < |s| ==> s[i].segment.number == s[0].segment.number + i
  }

  lemma {:induction false} InsertLast(s: seq<Scanned>, x: Scanned)
    requires forall i :: 0 <= i < |s| ==> s[i].segment.number <= x.segment.number
    ensures InsertByNumber(s, x) == s + [x]
  {
    if s != [] {
      InsertLast(s[1..], x);
      assert s == [s[0]] + s[1..];
    }
  }

  lemma {:induction false} SortTurnsAround(s: seq<Scanned>)
    requires CountsDown(s)
    ensures SortByNumber(s) == Reversed(s) && CountsUp(Reversed(s)) && |Reversed(s)| == |s|
    ensures s != [] ==> Reversed(s)[|s| - 1] == s[0]
    ensures forall i :: 0 <= i < |s| ==> Reversed(s)[i].segment.number <= s[0].segment.number
  {
    if s != [] {
      SortTurnsAround(s[1..]);
      InsertLast(Reversed(s[1..]), s[0]);
    }
  }

  /** A run of segments with one timeline and one status. */
  datatype Row = Row(timeline: nat, first: nat, last: nat, count: nat, status: Status)

  predicate Joins(row: Row, x: Scanned) {
    row.status == x.status && row.timeline == x.segment.timeline
  }

  function RowOf(x: Scanned): Row {
    Row(x.segment.timeline, x.segment.number, x.segment.number, 1, x.status)
  }

  /** One more segment: it joins the last row or begins a new one. */
  function AddRow(rows: seq<Row>, x: Scanned): (r: seq<Row>)
    ensures r != []
  {
    if rows == [] || !Joins(rows[|rows| - 1], x) then rows + [RowOf(x)]
    else
      var last := rows[|rows| - 1];
      rows[..|rows| - 1] + [last.(last := x.segment.number, count := last.count + 1)]
  }

  /** The rows of an ascending list, built one segment at a time. */
  function Rows(s: seq<Scanned>): (rows: seq<Row>)
    ensures s != [] ==> rows != []
  {
    if s == [] then [] else AddRow(Rows(s[..|s| - 1]), s[|s| - 1])
  }

  /** The segments a row stands for. */
  function Expand(row: Row): seq<Scanned>
    requires row.first <= row.last
  {
    seq(row.last - row.first + 1, i requires 0 <= i <= row.last - row.first =>
      Scanned(Segment(row.first + i, row.timeline), row.status))
  }

  predicate Ordered(rows: seq<Row>) {
    forall i :: 0 <= i < |rows| ==> rows[i].first <= rows[i].last
  }

  function ExpandAll(rows: seq<Row>): seq<Scanned>
    requires Ordered(rows)
  {
    if rows == [] then [] else ExpandAll(rows[..|rows| - 1]) + Expand(rows[|rows| - 1])
  }

  function Total(rows: seq<Row>): nat {
    if rows == [] then 0 else Total(rows[..|rows| - 1]) + rows[|rows| - 1].count
  }

  /** Rows that end just before segment number `next`, each counting the segments between its ends. */
  predicate Tight(rows: seq<Row>, next: nat) {
    && Ordered(rows) && (rows != [] ==> rows[|rows| - 1].last + 1 == next)
    && forall i :: 0 <= i < |rows| ==> rows[i].count == rows[i].last - rows[i].first + 1
  }

  lemma NewRow(rows: seq<Row>, x: Scanned)
    requires Tight(rows, x.segment.number)
    ensures Tight(rows + [RowOf(x)], x.segment.number + 1)
    ensures ExpandAll(rows + [RowOf(x)]) == ExpandAll(rows) + [x] && Total(rows + [RowOf(x)]) == Total(rows) + 1
  {
    var all := rows + [RowOf(x)];
    assert all[..|all| - 1] == rows && Expand(RowOf(x)) == [x];
  }

  lemma LongerRow(front: seq<Row>, last: Row, x: Scanned)
    requires Tight(front + [last], x.segment.number) && Joins(last, x)
    ensures var longer := last.(last := x.segment.number, count := last.count + 1);
      && Tight(front + [longer], x.segment.number + 1)
      && ExpandAll(front + [longer]) == ExpandAll(front + [last]) + [x]
      && Total(front + [longer]) == Total(front + [last]) + 1
  {
    var longer := last.(last := x.segment.number, count := last.count + 1);
    var before, after := front + [last], front + [longer];
    assert before[|before| - 1] == last;
    assert before[..|before| - 1] == front && after[..|after| - 1] == front;
    assert forall i :: 0 <= i < |front| ==> after[i] == before[i];
    assert Expand(longer) == Expand(last) + [x];
    assert ExpandAll(front) + (Expand(last) + [x]) == (ExpandAll(front) + Expand(last)) + [x];
  }

  lemma AddRowExpands(rows: seq<Row>, x: Scanned)
    requires Tight(rows, x.segment.number)
    ensures Tight(AddRow(rows, x), x.segment.number + 1) && Ordered(rows) && Ordered(AddRow(rows, x))
    ensures ExpandAll(AddRow(rows, x)) == ExpandAll(rows) + [x] && Total(AddRow(rows, x)) == Total(rows) + 1
  {
    hide ExpandAll, Total, Ordered;
    if rows == [] || !Joins(rows[|rows| - 1], x) {
      NewRow(rows, x);
    } else {
      assert rows == rows[..|rows| - 1] + [rows[|rows| - 1]];
      LongerRow(rows[..|rows| - 1], rows[|rows| - 1], x);
    }
  }

  /** Collapsing loses nothing: the rows expand to the very list they were made from, and their counts add up to it. */
  lemma {:induction false} CollapseIsLossless(s: seq<Scanned>)
    requires CountsUp(s)
    ensures s != [] ==> Tight(Rows(s), s[|s| - 1].segment.number + 1)
    ensures Ordered(Rows(s)) && ExpandAll(Rows(s)) == s && Total(Rows(s)) == |s|
  {
    hide AddRow, Rows, Tight, ExpandAll, Total, Ordered;
    if s == [] {
      NoRows(0);
    } else {
      var n, x := |s| - 1, s[|s| - 1];
      CollapseIsLossless(s[..n]);
      NoRows(x.segment.number);
      assert s[..n] != [] ==> s[..n][n - 1] == s[n - 1];
      AddRowExpands(Rows(s[..n]), x);
      RowsNext(s, n);
      assert s[..n + 1] == s && s[..n] + [x] == s;
      TightIsOrdered(Rows(s), x.segment.number + 1);
    }
  }

  lemma NoRows(next: nat)
    ensures Rows([]) == [] && Tight([], next) && Ordered([]) && ExpandAll([]) == [] && Total([]) == 0
  {
  }

  lemma TightIsOrdered(rows: seq<Row>, next: nat)
    requires Tight(rows, next)
    ensures Ordered(rows)
  {
  }

  /** No two neighbouring rows could be one. */
  lemma {:induction false} RowsAreMaximal(s: seq<Scanned>)
    ensures forall i :: 0 < i < |Rows(s)| ==>
      Rows(s)[i - 1].status != Rows(s)[i].status || Rows(s)[i - 1].timeline != Rows(s)[i].timeline
  {
    if s != [] {
      RowsAreMaximal(s[..|s| - 1]);
    }
  }

  predicate HasStatus(s: seq<Scanned>, status: Status) {
    exists i :: 0 <= i < |s| && s[i].status == status
  }

  predicate RowStatus(rows: seq<Row>, status: Status) {
    exists i :: 0 <= i < |rows| && rows[i].status == status
  }

  lemma AddRowStatus(rows: seq<Row>, x: Scanned, status: Status)
    ensures RowStatus(AddRow(rows, x), status) <==> RowStatus(rows, status) || x.status == status
  {
    var after := AddRow(rows, x);
    assert after[|after| - 1].status == x.status;
    if i :| 0 <= i < |rows| && rows[i].status == status {
      assert after[i].status == status;
    }
    if i :| 0 <= i < |after| && after[i].status == status {
      assert i < |after| - 1 ==> rows[i].status == status;
    }
  }

  lemma MoreStatus(s: seq<Scanned>, status: Status)
    requires s != []
    ensures HasStatus(s, status) <==> HasStatus(s[..|s| - 1], status) || s[|s| - 1].status == status
  {
    var front := s[..|s| - 1];
    if i :| 0 <= i < |front| && front[i].status == status {
      assert s[i].status == status;
    }
    if i :| 0 <= i < |s| && s[i].status == status {
      assert i < |front| ==> front[i].status == status;
    }
  }

  /** A status occurs among the rows exactly when it occurs among the segments. */
  lemma {:induction false} SameStatuses(s: seq<Scanned>, status: Status)
    ensures RowStatus(Rows(s), status) <==> HasStatus(s, status)
  {
    hide AddRow, RowStatus, HasStatus;
    if s == [] {
      NoStatus(status);
    } else {
      SameStatuses(s[..|s| - 1], status);
      AddRowStatus(Rows(s[..|s| - 1]), s[|s| - 1], status);
      MoreStatus(s, status);
    }
  }

  lemma NoStatus(status: Status)
    ensures !RowStatus([], status) && !HasStatus([], status)
  {
  }

  lemma RowsNext(s: seq<Scanned>, i: nat)
    requires i < |s|
    ensures Rows(s[..i + 1]) == AddRow(Rows(s[..i]), s[i])
  {
    assert s[..i + 1][..i] == s[..i];
  }

  lemma RowsFirst(s: seq<Scanned>)
    requires s != []
    ensures Rows(s[..1]) == [RowOf(s[0])]
  {
    RowsNext(s, 0);
    assert s[..0] == [];
  }

  lemma AddRowBegins(rows: seq<Row>, row: Row, x: Scanned)
    requires !Joins(row, x)
    ensures AddRow(rows + [row], x) == rows + [row] + [RowOf(x)]
  {
    assert (rows + [row])[|rows|] == row;
  }

  lemma AddRowJoins(rows: seq<Row>, row: Row, x: Scanned)
    requires Joins(row, x)
    ensures AddRow(rows + [row], x) == rows + [row.(last := x.segment.number, count := row.count + 1)]
  {
    assert (rows + [row])[|rows|] == row && (rows + [row])[..|rows|] == rows;
  }

  method CollapseSegments(scanned: seq<Scanned>) returns (rows: seq<Row>)
    requires CountsDown(scanned)
    ensures rows == Rows(SortByNumber(scanned))
  {
    if |scanned| == 0 {
      return [];
    }
    hide Rows;
    SortTurnsAround(scanned);
    rows := CollapseSorted(SortByNumber(scanned));
  }

  method CollapseSorted(s: seq<Scanned>) returns (rows: seq<Row>)
    requires CountsUp(s) && s != []
    ensures rows == Rows(s)
  {
    hide Rows, AddRow, CountsUp;
    rows := [];
    var sequence := new WalSegmentsSequence(s[0].segment.timeline, s[0].segment.number);
    var status := s[0].status;
    RowsFirst(s);
    assert [] + [RowOf(s[0])] == [RowOf(s[0])];
    for i := 1 to |s|
      invariant sequence.Valid() && fresh(sequence) && sequence.max == s[i - 1].segment.number
      invariant Rows(s[..i]) == rows + [sequence.ToRow(status)]
    {
      RowsNext(s, i);
      Neighbours(s, i);
      if s[i].status != status || sequence.timeline != s[i].segment.timeline {
        AddRowBegins(rows, sequence.ToRow(status), s[i]);
        rows := rows + [sequence.ToRow(status)];
        sequence := new WalSegmentsSequence(s[i].segment.timeline, s[i].segment.number);
        status := s[i].status;
      } else {
        AddRowJoins(rows, sequence.ToRow(status), s[i]);
        sequence.AddWalSegmentNo(s[i].segment.number);
      }
    }
    assert s[..|s|] == s;
    rows := rows + [sequence.ToRow(status)];
  }

  lemma Neighbours(s: seq<Scanned>, i: nat)
    requires CountsUp(s) && 0 < i < |s|
    ensures s[i].segment.number == s[i - 1].segment.number + 1
  {
  }

  // ---- the verdict ----------------------------------------------------------

  datatype Verdict = StatusOk | StatusWarning | StatusFailure

  /** newWalIntegrityCheckResult. */
  method CheckResult(rows: seq<Row>) returns (verdict: Verdict)
    ensures verdict == StatusFailure <==> exists i :: 0 <= i < |rows| && rows[i].status == Lost
    ensures verdict == StatusOk <==> forall i :: 0 <= i < |rows| ==> rows[i].status == Found
  {
    verdict := StatusOk;
    for i := 0 to |rows|
      invariant verdict != StatusFailure && forall k :: 0 <= k < i ==> rows[k].status != Lost
      invariant verdict == StatusOk <==> forall k :: 0 <= k < i ==> rows[k].status == Found
    {
      match rows[i].status
      case Lost => return StatusFailure;
      case ProbablyDelayed => verdict := StatusWarning;
      case ProbablyUploading => verdict := StatusWarning;
      case Found =>
    }
  }

  lemma {:induction false} ReversedMembers(s: seq<Scanned>)
    ensures forall x :: x in Reversed(s) <==> x in s
  {
    if s != [] {
      ReversedMembers(s[1..]);
      assert s == [s[0]] + s[1..];
    }
  }

  lemma SortKeepsStatus(s: seq<Scanned>, status: Status)
    requires CountsDown(s)
    ensures HasStatus(SortByNumber(s), status) <==> HasStatus(s, status)
  {
    SortTurnsAround(s);
    ReversedMembers(s);
    if i :| 0 <= i < |s| && s[i].status == status {
      assert s[i] in Reversed(s);
    }
    if i :| 0 <= i < |Reversed(s)| && Reversed(s)[i].status == status {
      assert Reversed(s)[i] in s;
    }
  }

  /** The verdict on the reports of a scan, through sorting and collapsing. */
  method Judge(scanned: seq<Scanned>) returns (verdict: Verdict)
    requires CountsDown(scanned)
    ensures verdict == StatusFailure <==> HasStatus(scanned, Lost)
    ensures verdict == StatusOk <==> forall i :: 0 <= i < |scanned| ==> scanned[i].status == Found
  {
    hide SortByNumber, Rows;
    var rows := CollapseSegments(scanned);
    verdict := CheckResult(rows);
    forall status: Status
      ensures HasStatus(scanned, status) <==> RowStatus(rows, status)
    {
      SortKeepsStatus(scanned, status);
      SameStatuses(SortByNumber(scanned), status);
    }
    assert verdict == StatusFailure <==> RowStatus(rows, Lost);
    if verdict == StatusOk {
      assert !HasStatus(scanned, Lost) && !HasStatus(scanned, ProbablyDelayed) && !HasStatus(scanned, ProbablyUploading);
    } else {
      assert exists i :: 0 <= i < |rows| && rows[i].status != Found;
      assert HasStatus(scanned, Lost) || HasStatus(scanned, ProbablyDelayed) || HasStatus(scanned, ProbablyUploading);
    }
  }

  predicate Missing(run: Run, n: nat)
    requires n <= run.start.number
  {
    At(run.switches, run.start, n) !in run.stored
  }

  /**
   * The whole check: it is OK exactly when every segment of the range is stored, and a failure exactly when one is
   * missing below the ranges where it may be delayed or still uploading.
   */
  method IntegrityCheck(run: Run, uploading: int, delayed: int) returns (verdict: Verdict, ghost a: nat, ghost b: nat)
    ensures exists scanned :: IsIntegrityScan(run, scanned, delayed, uploading, a, b)
    ensures verdict == StatusOk <==> forall n :: run.stop <= n < run.start.number ==> !Missing(run, n)
    ensures verdict == StatusFailure <==> exists n :: run.stop <= n < run.start.number && n < b && Missing(run, n)
  {
    hide TimelineAt, EndsAt, Reports;
    var scanned;
    scanned, a, b := RunWalIntegrityScan(run.start, run.stored, run.stop, run.switches, uploading, delayed);
    ScanIsComplete(run, scanned, delayed, uploading, a, b);
    verdict := Judge(scanned);
    forall n | run.stop <= n < run.start.number
      ensures Missing(run, n) <==> scanned[run.start.number - 1 - n].status != Found
    {
    }
    if exists n :: run.stop <= n < run.start.number && n < b && Missing(run, n) {
      var n :| run.stop <= n < run.start.number && n < b && Missing(run, n);
      assert scanned[run.start.number - 1 - n].status == Lost;
    }
    if HasStatus(scanned, Lost) {
      var i :| 0 <= i < |scanned| && scanned[i].status == Lost;
      assert Missing(run, run.start.number - 1 - i);
    }
    if forall n :: run.stop <= n < run.start.number ==> !Missing(run, n) {
      forall i | 0 <= i < |scanned|
        ensures scanned[i].status == Found
      {
        assert !Missing(run, run.start.number - 1 - i);
      }
    }
  }
}
