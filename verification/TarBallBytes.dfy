/** No byte written into a tarball is lost: after a successful finish all of them are in tarballs that were closed and awaited. */
module TarBallBytes {
  import opened TarBallQueue

  // ---- bytes that are not closed yet ----------------------------------------

  /** What a worker has in an open tarball. */
  function InHand(at: Worker): nat {
    if at.Holding? || at.Finishing? || at.Locked? || at.Returning? then at.ball.size else 0
  }

  function InHands(ws: seq<Worker>): nat {
    if ws == [] then 0 else InHands(ws[..|ws| - 1]) + InHand(ws[|ws| - 1])
  }

  function TakenBytes(f: Finisher): nat {
    if f.Closing? then f.ball.size else 0
  }

  function OpenBytes(s: State): nat {
    SizeOf(s.fill) + InHands(s.workers) + TakenBytes(s.finisher) + SizeOf(s.dropped)
  }

  /** The bytes that the steps of a run write. */
  function WrittenBy(es: seq<Event>): nat {
    if es == [] then 0 else (if es[0].Write? then es[0].bytes else 0) + WrittenBy(es[1..])
  }

  // ---- sums -----------------------------------------------------------------

  lemma {:induction false} InHandsMoved(ws: seq<Worker>, w: nat, to: Worker)
    requires w < |ws|
    ensures InHands(ws[w := to]) == InHands(ws) - InHand(ws[w]) + InHand(to)
    ensures InHand(ws[w]) <= InHands(ws)
  {
    hide InHand;
    var n := |ws| - 1;
    if w < n {
      assert ws[w := to][..n] == ws[..n][w := to];
      InHandsMoved(ws[..n], w, to);
    } else {
      assert ws[w := to][..n] == ws[..n];
    }
  }

  lemma SizePush(bs: seq<Ball>, b: Ball)
    ensures SizeOf(bs + [b]) == SizeOf(bs) + b.size
  {
    assert (bs + [b])[..|bs|] == bs;
  }

  lemma {:induction false} SizePop(bs: seq<Ball>)
    requires bs != []
    ensures SizeOf(bs) == bs[0].size + SizeOf(bs[1..])
  {
    var n := |bs| - 1;
    if n == 0 {
      assert bs[..0] == [] && bs[1..] == [];
    } else {
      SizePop(bs[..n]);
      assert bs[..n][1..] == bs[1..][..n - 1] && bs[1..][n - 1] == bs[n];
    }
  }

  lemma {:induction false} SizeNothing(bs: seq<Ball>)
    requires forall k :: 0 <= k < |bs| ==> bs[k].size == 0
    ensures SizeOf(bs) == 0
  {
    if bs != [] {
      SizeNothing(bs[..|bs| - 1]);
    }
  }

  lemma {:induction false} EmptyHands(ws: seq<Worker>)
    requires forall w :: 0 <= w < |ws| ==> !Owes(ws[w])
    ensures InHands(ws) == 0
  {
    if ws != [] {
      EmptyHands(ws[..|ws| - 1]);
    }
  }

  // ---- every step accounts for the bytes it writes ---------------------------

  /** The steps that touch the fill queue. */
  predicate Queues(e: Event) {
    e.Receive? || e.EnqueueBack? || e.SendFill?
  }

  lemma QueueBytes(s: State, e: Event)
    requires Queues(e) && Enabled(s, e) && LastIsReturned(s)
    ensures var after := ApplyWorker(s, e);
      && after.workers == s.workers[e.w := after.workers[e.w]] && after.total == s.total
      && after.finisher == s.finisher && after.dropped == s.dropped
      && SizeOf(after.fill) + InHand(after.workers[e.w]) == SizeOf(s.fill) + InHand(s.workers[e.w])
  {
    hide SizeOf;
    match e
    case Receive(_) => SizePop(s.fill);
    case EnqueueBack(w) => SizePush(s.fill, s.workers[w].ball);
    case SendFill(_) => SizePush(s.fill, s.last);
  }

  lemma QuietBytes(s: State, e: Event)
    requires IsWorkerEvent(e) && !Queues(e) && Enabled(s, e)
    ensures var after := ApplyWorker(s, e);
      && after.workers == s.workers[e.w := after.workers[e.w]] && after.fill == s.fill
      && after.finisher == s.finisher && after.dropped == s.dropped
      && InHand(after.workers[e.w]) + after.total == InHand(s.workers[e.w]) + s.total + if e.Write? then e.bytes else 0
  {
  }

  lemma WorkerBytes(s: State, e: Event)
    requires IsWorkerEvent(e) && Enabled(s, e) && LastIsReturned(s)
    ensures OpenBytes(ApplyWorker(s, e)) + ApplyWorker(s, e).total == OpenBytes(s) + s.total + WrittenBy([e])
  {
    hide InHands, InHand, SizeOf, LastIsReturned, ApplyWorker, WorkerCan;
    assert [e][1..] == [];
    if Queues(e) {
      QueueBytes(s, e);
    } else {
      QuietBytes(s, e);
    }
    InHandsMoved(s.workers, e.w, ApplyWorker(s, e).workers[e.w]);
  }

  lemma FinisherBytes(s: State, e: Event)
    requires !IsWorkerEvent(e) && Enabled(s, e)
    ensures OpenBytes(ApplyFinisher(s, e)) + ApplyFinisher(s, e).total == OpenBytes(s) + s.total
  {
    hide InHands, SizeOf;
    if e.Take? {
      SizePop(s.fill);
      SizePush(s.dropped, s.fill[0]);
    }
  }

  lemma StepBytes(s: State, e: Event)
    requires Enabled(s, e) && LastIsReturned(s)
    ensures OpenBytes(Apply(s, e)) + Apply(s, e).total == OpenBytes(s) + s.total + WrittenBy([e])
  {
    hide OpenBytes, ApplyWorker, ApplyFinisher, Enabled;
    if IsWorkerEvent(e) {
      WorkerBytes(s, e);
    } else {
      FinisherBytes(s, e);
      assert [e][1..] == [];
    }
  }

  // ---- a tarball that holds bytes was written to -----------------------------

  predicate Marked(b: Ball) {
    b.size > 0 ==> b.written
  }

  predicate AllMarked(s: State) {
    && Marked(s.last)
    && (forall k :: 0 <= k < |s.fill| ==> Marked(s.fill[k]))
    && (forall k :: 0 <= k < |s.dropped| ==> Marked(s.dropped[k]))
    && (forall w :: 0 <= w < |s.workers| ==> (s.workers[w].Holding? ==> Marked(s.workers[w].ball)))
  }

  /** One more or one less tarball in a queue of marked ones. */
  ghost predicate Near(before: seq<Ball>, after: seq<Ball>) {
    || after == before || (before != [] && after == before[1..])
    || exists b :: Marked(b) && after == before + [b]
  }

  lemma NearKeepsMarks(before: seq<Ball>, after: seq<Ball>)
    requires Near(before, after) && forall k :: 0 <= k < |before| ==> Marked(before[k])
    ensures forall k :: 0 <= k < |after| ==> Marked(after[k])
  {
  }

  lemma WorkerMarks(s: State, e: Event)
    requires IsWorkerEvent(e) && Enabled(s, e) && AllMarked(s)
    ensures var after := ApplyWorker(s, e);
      && after.workers == s.workers[e.w := after.workers[e.w]] && after.dropped == s.dropped
      && Marked(after.last) && Near(s.fill, after.fill)
      && (after.workers[e.w].Holding? ==> Marked(after.workers[e.w].ball))
  {
    assert s.workers[e.w].Holding? ==> Marked(s.workers[e.w].ball);
  }

  lemma FinisherMarks(s: State, e: Event)
    requires !IsWorkerEvent(e) && Enabled(s, e) && AllMarked(s)
    ensures var after := ApplyFinisher(s, e);
      && after.workers == s.workers && after.last == s.last && Near(s.fill, after.fill) && Near(s.dropped, after.dropped)
  {
  }

  lemma StepKeepsMarks(s: State, e: Event)
    requires Enabled(s, e) && AllMarked(s)
    ensures AllMarked(Apply(s, e))
  {
    hide ApplyWorker, ApplyFinisher, WorkerCan, FinisherCan, Near, Marked;
    if IsWorkerEvent(e) {
      WorkerMarks(s, e);
      NearKeepsMarks(s.fill, ApplyWorker(s, e).fill);
    } else {
      FinisherMarks(s, e);
      NearKeepsMarks(s.fill, ApplyFinisher(s, e).fill);
      NearKeepsMarks(s.dropped, ApplyFinisher(s, e).dropped);
    }
  }

  // ---- whole runs -----------------------------------------------------------

  /** In every run: the bytes of open tarballs and those of closed ones are together the bytes written. */
  lemma {:induction false} RunBytes(s: State, es: seq<Event>)
    requires Invariant(s) && AllMarked(s) && IsRun(s, es)
    ensures AllMarked(End(s, es))
    ensures OpenBytes(End(s, es)) + End(s, es).total == OpenBytes(s) + s.total + WrittenBy(es)
    decreases |es|
  {
    hide Apply, Enabled, OpenBytes, AllMarked, Conserved, MutexHeld, UploadsBounded, DroppedUnused, LastIsReturned;
    if es != [] {
      StepKeepsInvariant(s, es[0]);
      StepBytes(s, es[0]);
      StepKeepsMarks(s, es[0]);
      assert [es[0]][1..] == [];
      RunBytes(Apply(s, es[0]), es[1..]);
    }
  }

  lemma {:induction false} FreshBytes(n: nat)
    ensures SizeOf(Fresh(n)) == 0 && |Fresh(n)| == n && forall k :: 0 <= k < n ==> Marked(Fresh(n)[k])
  {
    hide SizeOf;
    if n == 0 {
      SizeNothing([]);
    } else {
      FreshBytes(n - 1);
      SizePush(Fresh(n - 1), Ball(n - 1, 0, false));
    }
  }

  lemma InitialBytes(parallel: nat, maxQueue: nat, workers: nat)
    ensures var s := Initial(parallel, maxQueue, workers); AllMarked(s) && OpenBytes(s) == 0 && s.total == 0
  {
    hide Fresh, SizeOf, InHands;
    FreshBytes(parallel);
    SizeNothing([]);
    EmptyHands(Initial(parallel, maxQueue, workers).workers);
  }

  /** After a successful finish every byte written in the run is in a closed and awaited tarball. */
  lemma EveryByteIsAwaited(parallel: nat, maxQueue: nat, workers: nat, es: seq<Event>)
    requires parallel >= 1 && IsRun(Initial(parallel, maxQueue, workers), es)
    requires End(Initial(parallel, maxQueue, workers), es).finisher.Succeeded?
    ensures var s := End(Initial(parallel, maxQueue, workers), es);
      SizeOf(s.awaited) == s.total == WrittenBy(es)
  {
    hide Conserved, MutexHeld, LastIsReturned, UploadsBounded, SizeOf, InHands, Owes, Initial, IsRun, End;
    var start := Initial(parallel, maxQueue, workers);
    var s := End(start, es);
    InitialInvariant(parallel, maxQueue, workers);
    InitialBytes(parallel, maxQueue, workers);
    RunBytes(start, es);
    RunKeepsInvariant(start, es);
    SuccessfulRun(parallel, maxQueue, workers, es);
    NothingLeftBehind(s);
    EmptyHands(s.workers);
    SizeNothing(s.fill);
    SizeNothing(s.dropped);
  }
}
