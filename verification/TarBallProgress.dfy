/** The tarball queue after FinishQueue is called: it cannot go on forever, and it can only end where it should. */
module TarBallProgress {
  import opened Bytes
  import opened TarBallQueue

  // ---- more that every step keeps -------------------------------------------

  /**
   * Nobody looks into an empty upload queue, no worker starts once FinishQueue runs, only a worker holds the mutex,
   * FinishQueue fails only with a tarball it could not close, and closes only tarballs that were written to.
   */
  predicate Orderly(s: State) {
    && (forall w :: 0 <= w < |s.workers| && s.workers[w].Selecting? ==> |s.upload| > s.maxQueue)
    && (s.finisher.EmptySelect? ==> s.upload != [])
    && (!s.finisher.NotCalled? ==> !s.started)
    && (s.mutex.Some? ==> s.mutex.value < |s.workers|)
    && (s.finisher.Failed? ==> s.lost != [])
    && (s.finisher.Closing? || s.finisher.FinalAwait? ==> s.finisher.ball.written)
  }

  lemma WorkerKeepsOrder(s: State, e: Event)
    requires Invariant(s) && Orderly(s) && IsWorkerEvent(e) && Enabled(s, e)
    ensures Orderly(Apply(s, e))
  {
    hide Conserved, LastIsReturned, DroppedUnused, UploadsBounded;
    var after := Apply(s, e);
    assert s.workers[e.w].Critical() <==> s.mutex == Some(e.w);
    if s.finisher.EmptySelect? {
      NothingLeftBehind(s);
    }
    forall w | 0 <= w < |after.workers| && after.workers[w].Selecting?
      ensures |after.upload| > after.maxQueue
    {
      if w != e.w {
        assert after.workers[w] == s.workers[w] && s.workers[w].Critical();
      }
    }
  }

  lemma FinisherKeepsOrder(s: State, e: Event)
    requires Invariant(s) && Orderly(s) && !IsWorkerEvent(e) && Enabled(s, e)
    ensures Orderly(Apply(s, e))
  {
    hide Conserved, LastIsReturned, DroppedUnused, UploadsBounded, MutexHeld;
    if s.finisher.TakenAll() {
      NothingLeftBehind(s);
    }
  }

  lemma {:induction false} RunKeepsOrder(s: State, es: seq<Event>)
    requires Invariant(s) && Orderly(s) && IsRun(s, es)
    ensures Invariant(End(s, es)) && Orderly(End(s, es))
    decreases |es|
  {
    hide Invariant, Orderly, Apply, Enabled;
    if es != [] {
      StepKeepsInvariant(s, es[0]);
      StepKeepsOrder(s, es[0]);
      RunKeepsOrder(Apply(s, es[0]), es[1..]);
    }
  }

  lemma StepKeepsOrder(s: State, e: Event)
    requires Invariant(s) && Orderly(s) && Enabled(s, e)
    ensures Orderly(Apply(s, e))
  {
    hide Invariant, Orderly, Apply, Enabled;
    if IsWorkerEvent(e) {
      WorkerKeepsOrder(s, e);
    } else {
      FinisherKeepsOrder(s, e);
    }
  }

  // ---- every step but a write uses something up -----------------------------

  /** What a worker can still do, with what it can add to the queues counted in. */
  function Rank(at: Worker): nat {
    match at
    case Idle => 0
    case Leaving => 1
    case Returning(_) => 3
    case Creating => 4
    case Selecting => 5
    case Checking => 6
    case Awaiting(_) => 7
    case Closed(_) => 10
    case Locked(_) => 11
    case Finishing(_) => 12
    case Holding(_) => 13
    case Wanting => 14
  }

  function RankOfAll(ws: seq<Worker>): nat {
    if ws == [] then 0 else RankOfAll(ws[..|ws| - 1]) + Rank(ws[|ws| - 1])
  }

  function FinisherRank(f: Finisher, parallel: nat): nat {
    match f
    case NotCalled => 0
    case Taking(k) => if k <= parallel then 4 * (parallel - k) + 3 else 3
    case Closing(k, _) => if k <= parallel then 4 * (parallel - k) + 2 else 2
    case FinalAwait(k, _) => if k <= parallel then 4 * (parallel - k) + 1 else 1
    case EmptyAwait(_) => 3
    case Emptying => 2
    case EmptySelect => 1
    case Succeeded => 0
    case Failed(_) => 0
  }

  function Measure(s: State): nat {
    RankOfAll(s.workers) + |s.fill| + 3 * |s.upload| + FinisherRank(s.finisher, s.parallel)
  }

  lemma {:induction false} MovedRank(ws: seq<Worker>, w: nat, to: Worker)
    requires w < |ws|
    ensures RankOfAll(ws[w := to]) + Rank(ws[w]) == RankOfAll(ws) + Rank(to)
  {
    hide Rank;
    var next := ws[w := to];
    if w < |ws| - 1 {
      MovedRank(ws[..|ws| - 1], w, to);
      assert next[..|ws| - 1] == ws[..|ws| - 1][w := to];
    } else {
      assert next[..w] == ws[..w];
    }
  }

  lemma WorkerDescends(s: State, e: Event)
    requires Orderly(s) && !s.finisher.NotCalled? && IsWorkerEvent(e) && Enabled(s, e)
    ensures if e.Write? then Measure(Apply(s, e)) == Measure(s) else Measure(Apply(s, e)) < Measure(s)
  {
    hide RankOfAll, FinisherRank;
    MovedRank(s.workers, e.w, Apply(s, e).workers[e.w]);
  }

  lemma FinisherDescends(s: State, e: Event)
    requires Conserved(s) && Orderly(s) && !s.finisher.NotCalled? && !IsWorkerEvent(e) && Enabled(s, e)
    ensures Measure(Apply(s, e)) < Measure(s)
  {
    hide RankOfAll, Conserved;
    SlotsAddUp(s);
  }

  /** The steps of a run other than writes. */
  function Steps(es: seq<Event>): nat {
    if es == [] then 0 else (if es[0].Write? then 0 else 1) + Steps(es[1..])
  }

  /** Once FinishQueue is called every run is short: besides writes it has no more steps than the measure says. */
  lemma {:induction false} RunIsBounded(s: State, es: seq<Event>)
    requires Invariant(s) && Orderly(s) && !s.finisher.NotCalled? && IsRun(s, es)
    ensures Steps(es) + Measure(End(s, es)) <= Measure(s)
    decreases |es|
  {
    hide Measure, Orderly, Apply, Enabled, Conserved, MutexHeld, UploadsBounded, LastIsReturned, DroppedUnused;
    if es != [] {
      var next := Apply(s, es[0]);
      StepKeepsInvariant(s, es[0]);
      StepKeepsOrder(s, es[0]);
      StaysCalled(s, es[0]);
      if IsWorkerEvent(es[0]) {
        WorkerDescends(s, es[0]);
      } else {
        FinisherDescends(s, es[0]);
      }
      RunIsBounded(next, es[1..]);
    }
  }

  lemma StaysCalled(s: State, e: Event)
    requires Enabled(s, e) && !s.finisher.NotCalled?
    ensures !Apply(s, e).finisher.NotCalled?
  {
  }

  // ---- where it can stop ----------------------------------------------------

  /** A step that FinishQueue or a worker in its way can take, writes aside. */
  predicate Useful(s: State, e: Event) {
    Enabled(s, e) && !e.Write? && (IsWorkerEvent(e) ==> Owes(s.workers[e.w]) || s.workers[e.w].Leaving?)
  }

  ghost predicate CanGoOn(s: State) {
    exists e :: Useful(s, e)
  }

  /** FinishQueue waits for tarballs that failed closes have lost. */
  predicate WaitsForLost(s: State) {
    && s.finisher.Taking? && s.finisher.taken < s.parallel && s.finisher.taken + |s.lost| == s.parallel
    && s.fill == [] && s.mutex.None?
  }

  lemma {:induction false} SomeOwner(ws: seq<Worker>) returns (w: nat)
    requires Owners(ws) > 0
    ensures w < |ws| && Owes(ws[w])
  {
    if Owes(ws[|ws| - 1]) {
      w := |ws| - 1;
    } else {
      w := SomeOwner(ws[..|ws| - 1]);
    }
  }

  /** Whoever holds the mutex can go on. */
  lemma HolderGoesOn(s: State)
    requires MutexHeld(s) && Orderly(s) && s.mutex.Some?
    ensures CanGoOn(s)
  {
    var w := s.mutex.value;
    assert s.workers[w].Critical();
    var e := match s.workers[w]
      case Locked(_) => Close(w, true)
      case Closed(_) => SendUpload(w)
      case Checking => CheckLength(w)
      case Selecting => Select(w)
      case Awaiting(_) => Await(w)
      case Creating => Create(w)
      case Returning(_) => SendFill(w)
      case _ => Unlock(w);
    assert Useful(s, e);
  }

  lemma OwnerGoesOn(s: State)
    requires MutexHeld(s) && Orderly(s) && Owners(s.workers) > 0
    ensures CanGoOn(s)
  {
    if s.mutex.Some? {
      HolderGoesOn(s);
    } else {
      var w := SomeOwner(s.workers);
      assert !s.workers[w].Critical();
      assert Useful(s, if s.workers[w].Holding? then EnqueueBack(w) else Lock(w));
    }
  }

  lemma FinisherGoesOn(s: State)
    requires !(s.finisher.NotCalled? || s.finisher.Succeeded? || s.finisher.Failed?)
    requires s.finisher.Taking? && s.finisher.taken < s.parallel ==> s.fill != []
    ensures CanGoOn(s)
  {
    var e := match s.finisher
      case Taking(k) => if k < s.parallel then Take else TakenEnough
      case Closing(_, _) => CloseTaken(true)
      case FinalAwait(_, _) => AwaitTaken
      case Emptying => EmptyCheck
      case EmptySelect => EmptyReceive
      case _ => EmptyAwaited;
    assert Useful(s, e);
  }

  /** While FinishQueue runs, something can be done exactly when it does not wait for lost tarballs. */
  lemma StuckExactly(s: State)
    requires Invariant(s) && Orderly(s)
    requires !(s.finisher.NotCalled? || s.finisher.Succeeded? || s.finisher.Failed?)
    ensures CanGoOn(s) <==> !WaitsForLost(s)
  {
    hide Conserved, UploadsBounded, LastIsReturned, DroppedUnused;
    SlotsAddUp(s);
    if WaitsForLost(s) {
      NobodyGoesOn(s);
    } else if s.finisher.Taking? && s.finisher.taken < s.parallel && s.fill == [] {
      if s.mutex.Some? {
        HolderGoesOn(s);
      } else {
        OwnerGoesOn(s);
      }
    } else {
      FinisherGoesOn(s);
    }
  }

  lemma NobodyGoesOn(s: State)
    requires Conserved(s) && MutexHeld(s) && WaitsForLost(s)
    ensures !CanGoOn(s)
  {
    hide Conserved;
    SlotsAddUp(s);
    forall e
      ensures !Useful(s, e)
    {
      if IsWorkerEvent(e) && e.w < |s.workers| && Owes(s.workers[e.w]) {
        OwnerCounts(s.workers, e.w);
      }
    }
  }

  /**
   * Every interleaving from the start in which FinishQueue was called: however it goes on, a bounded number of steps
   * other than writes is left, and when nothing can be done any more FinishQueue has succeeded, unless a close has failed.
   */
  lemma FinishQueueEnds(parallel: nat, maxQueue: nat, workers: nat, es: seq<Event>, more: seq<Event>)
    requires parallel >= 1 && IsRun(Initial(parallel, maxQueue, workers), es)
    requires var s := End(Initial(parallel, maxQueue, workers), es); !s.finisher.NotCalled? && IsRun(s, more)
    ensures var s := End(Initial(parallel, maxQueue, workers), es);
      var end := End(s, more);
      && Steps(more) <= Measure(s)
      && (!CanGoOn(end) && end.lost == [] ==> end.finisher.Succeeded?)
  {
    hide Conserved, MutexHeld, UploadsBounded, LastIsReturned, DroppedUnused, Measure;
    InitialInvariant(parallel, maxQueue, workers);
    RunKeepsOrder(Initial(parallel, maxQueue, workers), es);
    var s := End(Initial(parallel, maxQueue, workers), es);
    RunIsBounded(s, more);
    RunKeepsOrder(s, more);
    var end := End(s, more);
    if !(end.finisher.Succeeded? || end.finisher.Failed?) {
      RunStaysCalled(s, more);
      StuckExactly(end);
    }
  }

  lemma {:induction false} RunStaysCalled(s: State, es: seq<Event>)
    requires IsRun(s, es) && !s.finisher.NotCalled?
    ensures !End(s, es).finisher.NotCalled?
    decreases |es|
  {
    hide Apply, Enabled;
    if es != [] {
      StaysCalled(s, es[0]);
      RunStaysCalled(Apply(s, es[0]), es[1..]);
    }
  }

  lemma OneStep(s: State, e: Event)
    requires Enabled(s, e)
    ensures IsRun(s, [e]) && End(s, [e]) == Apply(s, e)
  {
    hide Apply, Enabled;
    assert IsRun(Apply(s, e), []);
  }

  /** The only worker gets the only tarball and starts to finish it. */
  lemma WorkerTakes(s: State, ball: Ball)
    requires s.workers == [Idle] && s.fill == [ball] && s.started
    ensures var es := [CheckStarted(0)] + [TarBallQueue.Receive(0)] + [BeginFinish(0)];
      IsRun(s, es) && End(s, es) == s.(workers := [Finishing(ball)], fill := [])
  {
    hide IsRun, End;
    var s1 := s.(workers := [Wanting]);
    var s2 := s.(workers := [Worker.Holding(ball)], fill := []);
    var e1, e2, e3 := CheckStarted(0), TarBallQueue.Receive(0), BeginFinish(0);
    OneStep(s, e1);
    assert Apply(s, e1) == s1;
    OneStep(s1, e2);
    assert Apply(s1, e2) == s2;
    OneStep(s2, e3);
    assert Apply(s2, e3) == s.(workers := [Finishing(ball)], fill := []);
    RunsJoin(s, [e1], [e2]);
    RunsJoin(s, [e1] + [e2], [e3]);
  }

  lemma CloseFails(s: State, ball: Ball)
    requires s.workers == [Finishing(ball)] && s.mutex.None?
    ensures IsRun(s, [Lock(0)] + [Close(0, false)])
    ensures End(s, [Lock(0)] + [Close(0, false)]) == Counted(s, ball).(workers := [Idle], lost := s.lost + [ball])
  {
    hide IsRun, End, Apply, Enabled;
    Locks(s, ball);
    OneStep(s, Lock(0));
    LosesBall(Apply(s, Lock(0)), ball);
    OneStep(Apply(s, Lock(0)), Close(0, false));
    RunsJoin(s, [Lock(0)], [Close(0, false)]);
  }

  lemma Locks(s: State, ball: Ball)
    requires s.workers == [Finishing(ball)] && s.mutex.None?
    ensures Enabled(s, Lock(0)) && Apply(s, Lock(0)) == s.(workers := [Locked(ball)], mutex := Some(0))
  {
  }

  lemma LosesBall(s: State, ball: Ball)
    requires s.workers == [Locked(ball)]
    ensures Enabled(s, Close(0, false))
    ensures Apply(s, Close(0, false)) == Counted(s, ball).(workers := [Idle], mutex := None, lost := s.lost + [ball])
  {
  }

  lemma {:induction false} RunsJoin(s: State, a: seq<Event>, b: seq<Event>)
    requires IsRun(s, a) && IsRun(End(s, a), b)
    ensures IsRun(s, a + b) && End(s, a + b) == End(End(s, a), b)
    decreases |a|
  {
    hide Apply, Enabled;
    if a == [] {
      assert a + b == b;
    } else {
      assert (a + b)[0] == a[0] && (a + b)[1..] == a[1..] + b;
      RunsJoin(Apply(s, a[0]), a[1..], b);
    }
  }

  /** One worker and one tarball whose close fails: FinishQueue waits for it forever. */
  lemma LostTarballStops()
    ensures exists es :: IsRun(Initial(1, 0, 1), es) && WaitsForLost(End(Initial(1, 0, 1), es))
                         && !CanGoOn(End(Initial(1, 0, 1), es))
  {
    hide Invariant, Orderly, IsRun, End, CanGoOn, Conserved;
    var start, ball := Initial(1, 0, 1), Ball(0, 0, false);
    assert Fresh(0) == [] && start.fill == [ball] && start.workers == [Idle];
    var first := [CheckStarted(0)] + [TarBallQueue.Receive(0)] + [BeginFinish(0)];
    var second := [Lock(0)] + [Close(0, false)];
    WorkerTakes(start, ball);
    CloseFails(End(start, first), ball);
    RunsJoin(start, first, second);
    FinishBegins(End(start, first + second));
    RunsJoin(start, first + second, [BeginFinishQueue]);
    var es := first + second + [BeginFinishQueue];
    StartIsOrderly();
    RunKeepsOrder(start, es);
    StuckExactly(End(start, es));
  }

  lemma FinishBegins(s: State)
    requires s.started && s.finisher.NotCalled?
    ensures IsRun(s, [BeginFinishQueue]) && End(s, [BeginFinishQueue]) == s.(started := false, finisher := Taking(0))
  {
  }

  lemma StartIsOrderly()
    ensures Invariant(Initial(1, 0, 1)) && Orderly(Initial(1, 0, 1))
  {
    hide Conserved;
    InitialInvariant(1, 0, 1);
  }
}
