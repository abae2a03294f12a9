/**
 * The tarball queue: workers fill tarballs taken from one bounded channel and hand closed ones to another, while a
 * finisher collects what is left. Every step below is one the scheduler can interleave with any other.
 */
module TarBallQueue {
  import opened Bytes

  datatype Ball = Ball(id: nat, size: nat, written: bool)

  /** Where a worker is. From Locked to Leaving it holds the mutex, inside FinishTarBall. */
  datatype Worker =
    | Idle
    | Wanting
    | Holding(ball: Ball)
    | Finishing(ball: Ball)
    | Locked(ball: Ball)
    | Closed(ball: Ball)
    | Checking
    | Selecting
    | Awaiting(ball: Ball)
    | Creating
    | Returning(ball: Ball)
    | Leaving
  {
    predicate Critical() {
      !(Idle? || Wanting? || Holding? || Finishing?)
    }

    predicate Draining() {
      Checking? || Selecting? || Awaiting?
    }
  }

  /** Where FinishQueue is; `taken` counts the tarballs it has received from the fill queue and dealt with. */
  datatype Finisher =
    | NotCalled
    | Taking(taken: nat)
    | Closing(taken: nat, ball: Ball)
    | FinalAwait(taken: nat, ball: Ball)
    | Emptying
    | EmptySelect
    | EmptyAwait(ball: Ball)
    | Succeeded
    | Failed(taken: nat)
  {
    predicate TakenAll() {
      Emptying? || EmptySelect? || EmptyAwait? || Succeeded?
    }
  }

  datatype State = State(
    parallel: nat, maxQueue: nat, started: bool, fill: seq<Ball>, upload: seq<Ball>, mutex: Option<nat>,
    workers: seq<Worker>, finisher: Finisher, last: Ball, made: nat, total: nat,
    closed: multiset<nat>, awaited: seq<Ball>, lost: seq<Ball>, dropped: seq<Ball>)

  // ---- steps ----------------------------------------------------------------

  datatype Event =
    | CheckStarted(w: nat)
    | Receive(w: nat)
    | GiveUp(w: nat)
    | Write(w: nat, bytes: nat)
    | EnqueueBack(w: nat)
    | BeginFinish(w: nat)
    | Lock(w: nat)
    | Close(w: nat, ok: bool)
    | SendUpload(w: nat)
    | CheckLength(w: nat)
    | Select(w: nat)
    | Await(w: nat)
    | Create(w: nat)
    | SendFill(w: nat)
    | Unlock(w: nat)
    | BeginFinishQueue
    | Take
    | CloseTaken(ok: bool)
    | AwaitTaken
    | TakenEnough
    | EmptyCheck
    | EmptyReceive
    | EmptyAwaited

  predicate IsWorkerEvent(e: Event) {
    !(e.BeginFinishQueue? || e.Take? || e.CloseTaken? || e.AwaitTaken? || e.TakenEnough? || e.EmptyCheck?
      || e.EmptyReceive? || e.EmptyAwaited?)
  }

  /**
   * When a step can be taken. Only receiving and locking wait for others; a send has no condition, because room for
   * it is what the invariant shows.
   */
  predicate Enabled(s: State, e: Event) {
    if IsWorkerEvent(e) then e.w < |s.workers| && WorkerCan(s, e, s.workers[e.w]) else FinisherCan(s, e)
  }

  predicate WorkerCan(s: State, e: Event, at: Worker)
    requires IsWorkerEvent(e)
  {
    match e
    case CheckStarted(_) => at.Idle? && s.started
    case Receive(_) => at.Wanting? && s.fill != []
    case GiveUp(_) => at.Wanting?
    case Write(_, _) => at.Holding?
    case EnqueueBack(_) => at.Holding?
    case BeginFinish(_) => at.Holding?
    case Lock(_) => at.Finishing? && s.mutex.None?
    case Close(_, _) => at.Locked?
    case SendUpload(_) => at.Closed?
    case CheckLength(_) => at.Checking?
    case Select(_) => at.Selecting?
    case Await(_) => at.Awaiting?
    case Create(_) => at.Creating?
    case SendFill(_) => at.Returning?
    case Unlock(_) => at.Leaving?
  }

  predicate FinisherCan(s: State, e: Event)
    requires !IsWorkerEvent(e)
  {
    match e
    case BeginFinishQueue => s.finisher.NotCalled? && s.started
    case Take => s.finisher.Taking? && s.finisher.taken < s.parallel && s.fill != []
    case CloseTaken(_) => s.finisher.Closing?
    case AwaitTaken => s.finisher.FinalAwait?
    case TakenEnough => s.finisher.Taking? && s.finisher.taken >= s.parallel
    case EmptyCheck => s.finisher.Emptying?
    case EmptyReceive => s.finisher.EmptySelect?
    case EmptyAwaited => s.finisher.EmptyAwait?
  }

  function Apply(s: State, e: Event): State
    requires Enabled(s, e)
  {
    if IsWorkerEvent(e) then ApplyWorker(s, e) else ApplyFinisher(s, e)
  }

  function Move(s: State, w: nat, to: Worker): State
    requires w < |s.workers|
  {
    s.(workers := s.workers[w := to])
  }

  /** CloseTarball adds the size before it closes. */
  function Counted(s: State, b: Ball): State {
    s.(total := s.total + b.size, closed := s.closed + multiset{b.id})
  }

  function ApplyWorker(s: State, e: Event): State
    requires IsWorkerEvent(e) && Enabled(s, e)
  {
    var at := s.workers[e.w];
    match e
    case CheckStarted(w) => Move(s, w, Wanting)
    case Receive(w) => Move(s, w, Holding(s.fill[0])).(fill := s.fill[1..])
    case GiveUp(w) => Move(s, w, Idle)
    case Write(w, bytes) => Move(s, w, Holding(at.ball.(size := at.ball.size + bytes, written := true)))
    case EnqueueBack(w) => Move(s, w, Idle).(fill := s.fill + [at.ball])
    case BeginFinish(w) => Move(s, w, Finishing(at.ball))
    case Lock(w) => Move(s, w, Locked(at.ball)).(mutex := Some(w))
    case Close(w, ok) =>
      var counted := Counted(s, at.ball);
      if ok then Move(counted, w, Closed(at.ball))
      else Move(counted, w, Idle).(mutex := None, lost := s.lost + [at.ball])
    case SendUpload(w) => Move(s, w, Checking).(upload := s.upload + [at.ball])
    case CheckLength(w) => Move(s, w, if |s.upload| > s.maxQueue then Selecting else Creating)
    case Select(w) =>
      if s.upload == [] then Move(s, w, Checking) else Move(s, w, Awaiting(s.upload[0])).(upload := s.upload[1..])
    case Await(w) => Move(s, w, Checking).(awaited := s.awaited + [at.ball])
    case Create(w) =>
      var b := Ball(s.made, 0, false);
      Move(s, w, Returning(b)).(last := b, made := s.made + 1)
    case SendFill(w) => Move(s, w, Leaving).(fill := s.fill + [s.last])
    case Unlock(w) => Move(s, w, Idle).(mutex := None)
  }

  function ApplyFinisher(s: State, e: Event): State
    requires !IsWorkerEvent(e) && Enabled(s, e)
  {
    match e
    case BeginFinishQueue => s.(started := false, finisher := Taking(0))
    case Take =>
      var b := s.fill[0];
      var after := s.(fill := s.fill[1..]);
      if b.written then after.(finisher := Closing(s.finisher.taken, b))
      else after.(finisher := Taking(s.finisher.taken + 1), dropped := s.dropped + [b])
    case CloseTaken(ok) =>
      var b := s.finisher.ball;
      var counted := Counted(s, b);
      if ok then counted.(finisher := FinalAwait(s.finisher.taken, b))
      else counted.(finisher := Failed(s.finisher.taken), lost := s.lost + [b])
    case AwaitTaken => s.(finisher := Taking(s.finisher.taken + 1), awaited := s.awaited + [s.finisher.ball])
    case TakenEnough => s.(finisher := Emptying)
    case EmptyCheck => s.(finisher := if |s.upload| > 0 then EmptySelect else Succeeded)
    case EmptyReceive =>
      if s.upload == [] then s.(finisher := Emptying)
      else s.(finisher := EmptyAwait(s.upload[0]), upload := s.upload[1..])
    case EmptyAwaited => s.(finisher := Emptying, awaited := s.awaited + [s.finisher.ball])
  }

  // ---- tallies --------------------------------------------------------------

  /**
   * What a place holds: how many of the `parallel` slots it accounts for, how often one given tarball is in it, how
   * often that one is in it closed, and the size of all closed tarballs in it.
   */
  datatype Tally = Tally(slots: nat, present: nat, shut: nat, size: nat)

  function Nothing(): Tally {
    Tally(0, 0, 0, 0)
  }

  function Plus(a: Tally, b: Tally): Tally {
    Tally(a.slots + b.slots, a.present + b.present, a.shut + b.shut, a.size + b.size)
  }

  function Is(b: Ball, x: nat): nat {
    if b.id == x then 1 else 0
  }

  function Slots(n: nat): Tally {
    Tally(n, 0, 0, 0)
  }

  function Open(slots: nat, b: Ball, x: nat): Tally {
    Tally(slots, Is(b, x), 0, 0)
  }

  function Shut(slots: nat, b: Ball, x: nat): Tally {
    Tally(slots, Is(b, x), Is(b, x), b.size)
  }

  function OpenBalls(bs: seq<Ball>, slots: nat, x: nat): Tally {
    if bs == [] then Nothing() else Plus(OpenBalls(bs[..|bs| - 1], slots, x), Open(slots, bs[|bs| - 1], x))
  }

  function ShutBalls(bs: seq<Ball>, slots: nat, x: nat): Tally {
    if bs == [] then Nothing() else Plus(ShutBalls(bs[..|bs| - 1], slots, x), Shut(slots, bs[|bs| - 1], x))
  }

  function OfWorker(at: Worker, x: nat): Tally {
    match at
    case Idle => Nothing()
    case Wanting => Nothing()
    case Holding(b) => Open(1, b, x)
    case Finishing(b) => Open(1, b, x)
    case Locked(b) => Open(1, b, x)
    case Closed(b) => Shut(1, b, x)
    case Checking => Slots(1)
    case Selecting => Slots(1)
    case Awaiting(b) => Shut(1, b, x)
    case Creating => Slots(1)
    case Returning(b) => Open(1, b, x)
    case Leaving => Nothing()
  }

  function OfWorkers(ws: seq<Worker>, x: nat): Tally {
    if ws == [] then Nothing() else Plus(OfWorkers(ws[..|ws| - 1], x), OfWorker(ws[|ws| - 1], x))
  }

  function OfFinisher(f: Finisher, parallel: nat, x: nat): Tally {
    match f
    case NotCalled => Nothing()
    case Taking(k) => Slots(k)
    case Closing(k, b) => Open(k + 1, b, x)
    case FinalAwait(k, b) => Shut(k + 1, b, x)
    case Emptying => Slots(parallel)
    case EmptySelect => Slots(parallel)
    case EmptyAwait(b) => Shut(parallel, b, x)
    case Succeeded => Slots(parallel)
    case Failed(k) => Slots(k)
  }

  /** Everything that is not in a worker's hands. */
  function Elsewhere(s: State, x: nat): Tally {
    Plus(Plus(OpenBalls(s.fill, 1, x), ShutBalls(s.upload, 0, x)),
         Plus(Plus(ShutBalls(s.awaited, 0, x), ShutBalls(s.lost, 1, x)),
              Plus(OpenBalls(s.dropped, 0, x), OfFinisher(s.finisher, s.parallel, x))))
  }

  function Everything(s: State, x: nat): Tally {
    Plus(OfWorkers(s.workers, x), Elsewhere(s, x))
  }

  /** What there is to account for: the slots, every tarball made so far once, and what has been closed. */
  function Expected(s: State, x: nat): Tally {
    Tally(s.parallel, if x < s.made then 1 else 0, s.closed[x], s.total)
  }

  // ---- the invariant --------------------------------------------------------

  /** Every tarball is in exactly one place, and slots and closed sizes are accounted for. */
  ghost predicate Conserved(s: State) {
    forall x: nat :: Everything(s, x) == Expected(s, x)
  }

  predicate MutexHeld(s: State) {
    forall w :: 0 <= w < |s.workers| ==> (s.workers[w].Critical() <==> s.mutex == Some(w))
  }

  predicate UploadsBounded(s: State) {
    |s.upload| <= s.maxQueue || (|s.upload| == s.maxQueue + 1 && SomeoneDrains(s))
  }

  predicate SomeoneDrains(s: State) {
    s.mutex.Some? && s.mutex.value < |s.workers| && s.workers[s.mutex.value].Draining()
  }

  predicate LastIsReturned(s: State) {
    forall w :: 0 <= w < |s.workers| && s.workers[w].Returning? ==> s.workers[w].ball == s.last
  }

  ghost predicate Invariant(s: State) {
    && s.parallel >= 1 && Conserved(s) && MutexHeld(s) && UploadsBounded(s) && LastIsReturned(s)
    && (s.finisher.Succeeded? ==> s.upload == []) && DroppedUnused(s)
  }

  /** FinishQueue drops only tarballs that nothing was written to. */
  predicate DroppedUnused(s: State) {
    forall b :: b in s.dropped ==> !b.written
  }

  // ---- lemmas on tallies ----------------------------------------------------

  lemma {:induction false} PopOpen(bs: seq<Ball>, slots: nat, x: nat)
    requires bs != []
    ensures OpenBalls(bs, slots, x) == Plus(Open(slots, bs[0], x), OpenBalls(bs[1..], slots, x))
  {
    if |bs| > 1 {
      PopOpen(bs[..|bs| - 1], slots, x);
      assert bs[..|bs| - 1][1..] == bs[1..][..|bs| - 2];
    }
  }

  lemma {:induction false} PopShut(bs: seq<Ball>, slots: nat, x: nat)
    requires bs != []
    ensures ShutBalls(bs, slots, x) == Plus(Shut(slots, bs[0], x), ShutBalls(bs[1..], slots, x))
  {
    if |bs| > 1 {
      PopShut(bs[..|bs| - 1], slots, x);
      assert bs[..|bs| - 1][1..] == bs[1..][..|bs| - 2];
    }
  }

  lemma PushOpen(bs: seq<Ball>, slots: nat, b: Ball, x: nat)
    ensures OpenBalls(bs + [b], slots, x) == Plus(OpenBalls(bs, slots, x), Open(slots, b, x))
  {
    assert (bs + [b])[..|bs|] == bs;
  }

  lemma PushShut(bs: seq<Ball>, slots: nat, b: Ball, x: nat)
    ensures ShutBalls(bs + [b], slots, x) == Plus(ShutBalls(bs, slots, x), Shut(slots, b, x))
  {
    assert (bs + [b])[..|bs|] == bs;
  }

  lemma {:induction false} FillSlots(bs: seq<Ball>, x: nat)
    ensures OpenBalls(bs, 1, x).slots == |bs|
  {
    if bs != [] {
      FillSlots(bs[..|bs| - 1], x);
    }
  }

  lemma {:induction false} LostSlots(bs: seq<Ball>, x: nat)
    ensures ShutBalls(bs, 1, x).slots == |bs|
  {
    if bs != [] {
      LostSlots(bs[..|bs| - 1], x);
    }
  }

  /** The workers other than `w`. */
  function Others(ws: seq<Worker>, w: nat, x: nat): Tally
    requires w < |ws|
  {
    if w == |ws| - 1 then OfWorkers(ws[..w], x) else Plus(Others(ws[..|ws| - 1], w, x), OfWorker(ws[|ws| - 1], x))
  }

  lemma {:induction false} OneWorker(ws: seq<Worker>, w: nat, x: nat)
    requires w < |ws|
    ensures OfWorkers(ws, x) == Plus(Others(ws, w, x), OfWorker(ws[w], x))
  {
    hide OfWorker;
    if w < |ws| - 1 {
      OneWorker(ws[..|ws| - 1], w, x);
    }
  }

  lemma {:induction false} MovedWorker(ws: seq<Worker>, w: nat, to: Worker, x: nat)
    requires w < |ws|
    ensures OfWorkers(ws[w := to], x) == Plus(Others(ws, w, x), OfWorker(to, x))
  {
    hide OfWorker;
    var next := ws[w := to];
    if w < |ws| - 1 {
      MovedWorker(ws[..|ws| - 1], w, to, x);
      assert next[..|ws| - 1] == ws[..|ws| - 1][w := to];
    } else {
      assert next[..w] == ws[..w];
    }
  }

  // ---- conservation ---------------------------------------------------------

  /** Moving one worker: its place and the places elsewhere must balance what is expected. */
  predicate Balances(s: State, after: State, w: nat, x: nat)
    requires w < |s.workers| == |after.workers|
  {
    Plus(Plus(OfWorker(after.workers[w], x), Elsewhere(after, x)), Expected(s, x))
      == Plus(Plus(OfWorker(s.workers[w], x), Elsewhere(s, x)), Expected(after, x))
  }

  lemma BalanceConserves(s: State, after: State, w: nat, x: nat)
    requires w < |s.workers| && |after.workers| == |s.workers| && after.workers == s.workers[w := after.workers[w]]
    requires Everything(s, x) == Expected(s, x) && Balances(s, after, w, x)
    ensures Everything(after, x) == Expected(after, x)
  {
    hide OfWorkers, OfWorker, Others, Elsewhere, Expected;
    OneWorker(s.workers, w, x);
    MovedWorker(s.workers, w, after.workers[w], x);
  }

  lemma QuietBalances(s: State, after: State, w: nat, x: nat)
    requires w < |s.workers| && |after.workers| == |s.workers| && OfWorker(s.workers[w], x) == OfWorker(after.workers[w], x)
    requires after == Move(s, w, after.workers[w]).(mutex := after.mutex)
    ensures Balances(s, after, w, x)
  {
    hide OpenBalls, ShutBalls, OfFinisher, OfWorker;
  }

  lemma CreateBalances(s: State, after: State, w: nat, x: nat)
    requires w < |s.workers| && s.workers[w].Creating? && |after.workers| == |s.workers| && after.workers[w].Returning?
    requires after.workers[w].ball.id == s.made
    requires after == Move(s, w, after.workers[w]).(last := after.last, made := s.made + 1)
    ensures Balances(s, after, w, x)
  {
    hide OpenBalls, ShutBalls, OfFinisher;
  }

  lemma ReceiveBalances(s: State, after: State, w: nat, x: nat)
    requires w < |s.workers| && s.workers[w].Wanting? && s.fill != []
    requires after == Move(s, w, Holding(s.fill[0])).(fill := s.fill[1..])
    ensures Balances(s, after, w, x)
  {
    hide OpenBalls, ShutBalls, OfFinisher;
    PopOpen(s.fill, 1, x);
  }

  lemma ReturnBalances(s: State, after: State, w: nat, to: Worker, x: nat)
    requires w < |s.workers| && (s.workers[w].Holding? || s.workers[w].Returning?) && (to.Idle? || to.Leaving?)
    requires after == Move(s, w, to).(fill := s.fill + [s.workers[w].ball])
    ensures Balances(s, after, w, x)
  {
    hide OpenBalls, ShutBalls, OfFinisher;
    PushOpen(s.fill, 1, s.workers[w].ball, x);
  }

  lemma CloseBalances(s: State, after: State, w: nat, x: nat)
    requires w < |s.workers| && s.workers[w].Locked?
    requires after == Move(Counted(s, s.workers[w].ball), w, Closed(s.workers[w].ball))
    ensures Balances(s, after, w, x)
  {
    hide OpenBalls, ShutBalls, OfFinisher;
  }

  lemma LoseBalances(s: State, after: State, w: nat, x: nat)
    requires w < |s.workers| && s.workers[w].Locked?
    requires after == Move(Counted(s, s.workers[w].ball), w, Idle).(mutex := None, lost := s.lost + [s.workers[w].ball])
    ensures Balances(s, after, w, x)
  {
    hide OpenBalls, ShutBalls, OfFinisher;
    PushShut(s.lost, 1, s.workers[w].ball, x);
  }

  lemma SendBalances(s: State, after: State, w: nat, x: nat)
    requires w < |s.workers| && s.workers[w].Closed?
    requires after == Move(s, w, Checking).(upload := s.upload + [s.workers[w].ball])
    ensures Balances(s, after, w, x)
  {
    hide OpenBalls, ShutBalls, OfFinisher;
    PushShut(s.upload, 0, s.workers[w].ball, x);
  }

  lemma SelectBalances(s: State, after: State, w: nat, x: nat)
    requires w < |s.workers| && s.workers[w].Selecting? && s.upload != []
    requires after == Move(s, w, Awaiting(s.upload[0])).(upload := s.upload[1..])
    ensures Balances(s, after, w, x)
  {
    hide OpenBalls, ShutBalls, OfFinisher;
    PopShut(s.upload, 0, x);
  }

  lemma AwaitBalances(s: State, after: State, w: nat, x: nat)
    requires w < |s.workers| && s.workers[w].Awaiting?
    requires after == Move(s, w, Checking).(awaited := s.awaited + [s.workers[w].ball])
    ensures Balances(s, after, w, x)
  {
    hide OpenBalls, ShutBalls, OfFinisher;
    PushShut(s.awaited, 0, s.workers[w].ball, x);
  }

  lemma WorkerConserves(s: State, e: Event, x: nat)
    requires IsWorkerEvent(e) && Enabled(s, e) && LastIsReturned(s) && Everything(s, x) == Expected(s, x)
    ensures Everything(ApplyWorker(s, e), x) == Expected(ApplyWorker(s, e), x)
  {
    hide Balances, Everything, Expected;
    var w, after := e.w, ApplyWorker(s, e);
    match e {
      case Receive(_) => ReceiveBalances(s, after, w, x);
      case EnqueueBack(_) => ReturnBalances(s, after, w, Idle, x);
      case SendFill(_) => ReturnBalances(s, after, w, Leaving, x);
      case Close(_, ok) => if ok { CloseBalances(s, after, w, x); } else { LoseBalances(s, after, w, x); }
      case SendUpload(_) => SendBalances(s, after, w, x);
      case Select(_) => if s.upload == [] { QuietBalances(s, after, w, x); } else { SelectBalances(s, after, w, x); }
      case Await(_) => AwaitBalances(s, after, w, x);
      case Create(_) => CreateBalances(s, after, w, x);
      case _ => QuietBalances(s, after, w, x);
    }
    BalanceConserves(s, after, w, x);
  }

  /** A move of the finisher balances in the same way. */
  predicate FinisherBalances(s: State, after: State, x: nat) {
    Plus(Elsewhere(after, x), Expected(s, x)) == Plus(Elsewhere(s, x), Expected(after, x))
  }

  lemma TakeBalances(s: State, after: State, x: nat)
    requires s.finisher.Taking? && s.fill != []
    requires after == s.(fill := s.fill[1..], finisher := Closing(s.finisher.taken, s.fill[0]))
    ensures FinisherBalances(s, after, x)
  {
    hide OpenBalls, ShutBalls;
    PopOpen(s.fill, 1, x);
  }

  lemma DropBalances(s: State, after: State, x: nat)
    requires s.finisher.Taking? && s.fill != []
    requires after == s.(fill := s.fill[1..], finisher := Taking(s.finisher.taken + 1), dropped := s.dropped + [s.fill[0]])
    ensures FinisherBalances(s, after, x)
  {
    hide OpenBalls, ShutBalls;
    PopOpen(s.fill, 1, x);
    PushOpen(s.dropped, 0, s.fill[0], x);
  }

  lemma CloseTakenBalances(s: State, after: State, x: nat)
    requires s.finisher.Closing?
    requires after == Counted(s, s.finisher.ball).(finisher := FinalAwait(s.finisher.taken, s.finisher.ball))
    ensures FinisherBalances(s, after, x)
  {
    hide OpenBalls, ShutBalls;
  }

  lemma LoseTakenBalances(s: State, after: State, x: nat)
    requires s.finisher.Closing?
    requires after == Counted(s, s.finisher.ball).(finisher := Failed(s.finisher.taken), lost := s.lost + [s.finisher.ball])
    ensures FinisherBalances(s, after, x)
  {
    hide OpenBalls, ShutBalls;
    PushShut(s.lost, 1, s.finisher.ball, x);
  }

  lemma AwaitTakenBalances(s: State, after: State, x: nat)
    requires s.finisher.FinalAwait?
    requires after == s.(finisher := Taking(s.finisher.taken + 1), awaited := s.awaited + [s.finisher.ball])
    ensures FinisherBalances(s, after, x)
  {
    hide OpenBalls, ShutBalls;
    PushShut(s.awaited, 0, s.finisher.ball, x);
  }

  lemma EmptyReceiveBalances(s: State, after: State, x: nat)
    requires s.finisher.EmptySelect? && s.upload != []
    requires after == s.(finisher := EmptyAwait(s.upload[0]), upload := s.upload[1..])
    ensures FinisherBalances(s, after, x)
  {
    hide OpenBalls, ShutBalls;
    PopShut(s.upload, 0, x);
  }

  lemma EmptyAwaitedBalances(s: State, after: State, x: nat)
    requires s.finisher.EmptyAwait?
    requires after == s.(finisher := Emptying, awaited := s.awaited + [s.finisher.ball])
    ensures FinisherBalances(s, after, x)
  {
    hide OpenBalls, ShutBalls;
    PushShut(s.awaited, 0, s.finisher.ball, x);
  }

  lemma StillBalances(s: State, after: State, x: nat)
    requires OfFinisher(after.finisher, s.parallel, x) == OfFinisher(s.finisher, s.parallel, x)
    requires after == s.(started := after.started, finisher := after.finisher)
    ensures FinisherBalances(s, after, x)
  {
    hide OpenBalls, ShutBalls, OfFinisher;
  }

  lemma FinisherConserves(s: State, e: Event, x: nat)
    requires !IsWorkerEvent(e) && Enabled(s, e) && Everything(s, x) == Expected(s, x)
    ensures Everything(ApplyFinisher(s, e), x) == Expected(ApplyFinisher(s, e), x)
  {
    hide FinisherBalances, Everything, Expected;
    var after := ApplyFinisher(s, e);
    match e {
      case Take => if s.fill[0].written { TakeBalances(s, after, x); } else { DropBalances(s, after, x); }
      case CloseTaken(ok) => if ok { CloseTakenBalances(s, after, x); } else { LoseTakenBalances(s, after, x); }
      case AwaitTaken => AwaitTakenBalances(s, after, x);
      case EmptyReceive => if s.upload == [] { StillBalances(s, after, x); } else { EmptyReceiveBalances(s, after, x); }
      case EmptyAwaited => EmptyAwaitedBalances(s, after, x);
      case TakenEnough =>
        FinisherSlots(s, x);
        StillBalances(s, after, x);
      case _ => StillBalances(s, after, x);
    }
    FinisherBalanceConserves(s, after, x);
  }

  lemma FinisherBalanceConserves(s: State, after: State, x: nat)
    requires Everything(s, x) == Expected(s, x) && FinisherBalances(s, after, x) && after.workers == s.workers
    ensures Everything(after, x) == Expected(after, x)
  {
    hide OfWorkers, Elsewhere, Expected;
  }

  /** No place has more slots than there are. */
  lemma FinisherSlots(s: State, x: nat)
    requires Everything(s, x) == Expected(s, x)
    ensures OfFinisher(s.finisher, s.parallel, x).slots <= s.parallel
  {
    hide OpenBalls, ShutBalls, OfWorkers, OfFinisher;
  }

  // ---- the other invariants -------------------------------------------------

  /** A worker event moves one worker, and only the mutex changes hands with it. */
  lemma OneMoves(s: State, e: Event)
    requires IsWorkerEvent(e) && Enabled(s, e) && MutexHeld(s)
    ensures |ApplyWorker(s, e).workers| == |s.workers|
    ensures ApplyWorker(s, e).workers == s.workers[e.w := ApplyWorker(s, e).workers[e.w]]
    ensures ApplyWorker(s, e).workers[e.w].Critical() <==> ApplyWorker(s, e).mutex == Some(e.w)
    ensures ApplyWorker(s, e).mutex == s.mutex || {s.mutex, ApplyWorker(s, e).mutex} == {None, Some(e.w)}
  {
    assert s.workers[e.w].Critical() <==> s.mutex == Some(e.w);
  }

  lemma OneReturns(s: State, e: Event)
    requires IsWorkerEvent(e) && Enabled(s, e) && MutexHeld(s)
    ensures ApplyWorker(s, e).last == s.last || s.mutex == Some(e.w)
    ensures ApplyWorker(s, e).workers[e.w].Returning? ==> ApplyWorker(s, e).workers[e.w].ball == ApplyWorker(s, e).last
  {
    assert s.workers[e.w].Critical() <==> s.mutex == Some(e.w);
  }

  lemma MutexKept(s: State, e: Event)
    requires Enabled(s, e) && MutexHeld(s)
    ensures MutexHeld(Apply(s, e))
  {
    hide ApplyWorker, Enabled;
    if IsWorkerEvent(e) {
      OneMoves(s, e);
      assert forall w :: 0 <= w < |s.workers| && w != e.w ==> ApplyWorker(s, e).workers[w] == s.workers[w];
      assert {s.mutex, ApplyWorker(s, e).mutex} == {None, Some(e.w)} ==> s.mutex in {None, Some(e.w)};
    }
  }

  lemma LastKept(s: State, e: Event)
    requires Enabled(s, e) && MutexHeld(s) && LastIsReturned(s)
    ensures LastIsReturned(Apply(s, e))
  {
    hide ApplyWorker, Enabled;
    if IsWorkerEvent(e) {
      OneMoves(s, e);
      OneReturns(s, e);
      assert forall w :: 0 <= w < |s.workers| && w != e.w ==> ApplyWorker(s, e).workers[w] == s.workers[w];
      assert forall w :: 0 <= w < |s.workers| && s.workers[w].Returning? ==> s.mutex == Some(w);
    }
  }

  lemma DroppedKept(s: State, e: Event)
    requires Enabled(s, e) && DroppedUnused(s)
    ensures DroppedUnused(Apply(s, e))
  {
  }

  lemma UploadsKept(s: State, e: Event)
    requires Enabled(s, e) && MutexHeld(s) && UploadsBounded(s)
    ensures UploadsBounded(Apply(s, e))
  {
    if IsWorkerEvent(e) {
      var after := ApplyWorker(s, e);
      assert s.workers[e.w].Critical() <==> s.mutex == Some(e.w);
      if s.mutex.Some? && s.mutex.value != e.w && s.mutex.value < |s.workers| {
        assert after.workers[s.mutex.value] == s.workers[s.mutex.value];
      }
    }
  }

  lemma ConservedStep(s: State, e: Event)
    requires Enabled(s, e) && Conserved(s) && LastIsReturned(s)
    ensures Conserved(Apply(s, e))
  {
    hide Everything, Expected, ApplyWorker, ApplyFinisher, Enabled;
    forall x: nat
      ensures Everything(Apply(s, e), x) == Expected(Apply(s, e), x)
    {
      assert Everything(s, x) == Expected(s, x);
      if IsWorkerEvent(e) {
        WorkerConserves(s, e, x);
      } else {
        FinisherConserves(s, e, x);
      }
    }
  }

  // ---- what the invariant means ---------------------------------------------

  /** How many workers owe the fill queue a tarball. */
  function Owners(ws: seq<Worker>): nat {
    if ws == [] then 0 else Owners(ws[..|ws| - 1]) + if Owes(ws[|ws| - 1]) then 1 else 0
  }

  predicate Owes(at: Worker) {
    !(at.Idle? || at.Wanting? || at.Leaving?)
  }

  /** How many tarballs FinishQueue has received. */
  function Taken(f: Finisher, parallel: nat): nat {
    match f
    case NotCalled => 0
    case Taking(k) => k
    case Closing(k, _) => k + 1
    case FinalAwait(k, _) => k + 1
    case Failed(k) => k
    case _ => parallel
  }

  lemma HandSlots(at: Worker, x: nat)
    ensures OfWorker(at, x).slots == if Owes(at) then 1 else 0
    ensures !Owes(at) ==> OfWorker(at, x) == Nothing()
  {
  }

  lemma {:induction false} OwnersAreSlots(ws: seq<Worker>, x: nat)
    ensures OfWorkers(ws, x).slots == Owners(ws)
  {
    hide OfWorker, Owes;
    if ws != [] {
      OwnersAreSlots(ws[..|ws| - 1], x);
      HandSlots(ws[|ws| - 1], x);
    }
  }

  lemma {:induction false} OwnerCounts(ws: seq<Worker>, w: nat)
    requires w < |ws| && Owes(ws[w])
    ensures Owners(ws) >= 1
  {
    if w < |ws| - 1 {
      OwnerCounts(ws[..|ws| - 1], w);
    }
  }

  lemma {:induction false} ClosedSlots(bs: seq<Ball>, x: nat)
    ensures ShutBalls(bs, 0, x).slots == 0 && OpenBalls(bs, 0, x).slots == 0
  {
    if bs != [] {
      ClosedSlots(bs[..|bs| - 1], x);
    }
  }

  /** Queued tarballs and those owed by workers, taken by FinishQueue or lost to a failed close always add up. */
  lemma SlotsAddUp(s: State)
    requires Conserved(s)
    ensures |s.fill| + Owners(s.workers) + Taken(s.finisher, s.parallel) + |s.lost| == s.parallel
  {
    hide OpenBalls, ShutBalls, OfWorkers;
    assert Everything(s, 0) == Expected(s, 0);
    FillSlots(s.fill, 0);
    LostSlots(s.lost, 0);
    OwnersAreSlots(s.workers, 0);
    ClosedSlots(s.upload, 0);
    ClosedSlots(s.awaited, 0);
    ClosedSlots(s.dropped, 0);
  }

  /** A send never finds its channel full, and neither channel outgrows its capacity. */
  lemma RoomToSend(s: State)
    requires Invariant(s)
    ensures |s.fill| <= s.parallel && |s.upload| <= s.parallel + s.maxQueue
    ensures forall w :: 0 <= w < |s.workers| && (s.workers[w].Holding? || s.workers[w].Returning?) ==> |s.fill| < s.parallel
    ensures forall w :: 0 <= w < |s.workers| && s.workers[w].Closed? ==> |s.upload| < s.parallel + s.maxQueue
  {
    hide Conserved;
    SlotsAddUp(s);
    forall w | 0 <= w < |s.workers| && (s.workers[w].Holding? || s.workers[w].Returning?)
      ensures |s.fill| < s.parallel
    {
      OwnerCounts(s.workers, w);
    }
  }

  /** When a FinishTarBall has done its waiting, and whenever none is in progress, no more uploads pend than allowed. */
  lemma PendingUploadsBounded(s: State)
    requires Invariant(s)
    ensures s.mutex.None? ==> |s.upload| <= s.maxQueue
    ensures forall w :: 0 <= w < |s.workers| && (s.workers[w].Creating? || s.workers[w].Returning? || s.workers[w].Leaving?)
              ==> |s.upload| <= s.maxQueue
  {
    hide Conserved;
    forall w | 0 <= w < |s.workers| && (s.workers[w].Creating? || s.workers[w].Returning? || s.workers[w].Leaving?)
      ensures |s.upload| <= s.maxQueue
    {
      assert s.workers[w].Critical();
    }
  }

  /** Once FinishQueue has taken every tarball, none is queued, owed or lost, and no more uploads are sent. */
  lemma NothingLeftBehind(s: State)
    requires Conserved(s) && s.finisher.TakenAll()
    ensures s.fill == [] && s.lost == [] && forall w :: 0 <= w < |s.workers| ==> !Owes(s.workers[w])
    ensures forall e: Event :: e.SendUpload? ==> !Enabled(s, e)
  {
    hide Conserved;
    SlotsAddUp(s);
    forall w | 0 <= w < |s.workers|
      ensures !Owes(s.workers[w])
    {
      if Owes(s.workers[w]) {
        OwnerCounts(s.workers, w);
      }
    }
  }

  // ---- every run ------------------------------------------------------------

  lemma StepKeepsInvariant(s: State, e: Event)
    requires Invariant(s) && Enabled(s, e)
    ensures Invariant(Apply(s, e))
  {
    hide Apply, Enabled, Conserved, MutexHeld, UploadsBounded, LastIsReturned, DroppedUnused;
    ConservedStep(s, e);
    MutexKept(s, e);
    LastKept(s, e);
    UploadsKept(s, e);
    DroppedKept(s, e);
    if Apply(s, e).finisher.Succeeded? {
      SuccessKept(s, e);
    }
    ParallelKept(s, e);
  }

  lemma ParallelKept(s: State, e: Event)
    requires Enabled(s, e)
    ensures Apply(s, e).parallel == s.parallel && Apply(s, e).maxQueue == s.maxQueue
  {
  }

  lemma SuccessKept(s: State, e: Event)
    requires Invariant(s) && Enabled(s, e) && Apply(s, e).finisher.Succeeded?
    ensures Apply(s, e).upload == []
  {
    hide Conserved;
    if s.finisher.Succeeded? {
      NothingLeftBehind(s);
    }
  }

  function Fresh(n: nat): seq<Ball> {
    if n == 0 then [] else Fresh(n - 1) + [Ball(n - 1, 0, false)]
  }

  /** The queue as StartQueue leaves it. */
  function Initial(parallel: nat, maxQueue: nat, workers: nat): State {
    State(parallel, maxQueue, true, Fresh(parallel), [], None, seq(workers, _ => Idle), NotCalled,
          Ball(if parallel == 0 then 0 else parallel - 1, 0, false), parallel, 0, multiset{}, [], [], [])
  }

  /** StartQueue: the fill queue gets as many new tarballs as it has room for. */
  method StartQueue(parallel: nat, maxQueue: nat, workers: nat) returns (s: State)
    ensures s == Initial(parallel, maxQueue, workers)
  {
    var fill, last := [], Ball(0, 0, false);
    for made := 0 to parallel
      invariant fill == Fresh(made) && last == Ball(if made == 0 then 0 else made - 1, 0, false)
    {
      last := Ball(made, 0, false);
      fill := fill + [last];
    }
    return State(parallel, maxQueue, true, fill, [], None, seq(workers, _ => Idle), NotCalled, last, parallel, 0,
                 multiset{}, [], [], []);
  }

  lemma {:induction false} FreshTally(n: nat, x: nat)
    ensures OpenBalls(Fresh(n), 1, x) == Tally(n, if x < n then 1 else 0, 0, 0)
  {
    hide OpenBalls;
    if n == 0 {
      EmptyPlaces(x);
    } else {
      FreshTally(n - 1, x);
      PushOpen(Fresh(n - 1), 1, Ball(n - 1, 0, false), x);
    }
  }

  lemma InitialInvariant(parallel: nat, maxQueue: nat, workers: nat)
    requires parallel >= 1
    ensures Invariant(Initial(parallel, maxQueue, workers))
  {
    hide Everything, Expected, Fresh;
    var s := Initial(parallel, maxQueue, workers);
    forall x: nat
      ensures Everything(s, x) == Expected(s, x)
    {
      InitialConserved(parallel, maxQueue, workers, x);
    }
  }

  lemma InitialConserved(parallel: nat, maxQueue: nat, workers: nat, x: nat)
    ensures Everything(Initial(parallel, maxQueue, workers), x) == Expected(Initial(parallel, maxQueue, workers), x)
  {
    hide OpenBalls, ShutBalls, OfWorkers, Fresh, Elsewhere;
    var s := Initial(parallel, maxQueue, workers);
    FreshTally(parallel, x);
    NoHands(s.workers, x);
    OnlyFilled(s, x);
  }

  lemma OnlyFilled(s: State, x: nat)
    requires s.upload == s.awaited == s.lost == s.dropped == [] && s.finisher.NotCalled?
    ensures Elsewhere(s, x) == OpenBalls(s.fill, 1, x)
  {
    hide OpenBalls, ShutBalls;
    EmptyPlaces(x);
  }

  predicate IsRun(s: State, es: seq<Event>)
    decreases |es|
  {
    es != [] ==> Enabled(s, es[0]) && IsRun(Apply(s, es[0]), es[1..])
  }

  function End(s: State, es: seq<Event>): State
    requires IsRun(s, es)
    decreases |es|
  {
    if es == [] then s else End(Apply(s, es[0]), es[1..])
  }

  lemma {:induction false} RunKeepsInvariant(s: State, es: seq<Event>)
    requires Invariant(s) && IsRun(s, es)
    ensures Invariant(End(s, es))
    decreases |es|
  {
    hide Invariant, Apply, Enabled;
    if es != [] {
      StepKeepsInvariant(s, es[0]);
      RunKeepsInvariant(Apply(s, es[0]), es[1..]);
    }
  }

  /** In every interleaving from the start: slots add up, sends find room, and uploads stay bounded. */
  lemma QueueIsSafe(parallel: nat, maxQueue: nat, workers: nat, es: seq<Event>)
    requires parallel >= 1 && IsRun(Initial(parallel, maxQueue, workers), es)
    ensures var s := End(Initial(parallel, maxQueue, workers), es);
      && Invariant(s)
      && |s.fill| + Owners(s.workers) + Taken(s.finisher, s.parallel) + |s.lost| == s.parallel
      && |s.fill| <= s.parallel && |s.upload| <= s.parallel + s.maxQueue
      && (s.mutex.None? ==> |s.upload| <= s.maxQueue)
  {
    hide Conserved, MutexHeld, LastIsReturned;
    InitialInvariant(parallel, maxQueue, workers);
    RunKeepsInvariant(Initial(parallel, maxQueue, workers), es);
    var s := End(Initial(parallel, maxQueue, workers), es);
    SlotsAddUp(s);
    RoomToSend(s);
    PendingUploadsBounded(s);
  }

  // ---- a successful finish --------------------------------------------------

  function CountOf(bs: seq<Ball>, x: nat): nat {
    if bs == [] then 0 else CountOf(bs[..|bs| - 1], x) + Is(bs[|bs| - 1], x)
  }

  function SizeOf(bs: seq<Ball>): nat {
    if bs == [] then 0 else SizeOf(bs[..|bs| - 1]) + bs[|bs| - 1].size
  }

  lemma {:induction false} ShutCounts(bs: seq<Ball>, x: nat)
    ensures ShutBalls(bs, 0, x) == Tally(0, CountOf(bs, x), CountOf(bs, x), SizeOf(bs))
  {
    if bs != [] {
      ShutCounts(bs[..|bs| - 1], x);
    }
  }

  lemma {:induction false} OpenCounts(bs: seq<Ball>, x: nat)
    ensures OpenBalls(bs, 0, x) == Tally(0, CountOf(bs, x), 0, 0)
  {
    if bs != [] {
      OpenCounts(bs[..|bs| - 1], x);
    }
  }

  /**
   * When FinishQueue succeeds: every tarball ever made was either closed and awaited, exactly once, or dropped unused;
   * the closed ones are exactly the awaited ones, and AllTarballsSize is the sum of their sizes.
   */
  lemma FinishedAccounting(s: State, x: nat)
    requires Invariant(s) && s.finisher.Succeeded?
    ensures s.total == SizeOf(s.awaited)
    ensures s.closed[x] == CountOf(s.awaited, x)
    ensures CountOf(s.awaited, x) + CountOf(s.dropped, x) == if x < s.made then 1 else 0
  {
    hide Everything, CountOf, SizeOf, Owes;
    assert Everything(s, x) == Expected(s, x);
    NothingLeftBehind(s);
    OnlyAwaited(s, x);
  }

  lemma OnlyAwaited(s: State, x: nat)
    requires s.fill == [] && s.upload == [] && s.lost == [] && s.finisher.Succeeded?
    requires forall w :: 0 <= w < |s.workers| ==> !Owes(s.workers[w])
    ensures Everything(s, x)
         == Tally(s.parallel, CountOf(s.awaited, x) + CountOf(s.dropped, x), CountOf(s.awaited, x), SizeOf(s.awaited))
  {
    hide OpenBalls, ShutBalls, OfWorkers, CountOf, SizeOf, Owes;
    var awaited, dropped := ShutBalls(s.awaited, 0, x), OpenBalls(s.dropped, 0, x);
    ShutCounts(s.awaited, x);
    OpenCounts(s.dropped, x);
    NoHands(s.workers, x);
    EmptyPlaces(x);
    assert OpenBalls(s.fill, 1, x) == ShutBalls(s.upload, 0, x) == ShutBalls(s.lost, 1, x) == Nothing();
    assert Elsewhere(s, x) == Plus(Plus(Nothing(), Nothing()), Plus(Plus(awaited, Nothing()), Plus(dropped, Slots(s.parallel))));
  }

  /** The same at the end of every run in which FinishQueue succeeds. */
  lemma SuccessfulRun(parallel: nat, maxQueue: nat, workers: nat, es: seq<Event>)
    requires parallel >= 1 && IsRun(Initial(parallel, maxQueue, workers), es)
    requires End(Initial(parallel, maxQueue, workers), es).finisher.Succeeded?
    ensures var s := End(Initial(parallel, maxQueue, workers), es);
      && s.total == SizeOf(s.awaited)
      && (forall x :: s.closed[x] == CountOf(s.awaited, x))
      && (forall x: nat :: CountOf(s.awaited, x) + CountOf(s.dropped, x) == if x < s.made then 1 else 0)
      && (forall b :: b in s.dropped ==> !b.written)
  {
    hide Conserved, MutexHeld, LastIsReturned, UploadsBounded, CountOf, SizeOf;
    QueueIsSafe(parallel, maxQueue, workers, es);
    var s := End(Initial(parallel, maxQueue, workers), es);
    FinishedAccounting(s, 0);
    forall x: nat
      ensures s.closed[x] == CountOf(s.awaited, x)
      ensures CountOf(s.awaited, x) + CountOf(s.dropped, x) == if x < s.made then 1 else 0
    {
      FinishedAccounting(s, x);
    }
  }

  lemma EmptyPlaces(x: nat)
    ensures OpenBalls([], 1, x) == OpenBalls([], 0, x) == Nothing()
    ensures ShutBalls([], 1, x) == ShutBalls([], 0, x) == Nothing()
  {
  }

  lemma {:induction false} NoHands(ws: seq<Worker>, x: nat)
    requires forall w :: 0 <= w < |ws| ==> !Owes(ws[w])
    ensures OfWorkers(ws, x) == Nothing()
  {
    hide OfWorker, Owes;
    if ws != [] {
      NoHands(ws[..|ws| - 1], x);
      HandSlots(ws[|ws| - 1], x);
    }
  }
}
