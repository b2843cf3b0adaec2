/**
 Scheduler::run on any number of threads, as steps: the locked search of the list, the switch into what was found,
 the switch back, the counter update, what is done with the fiber afterwards, a schedule() call. Between any two of
 them other threads may run. The counters are taken as atomic.
 */
module SchedulerRuns {
  import opened FiberStates
  import opened Options
  import opened Schedulers

  datatype Phase =
    | Looking                                  // at the head of the loop
    | Picked(task: Task)                       // took an entry and let go of the lock
    | Running(fiber: nat, callback: bool)      // switched into a fiber, for an entry that holds a callback or not
    | Returned(fiber: nat, callback: bool)     // switched back, counter not yet lowered
    | Settling(fiber: nat, callback: bool)     // counter lowered, fiber not yet dealt with
    | Dropping                                 // took a fiber that had already ended
    | Idling                                   // in the idle fiber
    | Left(at: nat, busy: set<nat>)            // returned from run; how many entries there had been, and what was EXEC

  /** A thread, whether its idle fiber has terminated, and the callback fiber it keeps for reuse. */
  datatype Thread = Thread(phase: Phase, idleDone: bool, kept: Option<nat>)

  datatype Taken = Taken(task: Task, thread: nat)

  datatype State = State(
    queue: seq<Task>,
    active: int,               // m_activeThreadCount
    workers: seq<Thread>,
    stopped: bool,             // m_autoStop && m_stopping
    fibers: seq<FiberState>,   // m_state of every fiber made so far
    hollow: set<nat>,          // fibers whose m_cb is null though they have not ended
    ids: nat,                  // entries made so far
    taken: seq<Taken>,         // history
    failed: bool               // an assertion of Fiber::swapIn or Fiber::reset has failed
  )

  function Initial(n: nat): (s: State) {
    State([], 0, seq(n, _ => Thread(Looking, false, None)), false, [], {}, 0, [], false)
  }

  datatype Step =
    | Submit(fiber: Option<nat>, pin: Option<nat>)               // from outside, before stop
    | SubmitFrom(w: nat, fiber: Option<nat>, pin: Option<nat>)   // by what worker w runs, a task or its idle fiber
    | Stop
    | Take(w: nat)
    | SwapIn(w: nat)
    | SwitchBack(w: nat, back: Back)
    | Lower(w: nat)
    | Settle(w: nat)
    | CheckStopping(w: nat)

  /** Fibers in state EXEC. */
  function Executing(s: State): (fs: set<nat>) {
    set f | 0 <= f < |s.fibers| && s.fibers[f] == EXEC
  }

  function StateOf(s: State, f: nat): (x: FiberState) {
    if f < |s.fibers| then s.fibers[f] else INIT
  }

  function SetState(s: State, f: nat, x: FiberState): (s': State) {
    if f < |s.fibers| then s.(fibers := s.fibers[f := x]) else s
  }

  /** A submitted fiber is one of those made so far, or a new one that user code makes. */
  predicate Enabled(s: State, step: Step) {
    !s.failed &&
    match step
    case Submit(fiber, _) => !s.stopped && (fiber.Some? ==> fiber.value <= |s.fibers|)
    case SubmitFrom(w, fiber, _) =>
      w < |s.workers| && (s.workers[w].phase.Running? || s.workers[w].phase.Idling?) && (fiber.Some? ==> fiber.value <= |s.fibers|)
    case Stop => true
    case Take(w) => w < |s.workers| && s.workers[w].phase.Looking?
    case SwapIn(w) => w < |s.workers| && s.workers[w].phase.Picked?
    case SwitchBack(w, back) =>
      w < |s.workers| && s.workers[w].phase.Running? && (s.workers[w].phase.fiber in s.hollow ==> back == EXCEPT)
    case Lower(w) => w < |s.workers| && (s.workers[w].phase.Returned? || s.workers[w].phase.Dropping?)
    case Settle(w) => w < |s.workers| && s.workers[w].phase.Settling?
    case CheckStopping(w) => w < |s.workers| && s.workers[w].phase.Idling?
  }

  function Enter(s: State, w: nat, p: Phase): (s': State)
    requires w < |s.workers|
  {
    s.(workers := s.workers[w := s.workers[w].(phase := p)])
  }

  function Keep(s: State, w: nat, kept: Option<nat>): (s': State)
    requires w < |s.workers|
  {
    s.(workers := s.workers[w := s.workers[w].(kept := kept)])
  }

  function Push(s: State, fiber: Option<nat>, pin: Option<nat>): (s': State) {
    s.(queue := s.queue + [Task(s.ids, fiber, pin)], ids := s.ids + 1,
       fibers := if fiber.Some? && fiber.value == |s.fibers| then s.fibers + [INIT] else s.fibers)
  }

  /** The locked search. */
  function TakeOrIdle(s: State, w: nat): (s': State)
    requires w < |s.workers|
  {
    var k := FirstEligible(s.queue, w, Executing(s));
    if k < |s.queue| then
      Enter(s, w, Picked(s.queue[k])).(queue := Without(s.queue, k), active := s.active + 1, taken := s.taken + [Taken(s.queue[k], w)])
    else if s.workers[w].idleDone then Enter(s, w, Left(s.ids, Executing(s)))
    else Enter(s, w, Idling)
  }

  /** The switch for an entry that holds a fiber, behind the test of its state and the assertion of swapIn. */
  function EnterFiber(s: State, w: nat, f: nat): (s': State)
    requires w < |s.workers|
  {
    if Finished(StateOf(s, f)) then Enter(s, w, Dropping)
    else if StateOf(s, f) == EXEC then s.(failed := true)
    else SetState(Enter(s, w, Running(f, false)), f, EXEC)
  }

  /** The switch for a callback: in the fiber that was kept, behind the assertion of reset, or in a new one. */
  function EnterCallback(s: State, w: nat): (s': State)
    requires w < |s.workers|
  {
    match s.workers[w].kept
    case None =>
      var f := |s.fibers|;
      Keep(Enter(s, w, Running(f, true)), w, Some(f)).(fibers := s.fibers + [EXEC])
    case Some(f) =>
      if StateOf(s, f) == INIT || Finished(StateOf(s, f)) then
        SetState(Enter(s, w, Running(f, true)), f, EXEC).(hollow := s.hollow - {f})
      else s.(failed := true)
  }

  /** What run() does with the fiber that came back, according to the state it finds. */
  function SettleFiber(s: State, w: nat, f: nat, callback: bool): (s': State)
    requires w < |s.workers|
  {
    var back := Enter(s, w, Looking);
    var x := StateOf(s, f);
    if x == READY then Push(if callback then Keep(back, w, None) else back, Some(f), None)
    else if Finished(x) then
      if callback then SetState(back, f, INIT).(hollow := s.hollow + {f}) else back
    else SetState(if callback then Keep(back, w, None) else back, f, HOLD)
  }

  /** Scheduler::stopping(). */
  predicate Stopping(s: State) {
    s.stopped && s.queue == [] && s.active == 0
  }

  function Next(s: State, step: Step): (s': State)
    requires Enabled(s, step)
  {
    match step
    case Submit(fiber, pin) => Push(s, fiber, pin)
    case SubmitFrom(_, fiber, pin) => Push(s, fiber, pin)
    case Stop => s.(stopped := true)
    case Take(w) => TakeOrIdle(s, w)
    case SwapIn(w) =>
      var t := s.workers[w].phase.task;
      if t.fiber.Some? then EnterFiber(s, w, t.fiber.value) else EnterCallback(s, w)
    case SwitchBack(w, back) =>
      var p := s.workers[w].phase;
      SetState(Enter(s, w, Returned(p.fiber, p.callback)), p.fiber, back)
    case Lower(w) =>
      var p := s.workers[w].phase;
      Enter(s, w, if p.Returned? then Settling(p.fiber, p.callback) else Looking).(active := s.active - 1)
    case Settle(w) => SettleFiber(s, w, s.workers[w].phase.fiber, s.workers[w].phase.callback)
    case CheckStopping(w) =>
      s.(workers := s.workers[w := s.workers[w].(phase := Looking, idleDone := Stopping(s) || s.workers[w].idleDone)])
  }

  // ---- the counter ----

  predicate Counted(p: Phase) {
    p.Picked? || p.Running? || p.Returned? || p.Dropping?
  }

  /** Workers between the search and the decrement. */
  function Busy(ws: seq<Thread>): (n: nat) {
    if ws == [] then 0 else (if Counted(ws[0].phase) then 1 else 0) + Busy(ws[1..])
  }

  lemma {:induction false} BusyUpdate(ws: seq<Thread>, w: nat, x: Thread)
    requires w < |ws|
    ensures Busy(ws[w := x]) == Busy(ws) - (if Counted(ws[w].phase) then 1 else 0) + (if Counted(x.phase) then 1 else 0)
  {
    if w == 0 {
      assert ws[w := x][1..] == ws[1..];
    } else {
      BusyUpdate(ws[1..], w - 1, x);
      assert ws[w := x][1..] == ws[1..][w - 1 := x];
    }
  }

  /** The worker a step is about, if any. */
  function Actor(step: Step): (w: Option<nat>) {
    match step
    case Submit(_, _) => None
    case SubmitFrom(_, _, _) => None
    case Stop => None
    case Take(w) => Some(w)
    case SwapIn(w) => Some(w)
    case SwitchBack(w, _) => Some(w)
    case Lower(w) => Some(w)
    case Settle(w) => Some(w)
    case CheckStopping(w) => Some(w)
  }

  /** A step changes at most the worker it is about. */
  lemma OneWorkerMoves(s: State, step: Step)
    requires Enabled(s, step)
    ensures var s' := Next(s, step);
      if Actor(step).None? then s'.workers == s.workers
      else Actor(step).value < |s.workers| == |s'.workers| && s'.workers == s.workers[Actor(step).value := s'.workers[Actor(step).value]]
  {
    hide Executing, FirstEligible;
  }

  /** How a step changes the counter, and whether its worker counts. */
  lemma CounterMoves(s: State, step: Step)
    requires Enabled(s, step) && Actor(step).Some?
    ensures var w := Actor(step).value;
      var s' := Next(s, step);
      w < |s.workers| == |s'.workers|
      && s'.active - s.active == (if Counted(s'.workers[w].phase) then 1 else 0) - (if Counted(s.workers[w].phase) then 1 else 0)
  {
    hide Executing, FirstEligible;
  }

  lemma ActiveStep(s: State, step: Step)
    requires s.active == Busy(s.workers) && Enabled(s, step)
    ensures Next(s, step).active == Busy(Next(s, step).workers)
  {
    hide Next, Enabled, Busy;
    OneWorkerMoves(s, step);
    if Actor(step).Some? {
      var w := Actor(step).value;
      CounterMoves(s, step);
      BusyUpdate(s.workers, w, Next(s, step).workers[w]);
    } else {
      SameCounter(s, step);
    }
  }

  lemma SameCounter(s: State, step: Step)
    requires Enabled(s, step) && Actor(step).None?
    ensures Next(s, step).active == s.active
  {
  }

  // ---- the entries ----

  /** Each entry made is in the list or was taken, once; and only by a thread it was not pinned away from. */
  ghost predicate Conserved(s: State) {
    && (forall i :: 0 <= i < |s.queue| ==> s.queue[i].id < s.ids)
    && (forall i :: 0 <= i < |s.taken| ==> s.taken[i].task.id < s.ids && !PinnedElsewhere(s.taken[i].task, s.taken[i].thread))
    && (forall i, j :: 0 <= i < j < |s.queue| ==> s.queue[i].id < s.queue[j].id)
    && (forall i, j :: 0 <= i < j < |s.taken| ==> s.taken[i].task.id != s.taken[j].task.id)
    && (forall i, j :: 0 <= i < |s.queue| && 0 <= j < |s.taken| ==> s.queue[i].id != s.taken[j].task.id)
    && |s.queue| + |s.taken| == s.ids
  }

  predicate SameLists(s: State, s': State) {
    s'.queue == s.queue && s'.taken == s.taken && s'.ids == s.ids
  }

  predicate Pushed(s: State, s': State, fiber: Option<nat>, pin: Option<nat>) {
    s'.queue == s.queue + [Task(s.ids, fiber, pin)] && s'.taken == s.taken && s'.ids == s.ids + 1
  }

  predicate TookAt(s: State, s': State, w: nat, k: nat) {
    && k < |s.queue| && !PinnedElsewhere(s.queue[k], w)
    && s'.queue == Without(s.queue, k) && s'.taken == s.taken + [Taken(s.queue[k], w)] && s'.ids == s.ids
  }

  /** What a step does to the list. */
  lemma ListsMove(s: State, step: Step)
    requires Enabled(s, step)
    ensures var s' := Next(s, step);
      match step
      case Submit(fiber, pin) => Pushed(s, s', fiber, pin)
      case SubmitFrom(_, fiber, pin) => Pushed(s, s', fiber, pin)
      case Take(w) => SameLists(s, s') || TookAt(s, s', w, FirstEligible(s.queue, w, Executing(s)))
      case Settle(w) => SameLists(s, s') || Pushed(s, s', Some(s.workers[w].phase.fiber), None)
      case _ => SameLists(s, s')
  {
    hide Executing, FirstEligible, Without;
  }

  lemma PushConserves(s: State, s': State, fiber: Option<nat>, pin: Option<nat>)
    requires Conserved(s) && Pushed(s, s', fiber, pin)
    ensures Conserved(s')
  {
  }

  lemma TakeConserves(s: State, s': State, w: nat, k: nat)
    requires Conserved(s) && TookAt(s, s', w, k)
    ensures Conserved(s')
  {
    var rest := s'.queue;
    assert forall i :: 0 <= i < |rest| ==> rest[i] == s.queue[if i < k then i else i + 1];
  }

  lemma SameConserves(s: State, s': State)
    requires Conserved(s) && SameLists(s, s')
    ensures Conserved(s')
  {
  }

  lemma ConservedStep(s: State, step: Step)
    requires Conserved(s) && Enabled(s, step)
    ensures Conserved(Next(s, step))
  {
    hide Conserved, Next, Executing, FirstEligible, Pushed, TookAt, SameLists;
    var s' := Next(s, step);
    ListsMove(s, step);
    match step
    case Submit(fiber, pin) => PushConserves(s, s', fiber, pin);
    case SubmitFrom(_, fiber, pin) => PushConserves(s, s', fiber, pin);
    case Take(w) =>
      if SameLists(s, s') {
        SameConserves(s, s');
      } else {
        TakeConserves(s, s', w, FirstEligible(s.queue, w, Executing(s)));
      }
    case Settle(w) =>
      if SameLists(s, s') {
        SameConserves(s, s');
      } else {
        PushConserves(s, s', Some(s.workers[w].phase.fiber), None);
      }
    case _ => SameConserves(s, s');
  }

  // ---- who executes ----

  /** The worker has switched into the fiber and is not done with it. */
  predicate Runs(t: Thread, f: nat) {
    (t.phase.Running? || t.phase.Returned? || t.phase.Settling?) && t.phase.fiber == f
  }

  ghost predicate RunBySomeone(ws: seq<Thread>, f: nat) {
    exists w :: 0 <= w < |ws| && Runs(ws[w], f)
  }

  /** A fiber in state EXEC is in the hands of some worker. */
  ghost predicate ExecutingIsRun(s: State) {
    forall f :: 0 <= f < |s.fibers| && s.fibers[f] == EXEC ==> RunBySomeone(s.workers, f)
  }

  /** What a step does to the state of one fiber and to the one worker it is about. */
  lemma FiberMoves(s: State, step: Step, f: nat)
    requires Enabled(s, step) && f < |Next(s, step).fibers| && Next(s, step).fibers[f] == EXEC
    ensures
      || (f < |s.fibers| && s.fibers[f] == EXEC && Actor(step).None?)
      || (Actor(step).Some? && Actor(step).value < |s.workers| == |Next(s, step).workers| && Runs(Next(s, step).workers[Actor(step).value], f))
      || (Actor(step).Some? && f < |s.fibers| && s.fibers[f] == EXEC && Actor(step).value < |s.workers| && !Runs(s.workers[Actor(step).value], f))
  {
    hide Executing, FirstEligible, Without, Stopping;
  }

  lemma ExecutingStep(s: State, step: Step)
    requires ExecutingIsRun(s) && Enabled(s, step)
    ensures ExecutingIsRun(Next(s, step))
  {
    hide Next, Enabled, Runs;
    var s' := Next(s, step);
    OneWorkerMoves(s, step);
    forall f | 0 <= f < |s'.fibers| && s'.fibers[f] == EXEC
      ensures RunBySomeone(s'.workers, f)
    {
      FiberMoves(s, step, f);
      if Actor(step).Some? && Runs(s'.workers[Actor(step).value], f) {
      } else {
        var v :| 0 <= v < |s.workers| && Runs(s.workers[v], f);
        assert Runs(s'.workers[v], f);
      }
    }
  }

  // ---- leaving ----

  ghost predicate AllLeft(s: State) {
    forall w :: 0 <= w < |s.workers| ==> s.workers[w].phase.Left?
  }

  /** Entry `t` was not there for a worker with index `p` that left: it came later, or its fiber was EXEC then. */
  predicate TooLateFor(t: Task, p: nat, left: Phase)
    requires left.Left?
  {
    PinnedElsewhere(t, p) || t.id >= left.at || (t.fiber.Some? && t.fiber.value in left.busy)
  }

  ghost predicate LeftBehind(s: State) {
    forall p, i :: 0 <= p < |s.workers| && 0 <= i < |s.queue| && s.workers[p].phase.Left? ==> TooLateFor(s.queue[i], p, s.workers[p].phase)
  }

  ghost predicate LeftEarlier(s: State) {
    forall p :: 0 <= p < |s.workers| && s.workers[p].phase.Left? ==> s.workers[p].phase.at <= s.ids
  }

  ghost predicate StoppedFirst(s: State) {
    forall w :: 0 <= w < |s.workers| && (s.workers[w].idleDone || s.workers[w].phase.Left?) ==> s.stopped
  }

  ghost predicate LeftLast(s: State, w: nat) {
    w < |s.workers| && s.workers[w].phase == Left(s.ids, {})
  }

  /** The last worker to leave saw every entry and nothing executing. */
  ghost predicate SomebodyWasLast(s: State) {
    AllLeft(s) && |s.workers| > 0 ==> exists w :: LeftLast(s, w)
  }

  /** Only a search makes a worker leave, and then with what it saw. */
  lemma LeavingMoves(s: State, step: Step)
    requires Enabled(s, step) && Actor(step).Some?
    ensures var w := Actor(step).value;
      var s' := Next(s, step);
      && w < |s.workers| == |s'.workers| && !s.workers[w].phase.Left?
      && (s'.workers[w].phase.Left? ==>
            step.Take? && s'.workers[w].phase == Left(s.ids, Executing(s)) && SameLists(s, s') && s.workers[w].phase.Looking?
            && s.workers[w].idleDone && (forall i :: 0 <= i < |s.queue| ==> !Eligible(s.queue[i], w, Executing(s))))
      && (s'.workers[w].idleDone ==> s.workers[w].idleDone || s.stopped)
      && s'.stopped == s.stopped
  {
    hide Executing, Without;
  }

  lemma LeftBehindStep(s: State, step: Step)
    requires LeftBehind(s) && LeftEarlier(s) && Enabled(s, step)
    ensures LeftBehind(Next(s, step)) && LeftEarlier(Next(s, step))
  {
    hide Next, Enabled, Executing, FirstEligible, Without;
    var s' := Next(s, step);
    OneWorkerMoves(s, step);
    ListsMove(s, step);
    if Actor(step).Some? {
      LeavingMoves(s, step);
    }
    assert s.ids <= s'.ids;
    forall p, i | 0 <= p < |s'.workers| && 0 <= i < |s'.queue| && s'.workers[p].phase.Left?
      ensures TooLateFor(s'.queue[i], p, s'.workers[p].phase)
    {
      if Actor(step) == Some(p) {
        assert !Eligible(s.queue[i], p, Executing(s));
      } else {
        assert s'.workers[p] == s.workers[p];
        QueueFrom(s, s', step, i);
      }
    }
  }

  /** An entry in the list afterwards was there before, or is new. */
  lemma QueueFrom(s: State, s': State, step: Step, i: nat)
    requires Enabled(s, step) && s' == Next(s, step) && i < |s'.queue|
    ensures s'.queue[i] in s.queue || s'.queue[i].id >= s.ids
  {
    hide Next, Enabled, Executing, FirstEligible;
    ListsMove(s, step);
    if step.Take? && !SameLists(s, s') {
      var k := FirstEligible(s.queue, step.w, Executing(s));
      assert s'.queue[i] == s.queue[if i < k then i else i + 1];
    }
  }

  lemma StoppedStep(s: State, step: Step)
    requires StoppedFirst(s) && Enabled(s, step)
    ensures StoppedFirst(Next(s, step))
  {
    hide Executing, FirstEligible, Without;
    var s' := Next(s, step);
    OneWorkerMoves(s, step);
    assert s.stopped ==> s'.stopped;
    forall w | 0 <= w < |s'.workers| && (s'.workers[w].idleDone || s'.workers[w].phase.Left?)
      ensures s'.stopped
    {
      if Actor(step) == Some(w) {
        LeavingMoves(s, step);
      }
    }
  }

  lemma LastStep(s: State, step: Step)
    requires SomebodyWasLast(s) && StoppedFirst(s) && ExecutingIsRun(s) && Enabled(s, step)
    ensures SomebodyWasLast(Next(s, step))
  {
    hide Next, Enabled, FirstEligible, Without;
    var s' := Next(s, step);
    OneWorkerMoves(s, step);
    if AllLeft(s') && |s'.workers| > 0 {
      if Actor(step).Some? {
        var w := Actor(step).value;
        LeavingMoves(s, step);
        assert s'.workers[w].phase.Left?;
        forall v | 0 <= v < |s.workers|
          ensures s.workers[v].phase.Left? || s.workers[v].phase.Looking?
        {
          assert v == w || s'.workers[v].phase.Left?;
        }
        NothingExecutes(s);
        assert LeftLast(s', w);
      } else {
        assert s.workers[0].phase.Left?;
        NothingComesIn(s, step);
        var w :| LeftLast(s, w);
        assert LeftLast(s', w);
      }
    }
  }

  lemma NothingExecutes(s: State)
    requires ExecutingIsRun(s)
    requires forall v :: 0 <= v < |s.workers| ==> s.workers[v].phase.Left? || s.workers[v].phase.Looking?
    ensures Executing(s) == {}
  {
    assert forall v, f :: 0 <= v < |s.workers| ==> !Runs(s.workers[v], f);
  }

  lemma NothingComesIn(s: State, step: Step)
    requires Enabled(s, step) && Actor(step).None? && AllLeft(s) && s.stopped
    ensures Next(s, step).ids == s.ids
  {
  }

  // ---- runs ----

  ghost predicate Inv(s: State) {
    && s.active == Busy(s.workers) && Conserved(s) && ExecutingIsRun(s)
    && LeftBehind(s) && LeftEarlier(s) && StoppedFirst(s) && SomebodyWasLast(s)
  }

  lemma InvStep(s: State, step: Step)
    requires Inv(s) && Enabled(s, step)
    ensures Inv(Next(s, step))
  {
    hide Conserved, ExecutingIsRun, LeftBehind, LeftEarlier, StoppedFirst, SomebodyWasLast, Next, Enabled, Busy;
    ActiveStep(s, step);
    ConservedStep(s, step);
    ExecutingStep(s, step);
    LeftBehindStep(s, step);
    StoppedStep(s, step);
    LastStep(s, step);
  }

  ghost predicate IsRun(s: State, steps: seq<Step>)
    decreases |steps|
  {
    steps != [] ==> Enabled(s, steps[0]) && IsRun(Next(s, steps[0]), steps[1..])
  }

  ghost function After(s: State, steps: seq<Step>): (s': State)
    requires IsRun(s, steps)
    decreases |steps|
  {
    if steps == [] then s else After(Next(s, steps[0]), steps[1..])
  }

  lemma {:induction false} InvRun(s: State, steps: seq<Step>)
    requires Inv(s) && IsRun(s, steps)
    ensures Inv(After(s, steps)) && |After(s, steps).workers| == |s.workers|
    decreases |steps|
  {
    hide Inv, Next, Enabled;
    if steps != [] {
      InvStep(s, steps[0]);
      OneWorkerMoves(s, steps[0]);
      InvRun(Next(s, steps[0]), steps[1..]);
    }
  }

  lemma InitialInv(n: nat)
    ensures Inv(Initial(n))
  {
    NobodyBusy(Initial(n).workers);
    if n > 0 {
      assert !Initial(n).workers[0].phase.Left?;
    }
  }

  lemma {:induction false} NobodyBusy(ws: seq<Thread>)
    requires forall w :: 0 <= w < |ws| ==> ws[w].phase.Looking?
    ensures Busy(ws) == 0
  {
    if ws != [] {
      NobodyBusy(ws[1..]);
    }
  }

  /** Any number of workers, any run: the counter and the entries are accounted for, and what is EXEC is run. */
  lemma EveryRun(n: nat, steps: seq<Step>)
    requires IsRun(Initial(n), steps)
    ensures var s := After(Initial(n), steps);
      s.active == Busy(s.workers) && Conserved(s) && ExecutingIsRun(s)
  {
    InitialInv(n);
    InvRun(Initial(n), steps);
  }

  /**
   What can be in the list when every worker has left: entries pinned to a thread that is no worker, or to a worker
   that had left before the entry came or while its fiber was EXEC. The last worker to leave leaves nothing of its own.
   */
  lemma WhatRemains(n: nat, steps: seq<Step>) returns (last: nat)
    requires n > 0 && IsRun(Initial(n), steps) && AllLeft(After(Initial(n), steps))
    ensures last < n
    ensures var s := After(Initial(n), steps);
      && |s.workers| == n
      && forall i :: 0 <= i < |s.queue| ==>
           && s.queue[i].pin.Some? && s.queue[i].pin.value != last
           && (s.queue[i].pin.value < n ==> Missed(s.queue[i], s.workers[s.queue[i].pin.value].phase))
  {
    InitialInv(n);
    InvRun(Initial(n), steps);
    var s := After(Initial(n), steps);
    last :| LeftLast(s, last);
    forall i | 0 <= i < |s.queue|
      ensures s.queue[i].pin.Some? && s.queue[i].pin.value != last
      ensures s.queue[i].pin.value < n ==> Missed(s.queue[i], s.workers[s.queue[i].pin.value].phase)
    {
      assert TooLateFor(s.queue[i], last, s.workers[last].phase);
      if s.queue[i].pin.value < n {
        assert TooLateFor(s.queue[i], s.queue[i].pin.value, s.workers[s.queue[i].pin.value].phase);
      }
    }
  }

  /** The worker had left before the entry came, or while its fiber was executing. */
  predicate Missed(t: Task, p: Phase) {
    p.Left? && (t.id >= p.at || (t.fiber.Some? && t.fiber.value in p.busy))
  }

  ghost predicate Unpinned(steps: seq<Step>) {
    forall i :: 0 <= i < |steps| ==>
      (steps[i].Submit? ==> steps[i].pin.None?) && (steps[i].SubmitFrom? ==> steps[i].pin.None?)
  }

  lemma {:induction false} UnpinnedRun(s: State, steps: seq<Step>)
    requires IsRun(s, steps) && Unpinned(steps)
    requires forall t :: t in s.queue ==> t.pin.None?
    ensures forall t :: t in After(s, steps).queue ==> t.pin.None?
    decreases |steps|
  {
    hide Next, Enabled;
    if steps != [] {
      UnpinnedStep(s, steps[0]);
      UnpinnedRun(Next(s, steps[0]), steps[1..]);
    }
  }

  lemma UnpinnedStep(s: State, step: Step)
    requires Enabled(s, step)
    requires (step.Submit? ==> step.pin.None?) && (step.SubmitFrom? ==> step.pin.None?)
    requires forall t :: t in s.queue ==> t.pin.None?
    ensures forall t :: t in Next(s, step).queue ==> t.pin.None?
  {
    hide Executing, FirstEligible, Next, Enabled;
    ListsMove(s, step);
  }

  /** Drain on exit: without pinned tasks, when every worker has left run() the list is empty. */
  lemma DrainOnExit(n: nat, steps: seq<Step>)
    requires n > 0 && IsRun(Initial(n), steps) && Unpinned(steps) && AllLeft(After(Initial(n), steps))
    ensures After(Initial(n), steps).queue == []
  {
    var queue := After(Initial(n), steps).queue;
    var first := if queue == [] then None else queue[0].pin;
    var last := WhatRemains(n, steps);
    UnpinnedRun(Initial(n), steps);
  }
}
