/**
 Which worker has which fiber. Between the locked search and the switch, and between the switch back and the update of
 the fiber's state, a fiber is not marked EXEC though a worker is at it; and a worker keeps a callback fiber for reuse.
 */
module SchedulerFibers {
  import opened FiberStates
  import opened Options
  import opened Schedulers
  import opened SchedulerRuns

  /** The worker took the fiber from the list, runs it, is not done with it, or keeps it for its next callback. */
  predicate Holds(t: Thread, f: nat) {
    Runs(t, f) || (t.phase.Picked? && t.phase.task.fiber == Some(f)) || t.kept == Some(f)
  }

  predicate InCallback(t: Thread) {
    (t.phase.Running? || t.phase.Returned? || t.phase.Settling?) && t.phase.callback
  }

  ghost predicate KnownEntries(s: State) {
    forall i :: 0 <= i < |s.queue| && s.queue[i].fiber.Some? ==> s.queue[i].fiber.value < |s.fibers|
  }

  /** Only fibers that exist are listed or held, and a callback runs in the fiber its worker keeps. */
  ghost predicate Known(s: State) {
    && KnownEntries(s)
    && (forall w, f: nat :: 0 <= w < |s.workers| && Holds(s.workers[w], f) ==> f < |s.fibers|)
    && (forall w :: 0 <= w < |s.workers| && InCallback(s.workers[w]) ==> s.workers[w].kept == Some(s.workers[w].phase.fiber))
    && (forall f :: f in s.hollow ==> f < |s.fibers|)
  }

  /** No fiber is held by two workers. */
  ghost predicate Distinct(s: State) {
    forall v, w, f: nat :: 0 <= v < w < |s.workers| ==> !(Holds(s.workers[v], f) && Holds(s.workers[w], f))
  }

  /** What a worker keeps can be reset, unless the worker runs it at the moment. */
  predicate Reusable(s: State, t: Thread, f: nat) {
    if Runs(t, f) then
      if t.phase.Running? then f in s.hollow <==> !t.phase.callback else t.phase.callback || StateOf(s, f) == EXCEPT
    else (StateOf(s, f) == INIT && f in s.hollow) || Finished(StateOf(s, f))
  }

  ghost predicate KeptFine(s: State) {
    forall w :: 0 <= w < |s.workers| && s.workers[w].kept.Some? ==> Reusable(s, s.workers[w], s.workers[w].kept.value)
  }

  // ---- what a step touches ----

  /** The fiber that a search takes from the list, if it takes one. */
  function TakenFiber(s: State, step: Step): (f: Option<nat>) {
    if !step.Take? then None
    else
      var k := FirstEligible(s.queue, step.w, Executing(s));
      if k < |s.queue| then s.queue[k].fiber else None
  }

  /** A worker comes to hold only what it takes or makes. */
  lemma HoldsMove(s: State, step: Step, f: nat)
    requires Enabled(s, step) && Actor(step).Some?
    ensures var w := Actor(step).value;
      w < |s.workers| == |Next(s, step).workers|
      && (Holds(Next(s, step).workers[w], f) ==> Holds(s.workers[w], f) || TakenFiber(s, step) == Some(f) || |s.fibers| == f < |Next(s, step).fibers|)
      && (TakenFiber(s, step) == Some(f) ==> Holds(Next(s, step).workers[w], f))
  {
    hide Executing, FirstEligible, Without;
  }

  /** Fibers that the worker does not hold stay as they are. */
  lemma OthersStay(s: State, step: Step, f: nat)
    requires Enabled(s, step) && f < |s.fibers|
    requires Actor(step).Some? ==> Actor(step).value < |s.workers| && !Holds(s.workers[Actor(step).value], f)
    ensures StateOf(Next(s, step), f) == StateOf(s, f) && (f in Next(s, step).hollow <==> f in s.hollow)
  {
    hide Executing, FirstEligible, Without;
  }

  lemma FibersGrow(s: State, step: Step)
    requires Enabled(s, step)
    ensures |s.fibers| <= |Next(s, step).fibers|
    ensures step.Submit? || step.SubmitFrom? ==> (step.fiber == Some(|s.fibers|) ==> |s.fibers| < |Next(s, step).fibers|)
  {
    hide Executing, FirstEligible, Without;
  }

  /** The condition that matters: the search takes a fiber that another worker is still at. */
  ghost predicate TakesHeld(s: State, step: Step) {
    TakenFiber(s, step).Some? && HeldByOther(s, step.w, TakenFiber(s, step).value)
  }

  ghost predicate HeldByOther(s: State, w: nat, f: nat) {
    exists v :: 0 <= v < |s.workers| && v != w && Holds(s.workers[v], f)
  }

  // ---- one step ----

  lemma KnownStep(s: State, step: Step)
    requires Known(s) && Enabled(s, step)
    ensures Known(Next(s, step))
  {
    hide Next, Enabled, Holds, InCallback, FirstEligible, Executing;
    var s' := Next(s, step);
    OneWorkerMoves(s, step);
    FibersGrow(s, step);
    EntriesKnown(s, step);
    HollowOnes(s, step);
    if Actor(step).Some? {
      var w := Actor(step).value;
      CallbackKept(s, step);
      forall f: nat | Holds(s'.workers[w], f)
        ensures f < |s'.fibers|
      {
        HoldsMove(s, step, f);
        TakenIsListed(s, step);
      }
    }
  }

  /** Only a fiber that its worker is done with loses its callback. */
  lemma HollowOnes(s: State, step: Step)
    requires Enabled(s, step)
    ensures forall f :: f in Next(s, step).hollow ==> f in s.hollow || (step.Settle? && Holds(s.workers[step.w], f))
  {
    hide Executing, FirstEligible, Without;
  }

  /** A worker takes a callback fiber when it has none and runs a callback, and gives it up when that does not end. */
  lemma KeptChangesIff(s: State, step: Step, w: nat)
    requires Enabled(s, step) && w < |s.workers| && !Next(s, step).failed
    ensures w < |Next(s, step).workers|
    ensures Next(s, step).workers[w].kept != s.workers[w].kept <==>
      || (step == SwapIn(w) && s.workers[w].phase.task.fiber.None? && s.workers[w].kept.None?)
      || (step == Settle(w) && s.workers[w].phase.callback && s.workers[w].kept.Some? && !Finished(StateOf(s, s.workers[w].phase.fiber)))
  {
    hide Executing, FirstEligible, Without;
    OneWorkerMoves(s, step);
  }

  lemma TakenIsListed(s: State, step: Step)
    ensures TakenFiber(s, step).Some? ==> exists i :: 0 <= i < |s.queue| && s.queue[i].fiber == TakenFiber(s, step)
  {
    hide Executing;
  }

  lemma EntriesKnown(s: State, step: Step)
    requires Known(s) && Enabled(s, step)
    ensures KnownEntries(Next(s, step))
  {
    hide Next, Enabled, Executing, FirstEligible;
    var s' := Next(s, step);
    ListsMove(s, step);
    FibersGrow(s, step);
    SubmittedIsKnown(s, step);
    if step.Settle? {
      assert Holds(s.workers[step.w], s.workers[step.w].phase.fiber);
    }
    forall i | 0 <= i < |s'.queue| && s'.queue[i].fiber.Some?
      ensures s'.queue[i].fiber.value < |s'.fibers|
    {
      if step.Take? && !SameLists(s, s') {
        var k := FirstEligible(s.queue, step.w, Executing(s));
        assert s'.queue[i] == s.queue[if i < k then i else i + 1];
      }
    }
  }

  lemma SubmittedIsKnown(s: State, step: Step)
    requires Enabled(s, step)
    ensures (step.Submit? || step.SubmitFrom?) && step.fiber.Some? ==> step.fiber.value < |Next(s, step).fibers|
    ensures step.Settle? ==> step.w < |s.workers| && s.workers[step.w].phase.Settling?
  {
  }

  lemma CallbackKept(s: State, step: Step)
    requires Known(s) && Enabled(s, step) && Actor(step).Some?
    ensures var w := Actor(step).value;
      var s' := Next(s, step);
      w < |s'.workers| && (InCallback(s'.workers[w]) ==> s'.workers[w].kept == Some(s'.workers[w].phase.fiber))
  {
    hide Next, Enabled, Holds, KnownEntries;
    CallbackMoves(s, step);
  }

  /** A worker starts a callback only in the fiber it keeps, and goes on with it otherwise. */
  lemma CallbackMoves(s: State, step: Step)
    requires Enabled(s, step) && Actor(step).Some?
    ensures var w := Actor(step).value;
      var s' := Next(s, step);
      w < |s.workers| == |s'.workers|
      && (InCallback(s'.workers[w]) ==>
            s'.workers[w].kept == Some(s'.workers[w].phase.fiber)
            || (InCallback(s.workers[w]) && s'.workers[w].phase.fiber == s.workers[w].phase.fiber && s'.workers[w].kept == s.workers[w].kept))
  {
    hide Executing, FirstEligible, Without, StateOf, Stopping;
  }

  /** Two workers come to hold one fiber exactly when a search takes a held one. */
  lemma DistinctStep(s: State, step: Step)
    requires Known(s) && Distinct(s) && Enabled(s, step)
    ensures Distinct(Next(s, step)) <==> !TakesHeld(s, step)
  {
    hide Next, Enabled, Holds, FirstEligible, Executing, TakenFiber;
    var s' := Next(s, step);
    OneWorkerMoves(s, step);
    TakenByActor(s, step);
    if TakesHeld(s, step) {
      var w, f := step.w, TakenFiber(s, step).value;
      var v :| 0 <= v < |s.workers| && v != w && Holds(s.workers[v], f);
      HoldsMove(s, step, f);
      assert Holds(s'.workers[v], f) && Holds(s'.workers[w], f);
    } else if Actor(step).Some? {
      var w := Actor(step).value;
      forall v, f: nat | 0 <= v < |s.workers| && v != w
        ensures !(Holds(s'.workers[v], f) && Holds(s'.workers[w], f))
      {
        HoldsMove(s, step, f);
      }
    }
  }

  lemma TakenByActor(s: State, step: Step)
    ensures TakenFiber(s, step).Some? ==> step.Take? && Actor(step) == Some(step.w)
  {
  }

  /** As long as no fiber is held twice, no assertion fails. */
  lemma NoAssertionFails(s: State, step: Step)
    requires Known(s) && Distinct(s) && KeptFine(s) && ExecutingIsRun(s) && Enabled(s, step)
    ensures !Next(s, step).failed
  {
    hide Executing, FirstEligible, Without;
    if step.SwapIn? {
      var w := step.w;
      var t := s.workers[w].phase.task;
      if t.fiber.Some? {
        PickedIsNotExecuting(s, w, t.fiber.value);
      }
    }
  }

  lemma PickedIsNotExecuting(s: State, w: nat, f: nat)
    requires Distinct(s) && ExecutingIsRun(s) && w < |s.workers| && s.workers[w].phase.Picked? && s.workers[w].phase.task.fiber == Some(f)
    ensures StateOf(s, f) != EXEC
  {
    assert Holds(s.workers[w], f);
    forall v | 0 <= v < |s.workers|
      ensures !Runs(s.workers[v], f)
    {
      assert Runs(s.workers[v], f) ==> Holds(s.workers[v], f);
    }
  }

  /** What the worker of the step keeps stays fit for reuse. */
  lemma OwnKept(s: State, step: Step)
    requires Known(s) && KeptFine(s) && Enabled(s, step) && Actor(step).Some?
    ensures var w := Actor(step).value;
      var s' := Next(s, step);
      w < |s'.workers| && (s'.workers[w].kept.Some? ==> Reusable(s', s'.workers[w], s'.workers[w].kept.value))
  {
    hide Executing, FirstEligible, Without, KnownEntries, Stopping;
    var w := Actor(step).value;
    if s.workers[w].kept.Some? {
      assert Holds(s.workers[w], s.workers[w].kept.value);
      assert Reusable(s, s.workers[w], s.workers[w].kept.value);
    }
  }

  lemma KeptStep(s: State, step: Step)
    requires Known(s) && Distinct(s) && KeptFine(s) && Enabled(s, step)
    ensures KeptFine(Next(s, step))
  {
    hide Next, Enabled, Runs;
    var s' := Next(s, step);
    OneWorkerMoves(s, step);
    if Actor(step).Some? {
      OwnKept(s, step);
    }
    forall v | 0 <= v < |s'.workers| && s'.workers[v].kept.Some?
      ensures Reusable(s', s'.workers[v], s'.workers[v].kept.value)
    {
      if Actor(step) != Some(v) {
        var f := s'.workers[v].kept.value;
        assert s'.workers[v] == s.workers[v] && Holds(s.workers[v], f);
        OthersStay(s, step, f);
      }
    }
  }

  // ---- runs ----

  ghost predicate Sound(s: State) {
    Inv(s) && Known(s) && Distinct(s) && KeptFine(s)
  }

  /** In every state of the run no fiber is held by two workers. */
  ghost predicate AlwaysDistinct(s: State, steps: seq<Step>)
    requires IsRun(s, steps)
    decreases |steps|
  {
    Distinct(s) && (steps != [] ==> AlwaysDistinct(Next(s, steps[0]), steps[1..]))
  }

  /** No search of the run takes a fiber that another worker is still at. */
  ghost predicate NeverTakesHeld(s: State, steps: seq<Step>)
    requires IsRun(s, steps)
    decreases |steps|
  {
    steps != [] ==> !TakesHeld(s, steps[0]) && NeverTakesHeld(Next(s, steps[0]), steps[1..])
  }

  lemma {:induction false} DistinctRun(s: State, steps: seq<Step>)
    requires Sound(s) && IsRun(s, steps)
    ensures AlwaysDistinct(s, steps) <==> NeverTakesHeld(s, steps)
    ensures NeverTakesHeld(s, steps) && !s.failed ==> Sound(After(s, steps)) && !After(s, steps).failed
    decreases |steps|
  {
    hide Inv, Next, Enabled, Known, KeptFine, Distinct, TakesHeld;
    if steps != [] {
      var step := steps[0];
      DistinctStep(s, step);
      if TakesHeld(s, step) {
        NotAlways(Next(s, step), steps[1..]);
      } else {
        SoundStep(s, step);
        DistinctRun(Next(s, step), steps[1..]);
      }
    }
  }

  lemma NotAlways(s: State, steps: seq<Step>)
    requires IsRun(s, steps) && !Distinct(s)
    ensures !AlwaysDistinct(s, steps)
  {
  }

  lemma SoundStep(s: State, step: Step)
    requires Sound(s) && Enabled(s, step) && !TakesHeld(s, step)
    ensures Sound(Next(s, step)) && !Next(s, step).failed
  {
    hide Next, Enabled, Known, KeptFine, Distinct, TakesHeld, ExecutingIsRun;
    InvStep(s, step);
    KnownStep(s, step);
    DistinctStep(s, step);
    NoAssertionFails(s, step);
    KeptStep(s, step);
  }

  lemma InitialSound(n: nat)
    ensures Sound(Initial(n))
  {
    InitialInv(n);
  }

  /**
   The exact condition, for every run with any number of workers: no fiber is ever held by two of them if and only if
   no search takes a fiber that another worker is still at. Then no assertion of swapIn or reset fails either.
   */
  lemma ExclusiveIff(n: nat, steps: seq<Step>)
    requires IsRun(Initial(n), steps)
    ensures AlwaysDistinct(Initial(n), steps) <==> NeverTakesHeld(Initial(n), steps)
    ensures NeverTakesHeld(Initial(n), steps) ==> Distinct(After(Initial(n), steps)) && !After(Initial(n), steps).failed
  {
    InitialSound(n);
    DistinctRun(Initial(n), steps);
  }

  /** Then a callback that is run can come back in any state: its fiber has been given the callback. */
  lemma CallbacksComeBack(n: nat, steps: seq<Step>, w: nat, back: Back)
    requires IsRun(Initial(n), steps) && NeverTakesHeld(Initial(n), steps)
    requires w < |After(Initial(n), steps).workers|
    requires var t := After(Initial(n), steps).workers[w]; t.phase.Running? && t.phase.callback
    ensures Enabled(After(Initial(n), steps), SwitchBack(w, back))
  {
    hide IsRun, After, NeverTakesHeld, AlwaysDistinct;
    InitialSound(n);
    DistinctRun(Initial(n), steps);
    var s := After(Initial(n), steps);
    assert InCallback(s.workers[w]) && Reusable(s, s.workers[w], s.workers[w].kept.value);
  }

  // ---- a condition on schedule() ----

  /** Nobody holds the fiber and it is not in the list: it waits for somebody to schedule it. */
  ghost predicate Waits(s: State, f: nat) {
    && (forall i :: 0 <= i < |s.queue| ==> s.queue[i].fiber != Some(f))
    && (forall w :: 0 <= w < |s.workers| ==> !Holds(s.workers[w], f))
  }

  /** schedule() is called only for a fiber that waits, or a new one. */
  ghost predicate OrderlyRun(s: State, steps: seq<Step>)
    requires IsRun(s, steps)
    decreases |steps|
  {
    steps != [] ==> OrderlyStep(s, steps[0]) && OrderlyRun(Next(s, steps[0]), steps[1..])
  }

  ghost predicate OrderlyStep(s: State, step: Step) {
    (step.Submit? || step.SubmitFrom?) && step.fiber.Some? ==> step.fiber.value == |s.fibers| || Waits(s, step.fiber.value)
  }

  /** A worker runs what it took, not what it keeps. */
  predicate TookAnother(t: Thread) {
    && (t.phase.Picked? && t.phase.task.fiber.Some? ==> t.kept != t.phase.task.fiber)
    && ((t.phase.Running? || t.phase.Returned? || t.phase.Settling?) && !t.phase.callback ==> t.kept != Some(t.phase.fiber))
  }

  ghost predicate OncePerFiber(queue: seq<Task>) {
    forall i, j :: 0 <= i < j < |queue| && queue[i].fiber.Some? ==> queue[i].fiber != queue[j].fiber
  }

  /** A fiber is in the list at most once, and not while a worker holds it. */
  ghost predicate Orderly(s: State) {
    && OncePerFiber(s.queue)
    && (forall i, w :: 0 <= i < |s.queue| && 0 <= w < |s.workers| && s.queue[i].fiber.Some? ==> !Holds(s.workers[w], s.queue[i].fiber.value))
    && (forall w :: 0 <= w < |s.workers| ==> TookAnother(s.workers[w]))
  }

  lemma OrderlyTakesNothingHeld(s: State, step: Step)
    requires Orderly(s)
    ensures !TakesHeld(s, step)
  {
    hide Holds, Executing;
  }

  lemma OwnTask(s: State, step: Step)
    requires Orderly(s) && Known(s) && Enabled(s, step) && Actor(step).Some?
    ensures var w := Actor(step).value;
      w < |Next(s, step).workers| && TookAnother(Next(s, step).workers[w])
  {
    hide Executing, Without, StateOf, Stopping, KnownEntries, OncePerFiber;
    if step.Take? && TakenFiber(s, step).Some? {
      TakenIsListed(s, step);
      assert !Holds(s.workers[step.w], TakenFiber(s, step).value);
    }
  }

  /** No worker holds fiber `f`. */
  ghost predicate Free(ws: seq<Thread>, f: nat) {
    forall w :: 0 <= w < |ws| ==> !Holds(ws[w], f)
  }

  /** A fiber that is in the list before and after a step is still free. */
  lemma StaysFree(s: State, step: Step, f: nat)
    requires Enabled(s, step) && f < |s.fibers| && Free(s.workers, f) && TakenFiber(s, step) != Some(f)
    ensures Free(Next(s, step).workers, f)
  {
    hide Next, Enabled, Holds, TakenFiber;
    OneWorkerMoves(s, step);
    if Actor(step).Some? {
      HoldsMove(s, step, f);
    }
  }

  /** A READY fiber is let go of when it is put back. */
  lemma LetsGo(s: State, step: Step)
    requires Enabled(s, step) && step.Settle? && Known(s) && Distinct(s) && TookAnother(s.workers[step.w])
    requires !SameLists(s, Next(s, step))
    ensures Free(Next(s, step).workers, s.workers[step.w].phase.fiber)
  {
    hide KnownEntries;
    var w, f := step.w, s.workers[step.w].phase.fiber;
    assert Holds(s.workers[w], f);
    assert InCallback(s.workers[w]) ==> s.workers[w].kept == Some(f);
    OneWorkerMoves(s, step);
    assert !Holds(Next(s, step).workers[w], f);
  }

  lemma OrderlyPush(s: State, s': State, fiber: Option<nat>, pin: Option<nat>)
    requires OncePerFiber(s.queue) && Pushed(s, s', fiber, pin)
    requires fiber.Some? ==> forall i :: 0 <= i < |s.queue| ==> s.queue[i].fiber != fiber
    ensures OncePerFiber(s'.queue)
  {
  }

  lemma OrderlyRemove(s: State, s': State, w: nat, k: nat)
    requires OncePerFiber(s.queue) && TookAt(s, s', w, k)
    ensures OncePerFiber(s'.queue)
    ensures forall i :: 0 <= i < |s'.queue| && s'.queue[i].fiber.Some? ==> s'.queue[i].fiber != s.queue[k].fiber && s'.queue[i] in s.queue
  {
    var rest := s'.queue;
    assert forall i :: 0 <= i < |rest| ==> rest[i] == s.queue[if i < k then i else i + 1];
  }

  /** The list afterwards: each fiber once, and every entry from before, a submitted one, or one put back. */
  lemma OrderlyList(s: State, step: Step)
    requires Orderly(s) && Known(s) && Enabled(s, step) && OrderlyStep(s, step)
    ensures OncePerFiber(Next(s, step).queue)
    ensures forall t :: t in Next(s, step).queue && t.fiber.Some? ==>
      || (t in s.queue && t.fiber != TakenFiber(s, step))
      || ((step.Submit? || step.SubmitFrom?) && t.fiber == step.fiber)
      || (step.Settle? && !SameLists(s, Next(s, step)) && t.fiber == Some(s.workers[step.w].phase.fiber))
  {
    hide Next, Executing, FirstEligible, Holds, Without;
    var s' := Next(s, step);
    ListsMove(s, step);
    match step
    case Submit(fiber, pin) => OrderlyPush(s, s', fiber, pin);
    case SubmitFrom(_, fiber, pin) => OrderlyPush(s, s', fiber, pin);
    case Take(w) =>
      var k := FirstEligible(s.queue, w, Executing(s));
      NothingTaken(s, step);
      if !SameLists(s, s') {
        OrderlyRemove(s, s', w, k);
      }
    case Settle(w) =>
      if !SameLists(s, s') {
        RunsIsHeld(s.workers[w]);
        OrderlyPush(s, s', Some(s.workers[w].phase.fiber), None);
      }
    case _ =>
  }

  lemma NothingTaken(s: State, step: Step)
    requires Enabled(s, step) && step.Take?
    ensures SameLists(s, Next(s, step)) ==> TakenFiber(s, step).None?
  {
    hide Executing;
    var k := FirstEligible(s.queue, step.w, Executing(s));
    if k < |s.queue| {
      assert |Next(s, step).queue| == |s.queue| - 1;
    }
  }

  lemma RunsIsHeld(t: Thread)
    requires t.phase.Settling?
    ensures Holds(t, t.phase.fiber)
  {
  }

  lemma OrderlyNext(s: State, step: Step)
    requires Sound(s) && Orderly(s) && Enabled(s, step) && OrderlyStep(s, step)
    ensures Orderly(Next(s, step))
  {
    hide Next, Enabled, Executing, FirstEligible, Holds, Without, Inv, KeptFine, TookAnother, TakenFiber;
    var s' := Next(s, step);
    OneWorkerMoves(s, step);
    OrderlyList(s, step);
    if Actor(step).Some? {
      OwnTask(s, step);
    }
    SubmittedIsKnown(s, step);
    TakenByActor(s, step);
    if step.Settle? && !SameLists(s, s') {
      LetsGo(s, step);
    }
    forall i | 0 <= i < |s'.queue| && s'.queue[i].fiber.Some?
      ensures Free(s'.workers, s'.queue[i].fiber.value)
    {
      var t := s'.queue[i];
      assert t in s'.queue;
      if t in s.queue && t.fiber != TakenFiber(s, step) {
        StaysFree(s, step, t.fiber.value);
      }
    }
  }

  lemma {:induction false} OrderlyIsSound(s: State, steps: seq<Step>)
    requires Sound(s) && Orderly(s) && !s.failed && IsRun(s, steps) && OrderlyRun(s, steps)
    ensures Sound(After(s, steps)) && Orderly(After(s, steps)) && !After(s, steps).failed
    decreases |steps|
  {
    hide Next, Enabled, Sound, Orderly, OrderlyStep, TakesHeld;
    if steps != [] {
      OrderlyTakesNothingHeld(s, steps[0]);
      SoundStep(s, steps[0]);
      OrderlyNext(s, steps[0]);
      OrderlyIsSound(Next(s, steps[0]), steps[1..]);
    }
  }

  /**
   Every run in which schedule() is called only for fibers that wait: no fiber is on two workers, none is in the list
   twice or while a worker holds it, and no assertion of swapIn or reset fails.
   */
  lemma OrderlyRunsAreExclusive(n: nat, steps: seq<Step>)
    requires IsRun(Initial(n), steps) && OrderlyRun(Initial(n), steps)
    ensures var s := After(Initial(n), steps); Distinct(s) && Orderly(s) && !s.failed
  {
    InitialSound(n);
    OrderlyIsSound(Initial(n), steps);
  }
}
