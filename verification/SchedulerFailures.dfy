/** Runs of the scheduler in which a fiber gets into two hands, and one in which a pinned task is stranded. */
module SchedulerFailures {
  import opened FiberStates
  import opened Options
  import opened Schedulers
  import opened SchedulerRuns

  lemma {:induction false} Extend(s: State, steps: seq<Step>, step: Step) returns (longer: seq<Step>)
    requires IsRun(s, steps) && Enabled(After(s, steps), step)
    ensures IsRun(s, longer) && After(s, longer) == Next(After(s, steps), step)
    decreases |steps|
  {
    if steps == [] {
      longer := [step];
      assert longer[1..] == [] && IsRun(Next(s, step), []);
    } else {
      var rest := Extend(Next(s, steps[0]), steps[1..], step);
      longer := [steps[0]] + rest;
      assert longer[1..] == rest;
    }
  }

  lemma Nothing(s: State)
    ensures IsRun(s, []) && After(s, []) == s
  {
  }

  /** A search whose first entry is for any thread and not executing takes it. */
  lemma TakesFirst(s: State, w: nat)
    requires w < |s.workers| && |s.queue| > 0 && s.queue[0].pin.None?
    requires s.queue[0].fiber.Some? ==> StateOf(s, s.queue[0].fiber.value) != EXEC
    ensures TakeOrIdle(s, w) == Enter(s, w, Picked(s.queue[0])).(queue := s.queue[1..], active := s.active + 1, taken := s.taken + [Taken(s.queue[0], w)])
  {
    assert Without(s.queue, 0) == s.queue[1..];
  }

  /** From the start: a new fiber is submitted, taken by worker 0 and run there. */
  lemma RunsOnFirst() returns (steps: seq<Step>)
    ensures IsRun(Initial(2), steps)
    ensures var t := Task(0, Some(0), None);
      After(Initial(2), steps) == State([], 1, [Thread(Phase.Running(0, false), false, None), Thread(Looking, false, None)],
                                        false, [EXEC], {}, 1, [Taken(t, 0)], false)
  {
    hide After, IsRun, FirstEligible, Executing;
    var s0 := Initial(2);
    Nothing(s0);
    steps := Extend(s0, [], Submit(Some(0), None));
    TakesFirst(After(s0, steps), 0);
    steps := Extend(s0, steps, Take(0));
    steps := Extend(s0, steps, SwapIn(0));
    assert After(s0, steps).workers == [Thread(Phase.Running(0, false), false, None), Thread(Looking, false, None)];
  }

  /** One fiber, two entries: both workers take it before either switches in. */
  lemma BothPicked() returns (steps: seq<Step>)
    ensures IsRun(Initial(2), steps)
    ensures var s := After(Initial(2), steps);
      && s.fibers == [INIT] && !s.failed && |s.workers| == 2
      && s.workers[0].phase == Picked(Task(0, Some(0), None)) && s.workers[1].phase == Picked(Task(1, Some(0), None))
  {
    hide After, IsRun, FirstEligible, Executing;
    var s0 := Initial(2);
    Nothing(s0);
    steps := Extend(s0, [], Submit(Some(0), None));
    steps := Extend(s0, steps, Submit(Some(0), None));
    assert After(s0, steps).queue == [Task(0, Some(0), None), Task(1, Some(0), None)] && After(s0, steps).fibers == [INIT];
    TakesFirst(After(s0, steps), 0);
    steps := Extend(s0, steps, Take(0));
    assert After(s0, steps).queue == [Task(1, Some(0), None)];
    TakesFirst(After(s0, steps), 1);
    steps := Extend(s0, steps, Take(1));
  }

  /** Then one of them fails the assertion in swapIn. */
  lemma ScheduledTwice() returns (steps: seq<Step>)
    ensures IsRun(Initial(2), steps) && After(Initial(2), steps).failed
  {
    hide After, IsRun, FirstEligible, Executing;
    var s0 := Initial(2);
    steps := BothPicked();
    steps := Extend(s0, steps, SwapIn(0));
    assert After(s0, steps).fibers == [EXEC];
    steps := Extend(s0, steps, SwapIn(1));
  }

  /**
   A fiber that schedules itself and yields, as switchTo does, with never more than one entry in the list. Worker 1
   takes it before worker 0 has dealt with its return; worker 0 then marks it HOLD while it runs, and when the fiber
   schedules itself again worker 0 switches into it as well.
   */
  lemma SelfScheduledRunsTwice() returns (steps: seq<Step>)
    ensures IsRun(Initial(2), steps)
    ensures var s := After(Initial(2), steps);
      |s.workers| == 2 && s.workers[0].phase == Phase.Running(0, false) && s.workers[1].phase == Phase.Running(0, false) && !s.failed
  {
    hide After, IsRun, FirstEligible, Executing;
    var s0 := Initial(2);
    steps := YieldedTooEarly();
    steps := Extend(s0, steps, SubmitFrom(1, Some(0), None));
    TakesFirst(After(s0, steps), 0);
    steps := Extend(s0, steps, Take(0));
    steps := Extend(s0, steps, SwapIn(0));
  }

  /** The fiber has yielded on worker 0, which is not done with it, and worker 1 runs it. */
  lemma TakenOver() returns (steps: seq<Step>)
    ensures IsRun(Initial(2), steps)
    ensures var s := After(Initial(2), steps);
      && s.queue == [] && s.fibers == [EXEC] && !s.failed && s.hollow == {}
      && s.workers == [Thread(Returned(0, false), false, None), Thread(Phase.Running(0, false), false, None)]
  {
    hide After, IsRun, FirstEligible, Executing;
    var s0 := Initial(2);
    steps := RunsOnFirst();
    steps := Extend(s0, steps, SubmitFrom(0, Some(0), None));
    steps := Extend(s0, steps, SwitchBack(0, HOLD));
    TakesFirst(After(s0, steps), 1);
    steps := Extend(s0, steps, Take(1));
    steps := Extend(s0, steps, SwapIn(1));
    assert After(s0, steps).fibers == [EXEC];
    assert After(s0, steps).workers == [Thread(Returned(0, false), false, None), Thread(Phase.Running(0, false), false, None)];
  }

  /** Worker 0 marks the fiber HOLD while worker 1 runs it. */
  lemma YieldedTooEarly() returns (steps: seq<Step>)
    ensures IsRun(Initial(2), steps)
    ensures var s := After(Initial(2), steps);
      && s.queue == [] && s.fibers == [HOLD] && !s.failed && s.hollow == {}
      && s.workers == [Thread(Looking, false, None), Thread(Phase.Running(0, false), false, None)]
  {
    hide After, IsRun, FirstEligible, Executing;
    var s0 := Initial(2);
    steps := TakenOver();
    steps := Extend(s0, steps, Lower(0));
    steps := Extend(s0, steps, Settle(0));
    assert After(s0, steps).fibers == [HOLD];
    assert After(s0, steps).workers == [Thread(Looking, false, None), Thread(Phase.Running(0, false), false, None)];
  }

  /** A callback schedules the fiber it runs in and returns: worker 0 keeps the fiber, and the list holds it too. */
  lemma KeptAndListed() returns (steps: seq<Step>)
    ensures IsRun(Initial(2), steps)
    ensures var s := After(Initial(2), steps);
      && |s.queue| == 1 && s.queue[0].fiber == Some(0) && s.queue[0].pin.None? && s.fibers == [INIT] && !s.failed && !s.stopped
      && s.workers == [Thread(Looking, false, Some(0)), Thread(Looking, false, None)]
  {
    hide After, IsRun, FirstEligible, Executing;
    var s0 := Initial(2);
    Nothing(s0);
    steps := Extend(s0, [], Submit(None, None));
    TakesFirst(After(s0, steps), 0);
    steps := Extend(s0, steps, Take(0));
    steps := Extend(s0, steps, SwapIn(0));
    assert After(s0, steps).fibers == [EXEC];
    steps := Extend(s0, steps, SubmitFrom(0, Some(0), None));
    steps := Extend(s0, steps, SwitchBack(0, TERM));
    steps := Extend(s0, steps, Lower(0));
    assert After(s0, steps).fibers == [TERM];
    steps := Extend(s0, steps, Settle(0));
    assert After(s0, steps).fibers == [INIT];
    assert After(s0, steps).workers == [Thread(Looking, false, Some(0)), Thread(Looking, false, None)];
  }

  /** Worker 1 runs that fiber while worker 0 resets it for its next callback: the assertion in reset fails. */
  lemma KeptFiberIsReset() returns (steps: seq<Step>)
    ensures IsRun(Initial(2), steps) && After(Initial(2), steps).failed
  {
    hide After, IsRun, FirstEligible, Executing;
    var s0 := Initial(2);
    steps := KeptAndListed();
    TakesFirst(After(s0, steps), 1);
    steps := Extend(s0, steps, Take(1));
    steps := Extend(s0, steps, SwapIn(1));
    assert After(s0, steps).fibers == [EXEC];
    steps := Extend(s0, steps, Submit(None, None));
    TakesFirst(After(s0, steps), 0);
    steps := Extend(s0, steps, Take(0));
    steps := Extend(s0, steps, SwapIn(0));
  }

  // ---- a stranded task ----

  /** Two workers after stop: `v` runs fiber 0 for a listed entry, `w` is at the head of its loop. */
  ghost predicate OneRuns(s: State, v: nat, w: nat) {
    && |s.workers| == 2 && v < 2 && w < 2 && v + w == 1 && s.stopped && s.queue == [] && s.active == 1 && !s.failed
    && |s.fibers| == 1 && s.fibers[0] == EXEC && s.hollow == {}
    && s.workers[v].phase.Running? && s.workers[v].phase.fiber == 0 && s.workers[w].phase.Looking?
    && (s.workers[v].phase.callback ==> s.workers[v].kept == Some(0))
  }

  /** The fiber comes back READY on `v` while `w` is idle: `w` sees stopping() though work is left. */
  lemma ReadyHidesWork(s: State, steps: seq<Step>, v: nat, w: nat, s0: State) returns (longer: seq<Step>)
    requires IsRun(s0, steps) && After(s0, steps) == s && OneRuns(s, v, w) && !s.workers[w].idleDone
    ensures IsRun(s0, longer)
    ensures var s' := After(s0, longer);
      && |s'.workers| == 2 && s'.stopped && s'.active == 0 && !s'.failed && s'.fibers == [READY] && s'.hollow == {}
      && s'.queue == [Task(s.ids, Some(0), None)]
      && s'.workers[v].phase.Looking? && s'.workers[v].idleDone == s.workers[v].idleDone
      && s'.workers[w].phase.Looking? && s'.workers[w].idleDone
  {
    hide After, IsRun, FirstEligible, Executing;
    longer := Extend(s0, steps, SwitchBack(v, READY));
    longer := Extend(s0, longer, Lower(v));
    assert After(s0, longer).fibers == [READY];
    FindsNothing(After(s0, longer), w);
    longer := Extend(s0, longer, Take(w));
    longer := Extend(s0, longer, CheckStopping(w));
    assert After(s0, longer).workers[v].phase.Settling?;
    longer := Extend(s0, longer, Settle(v));
  }

  lemma FindsNothing(s: State, w: nat)
    requires w < |s.workers| && forall i :: 0 <= i < |s.queue| ==> PinnedElsewhere(s.queue[i], w)
    ensures TakeOrIdle(s, w) == if s.workers[w].idleDone then Enter(s, w, Left(s.ids, Executing(s))) else Enter(s, w, Idling)
  {
    hide Executing;
    FirstIs(s.queue, w, Executing(s), |s.queue|);
  }

  /** The listed fiber goes on on worker `v`. */
  lemma TakesOver(s: State, steps: seq<Step>, v: nat, w: nat, s0: State) returns (longer: seq<Step>)
    requires IsRun(s0, steps) && After(s0, steps) == s && |s.workers| == 2 && v < 2 && w < 2 && v + w == 1
    requires s.stopped && s.active == 0 && !s.failed && s.fibers == [READY] && s.hollow == {}
    requires |s.queue| == 1 && s.queue[0].fiber == Some(0) && s.queue[0].pin.None?
    requires s.workers[v].phase.Looking? && s.workers[w].phase.Looking?
    ensures IsRun(s0, longer)
    ensures var s' := After(s0, longer);
      && OneRuns(s', v, w) && !s'.workers[v].phase.callback && s'.workers[v].idleDone == s.workers[v].idleDone
      && s'.workers[w] == s.workers[w]
  {
    hide After, IsRun, FirstEligible, Executing;
    TakesFirst(s, v);
    longer := Extend(s0, steps, Take(v));
    longer := Extend(s0, longer, SwapIn(v));
  }

  /** Both idle fibers are done; worker 1 leaves, and the task on worker 0 then pins one to thread 1. */
  lemma StrandTail(s: State, steps: seq<Step>, s0: State) returns (longer: seq<Step>)
    requires IsRun(s0, steps) && After(s0, steps) == s && OneRuns(s, 0, 1) && !s.workers[0].phase.callback
    requires s.workers[0].idleDone && s.workers[1].idleDone
    ensures IsRun(s0, longer)
    ensures var s' := After(s0, longer); AllLeft(s') && s'.queue == [Task(s.ids, None, Some(1))]
  {
    hide After, IsRun, FirstEligible, Executing;
    FindsNothing(s, 1);
    longer := Extend(s0, steps, Take(1));
    longer := Extend(s0, longer, SubmitFrom(0, None, Some(1)));
    longer := Extend(s0, longer, SwitchBack(0, TERM));
    longer := Extend(s0, longer, Lower(0));
    longer := Extend(s0, longer, Settle(0));
    assert After(s0, longer).queue == [Task(s.ids, None, Some(1))] && After(s0, longer).workers[1].phase.Left?;
    FindsNothing(After(s0, longer), 0);
    longer := Extend(s0, longer, Take(0));
  }

  /** A callback runs on worker 0 after stop. */
  lemma OneCallback() returns (steps: seq<Step>)
    ensures IsRun(Initial(2), steps)
    ensures var s := After(Initial(2), steps); OneRuns(s, 0, 1) && !s.workers[0].idleDone && !s.workers[1].idleDone
  {
    hide After, IsRun, FirstEligible, Executing;
    var s0 := Initial(2);
    Nothing(s0);
    steps := Extend(s0, [], Submit(None, None));
    steps := Extend(s0, steps, Stop);
    TakesFirst(After(s0, steps), 0);
    steps := Extend(s0, steps, Take(0));
    steps := Extend(s0, steps, SwapIn(0));
    assert After(s0, steps).fibers == [EXEC];
  }

  /** With a pinned task the drain can fail: both workers leave, and an entry for one of them stays in the list. */
  lemma PinnedTaskCanBeStranded() returns (steps: seq<Step>)
    ensures IsRun(Initial(2), steps)
    ensures var s := After(Initial(2), steps); AllLeft(s) && |s.queue| == 1 && s.queue[0].pin == Some(1)
  {
    hide After, IsRun, Next, Enabled, AllLeft;
    var s0 := Initial(2);
    steps := OneCallback();
    steps := ReadyHidesWork(After(s0, steps), steps, 0, 1, s0);
    steps := TakesOver(After(s0, steps), steps, 1, 0, s0);
    steps := ReadyHidesWork(After(s0, steps), steps, 1, 0, s0);
    steps := TakesOver(After(s0, steps), steps, 0, 1, s0);
    steps := StrandTail(After(s0, steps), steps, s0);
  }
}
