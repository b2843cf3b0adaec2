/** Why schedule() must be called only for fibers that wait: otherwise the run can go on to give a fiber to two workers. */
module SchedulerCollisions {
  import opened FiberStates
  import opened Options
  import opened Schedulers
  import opened SchedulerRuns
  import opened SchedulerFibers

  lemma {:induction false} Append(s: State, a: seq<Step>, b: seq<Step>)
    requires IsRun(s, a) && IsRun(After(s, a), b)
    ensures IsRun(s, a + b) && After(s, a + b) == After(After(s, a), b)
    decreases |a|
  {
    hide Next, Enabled;
    if a == [] {
      assert a + b == b;
    } else {
      assert (a + b)[1..] == a[1..] + b;
      Append(Next(s, a[0]), a[1..], b);
    }
  }

  lemma OneStep(s: State, step: Step)
    requires Enabled(s, step)
    ensures IsRun(s, [step]) && After(s, [step]) == Next(s, step)
  {
    hide Next, Enabled;
    assert [step][1..] == [];
    assert IsRun(Next(s, step), []);
  }

  /** How far a worker is from the head of its loop. */
  function Rank(p: Phase): (n: nat) {
    match p
    case Picked(_) => 5
    case Running(_, _) => 4
    case Returned(_, _) => 3
    case Settling(_, _) => 2
    case Dropping => 1
    case Idling => 1
    case _ => 0
  }

  /** The step that takes it there; a task ends as soon as it runs. */
  function Homeward(s: State, w: nat): (step: Step)
    requires w < |s.workers|
  {
    match s.workers[w].phase
    case Picked(_) => SwapIn(w)
    case Running(f, _) => SwitchBack(w, if f in s.hollow then EXCEPT else TERM)
    case Settling(_, _) => Settle(w)
    case Idling => CheckStopping(w)
    case _ => Lower(w)
  }

  lemma HomewardStep(s: State, w: nat)
    requires Sound(s) && !s.failed && w < |s.workers| && !s.workers[w].phase.Looking? && !s.workers[w].phase.Left?
    ensures var step := Homeward(s, w);
      && Enabled(s, step) && Actor(step) == Some(w) && !step.Take? && Sound(Next(s, step)) && !Next(s, step).failed
      && |Next(s, step).workers| == |s.workers| && Rank(Next(s, step).workers[w].phase) < Rank(s.workers[w].phase)
      && !Next(s, step).workers[w].phase.Left?
  {
    hide Sound;
    var step := Homeward(s, w);
    NoTake(s, step);
    SoundStep(s, step);
    RankFalls(s, w);
  }

  lemma NoTake(s: State, step: Step)
    requires !step.Take?
    ensures !TakesHeld(s, step)
  {
  }

  lemma RankFalls(s: State, w: nat)
    requires w < |s.workers| && !s.workers[w].phase.Looking? && !s.workers[w].phase.Left? && Enabled(s, Homeward(s, w)) && !Next(s, Homeward(s, w)).failed
    ensures var s' := Next(s, Homeward(s, w));
      w < |s'.workers| && Rank(s'.workers[w].phase) < Rank(s.workers[w].phase) && !s'.workers[w].phase.Left?
  {
    hide StateOf, Stopping;
  }

  /** What stays the same for everybody else when worker `w` moves. */
  ghost predicate Aside(s: State, s': State, w: nat, f: nat) {
    && |s'.workers| == |s.workers| && (forall v :: 0 <= v < |s.workers| && v != w ==> s'.workers[v] == s.workers[v])
    && f < |s.fibers| <= |s'.fibers| && s'.fibers[f] == s.fibers[f]
  }

  lemma AsideStep(s: State, step: Step, w: nat, f: nat)
    requires Sound(s) && Enabled(s, step) && Actor(step) == Some(w) && w < |s.workers| && f < |s.fibers| && !Holds(s.workers[w], f)
    ensures Aside(s, Next(s, step), w, f)
  {
    hide Next, Enabled, Sound, Holds;
    OneWorkerMoves(s, step);
    OthersStay(s, step, f);
    FibersGrow(s, step);
  }

  /** A worker that does not take anything does not come to hold `f`, and the list only grows at its end. */
  lemma HomewardKeeps(s: State, w: nat, f: nat)
    requires Sound(s) && !s.failed && w < |s.workers| && !s.workers[w].phase.Looking? && !s.workers[w].phase.Left?
    requires f < |s.fibers| && !Holds(s.workers[w], f)
    ensures var step := Homeward(s, w);
      Enabled(s, step) && Aside(s, Next(s, step), w, f) && !Holds(Next(s, step).workers[w], f) && s.queue <= Next(s, step).queue
  {
    hide Next, Enabled, Sound, Holds, Executing, FirstEligible;
    var step := Homeward(s, w);
    HomewardStep(s, w);
    AsideStep(s, step, w, f);
    HoldsMove(s, step, f);
    ListsMove(s, step);
  }

  /** Worker `w` finishes what it is at and comes to the head of its loop. */
  lemma {:induction false} ToLooking(s: State, w: nat, f: nat) returns (steps: seq<Step>)
    requires Sound(s) && !s.failed && w < |s.workers| && !s.workers[w].phase.Left? && f < |s.fibers| && !Holds(s.workers[w], f)
    ensures IsRun(s, steps)
    ensures var s' := After(s, steps);
      Sound(s') && !s'.failed && Aside(s, s', w, f) && s'.workers[w].phase.Looking? && !Holds(s'.workers[w], f) && s.queue <= s'.queue
    decreases Rank(s.workers[w].phase)
  {
    hide Next, Enabled, Sound, Holds, Homeward;
    if s.workers[w].phase.Looking? {
      steps := [];
    } else {
      RankZero(s.workers[w].phase);
      HomewardStep(s, w);
      HomewardKeeps(s, w, f);
      var step := Homeward(s, w);
      var rest := ToLooking(Next(s, step), w, f);
      steps := [step] + rest;
      assert steps[1..] == rest;
    }
  }

  lemma RankZero(p: Phase)
    ensures Rank(p) == 0 <==> p.Looking? || p.Left?
  {
  }

  /** The worker has just taken an entry for the fiber. */
  predicate Caught(s: State, w: nat, f: nat) {
    w < |s.workers| && s.workers[w].phase.Picked? && s.workers[w].phase.task.fiber == Some(f)
  }

  /**
   An unpinned entry for a fiber that is not EXEC: any worker that has not left gets to it, unless two workers come to
   hold some fiber before. Later entries stay in the list, and the other workers do not move.
   */
  lemma {:induction false} Chase(s: State, w: nat, f: nat, pos: nat) returns (steps: seq<Step>)
    requires Sound(s) && !s.failed && w < |s.workers| && !s.workers[w].phase.Left? && f < |s.fibers| && s.fibers[f] != EXEC && !Holds(s.workers[w], f)
    requires pos < |s.queue| && s.queue[pos].fiber == Some(f) && s.queue[pos].pin.None?
    ensures IsRun(s, steps)
    ensures var s' := After(s, steps);
      !Distinct(s') || (Sound(s') && !s'.failed && Caught(s', w, f) && Aside(s, s', w, f) && forall t :: t in s.queue[pos + 1..] ==> t in s'.queue)
    decreases pos
  {
    hide Next, Enabled, Sound, Holds, FirstEligible, Executing, Distinct, TakenFiber;
    var first := ToLooking(s, w, f);
    var s1 := After(s, first);
    assert s1.queue[pos] == s.queue[pos] && s1.queue[pos + 1..][..|s.queue| - pos - 1] == s.queue[pos + 1..];
    var k := Reaches(s1, w, f, pos);
    OneStep(s1, Take(w));
    Append(s, first, [Take(w)]);
    var s2 := Next(s1, Take(w));
    if TakesHeld(s1, Take(w)) {
      CollidesNow(s1, Take(w));
      steps := first + [Take(w)];
    } else {
      SoundStep(s1, Take(w));
      AsideStep(s1, Take(w), w, f);
      if TakenFiber(s1, Take(w)) == Some(f) {
        steps := first + [Take(w)];
      } else {
        var rest := Chase(s2, w, f, pos - 1);
        Append(s, first + [Take(w)], rest);
        steps := first + [Take(w)] + rest;
      }
    }
  }

  lemma CollidesNow(s: State, step: Step)
    requires Sound(s) && Enabled(s, step) && TakesHeld(s, step)
    ensures !Distinct(Next(s, step))
  {
    hide Next, Enabled, Distinct, Inv, KeptFine, TakesHeld;
    DistinctStep(s, step);
  }

  /** The search stops at the entry at the latest. */
  lemma Reaches(s: State, w: nat, f: nat, pos: nat) returns (k: nat)
    requires Sound(s) && !s.failed && w < |s.workers| && s.workers[w].phase.Looking? && f < |s.fibers| && s.fibers[f] != EXEC && !Holds(s.workers[w], f)
    requires pos < |s.queue| && s.queue[pos].fiber == Some(f) && s.queue[pos].pin.None?
    ensures k <= pos && Enabled(s, Take(w))
    ensures var s' := Next(s, Take(w));
      && s'.queue == Without(s.queue, k) && (forall t :: t in s.queue[pos + 1..] ==> t in s'.queue)
      && (k == pos ==> TakenFiber(s, Take(w)) == Some(f)) && (TakenFiber(s, Take(w)) == Some(f) ==> Caught(s', w, f))
      && (k < pos ==> s'.queue[pos - 1] == s.queue[pos] && s'.queue[pos..] == s.queue[pos + 1..] && !s'.workers[w].phase.Left?)
      && (k < pos && TakenFiber(s, Take(w)) != Some(f) ==> !Holds(s'.workers[w], f))
  {
    k := FirstEligible(s.queue, w, Executing(s));
    assert Eligible(s.queue[pos], w, Executing(s));
    assert k <= pos;
    var s' := Next(s, Take(w));
    hide FirstEligible, Executing, Sound;
    HoldsMove(s, Take(w), f);
  }

  /** schedule() for fiber `f`, for any thread. */
  predicate Schedules(s: State, step: Step, f: nat) {
    Enabled(s, step) && (step.Submit? || step.SubmitFrom?) && step.fiber == Some(f) && step.pin.None? && f < |s.fibers|
  }

  /** Worker `v` is at the fiber, and not between its return and the update of a state that still says EXEC. */
  predicate IsAt(s: State, v: nat, f: nat) {
    v < |s.workers| && Holds(s.workers[v], f) && f < |s.fibers| && (s.fibers[f] != EXEC || (s.workers[v].phase.Running? && s.workers[v].phase.fiber == f))
  }

  /** Scheduling a fiber that a worker is at: some other worker that has not left can come to hold it as well. */
  lemma HeldCollides(s: State, step: Step, f: nat, v: nat, w: nat) returns (steps: seq<Step>)
    requires Sound(s) && Schedules(s, step, f) && IsAt(s, v, f)
    requires w < |s.workers| && w != v && !s.workers[w].phase.Left?
    ensures IsRun(s, [step] + steps) && !Distinct(After(s, [step] + steps))
  {
    hide Next, Enabled, Sound, Holds, Distinct;
    var s1 := Scheduled(s, step, f);
    var first := SwitchesBack(s1, v, f);
    var s2 := After(s1, first);
    OtherDoesNotHold(s2, v, w, f);
    var rest := Chase(s2, w, f, |s.queue|);
    Append(s1, first, rest);
    steps := first + rest;
    if Distinct(After(s2, rest)) {
      BothHold(s2, After(s2, rest), v, w, f);
    }
    OneStep(s, step);
    Append(s, [step], steps);
  }

  lemma OtherDoesNotHold(s: State, v: nat, w: nat, f: nat)
    requires Sound(s) && v < |s.workers| && w < |s.workers| && v != w && Holds(s.workers[v], f)
    ensures !Holds(s.workers[w], f)
  {
    hide Inv, Known, KeptFine, Holds;
  }

  lemma BothHold(s: State, s': State, v: nat, w: nat, f: nat)
    requires v < |s.workers| && v != w && Holds(s.workers[v], f) && Aside(s, s', w, f) && Caught(s', w, f)
    ensures !Distinct(s')
  {
    assert Holds(s'.workers[v], f) && Holds(s'.workers[w], f);
  }

  /** The entry is at the end of the list, and nothing else has changed. */
  lemma Scheduled(s: State, step: Step, f: nat) returns (s1: State)
    requires Sound(s) && Schedules(s, step, f)
    ensures s1 == Next(s, step) && Sound(s1) && !s1.failed
    ensures s1.workers == s.workers && s1.fibers == s.fibers && s1.hollow == s.hollow
    ensures |s1.queue| == |s.queue| + 1 && s1.queue[..|s.queue|] == s.queue && s1.queue[|s.queue|].fiber == Some(f) && s1.queue[|s.queue|].pin.None?
  {
    s1 := Next(s, step);
    NoTake(s, step);
    hide Sound;
    SoundStep(s, step);
  }

  /** If the worker runs the fiber, the fiber yields; the worker is not done with it then. */
  lemma SwitchesBack(s: State, v: nat, f: nat) returns (steps: seq<Step>)
    requires Sound(s) && !s.failed && IsAt(s, v, f)
    ensures IsRun(s, steps)
    ensures var s' := After(s, steps);
      && Sound(s') && !s'.failed && |s'.workers| == |s.workers| && (forall w :: 0 <= w < |s.workers| && w != v ==> s'.workers[w] == s.workers[w])
      && s'.queue == s.queue && Holds(s'.workers[v], f) && f < |s'.fibers| && s'.fibers[f] != EXEC
  {
    if s.fibers[f] != EXEC {
      steps := [];
    } else {
      var step := SwitchBack(v, if f in s.hollow then EXCEPT else HOLD);
      NoTake(s, step);
      SoundStep(s, step);
      OneStep(s, step);
      steps := [step];
    }
  }

  /** Scheduling a fiber that is in the list already, for any thread, and held by nobody: two workers can take it. */
  lemma ListedCollides(s: State, step: Step, f: nat, pos: nat, v: nat, w: nat) returns (steps: seq<Step>)
    requires Sound(s) && Schedules(s, step, f) && Free(s.workers, f)
    requires pos < |s.queue| && s.queue[pos].fiber == Some(f) && s.queue[pos].pin.None?
    requires v < |s.workers| && w < |s.workers| && w != v && !s.workers[v].phase.Left? && !s.workers[w].phase.Left?
    ensures IsRun(s, [step] + steps) && !Distinct(After(s, [step] + steps))
  {
    hide Next, Enabled, Sound, Holds, Distinct;
    var s1 := Scheduled(s, step, f);
    FreeIsNotExecuting(s, f);
    OneStep(s, step);
    var first := Chase(s1, v, f, pos);
    var s2 := After(s1, first);
    Append(s, [step], first);
    steps := first;
    if Distinct(s2) {
      var t := s1.queue[|s.queue|];
      assert t in s1.queue[pos + 1..] by {
        assert s1.queue[pos + 1..][|s.queue| - pos - 1] == t;
      }
      assert t in s2.queue;
      var q :| 0 <= q < |s2.queue| && s2.queue[q] == t;
      CaughtHolds(s2, v, f);
      OtherDoesNotHold(s2, v, w, f);
      var rest := Chase(s2, w, f, q);
      if Distinct(After(s2, rest)) {
        BothHold(s2, After(s2, rest), v, w, f);
      }
      Append(s, [step] + first, rest);
      steps := first + rest;
      assert [step] + first + rest == [step] + steps;
    }
  }

  lemma CaughtHolds(s: State, w: nat, f: nat)
    requires Caught(s, w, f)
    ensures Holds(s.workers[w], f)
  {
  }

  lemma FreeIsNotExecuting(s: State, f: nat)
    requires Sound(s) && Free(s.workers, f) && f < |s.fibers|
    ensures s.fibers[f] != EXEC
  {
    assert forall w :: 0 <= w < |s.workers| ==> !Runs(s.workers[w], f) by {
      assert forall w :: 0 <= w < |s.workers| && Runs(s.workers[w], f) ==> Holds(s.workers[w], f);
    }
  }
}
