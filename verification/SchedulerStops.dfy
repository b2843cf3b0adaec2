/** When workers leave run() after stop(): what Scheduler::stopping() means on any number of threads, over every run. */
module SchedulerStops {
  import opened FiberStates
  import opened Options
  import opened Schedulers
  import opened SchedulerRuns

  /** Stop was called, the list is empty, and no worker is between picking an entry and giving it back. */
  ghost predicate Quiet(s: State) {
    s.stopped && s.queue == [] && forall v :: 0 <= v < |s.workers| ==> AtRest(s.workers[v].phase)
  }

  predicate AtRest(p: Phase) {
    match p
    case Looking => true
    case Settling(_, _) => true
    case Idling => true
    case Left(_, _) => true
    case _ => false
  }

  lemma {:induction false} NobodyBusyIff(ws: seq<Thread>)
    ensures Busy(ws) == 0 <==> forall v :: 0 <= v < |ws| ==> AtRest(ws[v].phase)
  {
    if ws != [] {
      NobodyBusyIff(ws[1..]);
      assert AtRest(ws[0].phase) <==> !Counted(ws[0].phase);
      if Busy(ws) == 0 {
        assert forall v :: 0 < v < |ws| ==> ws[v] == ws[1..][v - 1];
      } else if AtRest(ws[0].phase) {
        assert !forall v :: 0 <= v < |ws[1..]| ==> AtRest(ws[1..][v].phase);
        var v :| 0 <= v < |ws[1..]| && !AtRest(ws[1..][v].phase);
        assert ws[v + 1] == ws[1..][v];
      }
    }
  }

  /** The idle fiber of a worker ends at a test of stopping() if and only if all is quiet then. */
  lemma IdleEndsIff(s: State, w: nat)
    requires Inv(s) && Enabled(s, CheckStopping(w)) && !s.workers[w].idleDone
    ensures Next(s, CheckStopping(w)).workers[w].idleDone <==> Quiet(s)
  {
    hide Busy, Conserved, ExecutingIsRun, LeftBehind, LeftEarlier, StoppedFirst, SomebodyWasLast;
    NobodyBusyIff(s.workers);
  }

  /** It ends at no other step, and does not begin again. */
  lemma OnlyTheTestEnds(s: State, step: Step, w: nat)
    requires Enabled(s, step) && w < |s.workers|
    ensures w < |Next(s, step).workers|
    ensures s.workers[w].idleDone ==> Next(s, step).workers[w].idleDone
    ensures !s.workers[w].idleDone && Next(s, step).workers[w].idleDone ==> step == CheckStopping(w)
    ensures !s.workers[w].idleDone ==> !Next(s, step).workers[w].phase.Left? || s.workers[w].phase.Left?
  {
    hide Executing, FirstEligible;
    OneWorkerMoves(s, step);
  }

  /** An idle worker that looks at stopping() and then at the list leaves if and only if all was quiet. */
  lemma IdleLeavesIff(s: State, w: nat)
    requires Inv(s) && Enabled(s, CheckStopping(w)) && !s.workers[w].idleDone
    ensures Enabled(Next(s, CheckStopping(w)), Take(w))
    ensures Next(Next(s, CheckStopping(w)), Take(w)).workers[w].phase.Left? <==> Quiet(s)
  {
    hide Inv, Stopping, Executing;
    IdleEndsIff(s, w);
    var s1 := Next(s, CheckStopping(w));
    if Quiet(s) {
      assert s1.queue == [];
    } else {
      hide Next;
      TestMoves(s, w);
      OnlyTheTestEnds(s1, Take(w), w);
    }
  }

  lemma TestMoves(s: State, w: nat)
    requires Enabled(s, CheckStopping(w))
    ensures var s1 := Next(s, CheckStopping(w)); w < |s1.workers| && s1.workers[w].phase.Looking? && Enabled(s1, Take(w))
  {
  }

  // ---- over runs ----

  /** At `k` the run was at a test of worker `w`, and all was quiet. */
  ghost predicate QuietTest(s: State, steps: seq<Step>, k: nat, w: nat) {
    k < |steps| && steps[k] == CheckStopping(w) && IsRun(s, steps[..k]) && Quiet(After(s, steps[..k]))
  }

  /** A worker whose idle fiber ends, or who leaves, during a run found all quiet at a test of its own. */
  lemma {:induction false} LeavesFromQuiet(s: State, steps: seq<Step>, w: nat) returns (k: nat)
    requires Inv(s) && IsRun(s, steps) && w < |s.workers| && !s.workers[w].idleDone && !s.workers[w].phase.Left?
    requires w < |After(s, steps).workers| && (After(s, steps).workers[w].idleDone || After(s, steps).workers[w].phase.Left?)
    ensures QuietTest(s, steps, k, w)
    decreases |steps|
  {
    hide Next, Enabled, Inv, Quiet;
    var s1 := Next(s, steps[0]);
    OnlyTheTestEnds(s, steps[0], w);
    if s1.workers[w].idleDone {
      IdleEndsIff(s, w);
      k := 0;
      assert steps[..0] == [];
    } else {
      InvStep(s, steps[0]);
      var j := LeavesFromQuiet(s1, steps[1..], w);
      k := j + 1;
      assert steps[..k][0] == steps[0] && steps[..k][1..] == steps[1..][..j];
    }
  }

  /** The same from the start, for any number of workers. */
  lemma EveryLeaveIsFromQuiet(n: nat, steps: seq<Step>, w: nat) returns (k: nat)
    requires IsRun(Initial(n), steps) && w < n && w < |After(Initial(n), steps).workers|
    requires After(Initial(n), steps).workers[w].phase.Left?
    ensures QuietTest(Initial(n), steps, k, w)
  {
    hide IsRun, After, Inv, QuietTest;
    InitialInv(n);
    k := LeavesFromQuiet(Initial(n), steps, w);
  }

  // ---- what quiet leaves open ----

  lemma QuietEnables(s: State, step: Step)
    requires Quiet(s) && Enabled(s, step)
    ensures step.SubmitFrom? || step.Stop? || step.Take? || step.Settle? || step.CheckStopping?
  {
    if Actor(step).Some? {
      assert Actor(step).value < |s.workers|;
    }
  }

  /** Work that comes after all is quiet: a fiber that came back READY and is not yet in the list, or what an idle fiber schedules. */
  lemma WorkAfterQuietIff(s: State, step: Step)
    requires Quiet(s) && Enabled(s, step)
    ensures Next(s, step).queue != [] <==>
      || (step.Settle? && StateOf(s, s.workers[step.w].phase.fiber) == READY)
      || step.SubmitFrom?
  {
    hide Executing;
    QuietEnables(s, step);
  }

  /** Both can happen: an idle fiber may schedule from any quiet state, and a READY fiber may be waiting to be listed. */
  lemma QuietIsNotTheEnd(s: State, w: nat, fiber: Option<nat>, pin: Option<nat>)
    requires Quiet(s) && !s.failed && w < |s.workers| && (fiber.Some? ==> fiber.value <= |s.fibers|)
    ensures s.workers[w].phase.Idling? ==>
      Enabled(s, SubmitFrom(w, fiber, pin)) && Next(s, SubmitFrom(w, fiber, pin)).queue == [Task(s.ids, fiber, pin)]
    ensures s.workers[w].phase.Settling? && StateOf(s, s.workers[w].phase.fiber) == READY ==>
      Enabled(s, Settle(w)) && Next(s, Settle(w)).queue == [Task(s.ids, Some(s.workers[w].phase.fiber), None)]
  {
    hide Executing;
  }

  /** Quiet, and no fiber that came back is still to be dealt with. */
  ghost predicate Over(s: State) {
    Quiet(s) && forall v :: 0 <= v < |s.workers| ==> !s.workers[v].phase.Settling?
  }

  lemma OverStep(s: State, step: Step)
    requires Over(s) && Enabled(s, step) && !step.SubmitFrom?
    ensures Over(Next(s, step)) && Next(s, step).ids == s.ids
  {
    hide Executing;
    OneWorkerMoves(s, step);
    QuietEnables(s, step);
  }

  /** From there nothing comes any more, as long as idle fibers schedule nothing. */
  lemma {:induction false} OverStays(s: State, steps: seq<Step>)
    requires Over(s) && IsRun(s, steps) && forall i :: 0 <= i < |steps| ==> !steps[i].SubmitFrom?
    ensures Over(After(s, steps)) && After(s, steps).ids == s.ids
    decreases |steps|
  {
    hide Next, Enabled, Over;
    if steps != [] {
      OverStep(s, steps[0]);
      OverStays(Next(s, steps[0]), steps[1..]);
    }
  }
}
