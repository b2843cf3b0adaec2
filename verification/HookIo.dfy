/**
 The waiting protocol of do_io in yuyu/hook.cc, and of connect_with_timeout, for the calls a fiber makes on one
 (fd, event) slot. A step is one lock-protected section or one fiber switch; readiness, the timer and other
 threads move at any time in between.
 */
module HookIo {
  import opened Options

  datatype Phase =
    | Outside       // no call in progress
    | Trying        // about to run the system call
    | Blocked       // EAGAIN (EINPROGRESS for connect): about to set the timer
    | Armed         // the timer is set, if there is a timeout; about to addEvent
    | Registered    // addEvent succeeded; about to yield
    | Parked        // yielded
    | Woken         // running again; about to cancel the timer
    | Checking      // about to look at tinfo->cancelled
    | Asking        // connect only: about to ask the socket for its error

  /**
   How far an expired timer's callback has come: in the scheduler's queue; holding a reference to the call's timer_info;
   past the test of its cancelled flag; past setting the flag, about to cancel the event.
   */
  datatype Stage = Queued | Locked | Tested | Marked

  datatype Callback = Callback(call: nat, stage: Stage)

  datatype Result = Completed | Failed | TimedOut
  datatype Outcome = Outcome(call: nat, result: Result)

  datatype State = State(
    phase: Phase,
    call: nat,                  // which call is, or was last, in progress
    timed: bool,                // it has a timeout
    retries: bool,              // do_io tries again after a wait, connect_with_timeout does not
    timer: bool,                // its latest timer is armed
    bit: bool,                  // the event is registered, with this fiber in the slot
    queued: nat,                // how often this fiber is in the scheduler's queue
    callbacks: seq<Callback>,
    cancelled: set<nat>,        // calls whose tinfo->cancelled is set, by a callback of their own
    outcomes: seq<Outcome>
  )

  const Initial := State(Outside, 0, false, false, false, false, 0, [], {}, [])

  datatype Step =
    | Begin(timed: bool, retries: bool)
    | Finish | WouldBlock
    | SetTimer
    | AddEventSucceeds | AddEventFails
    | Yield | Resume | CancelTimer | Decide
    | Ask(error: bool)
    | Ready | CancelledByOther
    | Expire
    | CallbackLocks(i: nat) | CallbackTests(i: nat) | CallbackMarks(i: nat) | CallbackEnds(i: nat)

  predicate At(s: State, i: nat, stage: Stage) {
    i < |s.callbacks| && s.callbacks[i].stage == stage
  }

  predicate Enabled(s: State, step: Step) {
    match step
    case Begin(_, _) => s.phase.Outside?
    case Finish => s.phase.Trying?
    case WouldBlock => s.phase.Trying?
    case SetTimer => s.phase.Blocked?
    case AddEventSucceeds => s.phase.Armed?
    case AddEventFails => s.phase.Armed?
    case Yield => s.phase.Registered?
    case Resume => s.phase.Parked? && s.queued > 0
    case CancelTimer => s.phase.Woken?
    case Decide => s.phase.Checking?
    case Ask(_) => s.phase.Asking?
    case Ready => s.bit
    case CancelledByOther => s.bit
    case Expire => s.timer
    case CallbackLocks(i) => At(s, i, Queued)
    case CallbackTests(i) => At(s, i, Locked)
    case CallbackMarks(i) => At(s, i, Tested)
    case CallbackEnds(i) => At(s, i, Marked)
  }

  function Return(s: State, r: Result): (s': State) {
    s.(phase := Outside, outcomes := s.outcomes + [Outcome(s.call, r)])
  }

  /** cancelEvent and readiness alike: the bit is cleared and the fiber in the slot is scheduled. */
  function Trigger(s: State): (s': State) {
    if s.bit then s.(bit := false, queued := s.queued + 1) else s
  }

  /** The timer_info of a call lives while the call is in progress, and on while a callback holds a reference to it. */
  ghost predicate Alive(s: State, call: nat) {
    (!s.phase.Outside? && call == s.call) || exists j :: 0 <= j < |s.callbacks| && s.callbacks[j].call == call && !s.callbacks[j].stage.Queued?
  }

  function Away(s: State, i: nat): (s': State)
    requires i < |s.callbacks|
  {
    s.(callbacks := Without(s.callbacks, i))
  }

  function Advance(s: State, i: nat, stage: Stage): (s': State)
    requires i < |s.callbacks|
  {
    s.(callbacks := s.callbacks[i := s.callbacks[i].(stage := stage)])
  }

  ghost function Next(s: State, step: Step): (s': State)
    requires Enabled(s, step)
  {
    match step
    case Begin(timed, retries) => s.(phase := Trying, call := s.call + 1, timed := timed, retries := retries)
    case Finish => Return(s, Completed)
    case WouldBlock => s.(phase := Blocked)
    case SetTimer => s.(phase := Armed, timer := s.timed)
    case AddEventSucceeds => s.(phase := Registered, bit := true)
    case AddEventFails => if s.retries then Return(s.(timer := false), Failed) else s.(phase := Asking, timer := false)
    case Yield => s.(phase := Parked)
    case Resume => s.(phase := Woken, queued := s.queued - 1)
    case CancelTimer => s.(phase := Checking, timer := false)
    case Decide =>
      if s.call in s.cancelled then Return(s, TimedOut)
      else if s.retries then s.(phase := Trying)
      else s.(phase := Asking)
    case Ask(error) => Return(s, if error then Failed else Completed)
    case Ready => Trigger(s)
    case CancelledByOther => Trigger(s)
    case Expire => s.(timer := false, callbacks := s.callbacks + [Callback(s.call, Queued)])
    case CallbackLocks(i) => if Alive(s, s.callbacks[i].call) then Advance(s, i, Locked) else Away(s, i)
    case CallbackTests(i) => if s.callbacks[i].call in s.cancelled then Away(s, i) else Advance(s, i, Tested)
    case CallbackMarks(i) => Advance(s, i, Marked).(cancelled := s.cancelled + {s.callbacks[i].call})
    case CallbackEnds(i) => Trigger(Away(s, i))
  }

  // ---- runs ----

  ghost predicate IsRun(s: State, steps: seq<Step>)
    decreases |steps|
  {
    steps != [] ==> Enabled(s, steps[0]) && IsRun(Next(s, steps[0]), steps[1..])
  }

  ghost function After(s: State, steps: seq<Step>): (s': State)
    requires IsRun(s, steps)
    decreases |steps|
  {
    if steps == [] then s else After(Next(s, steps[0]), steps[1..])
  }

  ghost predicate Waiting(s: State) {
    s.phase.Registered? || s.phase.Parked?
  }

  /** A wait has exactly one wake-up, to come or delivered, and nothing of it is left outside the wait. */
  ghost predicate OneWakeUp(s: State) {
    if Waiting(s) then s.queued + (if s.bit then 1 else 0) == 1 else !s.bit && s.queued == 0
  }

  /** A timer is armed only from its setting to its cancelling in a call with a timeout. */
  ghost predicate TimerOwned(s: State) {
    s.timer ==> s.timed && (s.phase.Armed? || Waiting(s) || s.phase.Woken?)
  }

  /** Callbacks come from calls already begun, and a marked one has set the flag of its own call. */
  ghost predicate CallbacksOwned(s: State) {
    && (forall i :: 0 <= i < |s.callbacks| ==> s.callbacks[i].call <= s.call && (s.callbacks[i].stage.Marked? ==> s.callbacks[i].call in s.cancelled))
    && (forall c :: c in s.cancelled ==> c <= s.call)
  }

  /** A callback of `call` is still on its way to setting the flag. */
  ghost predicate Coming(cbs: seq<Callback>, call: nat) {
    exists i :: 0 <= i < |cbs| && cbs[i].call == call && !cbs[i].stage.Marked?
  }

  /** A timed wait not yet cancelled still has its timer, or the callback that will cancel it. */
  ghost predicate TimeoutAlive(s: State) {
    (s.phase.Armed? || Waiting(s)) && s.timed && s.call !in s.cancelled ==> s.timer || Coming(s.callbacks, s.call)
  }

  ghost predicate TimeoutsJustified(s: State) {
    forall i :: 0 <= i < |s.outcomes| && s.outcomes[i].result.TimedOut? ==> s.outcomes[i].call in s.cancelled
  }

  /** What holds in every reachable state. */
  ghost predicate Inv(s: State) {
    OneWakeUp(s) && TimerOwned(s) && CallbacksOwned(s) && TimeoutAlive(s) && TimeoutsJustified(s)
  }

  // ---- what a step touches ----

  /** The callback that a step is about. */
  function About(step: Step): (i: Option<nat>) {
    match step
    case CallbackLocks(i) => Some(i)
    case CallbackTests(i) => Some(i)
    case CallbackMarks(i) => Some(i)
    case CallbackEnds(i) => Some(i)
    case _ => None
  }

  /** Steps that are not about a callback leave the list alone, but for an expiry, and the flags. */
  lemma OtherSteps(s: State, step: Step)
    requires Enabled(s, step) && About(step).None?
    ensures Next(s, step).callbacks == if step.Expire? then s.callbacks + [Callback(s.call, Queued)] else s.callbacks
    ensures Next(s, step).cancelled == s.cancelled
    ensures Next(s, step).call == if step.Begin? then s.call + 1 else s.call
  {
    hide Alive, Without;
    match step
    case Finish =>
    case AddEventFails =>
    case Decide =>
    case Ask(_) =>
    case Ready =>
    case CancelledByOther =>
    case _ =>
  }

  /** A step about a callback moves it one stage on or takes it out, and nothing else but flag, bit and queue. */
  lemma CallbackSteps(s: State, step: Step)
    requires Enabled(s, step) && About(step).Some?
    ensures var i := About(step).value;
      var s' := Next(s, step);
      && i < |s.callbacks| && s'.call == s.call && s'.phase == s.phase && s'.timed == s.timed && s'.timer == s.timer && s'.outcomes == s.outcomes
      && s'.cancelled == (if step.CallbackMarks? then s.cancelled + {s.callbacks[i].call} else s.cancelled)
      && (if step.CallbackEnds? then s'.bit == false && s'.queued == s.queued + (if s.bit then 1 else 0) else s'.bit == s.bit && s'.queued == s.queued)
      && (s'.callbacks == Without(s.callbacks, i)
          || (!step.CallbackEnds? && s'.callbacks == s.callbacks[i := Callback(s.callbacks[i].call, Onward(step))]))
  {
    hide Alive, Without;
  }

  /** The stage a step leads to. */
  function Onward(step: Step): (stage: Stage) {
    match step
    case CallbackLocks(_) => Locked
    case CallbackTests(_) => Tested
    case _ => Marked
  }

  /** When the callback is taken out. */
  lemma TakenOutWhen(s: State, step: Step)
    requires Enabled(s, step) && About(step).Some?
    ensures var i := About(step).value;
      i < |s.callbacks| && (|Next(s, step).callbacks| < |s.callbacks| <==>
        || step.CallbackEnds?
        || (step.CallbackLocks? && !Alive(s, s.callbacks[i].call))
        || (step.CallbackTests? && s.callbacks[i].call in s.cancelled))
  {
    hide Alive;
  }

  lemma TakenOut<T>(s: seq<T>, k: nat, i: nat)
    requires k < |s|
    ensures |Without(s, k)| == |s| - 1
    ensures i < |s| - 1 ==> Without(s, k)[i] in s
    ensures i < |s| && i != k ==> s[i] in Without(s, k)
  {
    var rest := Without(s, k);
    if i < |s| - 1 {
      assert rest[i] == s[if i < k then i else i + 1];
    }
    if i < |s| && i != k {
      assert rest[if i < k then i else i - 1] == s[i];
    }
  }

  /** A callback was there before, has just expired, or is the one that moved on. */
  lemma CallbackFrom(s: State, step: Step, j: nat)
    requires Enabled(s, step) && j < |Next(s, step).callbacks|
    ensures var cb := Next(s, step).callbacks[j];
      || cb in s.callbacks || (step.Expire? && cb == Callback(s.call, Queued))
      || (About(step).Some? && About(step).value < |s.callbacks| && cb == Callback(s.callbacks[About(step).value].call, Onward(step))
          && |Next(s, step).callbacks| == |s.callbacks| && !step.CallbackEnds?)
  {
    hide Next, Enabled, Without, Onward;
    if About(step).None? {
      OtherSteps(s, step);
    } else {
      CallbackSteps(s, step);
      TakenOut(s.callbacks, About(step).value, j);
    }
  }

  /** A callback other than the one that the step is about is still there afterwards. */
  lemma CallbackStays(s: State, step: Step, j: nat)
    requires Enabled(s, step) && j < |s.callbacks| && About(step) != Some(j)
    ensures s.callbacks[j] in Next(s, step).callbacks
  {
    hide Next, Enabled, Without, Onward;
    if About(step).None? {
      OtherSteps(s, step);
      assert Next(s, step).callbacks[j] == s.callbacks[j];
    } else {
      CallbackSteps(s, step);
      TakenOut(s.callbacks, About(step).value, j);
      if |Next(s, step).callbacks| == |s.callbacks| {
        assert Next(s, step).callbacks[j] == s.callbacks[j];
      }
    }
  }

  // ---- the invariant ----

  lemma OneWakeUpStep(s: State, step: Step)
    requires OneWakeUp(s) && Enabled(s, step)
    ensures OneWakeUp(Next(s, step))
  {
    hide Without, Alive;
    if About(step).Some? {
      hide Next;
      CallbackSteps(s, step);
    }
  }

  lemma TimerOwnedStep(s: State, step: Step)
    requires OneWakeUp(s) && TimerOwned(s) && Enabled(s, step)
    ensures TimerOwned(Next(s, step))
  {
    hide Without, Alive;
    if About(step).Some? {
      hide Next;
      CallbackSteps(s, step);
    }
  }

  lemma CallbacksOwnedStep(s: State, step: Step)
    requires CallbacksOwned(s) && Enabled(s, step)
    ensures CallbacksOwned(Next(s, step))
  {
    hide Next, Enabled, Without;
    var s' := Next(s, step);
    if About(step).None? {
      OtherSteps(s, step);
    } else {
      CallbackSteps(s, step);
    }
    forall j | 0 <= j < |s'.callbacks|
      ensures s'.callbacks[j].call <= s'.call && (s'.callbacks[j].stage.Marked? ==> s'.callbacks[j].call in s'.cancelled)
    {
      CallbackFrom(s, step, j);
    }
  }

  /** A callback on its way stays on its way until it sets the flag, as long as its call is in progress. */
  lemma ComingStays(s: State, step: Step)
    requires Enabled(s, step) && Coming(s.callbacks, s.call) && !s.phase.Outside? && s.call !in Next(s, step).cancelled
    ensures Coming(Next(s, step).callbacks, s.call)
  {
    hide Next, Enabled, Without, Onward;
    var j :| 0 <= j < |s.callbacks| && s.callbacks[j].call == s.call && !s.callbacks[j].stage.Marked?;
    if About(step) == Some(j) {
      CallbackSteps(s, step);
      OnwardIs(s, step);
      TakenOutWhen(s, step);
      TakenOut(s.callbacks, j, j);
      assert Next(s, step).callbacks[j].call == s.call && !Next(s, step).callbacks[j].stage.Marked?;
    } else {
      CallbackStays(s, step, j);
    }
  }

  lemma OnwardIs(s: State, step: Step)
    requires Enabled(s, step) && About(step).Some?
    ensures Onward(step).Marked? ==> step.CallbackMarks? || step.CallbackEnds?
    ensures step.CallbackEnds? ==> About(step).value < |s.callbacks| && s.callbacks[About(step).value].stage.Marked?
    ensures step.CallbackMarks? ==> About(step).value < |s.callbacks| && s.callbacks[About(step).value].call in Next(s, step).cancelled
  {
    hide Alive;
  }

  lemma TimeoutAliveStep(s: State, step: Step)
    requires Inv(s) && Enabled(s, step)
    ensures TimeoutAlive(Next(s, step))
  {
    hide CallbacksOwned, TimeoutsJustified, Coming;
    var s' := Next(s, step);
    if (s'.phase.Armed? || Waiting(s')) && s'.timed && s'.call !in s'.cancelled && !s'.timer {
      WaitGoesOn(s, step);
      if step.Expire? {
        JustExpired(s);
      } else {
        ComingStays(s, step);
      }
    }
  }

  lemma JustExpired(s: State)
    requires s.timer
    ensures Coming(Next(s, Expire).callbacks, s.call)
  {
    assert Next(s, Expire).callbacks[|s.callbacks|] == Callback(s.call, Queued);
  }

  /** Before a step that leaves a wait without its timer, the wait was there, and the timer had gone or goes now. */
  lemma WaitGoesOn(s: State, step: Step)
    requires Inv(s) && Enabled(s, step)
    requires var s' := Next(s, step); (s'.phase.Armed? || Waiting(s')) && s'.timed && s'.call !in s'.cancelled && !s'.timer
    ensures !s.phase.Outside? && Next(s, step).call == s.call
    ensures !step.Expire? ==> Coming(s.callbacks, s.call)
  {
    hide CallbacksOwned, TimeoutsJustified, Coming, Alive, Without;
    if About(step).Some? {
      hide Next;
      CallbackSteps(s, step);
    }
  }

  lemma JustifiedStep(s: State, step: Step)
    requires TimeoutsJustified(s) && Enabled(s, step)
    ensures TimeoutsJustified(Next(s, step))
  {
    hide Without, Alive;
    if About(step).Some? {
      hide Next;
      CallbackSteps(s, step);
    }
  }

  lemma InvStep(s: State, step: Step)
    requires Inv(s) && Enabled(s, step)
    ensures Inv(Next(s, step))
  {
    hide Next, Enabled, OneWakeUp, TimerOwned, CallbacksOwned, TimeoutAlive, TimeoutsJustified;
    OneWakeUpStep(s, step);
    TimerOwnedStep(s, step);
    CallbacksOwnedStep(s, step);
    TimeoutAliveStep(s, step);
    JustifiedStep(s, step);
  }

  lemma {:induction false} InvRun(s: State, steps: seq<Step>)
    requires Inv(s) && IsRun(s, steps)
    ensures Inv(After(s, steps))
    decreases |steps|
  {
    hide Next, Enabled, Inv;
    if steps != [] {
      InvStep(s, steps[0]);
      InvRun(Next(s, steps[0]), steps[1..]);
    }
  }

  /** Every run from the start, with any mix of readiness, expiry and cancellation. */
  lemma EveryRun(steps: seq<Step>)
    requires IsRun(Initial, steps)
    ensures var s := After(Initial, steps);
      // a parked fiber is still registered or scheduled exactly once, and is never scheduled outside a wait
      && (s.phase.Parked? ==> (s.bit && s.queued == 0) || (!s.bit && s.queued == 1))
      && (!Waiting(s) ==> s.queued == 0)
      // addEvent never meets its own event
      && (s.phase.Armed? ==> !s.bit)
      // a call that has returned leaves no event and no timer behind
      && (s.phase.Outside? ==> !s.bit && !s.timer)
      // ETIMEDOUT comes only from the call's own timer
      && (forall i :: 0 <= i < |s.outcomes| && s.outcomes[i].result.TimedOut? ==> s.outcomes[i].call in s.cancelled)
  {
    InvRun(Initial, steps);
  }

  // ---- when a timeout is lost ----

  /** A callback that will cancel the event: past its test, or about to pass it. */
  predicate WillCancel(s: State, cb: Callback) {
    cb.stage.Marked? || cb.stage.Tested? || (cb.stage.Locked? && cb.call !in s.cancelled)
  }

  /** There is one of a call with a number below `n`. */
  ghost predicate Loaded(s: State, n: nat) {
    exists i :: 0 <= i < |s.callbacks| && s.callbacks[i].call < n && WillCancel(s, s.callbacks[i])
  }

  /** The timer and the callbacks of calls below `n` move on their own. */
  predicate Below(s: State, step: Step, n: nat) {
    (step.Expire? && s.call < n) || (About(step).Some? && About(step).value < |s.callbacks| && s.callbacks[About(step).value].call < n)
  }

  ghost predicate RunBelow(s: State, steps: seq<Step>, n: nat)
    decreases |steps|
  {
    steps != [] ==> Enabled(s, steps[0]) && Below(s, steps[0], n) && RunBelow(Next(s, steps[0]), steps[1..], n)
  }

  lemma {:induction false} RunBelowIsRun(s: State, steps: seq<Step>, n: nat)
    requires RunBelow(s, steps, n)
    ensures IsRun(s, steps)
    decreases |steps|
  {
    hide Next, Enabled;
    if steps != [] {
      RunBelowIsRun(Next(s, steps[0]), steps[1..], n);
    }
  }

  /** A fiber waits with a timeout, and its event is still registered. */
  ghost predicate TimedWait(s: State) {
    Waiting(s) && s.bit && s.timed
  }

  /** The flag of the call is set, and no callback, of this call or an earlier one, is left that would cancel the event. */
  ghost predicate Spent(s: State) {
    s.call in s.cancelled && !Loaded(s, s.call + 1)
  }

  /** With none loaded and the present call left out or cancelled, the step schedules nobody and loads none. */
  lemma NoneLoadedStep(s: State, step: Step, n: nat)
    requires Enabled(s, step) && Below(s, step, n) && !Loaded(s, n) && (n <= s.call || s.call in s.cancelled)
    ensures var s' := Next(s, step);
      !Loaded(s', n) && s'.call == s.call && s.cancelled <= s'.cancelled && s'.queued == s.queued && s'.bit == s.bit && s'.phase == s.phase && s'.timed == s.timed
  {
    hide Without, Onward;
    var s' := Next(s, step);
    if step.Expire? {
      assert forall j :: 0 <= j < |s.callbacks| ==> s'.callbacks[j] == s.callbacks[j];
    } else {
      hide Next;
      var i := About(step).value;
      CallbackSteps(s, step);
      TakenOutWhen(s, step);
      StageBefore(s, step);
      assert !WillCancel(s, s.callbacks[i]);
      NoNewHolder(s, i, n);
      forall j | 0 <= j < |s'.callbacks| && s'.callbacks[j].call < n
        ensures !WillCancel(s', s'.callbacks[j])
      {
        CallbackFrom(s, step, j);
        assert s'.callbacks[j] in s.callbacks ==> !WillCancel(s, s'.callbacks[j]);
      }
    }
  }

  lemma StageBefore(s: State, step: Step)
    requires Enabled(s, step) && About(step).Some?
    ensures At(s, About(step).value, if step.CallbackLocks? then Queued else if step.CallbackTests? then Locked else if step.CallbackMarks? then Tested else Marked)
    ensures Onward(step) == if step.CallbackLocks? then Locked else if step.CallbackTests? then Tested else Marked
  {
  }

  /** A queued callback below `n` can get hold of its timer_info only if its call was cancelled. */
  lemma NoNewHolder(s: State, i: nat, n: nat)
    requires i < |s.callbacks| && s.callbacks[i].call < n && !Loaded(s, n) && (n <= s.call || s.call in s.cancelled)
    ensures Alive(s, s.callbacks[i].call) ==> s.callbacks[i].call in s.cancelled
  {
    var c := s.callbacks[i].call;
    if Alive(s, c) && c != s.call {
      var j :| 0 <= j < |s.callbacks| && s.callbacks[j].call == c && !s.callbacks[j].stage.Queued?;
      assert !WillCancel(s, s.callbacks[j]);
    }
  }

  lemma {:induction false} NoneLoadedNeverWakes(s: State, steps: seq<Step>, n: nat)
    requires RunBelow(s, steps, n) && !Loaded(s, n) && (n <= s.call || s.call in s.cancelled)
    ensures IsRun(s, steps)
    ensures var s' := After(s, steps); s'.queued == s.queued && s'.bit == s.bit && s'.phase == s.phase && s'.timed == s.timed
    decreases |steps|
  {
    hide Next, Enabled, Below, Loaded;
    if steps != [] {
      NoneLoadedStep(s, steps[0], n);
      NoneLoadedNeverWakes(Next(s, steps[0]), steps[1..], n);
    }
  }

  /** No run of the timer and the callbacks wakes a wait whose timeout is spent. */
  lemma SpentNeverWakes(s: State, steps: seq<Step>)
    requires TimedWait(s) && Spent(s) && RunBelow(s, steps, s.call + 1)
    ensures IsRun(s, steps) && TimedWait(After(s, steps)) && After(s, steps).queued == s.queued
  {
    NoneLoadedNeverWakes(s, steps, s.call + 1);
  }

  /** One more step in front of a run. */
  lemma StepFirst(s: State, step: Step, rest: seq<Step>, n: nat)
    requires Enabled(s, step) && Below(s, step, n) && RunBelow(Next(s, step), rest, n)
    ensures RunBelow(s, [step] + rest, n) && IsRun(s, [step] + rest) && IsRun(Next(s, step), rest)
    ensures After(s, [step] + rest) == After(Next(s, step), rest)
  {
    hide Next, Enabled, Below;
    assert ([step] + rest)[1..] == rest;
    RunBelowIsRun(Next(s, step), rest, n);
    RunBelowIsRun(s, [step] + rest, n);
  }

  /** A callback past its test sets the flag and cancels; a registered event is then gone and its fiber scheduled. */
  lemma {:induction false} CallbackCancels(s: State, i: nat, n: nat) returns (steps: seq<Step>)
    requires i < |s.callbacks| && s.callbacks[i].call < n && WillCancel(s, s.callbacks[i]) && s.bit
    ensures RunBelow(s, steps, n) && IsRun(s, steps) && After(s, steps).queued == s.queued + 1
    decreases match s.callbacks[i].stage case Queued => 3 case Locked => 2 case Tested => 1 case Marked => 0
  {
    hide Alive, Without;
    var step := match s.callbacks[i].stage case Marked => CallbackEnds(i) case Tested => CallbackMarks(i) case _ => CallbackTests(i);
    var rest: seq<Step> := [];
    if s.callbacks[i].stage.Marked? {
      NothingBelow(Next(s, step), n);
    } else {
      rest := CallbackCancels(Next(s, step), i, n);
    }
    StepFirst(s, step, rest, n);
    steps := [step] + rest;
  }

  lemma NothingBelow(s: State, n: nat)
    ensures RunBelow(s, [], n) && IsRun(s, []) && After(s, []) == s
  {
  }

  /** The steps that wake a fiber whose timeout is not spent. */
  lemma UnspentWakes(s: State) returns (steps: seq<Step>)
    requires Inv(s) && TimedWait(s) && !Spent(s)
    ensures RunBelow(s, steps, s.call + 1) && IsRun(s, steps) && After(s, steps).queued == s.queued + 1
  {
    hide TimeoutsJustified, OneWakeUp, CallbacksOwned, TimerOwned;
    var n := s.call + 1;
    if Loaded(s, n) {
      var i :| 0 <= i < |s.callbacks| && s.callbacks[i].call < n && WillCancel(s, s.callbacks[i]);
      steps := CallbackCancels(s, i, n);
    } else if Coming(s.callbacks, s.call) {
      steps := ComingWakes(s);
    } else {
      JustExpired(s);
      var rest := ComingWakes(Next(s, Expire));
      StepFirst(s, Expire, rest, n);
      steps := [Expire] + rest;
    }
  }

  /** A callback of the present call that is on its way gets there. */
  lemma ComingWakes(s: State) returns (steps: seq<Step>)
    requires Waiting(s) && s.bit && s.call !in s.cancelled && Coming(s.callbacks, s.call)
    ensures RunBelow(s, steps, s.call + 1) && IsRun(s, steps) && After(s, steps).queued == s.queued + 1
  {
    var n := s.call + 1;
    var i :| 0 <= i < |s.callbacks| && s.callbacks[i].call == s.call && !s.callbacks[i].stage.Marked?;
    if s.callbacks[i].stage.Queued? {
      var s' := Next(s, CallbackLocks(i));
      assert Alive(s, s.call) && s'.callbacks[i] == Callback(s.call, Locked);
      var rest := CallbackCancels(s', i, n);
      StepFirst(s, CallbackLocks(i), rest, n);
      steps := [CallbackLocks(i)] + rest;
    } else {
      steps := CallbackCancels(s, i, n);
    }
  }

  ghost predicate Wakes(s: State, steps: seq<Step>, n: nat) {
    RunBelow(s, steps, n) && IsRun(s, steps) && After(s, steps).queued > s.queued
  }

  /** A run of the timer and the callbacks of this call and earlier ones that schedules the fiber. */
  ghost predicate TimersWake(s: State, steps: seq<Step>) {
    Wakes(s, steps, s.call + 1)
  }

  /** The timer and the callbacks can still end a timed wait if and only if its timeout is not spent. */
  lemma TimeoutFiresIff(s: State)
    requires Inv(s) && TimedWait(s)
    ensures (exists steps :: TimersWake(s, steps)) <==> !Spent(s)
  {
    if Spent(s) {
      forall steps
        ensures !TimersWake(s, steps)
      {
        if RunBelow(s, steps, s.call + 1) {
          SpentNeverWakes(s, steps);
        }
      }
    } else {
      var steps := UnspentWakes(s);
      assert TimersWake(s, steps);
    }
  }

  /** The callbacks of earlier calls can end a wait if and only if one of them is past its test or about to pass it. */
  lemma EarlierCallWakesIff(s: State)
    ensures (exists steps :: Wakes(s, steps, s.call)) <==> s.bit && Loaded(s, s.call)
  {
    if s.bit && Loaded(s, s.call) {
      var i :| 0 <= i < |s.callbacks| && s.callbacks[i].call < s.call && WillCancel(s, s.callbacks[i]);
      var steps := CallbackCancels(s, i, s.call);
      assert Wakes(s, steps, s.call);
    } else {
      forall steps | RunBelow(s, steps, s.call)
        ensures !Wakes(s, steps, s.call)
      {
        if s.bit {
          NoneLoadedNeverWakes(s, steps, s.call);
        } else {
          NoBitNoWake(s, steps, s.call);
        }
      }
    }
  }

  lemma {:induction false} NoBitNoWake(s: State, steps: seq<Step>, n: nat)
    requires RunBelow(s, steps, n) && !s.bit
    ensures IsRun(s, steps) && After(s, steps).queued == s.queued
    decreases |steps|
  {
    hide Without, Alive;
    if steps != [] {
      NoBitNoWake(Next(s, steps[0]), steps[1..], n);
    }
  }

  /** A loaded callback stays loaded until it cancels. */
  lemma LoadedStays(s: State, step: Step)
    requires Enabled(s, step) && CallbacksOwned(s) && Loaded(s, s.call + 1) && !step.CallbackEnds?
    ensures Loaded(Next(s, step), Next(s, step).call + 1)
  {
    hide Next, Enabled, Without, Onward;
    var s' := Next(s, step);
    var j :| 0 <= j < |s.callbacks| && s.callbacks[j].call < s.call + 1 && WillCancel(s, s.callbacks[j]);
    if About(step).None? {
      OtherSteps(s, step);
      assert s'.callbacks[j] == s.callbacks[j];
    } else {
      CallbackSteps(s, step);
      StageBefore(s, step);
      TakenOutWhen(s, step);
      var i := About(step).value;
      TakenOut(s.callbacks, i, j);
      if i != j {
        CallbackStays(s, step, j);
        if !WillCancel(s', s.callbacks[j]) {
          assert s'.callbacks[i] == Callback(s.callbacks[i].call, Marked);
        }
      } else {
        assert s'.callbacks[j].stage == Onward(step);
      }
    }
  }

  /** The flag of the present call is set only by a callback that will then cancel the event. */
  lemma FlagLoads(s: State, step: Step)
    requires Enabled(s, step) && CallbacksOwned(s) && s.call !in s.cancelled && Next(s, step).call in Next(s, step).cancelled
    ensures Loaded(Next(s, step), Next(s, step).call + 1)
  {
    hide Next, Enabled, Without, Onward;
    if About(step).None? {
      OtherSteps(s, step);
    } else {
      CallbackSteps(s, step);
      StageBefore(s, step);
      TakenOutWhen(s, step);
      TakenOut(s.callbacks, About(step).value, 0);
      assert Next(s, step).callbacks[About(step).value].stage.Marked?;
    }
  }

  /** How a step starts, ends or keeps a timed wait. */
  lemma WaitMoves(s: State, step: Step)
    requires OneWakeUp(s) && Enabled(s, step)
    ensures TimedWait(Next(s, step)) ==> TimedWait(s) || (step.AddEventSucceeds? && s.timed)
    ensures step.AddEventSucceeds? ==> !TimedWait(s) && (TimedWait(Next(s, step)) <==> s.timed)
    ensures step.CallbackEnds? ==> !TimedWait(Next(s, step))
  {
    hide Without, Alive;
    if About(step).Some? {
      hide Next;
      CallbackSteps(s, step);
    }
  }

  /** A wait comes to be spent in one place: addEvent registers although the flag is set and all callbacks are over. */
  lemma SpentOnlyByLateRegistration(s: State, step: Step)
    requires Inv(s) && Enabled(s, step)
    requires !(TimedWait(s) && Spent(s))
    ensures TimedWait(Next(s, step)) && Spent(Next(s, step)) <==> step.AddEventSucceeds? && s.timed && Spent(s)
  {
    hide TimeoutsJustified, TimeoutAlive, TimerOwned, TimedWait, CallbacksOwned;
    WaitMoves(s, step);
    if step.AddEventSucceeds? {
      assert Next(s, step).callbacks == s.callbacks && Next(s, step).cancelled == s.cancelled && Next(s, step).call == s.call;
    } else if TimedWait(Next(s, step)) {
      hide Next, Enabled, Loaded;
      if s.call !in s.cancelled && Next(s, step).call in Next(s, step).cancelled {
        FlagLoads(s, step);
      } else if Loaded(s, s.call + 1) {
        LoadedStays(s, step);
      }
    }
  }

  /** The fiber is scheduled only from its slot: by readiness, by another's cancel, or by the end of a callback. */
  lemma WhoWakes(s: State, step: Step)
    requires Enabled(s, step)
    ensures Next(s, step).queued > s.queued <==> s.bit && (step.Ready? || step.CancelledByOther? || step.CallbackEnds?)
  {
    hide Without, Alive;
    if About(step).Some? {
      hide Next;
      CallbackSteps(s, step);
    }
  }

  // ---- runs that go wrong ----

  lemma RunOfOne(s: State, step: Step)
    requires Enabled(s, step)
    ensures IsRun(s, [step]) && After(s, [step]) == Next(s, step)
  {
    hide Next, Enabled;
    assert [step][1..] == [];
    assert IsRun(Next(s, step), []);
  }

  lemma {:induction false} OneMore(s: State, steps: seq<Step>, step: Step)
    requires IsRun(s, steps) && Enabled(After(s, steps), step)
    ensures IsRun(s, steps + [step]) && After(s, steps + [step]) == Next(After(s, steps), step)
    decreases |steps|
  {
    hide Next, Enabled;
    if steps == [] {
      RunOfOne(s, step);
      assert steps + [step] == [step];
    } else {
      OneMore(Next(s, steps[0]), steps[1..], step);
      assert (steps + [step])[1..] == steps[1..] + [step];
    }
  }

  /** One more step, with the state it leads to. */
  lemma Reach(before: seq<Step>, s: State, step: Step, s': State) returns (steps: seq<Step>)
    requires IsRun(Initial, before) && After(Initial, before) == s && Enabled(s, step) && Next(s, step) == s'
    ensures IsRun(Initial, steps) && After(Initial, steps) == s'
  {
    hide Next, Enabled;
    OneMore(Initial, before, step);
    steps := before + [step];
  }

  lemma NothingYet()
    ensures IsRun(Initial, []) && After(Initial, []) == Initial
  {
  }

  /** One callback of call `c`, alone in the list, goes from stage to stage. */
  lemma OnlyCallback(s: State, c: nat, from: Stage, to: Stage, step: Step)
    requires s.callbacks == [Callback(c, from)] && Enabled(s, step) && About(step) == Some(0) && Onward(step) == to
    requires step.CallbackLocks? ==> Alive(s, c)
    requires step.CallbackTests? ==> c !in s.cancelled
    ensures !step.CallbackEnds? ==>
      Next(s, step) == s.(callbacks := [Callback(c, to)], cancelled := if step.CallbackMarks? then s.cancelled + {c} else s.cancelled)
    ensures step.CallbackEnds? ==> Next(s, step) == Trigger(s.(callbacks := []))
  {
    hide Alive;
    assert s.callbacks[0 := Callback(c, to)] == [Callback(c, to)];
    assert Without(s.callbacks, 0) == [];
  }

  /** A call of do_io with a timeout, just about to register its event. */
  const Armed1 := State(Armed, 1, true, true, true, false, 0, [], {}, [])

  lemma Armed1IsReached() returns (steps: seq<Step>)
    ensures IsRun(Initial, steps) && After(Initial, steps) == Armed1
  {
    hide IsRun, After, Alive, Without;
    NothingYet();
    var t := Armed1.(timer := false);
    steps := Reach([], Initial, Begin(true, true), t.(phase := Trying));
    steps := Reach(steps, t.(phase := Trying), WouldBlock, t.(phase := Blocked));
    steps := Reach(steps, t.(phase := Blocked), SetTimer, Armed1);
  }

  /** Its timer fires, and the callback holds the timer_info. */
  lemma HeldIsReached(before: seq<Step>, s: State) returns (steps: seq<Step>)
    requires IsRun(Initial, before) && After(Initial, before) == s && s.timer && s.call == 1 && s.callbacks == [] && !s.phase.Outside?
    ensures IsRun(Initial, steps) && After(Initial, steps) == s.(timer := false, callbacks := [Callback(1, Locked)])
  {
    hide IsRun, After, Without;
    var t := s.(timer := false, callbacks := [Callback(1, Queued)]);
    steps := Reach(before, s, Expire, t);
    OnlyCallback(t, 1, Queued, Locked, CallbackLocks(0));
    steps := Reach(steps, t, CallbackLocks(0), t.(callbacks := [Callback(1, Locked)]));
  }

  /** A callback of call 1 that holds the timer_info tests, marks and cancels. */
  lemma CancelsAll(before: seq<Step>, s: State) returns (steps: seq<Step>)
    requires IsRun(Initial, before) && After(Initial, before) == s && s.callbacks == [Callback(1, Locked)] && 1 !in s.cancelled
    ensures IsRun(Initial, steps) && After(Initial, steps) == Trigger(s.(callbacks := [], cancelled := s.cancelled + {1}))
  {
    hide IsRun, After, Without, Next;
    OnlyCallback(s, 1, Locked, Tested, CallbackTests(0));
    var t := s.(callbacks := [Callback(1, Tested)]);
    steps := Reach(before, s, CallbackTests(0), t);
    OnlyCallback(t, 1, Tested, Marked, CallbackMarks(0));
    var u := t.(callbacks := [Callback(1, Marked)], cancelled := s.cancelled + {1});
    steps := Reach(steps, t, CallbackMarks(0), u);
    OnlyCallback(u, 1, Marked, Marked, CallbackEnds(0));
    steps := Reach(steps, u, CallbackEnds(0), Trigger(u.(callbacks := [])));
  }

  /** The timer fires between addConditionTimer and addEvent: the fiber is then parked, and no timeout will come. */
  lemma TimeoutCanBeLost() returns (steps: seq<Step>)
    ensures IsRun(Initial, steps)
    ensures var s := After(Initial, steps); s.phase.Parked? && TimedWait(s) && Spent(s)
  {
    hide IsRun, After, Without, Alive;
    steps := Armed1IsReached();
    steps := HeldIsReached(steps, Armed1);
    var t := Armed1.(timer := false, cancelled := {1});
    steps := CancelsAll(steps, Armed1.(timer := false, callbacks := [Callback(1, Locked)]));
    assert {} + {1} == {1};
    steps := Reach(steps, t, AddEventSucceeds, t.(phase := Registered, bit := true));
    steps := Reach(steps, t.(phase := Registered, bit := true), Yield, t.(phase := Parked, bit := true));
  }

  /** Call 1 has completed; a callback of its timer got hold of the timer_info before and has not gone on yet. */
  const Late1 := State(Outside, 1, true, true, false, false, 0, [Callback(1, Locked)], {}, [Outcome(1, Completed)])

  lemma Late1IsReached() returns (steps: seq<Step>)
    ensures IsRun(Initial, steps) && After(Initial, steps) == Late1
  {
    hide IsRun, After, Without, Alive;
    steps := Armed1IsReached();
    steps := Reach(steps, Armed1, AddEventSucceeds, Armed1.(phase := Registered, bit := true));
    steps := Reach(steps, Armed1.(phase := Registered, bit := true), Yield, Armed1.(phase := Parked, bit := true));
    steps := HeldIsReached(steps, Armed1.(phase := Parked, bit := true));
    steps := CompletesAnyway(steps);
  }

  lemma CompletesAnyway(before: seq<Step>) returns (steps: seq<Step>)
    requires IsRun(Initial, before) && After(Initial, before) == Late1.(phase := Parked, bit := true, outcomes := [])
    ensures IsRun(Initial, steps) && After(Initial, steps) == Late1
  {
    hide IsRun, After, Without, Alive;
    var t := Late1.(outcomes := []);
    steps := Reach(before, t.(phase := Parked, bit := true), Ready, t.(phase := Parked, queued := 1));
    steps := Reach(steps, t.(phase := Parked, queued := 1), Resume, t.(phase := Woken));
    steps := Reach(steps, t.(phase := Woken), CancelTimer, t.(phase := Checking));
    steps := Reach(steps, t.(phase := Checking), Decide, t.(phase := Trying));
    assert [] + [Outcome(1, Completed)] == [Outcome(1, Completed)];
    steps := Reach(steps, t.(phase := Trying), Finish, Late1);
  }

  /** Call 2, a connect without a timeout, waits. */
  const Waits2 := Late1.(phase := Parked, call := 2, timed := false, retries := false, bit := true)

  lemma Waits2IsReached() returns (steps: seq<Step>)
    ensures IsRun(Initial, steps) && After(Initial, steps) == Waits2
  {
    hide IsRun, After, Without, Alive;
    steps := Late1IsReached();
    var t := Waits2.(bit := false);
    steps := Reach(steps, Late1, Begin(false, false), t.(phase := Trying));
    steps := Reach(steps, t.(phase := Trying), WouldBlock, t.(phase := Blocked));
    steps := Reach(steps, t.(phase := Blocked), SetTimer, t.(phase := Armed));
    steps := Reach(steps, t.(phase := Armed), AddEventSucceeds, Waits2.(phase := Registered));
    steps := Reach(steps, Waits2.(phase := Registered), Yield, Waits2);
  }

  /**
   The late callback of call 1, which completed in time, wakes the connect; that reports success if the socket has no
   error to show yet.
   */
  lemma ConnectWokenByEarlierCall() returns (steps: seq<Step>)
    ensures IsRun(Initial, steps) && After(Initial, steps).outcomes == [Outcome(1, Completed), Outcome(2, Completed)]
  {
    hide IsRun, After, Without, Alive;
    steps := Waits2IsReached();
    steps := CancelsAll(steps, Waits2);
    var t := Waits2.(bit := false, callbacks := [], cancelled := Waits2.cancelled + {1});
    steps := Reach(steps, t.(queued := 1), Resume, t.(phase := Woken));
    steps := Reach(steps, t.(phase := Woken), CancelTimer, t.(phase := Checking));
    steps := Reach(steps, t.(phase := Checking), Decide, t.(phase := Asking));
    steps := Reach(steps, t.(phase := Asking), Ask(false), Return(t, Completed));
  }
}
