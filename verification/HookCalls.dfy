/**
 What a call of do_io or connect_with_timeout does from its start to its return, over every run: which of its own
 steps it makes, what its tests of the flag find, and which result that gives.
 */
module HookCalls {
  import opened HookIo

  /** A step of the fiber inside a call; a test of tinfo->cancelled comes with what it finds. */
  datatype Own =
    | Done | Blocks | Times | Adds | Refused | Yields | Wakes | Stops
    | Finds(flag: bool)
    | Asks(error: bool)

  /** A call: how it was begun, and what it has done since. */
  datatype Call = Call(retries: bool, did: seq<Own>)

  /** What an observer notes: the call in progress or last made, and the calls that have returned. */
  datatype Notes = Notes(now: Call, returned: seq<Call>)

  const Blank := Notes(Call(false, []), [])

  ghost function Does(s: State, step: Step): (own: seq<Own>) {
    match step
    case Finish => [Done]
    case WouldBlock => [Blocks]
    case SetTimer => [Times]
    case AddEventSucceeds => [Adds]
    case AddEventFails => [Refused]
    case Yield => [Yields]
    case Resume => [Wakes]
    case CancelTimer => [Stops]
    case Decide => [Finds(s.call in s.cancelled)]
    case Ask(error) => [Asks(error)]
    case _ => []
  }

  /** The notes after a step from `s` to `s'`: a call has returned when the fiber is outside again. */
  ghost function Noted(s: State, step: Step, s': State, n: Notes): (n': Notes) {
    var now := if step.Begin? then Call(step.retries, []) else Call(n.now.retries, n.now.did + Does(s, step));
    Notes(now, if !s.phase.Outside? && s'.phase.Outside? then n.returned + [now] else n.returned)
  }

  ghost function NotesOf(s: State, steps: seq<Step>, n: Notes): (n': Notes)
    requires IsRun(s, steps)
    decreases |steps|
  {
    if steps == [] then n else NotesOf(Next(s, steps[0]), steps[1..], Noted(s, steps[0], Next(s, steps[0]), n))
  }

  // ---- what a call may do ----

  /** From blocking to the test of the flag. */
  const Wait := [Blocks, Times, Adds, Yields, Wakes, Stops]

  /** Waits that all ended with the flag unset. */
  function Rounds(k: nat): (did: seq<Own>) {
    if k == 0 then [] else Rounds(k - 1) + Wait + [Finds(false)]
  }

  /** do_io: any number of rounds, then the end of the system call, a refusal of addEvent, or a test that finds the flag. */
  ghost predicate DoIo(did: seq<Own>, r: Result) {
    exists k :: DoIoAfter(k, did, r)
  }

  predicate DoIoAfter(k: nat, did: seq<Own>, r: Result) {
    match r
    case Completed => did == Rounds(k) + [Done]
    case Failed => did == Rounds(k) + [Blocks, Times, Refused]
    case TimedOut => did == Rounds(k) + Wait + [Finds(true)]
  }

  /** connect: at most one wait; unless its test finds the flag, the socket is asked for its error, and that is the result. */
  predicate Connect(did: seq<Own>, r: Result) {
    match r
    case Completed => did == [Done] || did == [Blocks, Times, Refused, Asks(false)] || did == Wait + [Finds(false), Asks(false)]
    case Failed => did == [Blocks, Times, Refused, Asks(true)] || did == Wait + [Finds(false), Asks(true)]
    case TimedOut => did == Wait + [Finds(true)]
  }

  ghost predicate Explains(c: Call, r: Result) {
    if c.retries then DoIo(c.did, r) else Connect(c.did, r)
  }

  // ---- where a call in progress is ----

  /** What the present round has done by the time of a phase. */
  predicate Reached(p: Phase, did: seq<Own>) {
    match p
    case Outside => false
    case Trying => did == []
    case Blocked => did == [Blocks]
    case Armed => did == [Blocks, Times]
    case Registered => did == [Blocks, Times, Adds]
    case Parked => did == [Blocks, Times, Adds, Yields]
    case Woken => did == [Blocks, Times, Adds, Yields, Wakes]
    case Checking => did == Wait
    case Asking => did == [Blocks, Times, Refused] || did == Wait + [Finds(false)]
  }

  /** The call in progress is `k` rounds and a part of the next one; only do_io has rounds, only connect asks. */
  ghost predicate On(s: State, c: Call, k: nat, did: seq<Own>) {
    && c.did == Rounds(k) + did && Reached(s.phase, did)
    && (!c.retries ==> k == 0) && (s.phase.Asking? ==> !c.retries)
  }

  ghost predicate Underway(s: State, c: Call) {
    exists k, did :: On(s, c, k, did)
  }

  /** Calls return in order, each once, with a result that what it did explains. */
  ghost predicate Explained(s: State, n: Notes) {
    && |s.outcomes| == |n.returned| == s.call - (if s.phase.Outside? then 0 else 1)
    && (forall i :: 0 <= i < |s.outcomes| ==> s.outcomes[i].call == i + 1 && Explains(n.returned[i], s.outcomes[i].result))
    && (!s.phase.Outside? ==> n.now.retries == s.retries && Underway(s, n.now))
  }

  /** What ends a call, and as what. */
  lemma EndsCall(s: State, step: Step)
    requires Enabled(s, step) && !s.phase.Outside? && Next(s, step).phase.Outside?
    ensures var s' := Next(s, step);
      && s'.retries == s.retries && s'.call == s.call && |s'.outcomes| == |s.outcomes| + 1
      && s'.outcomes == s.outcomes + [Outcome(s.call, s'.outcomes[|s.outcomes|].result)]
      && match s'.outcomes[|s.outcomes|].result
         case Completed => (s.phase.Trying? && Does(s, step) == [Done]) || (s.phase.Asking? && Does(s, step) == [Asks(false)])
         case Failed => (s.phase.Armed? && s.retries && Does(s, step) == [Refused]) || (s.phase.Asking? && Does(s, step) == [Asks(true)])
         case TimedOut => s.phase.Checking? && Does(s, step) == [Finds(true)]
  {
    hide Alive;
  }

  /** A step that ends the call ends it as what it did says. */
  lemma Returns(s: State, step: Step, c: Call, k: nat, did: seq<Own>)
    requires Enabled(s, step) && On(s, c, k, did) && c.retries == s.retries && Next(s, step).phase.Outside?
    ensures var s' := Next(s, step);
      && s'.retries == s.retries && s'.call == s.call
      && |s'.outcomes| == |s.outcomes| + 1 && s'.outcomes[..|s.outcomes|] == s.outcomes
      && s'.outcomes[|s.outcomes|].call == s.call
      && Explains(Call(c.retries, c.did + Does(s, step)), s'.outcomes[|s.outcomes|].result)
  {
    hide Next, Enabled, Rounds, Does;
    EndsCall(s, step);
    var r := Next(s, step).outcomes[|s.outcomes|].result;
    Joined(k, did, Does(s, step));
    if c.retries {
      assert DoIoAfter(k, c.did + Does(s, step), r);
    } else {
      NoRounds(did + Does(s, step));
    }
  }

  lemma Joined(k: nat, did: seq<Own>, more: seq<Own>)
    ensures (Rounds(k) + did) + more == Rounds(k) + (did + more) == Rounds(k) + did + more
  {
  }

  lemma NoRounds(did: seq<Own>)
    ensures Rounds(0) + did == did
  {
  }

  lemma NextInRound(s: State, step: Step, did: seq<Own>)
    requires Enabled(s, step) && Reached(s.phase, did) && !Next(s, step).phase.Outside? && Does(s, step) != []
    ensures var s' := Next(s, step);
      && s'.retries == s.retries && s'.call == s.call && s'.outcomes == s.outcomes
      && (if step.Decide? && s.retries then s'.phase.Trying? && did == Wait && Does(s, step) == [Finds(false)]
          else Reached(s'.phase, did + Does(s, step)) && (s'.phase.Asking? ==> !s.retries))
  {
    hide Alive;
  }

  /** Any other step of the fiber is the next one of its round, or begins another. */
  lemma GoesOn(s: State, step: Step, c: Call, k: nat, did: seq<Own>)
    requires Enabled(s, step) && On(s, c, k, did) && c.retries == s.retries && !Next(s, step).phase.Outside? && Does(s, step) != []
    ensures var s' := Next(s, step);
      && s'.retries == s.retries && s'.call == s.call && s'.outcomes == s.outcomes
      && Underway(s', Call(c.retries, c.did + Does(s, step)))
  {
    hide Next, Enabled, Does;
    NextInRound(s, step, did);
    var s' := Next(s, step);
    var c' := Call(c.retries, c.did + Does(s, step));
    Joined(k, did, Does(s, step));
    if step.Decide? && s.retries {
      assert c'.did == Rounds(k + 1) + [];
      UnderwayBy(s', c', k + 1, []);
    } else {
      UnderwayBy(s', c', k, did + Does(s, step));
    }
  }

  lemma UnderwayBy(s: State, c: Call, k: nat, did: seq<Own>)
    requires On(s, c, k, did)
    ensures Underway(s, c)
  {
  }

  /** Steps of the kernel, the timer and other threads leave the call where it is. */
  lemma NotOwn(s: State, step: Step)
    requires Enabled(s, step) && (About(step).Some? || step.Expire? || step.Ready? || step.CancelledByOther?)
    ensures var s' := Next(s, step);
      s'.phase == s.phase && s'.retries == s.retries && s'.call == s.call && s'.outcomes == s.outcomes && Does(s, step) == []
  {
    hide Alive;
  }

  lemma Further(s: State, step: Step, c: Call, k: nat, did: seq<Own>)
    requires Enabled(s, step) && On(s, c, k, did) && c.retries == s.retries
    ensures var s' := Next(s, step);
      var c' := Call(c.retries, c.did + Does(s, step));
      && s'.retries == s.retries && s'.call == s.call
      && (if s'.phase.Outside? then |s'.outcomes| == |s.outcomes| + 1 && s'.outcomes[..|s.outcomes|] == s.outcomes
             && s'.outcomes[|s.outcomes|].call == s.call && Explains(c', s'.outcomes[|s.outcomes|].result)
          else s'.outcomes == s.outcomes && Underway(s', c'))
  {
    hide Alive, Explains, Underway;
    var s' := Next(s, step);
    var c' := Call(c.retries, c.did + Does(s, step));
    if About(step).Some? || step.Expire? || step.Ready? || step.CancelledByOther? {
      NotOwn(s, step);
      assert c'.did == c.did && On(s', c', k, did);
      UnderwayBy(s', c', k, did);
    } else if s'.phase.Outside? {
      Returns(s, step, c, k, did);
    } else {
      GoesOn(s, step, c, k, did);
    }
  }

  lemma ExplainedStep(s: State, step: Step, n: Notes)
    requires Enabled(s, step) && Explained(s, n)
    ensures Explained(Next(s, step), Noted(s, step, Next(s, step), n))
  {
    hide Explains, Underway, Reached;
    var s', n' := Next(s, step), Noted(s, step, Next(s, step), n);
    if s.phase.Outside? {
      FromOutside(s, step, n);
    } else {
      hide Next, Does;
      InCall(s, step, n);
    }
  }

  lemma FromOutside(s: State, step: Step, n: Notes)
    requires Enabled(s, step) && s.phase.Outside? && Explained(s, n)
    ensures Explained(Next(s, step), Noted(s, step, Next(s, step), n))
  {
    hide Alive, Explains;
    var s', n' := Next(s, step), Noted(s, step, Next(s, step), n);
    if step.Begin? {
      NoRounds([]);
      assert On(s', n'.now, 0, []);
    }
  }

  lemma InCall(s: State, step: Step, n: Notes)
    requires Enabled(s, step) && !s.phase.Outside? && Explained(s, n)
    ensures Explained(Next(s, step), Noted(s, step, Next(s, step), n))
  {
    hide Explains, Does, On, Next, Enabled;
    var s', n' := Next(s, step), Noted(s, step, Next(s, step), n);
    NotBegin(s, step);
    var k, did :| On(s, n.now, k, did);
    Further(s, step, n.now, k, did);
  }

  lemma NotBegin(s: State, step: Step)
    requires Enabled(s, step) && !s.phase.Outside?
    ensures !step.Begin?
  {
  }

  lemma {:induction false} ExplainedRun(s: State, steps: seq<Step>, n: Notes)
    requires IsRun(s, steps) && Explained(s, n)
    ensures Explained(After(s, steps), NotesOf(s, steps, n))
    decreases |steps|
  {
    hide Next, Enabled, Explained, Noted;
    if steps != [] {
      ExplainedStep(s, steps[0], n);
      ExplainedRun(Next(s, steps[0]), steps[1..], Noted(s, steps[0], Next(s, steps[0]), n));
    }
  }

  lemma {:induction false} NeverFound(k: nat)
    ensures Finds(true) !in Rounds(k)
  {
    if k > 0 {
      NeverFound(k - 1);
    }
  }

  /** ETIMEDOUT if and only if a test of the call found the flag; that test is the last thing the call did. */
  lemma TimedOutIff(c: Call, r: Result)
    requires Explains(c, r)
    ensures r.TimedOut? <==> Finds(true) in c.did
    ensures c.did != [] && Finds(true) !in c.did[..|c.did| - 1]
  {
    hide Rounds, DoIoAfter, Connect;
    if c.retries {
      var k :| DoIoAfter(k, c.did, r);
      NeverFound(k);
      DropLast(c.did, r, k);
      LastAdded(c.did);
    } else {
      ConnectLast(c.did, r);
      LastAdded(c.did);
    }
  }

  lemma LastAdded(did: seq<Own>)
    requires did != []
    ensures did == did[..|did| - 1] + [did[|did| - 1]]
  {
  }

  lemma ConnectLast(did: seq<Own>, r: Result)
    requires Connect(did, r)
    ensures did != [] && Finds(true) !in did[..|did| - 1] && (r.TimedOut? <==> did[|did| - 1] == Finds(true))
  {
  }

  lemma DropLast(did: seq<Own>, r: Result, k: nat)
    requires DoIoAfter(k, did, r)
    ensures did != [] && (r.TimedOut? <==> did[|did| - 1] == Finds(true)) && did[..|did| - 1] == Rounds(k) + match r case Completed => [] case Failed => [Blocks, Times] case TimedOut => Wait
  {
    hide Rounds;
    var rest := match r case Completed => [] case Failed => [Blocks, Times] case TimedOut => Wait;
    assert did == Rounds(k) + rest + [did[|did| - 1]];
  }

  /** Over every run: the calls return in order, each once, with the result that its own steps explain. */
  lemma EveryCall(steps: seq<Step>)
    requires IsRun(Initial, steps)
    ensures var s := After(Initial, steps);
      var n := NotesOf(Initial, steps, Blank);
      && |s.outcomes| == |n.returned| == s.call - (if s.phase.Outside? then 0 else 1)
      && (forall i :: 0 <= i < |s.outcomes| ==> s.outcomes[i].call == i + 1 && Explains(n.returned[i], s.outcomes[i].result))
      && (forall i :: 0 <= i < |s.outcomes| ==> (s.outcomes[i].result.TimedOut? <==> Finds(true) in n.returned[i].did))
      && (!s.phase.Outside? ==> Finds(true) !in n.now.did)
  {
    hide Explains, IsRun, After, NotesOf, Does, Underway;
    FirstNotes();
    ExplainedRun(Initial, steps, Blank);
    var s, n := After(Initial, steps), NotesOf(Initial, steps, Blank);
    forall i | 0 <= i < |s.outcomes|
      ensures s.outcomes[i].result.TimedOut? <==> Finds(true) in n.returned[i].did
    {
      TimedOutIff(n.returned[i], s.outcomes[i].result);
    }
    if !s.phase.Outside? {
      NotYetFound(s, n.now);
    }
  }

  lemma FirstNotes()
    ensures Explained(Initial, Blank)
  {
  }

  lemma NotYetFound(s: State, c: Call)
    requires Underway(s, c)
    ensures Finds(true) !in c.did
  {
    hide Rounds;
    var k, did :| On(s, c, k, did);
    NeverFound(k);
  }

  // ---- a call whose flag is set ----

  /** The call is in a wait or on its way to the test after it. */
  predicate BeforeTest(p: Phase) {
    p.Registered? || p.Parked? || p.Woken? || p.Checking?
  }

  lemma FlaggedStep(s: State, step: Step)
    requires Enabled(s, step) && BeforeTest(s.phase) && s.call in s.cancelled
    ensures var s' := Next(s, step);
      || (BeforeTest(s'.phase) && s'.call == s.call && s'.call in s'.cancelled && s'.outcomes == s.outcomes)
      || (s'.phase.Outside? && s'.outcomes == s.outcomes + [Outcome(s.call, TimedOut)])
  {
    hide Alive;
  }

  lemma OutcomesGrow(s: State, step: Step)
    requires Enabled(s, step)
    ensures s.outcomes <= Next(s, step).outcomes
  {
    hide Alive;
  }

  lemma {:induction false} OutcomesStay(s: State, steps: seq<Step>)
    requires IsRun(s, steps)
    ensures s.outcomes <= After(s, steps).outcomes
    decreases |steps|
  {
    hide Next, Enabled;
    if steps != [] {
      OutcomesGrow(s, steps[0]);
      OutcomesStay(Next(s, steps[0]), steps[1..]);
    }
  }

  /**
   From any wait, or the way to the test after it, with the flag of the call set: every run stays before the test, or has
   ETIMEDOUT of this call as its next outcome. The call does not try, block or ask again.
   */
  lemma {:induction false} FlaggedTimesOut(s: State, steps: seq<Step>)
    requires IsRun(s, steps) && BeforeTest(s.phase) && s.call in s.cancelled
    ensures var s' := After(s, steps);
      || (BeforeTest(s'.phase) && s'.call == s.call && s'.outcomes == s.outcomes)
      || s.outcomes + [Outcome(s.call, TimedOut)] <= s'.outcomes
    decreases |steps|
  {
    hide Next, Enabled;
    if steps != [] {
      var s1 := Next(s, steps[0]);
      FlaggedStep(s, steps[0]);
      if s1.phase.Outside? {
        OutcomesStay(s1, steps[1..]);
      } else {
        FlaggedTimesOut(s1, steps[1..]);
      }
    }
  }

  /** A wait that the call's own timer has ended is one of those. */
  lemma OwnTimerFlags(s: State, i: nat)
    requires Inv(s) && Enabled(s, CallbackEnds(i)) && Waiting(s) && s.bit && s.callbacks[i].call == s.call
    ensures var s' := Next(s, CallbackEnds(i));
      !s'.bit && s'.queued == s.queued + 1 && BeforeTest(s'.phase) && s'.call == s.call && s'.call in s'.cancelled
  {
    hide Alive, TimeoutAlive, TimeoutsJustified, TimerOwned;
  }

  // ---- a wake-up that comes early ----

  /** Between addEvent and the yield the fiber has not switched out; readiness or another's cancel may come already. */
  lemma WokenBeforeYield(s: State, step: Step)
    requires Inv(s) && s.phase.Registered? && s.bit && (step.Ready? || step.CancelledByOther?)
    ensures IsRun(s, [step, Yield, Resume]) && After(s, [step, Yield, Resume]) == s.(phase := Woken, bit := false, queued := 0)
  {
    hide Alive, CallbacksOwned, TimeoutAlive, TimeoutsJustified, TimerOwned;
    var s1 := Next(s, step);
    assert s1 == s.(bit := false, queued := 1);
    var s2 := Next(s1, Yield);
    var s3 := Next(s2, Resume);
    assert [step, Yield, Resume][1..] == [Yield, Resume] && [Yield, Resume][1..] == [Resume] && [Resume][1..] == [];
    assert IsRun(s3, []) && After(s3, []) == s3;
    assert IsRun(s2, [Resume]) && After(s2, [Resume]) == s3;
    assert IsRun(s1, [Yield, Resume]) && After(s1, [Yield, Resume]) == s3;
  }
}
