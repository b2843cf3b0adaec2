/**
 The states a fiber goes through in one worker's run loop. Fiber.reset and Fiber.swapIn assert on the state they
 are called in (here: requires), and the end of MainFunc asserts that a finished fiber is not switched into again
 (here: an abort). The loop is followed through any sequence of turns.
 */
module Fibers {
  import opened FiberStates

  class Fiber {
    var state: FiberState
    var callback: bool   // m_cb is not null

    constructor (callback: bool)
      ensures state == INIT && this.callback == callback
    {
      state, this.callback := INIT, callback;
    }

    method Reset(callback: bool)
      requires state == INIT || state == EXCEPT || state == TERM
      modifies this
      ensures state == INIT && this.callback == callback
    {
      this.callback := callback;
      state := INIT;
    }

    /**
     Runs the fiber until it switches out. A fresh fiber with a null callback can only come back EXCEPT:
     the call of an empty std::function throws inside MainFunc. A finished one runs into MainFunc's last assertion.
     */
    method SwapIn(back: Back) returns (aborted: bool)
      requires state != EXEC
      modifies this
      ensures aborted <==> Finished(old(state))
      ensures aborted ==> state == EXEC
      ensures !aborted ==> state == (if old(state) == INIT && !old(callback) then EXCEPT else back)
    {
      aborted := state == TERM || state == EXCEPT;
      var thrown := state == INIT && !callback;
      state := EXEC;
      if !aborted {
        state := if thrown then EXCEPT else back;
        if state == TERM {
          callback := false;
        }
      }
    }
  }

  /**
   What the search finds in one turn of the loop. Fibers are numbered in the order they came into being;
   a number not yet in use stands for a fiber that user code makes and schedules.
   */
  datatype Found = Nothing | AFiber(k: nat) | ACallback

  datatype Turn = Turn(found: Found, back: Back)

  datatype Outcome = Running | Left | Aborted

  /** How the loop ends depends only on how the idle fiber comes back from the turns that find no task. */
  function Fate(turns: seq<Turn>, idle: FiberState): (o: Outcome) {
    if turns == [] then Running
    else if !turns[0].found.Nothing? then Fate(turns[1..], idle)
    else if idle == TERM then Left
    else if idle == EXCEPT then Aborted
    else Fate(turns[1..], turns[0].back)
  }

  /** The idle function throws in some turn, has not returned before, and a later turn finds no task either. */
  predicate IdleThrows(turns: seq<Turn>) {
    exists i, j :: 0 <= i < j < |turns| && turns[i].found.Nothing? && turns[i].back == EXCEPT && turns[j].found.Nothing?
                && forall k :: 0 <= k < i && turns[k].found.Nothing? ==> turns[k].back != TERM
  }

  /** The state a task's fiber is left in. One that switched out without setting its state is put on HOLD. */
  function Settled(before: FiberState, callback: bool, back: Back): (after: FiberState)
    ensures before != EXEC ==> after != EXEC
  {
    if Finished(before) then before
    else if before == INIT && !callback then EXCEPT
    else if back == EXEC then HOLD
    else back
  }

  class Worker {
    var idle: Fiber
    var cbFiber: Fiber?
    var fibers: seq<Fiber>    // every fiber but the idle one
    var queue: seq<Fiber>     // fibers this worker put back into the task list
    ghost var stolen: bool    // the list has held the worker's own unused callback fiber

    /**
     The loop-head invariant: nothing is EXEC, and the callback fiber kept for reuse is null or INIT with no callback.
     It can only be EXCEPT if the list handed it out as a task.
     */
    ghost predicate Valid()
      reads this, idle, fibers
    {
      && idle !in fibers && idle.state != EXEC && (idle.state == INIT ==> idle.callback)
      && (forall f :: f in fibers ==> f.state != EXEC)
      && (cbFiber != null ==> cbFiber in fibers && Reusable(cbFiber))
    }

    ghost predicate Reusable(f: Fiber)
      reads this, f
    {
      (f.state == INIT && !f.callback) || (f.state == EXCEPT && stolen)
    }

    constructor ()
      ensures Valid() && cbFiber == null && fibers == [] && queue == [] && idle.state == INIT && !stolen
      ensures fresh(idle)
    {
      idle := new Fiber(true);
      cbFiber, fibers, queue, stolen := null, [], [], false;
    }

    /** What is kept from turn to turn: fibers are only added, and the idle fiber stays. */
    twostate predicate Grew()
      reads this
    {
      idle == old(idle) && old(fibers) <= fibers && fresh(set f | f in fibers && f !in old(fibers)) && (old(stolen) ==> stolen)
    }

    /** The branch for an entry that holds a fiber. */
    method RunFiber(f: Fiber, back: Back)
      requires Valid() && f in fibers
      modifies `queue, `stolen, fibers
      ensures Valid() && idle.state == old(idle.state)
      ensures stolen == (old(stolen) || f == cbFiber)
      ensures forall g :: g in fibers && g != f ==> g.state == old(g.state)
      ensures f.state == Settled(old(f.state), old(f.callback), back)
      ensures f.state.READY? && !Finished(old(f.state)) ==> queue == old(queue) + [f]
      ensures !f.state.READY? || Finished(old(f.state)) ==> queue == old(queue)
    {
      ghost var taken := f == cbFiber;
      stolen := stolen || taken;
      if f.state != TERM && f.state != EXCEPT {
        var aborted := f.SwapIn(back);
        assert !aborted;
        if f.state == READY {
          queue := queue + [f];
        } else if f.state != TERM && f.state != EXCEPT {
          f.state := HOLD;
        }
      }
    }

    /** The branch for an entry that holds a callback. */
    method RunCallback(back: Back)
      requires Valid()
      modifies `queue, `cbFiber, `fibers, fibers
      ensures Valid() && Grew() && idle.state == old(idle.state)
      ensures back == READY ==> |queue| == |old(queue)| + 1 && queue[..|old(queue)|] == old(queue) && queue[|old(queue)|] in fibers
      ensures back != READY ==> queue == old(queue)
      ensures cbFiber != null <==> Finished(back)
      ensures Finished(back) ==> cbFiber.state == INIT && !cbFiber.callback
      ensures old(cbFiber) != null ==> fibers == old(fibers)
      ensures forall g :: g in old(fibers) && g != old(cbFiber) ==> g.state == old(g.state)
    {
      var f: Fiber;
      if cbFiber != null {
        f := cbFiber;
        f.Reset(true);
      } else {
        f := new Fiber(true);
        cbFiber, fibers := f, fibers + [f];
      }
      var aborted := f.SwapIn(back);
      assert !aborted;
      if f.state == READY {
        queue := queue + [f];
        cbFiber := null;
      } else if f.state == EXCEPT || f.state == TERM {
        f.Reset(false);
      } else {
        f.state := HOLD;
        cbFiber := null;
      }
    }

    /** The branch that runs the idle fiber. */
    method RunIdle(back: Back) returns (o: Outcome)
      requires Valid()
      modifies idle
      ensures o == (if old(idle.state) == TERM then Left else if old(idle.state) == EXCEPT then Aborted else Running)
      ensures !o.Aborted? ==> Valid()
      ensures o.Running? ==> idle.state == (if Finished(back) then back else HOLD)
    {
      if idle.state == TERM {
        return Left;
      }
      var aborted := idle.SwapIn(back);
      if aborted {
        return Aborted;
      }
      if idle.state != TERM && idle.state != EXCEPT {
        idle.state := HOLD;
      }
      return Running;
    }

    /** A fiber that user code made. */
    method Adopt()
      requires Valid()
      modifies `fibers
      ensures Valid() && Grew() && |fibers| == |old(fibers)| + 1 && fresh(fibers[|old(fibers)|])
      ensures fibers[|old(fibers)|].state == INIT
    {
      var f := new Fiber(true);
      fibers := fibers + [f];
    }

    method TakeTurn(t: Turn) returns (o: Outcome)
      requires Valid()
      modifies `queue, `stolen, `cbFiber, `fibers, fibers, idle
      ensures Grew() && (!o.Aborted? ==> Valid())
      ensures !t.found.Nothing? ==> o == Running && idle.state == old(idle.state)
      ensures t.found.Nothing? ==> o == (if old(idle.state) == TERM then Left else if old(idle.state) == EXCEPT then Aborted else Running)
      ensures t.found.Nothing? && o.Running? ==> idle.state == (if Finished(t.back) then t.back else HOLD)
      ensures stolen ==> old(stolen) || (t.found.AFiber? && t.found.k < |old(fibers)| && old(fibers)[t.found.k] == old(cbFiber))
    {
      o := Running;
      match t.found
      case Nothing =>
        o := RunIdle(t.back);
      case ACallback =>
        RunCallback(t.back);
      case AFiber(k) =>
        if k < |fibers| {
          RunFiber(fibers[k], t.back);
        } else {
          Adopt();
          RunFiber(fibers[|fibers| - 1], t.back);
        }
    }

    /** Scheduler::run. */
    method Run(turns: seq<Turn>) returns (o: Outcome)
      requires Valid() && idle.state == INIT
      modifies this, fibers, idle
      ensures o == Fate(turns, INIT)
      ensures !o.Aborted? ==> Valid()
      ensures o.Aborted? <==> IdleThrows(turns)
    {
      FateAborts(turns, INIT);
      o := Running;
      var n := 0;
      while n < |turns| && o.Running?
        invariant 0 <= n <= |turns|
        invariant idle == old(idle)
        invariant forall i :: 0 <= i < |fibers| ==> fibers[i] in old(fibers) || fresh(fibers[i])
        invariant !o.Aborted? ==> Valid()
        invariant o.Running? ==> Fate(turns, INIT) == Fate(turns[n..], idle.state)
        invariant !o.Running? ==> o == Fate(turns, INIT)
      {
        SameFate(turns[n..][1..], turns[n].back);
        o := TakeTurn(turns[n]);
        n := n + 1;
      }
    }
  }

  /** The loop does not tell the unfinished states of its idle fiber apart. */
  lemma {:induction false} SameFate(turns: seq<Turn>, idle: FiberState)
    ensures !Finished(idle) ==> Fate(turns, idle) == Fate(turns, HOLD)
  {
    if turns != [] && !turns[0].found.Nothing? {
      SameFate(turns[1..], idle);
    }
  }

  predicate Later(turns: seq<Turn>) {
    exists j :: 0 <= j < |turns| && turns[j].found.Nothing?
  }

  lemma {:induction false} FateAborts(turns: seq<Turn>, idle: FiberState)
    ensures Fate(turns, idle) == Aborted <==> if idle == EXCEPT then Later(turns) else idle != TERM && IdleThrows(turns)
  {
    if turns == [] {
    } else {
      var rest := turns[1..];
      assert forall j :: 1 <= j < |turns| ==> turns[j] == rest[j - 1];
      assert forall j :: 0 <= j < |rest| ==> rest[j] == turns[j + 1];
      if !turns[0].found.Nothing? {
        FateAborts(rest, idle);
      } else {
        FateAborts(rest, turns[0].back);
      }
    }
  }

  /**
   A callback that schedules the fiber it runs on and then returns: the list now holds the worker's own reset fiber,
   and taking it leaves that fiber EXCEPT at the head of the loop. The next reset still accepts it.
   */
  method CallbackSchedulesItsFiber() returns (w: Worker)
    ensures w.Valid() && w.cbFiber != null && w.cbFiber.state == EXCEPT
  {
    w := new Worker();
    w.RunCallback(TERM);
    w.RunFiber(w.cbFiber, HOLD);
  }
}
