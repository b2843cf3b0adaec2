/** The task list of yuyu/scheduler.h and the search in Scheduler::run. */
module Schedulers {
  import opened Options

  /** One FiberAndThread in the list: a callback when there is no fiber, pinned to a thread or not. */
  datatype Task = Task(id: nat, fiber: Option<nat>, pin: Option<nat>)

  /** What run() does not pass over: not pinned elsewhere, and no fiber that is executing. */
  predicate Eligible(t: Task, thread: nat, executing: set<nat>) {
    !PinnedElsewhere(t, thread) && !(t.fiber.Some? && t.fiber.value in executing)
  }

  predicate PinnedElsewhere(t: Task, thread: nat) {
    t.pin.Some? && t.pin.value != thread
  }

  /** The index of the first eligible task, |tasks| when there is none. */
  function FirstEligible(tasks: seq<Task>, thread: nat, executing: set<nat>): (k: nat)
    ensures k <= |tasks|
    ensures forall i :: 0 <= i < k ==> !Eligible(tasks[i], thread, executing)
    ensures k < |tasks| ==> Eligible(tasks[k], thread, executing)
  {
    if tasks == [] then 0
    else if Eligible(tasks[0], thread, executing) then 0
    else 1 + FirstEligible(tasks[1..], thread, executing)
  }

  lemma {:induction false} FirstIs(tasks: seq<Task>, thread: nat, executing: set<nat>, k: nat)
    requires k <= |tasks| && forall i :: 0 <= i < k ==> !Eligible(tasks[i], thread, executing)
    requires k < |tasks| ==> Eligible(tasks[k], thread, executing)
    ensures FirstEligible(tasks, thread, executing) == k
    decreases |tasks|
  {
    hide Eligible;
    if k > 0 {
      assert !Eligible(tasks[0], thread, executing);
      FirstIs(tasks[1..], thread, executing, k - 1);
    }
  }

  /** A scheduled task waits for everything eligible before it: it is taken next only if nothing else could be. */
  lemma AppendedComesLast(tasks: seq<Task>, t: Task, thread: nat, executing: set<nat>)
    ensures var k := FirstEligible(tasks, thread, executing);
      FirstEligible(tasks + [t], thread, executing) ==
        if k < |tasks| then k else if Eligible(t, thread, executing) then |tasks| else |tasks| + 1
  {
    hide FirstEligible, Eligible;
    var k := FirstEligible(tasks, thread, executing);
    var all := tasks + [t];
    FirstIs(all, thread, executing, if k < |tasks| then k else if Eligible(t, thread, executing) then |tasks| else |tasks| + 1);
  }

  class Scheduler {
    var fibers: seq<Task>      // m_fibers
    var active: nat            // m_activeThreadCount

    /** scheduleNoLock; an empty FiberAndThread (neither fiber nor callback) is not queued. */
    method Schedule(t: Task, empty: bool) returns (needTickle: bool)
      modifies `fibers
      ensures fibers == if empty then old(fibers) else old(fibers) + [t]
      ensures needTickle == (old(fibers) == [])
    {
      needTickle := fibers == [];
      if !empty {
        fibers := fibers + [t];
      }
    }

    /** The locked part of run(): the first eligible task, taken out of the list; the others keep their order. */
    method Take(thread: nat, executing: set<nat>) returns (ft: Option<Task>, tickle: bool)
      modifies this
      ensures var k := FirstEligible(old(fibers), thread, executing);
        && ft == (if k < |old(fibers)| then Some(old(fibers)[k]) else None)
        && fibers == (if k < |old(fibers)| then Without(old(fibers), k) else old(fibers))
        && active == old(active) + (if ft.Some? then 1 else 0)
        && (tickle <==> k + 1 < |old(fibers)| || exists i :: 0 <= i < k && PinnedElsewhere(old(fibers)[i], thread))
    {
      hide FirstEligible, Eligible;
      var it;
      it, tickle := Search(thread, executing);
      ft := None;
      var more := it < |fibers|;
      if more {
        ft := Some(fibers[it]);
        fibers := Without(fibers, it);
        active := active + 1;
        more := it < |fibers|;   // erase leaves the iterator on the next entry
      }
      tickle := tickle || more;
    }

    /** The loop over the list, up to the entry that is taken. */
    method Search(thread: nat, executing: set<nat>) returns (it: nat, pinned: bool)
      ensures it == FirstEligible(fibers, thread, executing)
      ensures pinned <==> exists i :: 0 <= i < it && PinnedElsewhere(fibers[i], thread)
    {
      hide FirstEligible;
      it, pinned := 0, false;
      while it < |fibers|
        invariant 0 <= it <= |fibers|
        invariant forall i :: 0 <= i < it ==> !Eligible(fibers[i], thread, executing)
        invariant pinned <==> exists i :: 0 <= i < it && PinnedElsewhere(fibers[i], thread)
      {
        if PinnedElsewhere(fibers[it], thread) {
          it := it + 1;
          pinned := true;
          continue;
        }
        if fibers[it].fiber.Some? && fibers[it].fiber.value in executing {
          it := it + 1;
          continue;
        }
        break;
      }
      FirstIs(fibers, thread, executing, it);
    }
  }
}
