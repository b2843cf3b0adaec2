/** Whole runs of a TimerManager, called from any number of threads, whose clock does not go back. */
module TimerRuns {
  import opened Timers

  const Half: nat := 0x8000_0000_0000_0000

  /** Timers are numbered in the order they were added. */
  datatype Op =
    | Add(ms: nat, cb: nat, recurring: bool)
    | Cancel(k: nat)
    | Refresh(k: nat)
    | Reset(k: nat, ms: nat, fromNow: bool)
    | GetNext
    | ListExpired(probe: nat)

  /** One call, in the order in which the calls get the lock, and the time it reads. */
  datatype Call = Call(now: nat, op: Op)

  /**
   The clock does not go back, and deadlines stay below 2^64. addTimer and listExpiredCb read the clock before they get
   the lock, so their times may be older than ones read by calls before them; listExpiredCb's by an hour at most.
   refresh reads it under the lock.
   */
  predicate Clean(calls: seq<Call>, clock: nat)
    decreases |calls|
  {
    calls == [] || (Timely(calls[0], clock) && Clean(calls[1..], Later(clock, calls[0].now)))
  }

  predicate Timely(c: Call, clock: nat) {
    && Hour <= c.now < Half
    && (c.op.Add? || c.op.Reset? ==> c.op.ms < Half)
    && (c.op.Refresh? ==> clock <= c.now)
    && (c.op.ListExpired? ==> clock <= c.now + Hour)
  }

  /** Every timer made is known by its number. */
  ghost predicate Numbered(m: TimerManager, handles: seq<Timer>)
    reads m`all
  {
    && (forall i :: 0 <= i < |handles| ==> handles[i].address == i && handles[i] in m.all)
    && (forall t :: t in m.all ==> t.address < |handles| && t == handles[t.address])
  }

  ghost predicate Tame(m: TimerManager, clock: nat)
    reads m, m.all
  {
    m.Valid() && m.regular && Hour <= m.previousTime && m.clock <= clock < Half && forall t :: t in m.all ==> t.ms < Half
  }

  /** The timers whose fields a call may have changed; all others are as they were. */
  twostate predicate OnlyChanged(m: TimerManager, changed: set<Timer>)
    reads m`all, m.all
  {
    forall t :: t in old(m.all) && t in m.all && t !in changed ==>
      t.ms == old(t.ms) && t.next == old(t.next) && t.cb == old(t.cb) && t.collected == old(t.collected)
  }

  twostate predicate SameMembers(m: TimerManager)
    reads m`timers, m`all
  {
    forall t :: t in m.all ==> (t in m.timers <==> t in old(m.timers))
  }

  /** What the call with number `k` for one timer, armed or not, comes to. */
  twostate predicate MadeFor(m: TimerManager, t: Timer, c: Call)
    reads m`timers, m`all, m.all, t
  {
    && OnlyChanged(m, {t}) && t.collected == old(t.collected)
    && match c.op
       case Cancel(_) => t.cb.None? && t.next == old(t.next) && t.ms == old(t.ms) && forall u :: u in m.all ==> (u in m.timers <==> u in old(m.timers) && u != t)
       case Refresh(_) => t.cb == old(t.cb) && t.ms == old(t.ms) && SameMembers(m) && t.next == if t.cb.Some? then c.now + t.ms else old(t.next)
       case Reset(_, ms, fromNow) =>
         && t.cb == old(t.cb) && SameMembers(m)
         && (if t.cb.None? || (ms == old(t.ms) && !fromNow) then t.ms == old(t.ms) && t.next == old(t.next)
             else t.ms == ms && t.next - ms == if fromNow then c.now else old(t.next) - old(t.ms))
       case _ => false
  }

  /** The due timers, and only they, were collected: one-shots are out, recurring ones are due a period from now. */
  twostate predicate Expired(m: TimerManager, now: nat)
    reads m`timers, m`all, m.all
  {
    && OnlyChanged(m, set t | t in old(m.timers))
    && (forall t :: t in old(m.timers) && t in m.all ==>
          t.ms == old(t.ms) &&
          if old(t.next) <= now then
            t.collected == old(t.collected) + 1 && (if t.recurring then t.next == now + t.ms && t.cb == old(t.cb) else t.cb.None?)
          else t.collected == old(t.collected) && t.next == old(t.next) && t.cb == old(t.cb))
    && (forall t :: t in old(m.all) && t in m.all ==> (t in m.timers <==> t in old(m.timers) && (t.recurring || old(t.next) > now)))
  }

  /** The timer is the one that was added, with its callback or none. */
  ghost predicate KeptOne(t: Timer, added: Op)
    requires added.Add?
    reads t
  {
    t.recurring == added.recurring && (t.cb.Some? ==> t.cb.value == added.cb)
  }

  /** What a call did, by what it was. */
  twostate predicate Made(m: TimerManager, handles: seq<Timer>, c: Call, new more: seq<Timer>)
    reads m, m.all, handles, more
  {
    match c.op
    case Add(ms, cb, recurring) =>
      && |more| == |handles| + 1 && more[..|handles|] == handles && OnlyChanged(m, {})
      && var t := more[|handles|];
         && t.ms == ms && t.next == c.now + ms && t.cb.Some? && t.cb.value == cb && t.recurring == recurring
         && forall u :: u in m.all ==> (u in m.timers <==> u in old(m.timers) || u == t)
    case GetNext => more == handles && OnlyChanged(m, {}) && m.timers == old(m.timers) && !m.raised
    case ListExpired(_) => more == handles && Expired(m, c.now)
    case _ => more == handles && if c.op.k < |handles| then MadeFor(m, handles[c.op.k], c) else OnlyChanged(m, {}) && m.timers == old(m.timers)
  }

  /** Facts about one timer of a tame manager. */
  lemma StartOf(m: TimerManager, t: Timer, clock: nat, ms: nat)
    requires Tame(m, clock) && t in m.all && t.cb.Some? && ms < Half
    ensures Wrap(t.next - t.ms) == t.next - t.ms && Wrap(t.next - t.ms) + ms < Two64
  {
    assert t in m.timers;
  }

  method PerformReset(m: TimerManager, t: Timer, ms: nat, fromNow: bool, now: nat, ghost clock: nat)
    requires Tame(m, clock) && t in m.all && now < Half && ms < Half
    modifies m, m.all
    ensures Tame(m, Later(clock, now)) && m.all == old(m.all)
    ensures MadeFor(m, t, Call(now, Reset(0, ms, fromNow)))
  {
    hide TimerManager.Consistent, TimerManager.ConsistentBut, TimerManager.NoLostWakeUp, TimerManager.Started, Wrap;
    if t.cb.Some? {
      StartOf(m, t, clock, ms);
    }
    var ok, notify := m.Reset(t, ms, fromNow, now);
  }

  lemma ArmedAreKnown(m: TimerManager)
    requires m.Valid()
    ensures forall i :: 0 <= i < |m.timers| ==> m.timers[i] in m.all
  {
  }

  method PerformExpired(m: TimerManager, probe: nat, now: nat, ghost clock: nat)
    requires Tame(m, clock) && Hour <= now < Half && clock <= now + Hour
    modifies m, m.all
    ensures Tame(m, Later(clock, now)) && m.all == old(m.all) && Expired(m, now)
  {
    hide TimerManager.Consistent, TimerManager.ConsistentBut, TimerManager.NoLostWakeUp, TimerManager.Started, Wrap;
    ArmedAreKnown(m);
    RollbackMeans(m.previousTime, now);
    var cbs, n := m.ListExpired(now, probe);
  }

  method PerformAdd(m: TimerManager, handles: seq<Timer>, ms: nat, cb: nat, recurring: bool, now: nat, ghost clock: nat)
    returns (more: seq<Timer>)
    requires Tame(m, clock) && Numbered(m, handles) && now < Half && ms < Half
    modifies m, m.all
    ensures Tame(m, Later(clock, now)) && Numbered(m, more) && fresh(m.all - old(m.all))
    ensures Made(m, handles, Call(now, Add(ms, cb, recurring)), more)
  {
    hide TimerManager.Consistent, TimerManager.ConsistentBut, TimerManager.NoLostWakeUp, TimerManager.Started;
    var t, notify := m.AddTimer(now, ms, cb, recurring, |handles|);
    more := handles + [t];
  }

  method Perform(m: TimerManager, handles: seq<Timer>, c: Call, ghost clock: nat) returns (more: seq<Timer>)
    requires Tame(m, clock) && Numbered(m, handles)
    requires Timely(c, clock)
    modifies m, m.all
    ensures Tame(m, Later(clock, c.now)) && Numbered(m, more) && fresh(m.all - old(m.all))
    ensures Made(m, handles, c, more)
    ensures if c.op.Add? then |more| == |handles| + 1 && KeptOne(more[|handles|], c.op) else more == handles
    ensures forall k :: 0 <= k < |handles| ==>
      && k < |more| && more[k] == handles[k] && (handles[k].cb == old(handles[k].cb) || handles[k].cb.None?)
      && (c.op == Cancel(k) ==> handles[k].cb.None?)
  {
    hide TimerManager.Consistent, TimerManager.ConsistentBut, TimerManager.NoLostWakeUp, TimerManager.Started, Wrap;
    more := handles;
    match c.op
    case Add(ms, cb, recurring) =>
      more := PerformAdd(m, handles, ms, cb, recurring, c.now, clock);
    case Cancel(k) =>
      if k < |handles| {
        var ok := m.Cancel(handles[k]);
      }
    case Refresh(k) =>
      if k < |handles| {
        var ok := m.Refresh(handles[k], c.now);
      }
    case Reset(k, ms, fromNow) =>
      if k < |handles| {
        PerformReset(m, handles[k], ms, fromNow, c.now, clock);
      }
    case GetNext =>
      var timeout := m.GetNextTimer(c.now);
    case ListExpired(probe) =>
      PerformExpired(m, probe, c.now, clock);
  }

  /** The timers that a run adds, in order. */
  function Adds(calls: seq<Call>): (ops: seq<Op>)
    ensures |ops| <= |calls| && forall i :: 0 <= i < |ops| ==> ops[i].Add?
  {
    if calls == [] then [] else Adds(calls[..|calls| - 1]) + if calls[|calls| - 1].op.Add? then [calls[|calls| - 1].op] else []
  }

  /** The run cancels timer `k` some time after it was added. */
  ghost predicate Cancels(calls: seq<Call>, k: nat) {
    exists i :: 0 <= i < |calls| && calls[i].op == Cancel(k) && k < |Adds(calls[..i])|
  }

  /** The timers are those that were added, with their callbacks or none, and none where the run cancelled it. */
  ghost predicate Kept(handles: seq<Timer>, calls: seq<Call>)
    reads handles
  {
    && |handles| == |Adds(calls)|
    && (forall k :: 0 <= k < |handles| ==> KeptOne(handles[k], Adds(calls)[k]))
    && (forall k :: 0 <= k < |handles| && Cancels(calls, k) ==> handles[k].cb.None?)
  }

  /** One call more. */
  method PerformNext(m: TimerManager, handles: seq<Timer>, c: Call, ghost clock: nat, ghost calls: seq<Call>) returns (more: seq<Timer>)
    requires Tame(m, clock) && Numbered(m, handles) && Kept(handles, calls)
    requires Timely(c, clock)
    modifies m, m.all
    ensures Tame(m, Later(clock, c.now)) && Numbered(m, more) && fresh(m.all - old(m.all))
    ensures Kept(more, calls + [c])
  {
    hide Tame, Timely, Adds, Cancels, Made;
    more := Perform(m, handles, c, clock);
    ghost var all := calls + [c];
    AddsNext(calls, c);
    forall k | 0 <= k < |more|
      ensures KeptOne(more[k], Adds(all)[k])
      ensures Cancels(all, k) ==> more[k].cb.None?
    {
      if k < |handles| {
        assert KeptOne(handles[k], Adds(calls)[k]);
      }
      CancelsNext(calls, c, k);
    }
  }

  lemma AddsNext(calls: seq<Call>, c: Call)
    ensures Adds(calls + [c]) == Adds(calls) + if c.op.Add? then [c.op] else []
  {
    assert (calls + [c])[..|calls|] == calls;
  }

  lemma CancelsNext(calls: seq<Call>, c: Call, k: nat)
    ensures Cancels(calls + [c], k) ==> Cancels(calls, k) || (c.op == Cancel(k) && k < |Adds(calls)|)
    ensures Cancels(calls, k) ==> k < |Adds(calls)|
  {
    var all := calls + [c];
    if Cancels(all, k) {
      var i :| 0 <= i < |all| && all[i].op == Cancel(k) && k < |Adds(all[..i])|;
      assert all[..i] == calls[..i];
      if i == |calls| {
        assert calls[..i] == calls;
      }
    }
    if Cancels(calls, k) {
      var i :| 0 <= i < |calls| && calls[i].op == Cancel(k) && k < |Adds(calls[..i])|;
      AddsGrow(calls, i);
    }
  }

  lemma {:induction false} AddsGrow(calls: seq<Call>, i: nat)
    requires i <= |calls|
    ensures |Adds(calls[..i])| <= |Adds(calls)|
    decreases |calls|
  {
    if i == |calls| {
      assert calls[..i] == calls;
    } else {
      AddsGrow(calls[..|calls| - 1], i);
      assert calls[..|calls| - 1][..i] == calls[..i];
    }
  }

  /**
   After any such run: a wake-up was raised since the last getNextTimer, or no armed timer is due before the deadline
   it saw. The set holds exactly the timers with a callback, a one-shot timer was collected at most once, and one
   that was cancelled is not in the set and, if one-shot, was never collected.
   */
  method Run(start: nat, calls: seq<Call>) returns (m: TimerManager, handles: seq<Timer>)
    requires Hour <= start < Half && Clean(calls, start)
    ensures m.Valid() && m.regular && Numbered(m, handles) && Kept(handles, calls)
    ensures m.raised || forall t :: t in m.timers ==> m.seen.Some? && m.seen.value <= t.next
    ensures forall t :: t in m.all ==> (t in m.timers <==> t.cb.Some?)
    ensures forall t :: t in m.all && !t.recurring ==> t.collected <= 1 && (t.cancelled ==> t.collected == 0)
    ensures forall t :: t in m.all && t.cancelled ==> t !in m.timers
  {
    m := new TimerManager(start);
    handles := [];
    var i := 0;
    ghost var clock := start;
    assert calls[..0] == [];
    while i < |calls|
      invariant 0 <= i <= |calls| && Clean(calls[i..], clock)
      invariant Tame(m, clock) && Numbered(m, handles) && Kept(handles, calls[..i]) && fresh(m) && fresh(m.all)
    {
      assert calls[i..][0] == calls[i] && calls[i..][1..] == calls[i + 1..];
      handles := PerformNext(m, handles, calls[i], clock, calls[..i]);
      assert calls[..i + 1] == calls[..i] + [calls[i]];
      clock := Later(clock, calls[i].now);
      i := i + 1;
    }
    assert calls[..i] == calls;
  }
}
