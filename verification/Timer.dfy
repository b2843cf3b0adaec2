/**
 Timer and TimerManager of yuyu/timer.cc. The clock is an input of every operation that reads it,
 and may go back; sums wrap at 64 bits as in the source.
 */
module Timers {
  import opened Options
  import opened TimerOrder

  const Two64: nat := 0x1_0000_0000_0000_0000

  /** Reduction to uint64_t. */
  function Wrap(n: int): (r: nat)
    ensures r < Two64 && (0 <= n < Two64 ==> r == n)
  {
    n % Two64
  }

  class Timer {
    const address: nat
    const recurring: bool
    var ms: nat
    var next: nat
    var cb: Option<nat>          // the callback, None once it is nullptr

    ghost var collected: nat     // how often listExpiredCb handed the callback out
    ghost var cancelled: bool    // cancel() returned true

    constructor (ms: nat, next: nat, cb: nat, recurring: bool, address: nat)
      ensures this.ms == ms && this.next == next && this.cb == Some(cb)
      ensures this.recurring == recurring && this.address == address
      ensures collected == 0 && !cancelled
    {
      this.ms, this.next, this.cb, this.recurring, this.address := ms, next, Some(cb), recurring, address;
      collected, cancelled := 0, false;
    }

    function Key(): (k: Key)
      reads `next
    {
      TimerOrder.Key(next, address)
    }

    /** A one-shot timer is armed, collected once or cancelled: exactly one of the three. */
    ghost predicate Accounted()
      reads this
    {
      if recurring then cb.None? == cancelled
      else (if cb.Some? then 1 else 0) + collected + (if cancelled then 1 else 0) == 1
    }
  }

  /** The elements of the set, in the order of their present keys. */
  ghost predicate Sorted(ts: seq<Timer>)
    reads ts
  {
    forall i, j :: 0 <= i < j < |ts| ==> Less(ts[i].Key(), ts[j].Key())
  }

  ghost function Keys(ts: seq<Timer>): (keys: seq<Key>)
    reads ts
    ensures |keys| == |ts| && forall i :: 0 <= i < |ts| ==> keys[i] == ts[i].Key()
  {
    if ts == [] then [] else [ts[0].Key()] + Keys(ts[1..])
  }

  lemma InsertKeepsOrder(ts: seq<Timer>, t: Timer, at: nat)
    requires Sorted(ts) && at <= |ts|
    requires forall i :: 0 <= i < at ==> Less(ts[i].Key(), t.Key())
    requires at < |ts| ==> Less(t.Key(), ts[at].Key())
    ensures Sorted(ts[..at] + [t] + ts[at..])
  {
    forall i | at <= i < |ts|
      ensures Less(t.Key(), ts[i].Key())
    {
      assert i == at || Less(ts[at].Key(), ts[i].Key());
    }
  }

  lemma DropKeepsOrder(ts: seq<Timer>, at: nat)
    requires Sorted(ts) && at < |ts|
    ensures Sorted(Without(ts, at))
    ensures forall u :: u in Without(ts, at) <==> u in ts && u != ts[at]
  {
    forall u | u in ts && u != ts[at]
      ensures u in Without(ts, at)
    {
      var i :| 0 <= i < |ts| && ts[i] == u;
      assert Without(ts, at)[if i < at then i else i - 1] == u;
    }
    forall i | 0 <= i < |ts| && i != at
      ensures ts[i] != ts[at]
    {
      assert Less(ts[if i < at then i else at].Key(), ts[if i < at then at else i].Key());
    }
  }

  function Elements(ts: seq<Timer>): (e: set<Timer>) {
    set t | t in ts
  }

  lemma OneLess(ts: seq<Timer>, i: nat)
    requires i < |ts| && forall j, k :: 0 <= j < k < |ts| ==> ts[j] != ts[k]
    ensures ts[i] !in ts[..i] && ts[i] in Elements(ts[i..])
    ensures Elements(ts[i..]) - {ts[i]} == Elements(ts[i + 1..])
    ensures ts[..i + 1] == ts[..i] + [ts[i]]
  {
    assert ts[i..] == [ts[i]] + ts[i + 1..];
  }

  /** The front of the set has the earliest deadline. */
  lemma FrontIsEarliest(ts: seq<Timer>, t: Timer)
    requires Sorted(ts) && t in ts
    ensures ts[0].next <= t.next
  {
    var i :| 0 <= i < |ts| && ts[i] == t;
    assert i == 0 || Less(ts[0].Key(), ts[i].Key());
  }

  const Hour: nat := 60 * 60 * 1000

  /** The test of detectClockRollover, with its difference wrapping at 64 bits. */
  predicate RollsOver(previous: nat, now: nat) {
    now < previous && now < Wrap(previous - Hour)
  }

  /** It means a step back by more than an hour; in the first hour after time 0 it means any step back. */
  lemma RollbackMeans(previous: nat, now: nat)
    requires previous < Two64
    ensures RollsOver(previous, now) <==> now < previous && (previous < 3_600_000 || previous - now > 3_600_000)
  {
    assert previous < Hour ==> Wrap(previous - Hour) == previous - Hour + Two64;
  }

  function Later(a: nat, b: nat): (l: nat) {
    if a < b then b else a
  }

  class TimerManager {
    var timers: seq<Timer>       // the std::set, in iteration order
    var tickled: bool
    var previousTime: nat

    ghost var all: set<Timer>    // every timer of this manager, armed or not
    ghost var clock: nat         // the latest time read so far
    ghost var regular: bool      // no deadline wrapped, no rollback was detected, and no refresh read an old time
    ghost var raised: bool       // onTimerInsertedAtFront was called since the last getNextTimer
    ghost var seen: Option<nat>  // the earliest deadline that call saw, None when there was no timer

    /**
     In the set exactly when the callback is there, but for those in `out`, which are taken out for a change of key;
     and the set is ordered by the keys its elements have now.
     */
    ghost predicate ConsistentBut(out: set<Timer>)
      reads `timers, `all, all
    {
      && (forall t :: t in timers ==> t in all && t !in out && t.cb.Some?)
      && Sorted(timers)
      && out <= all
      && (forall t :: t in all ==> t.Accounted() && (t.cb.Some? && t !in out ==> t in timers))
      && (forall t, u :: t in all && u in all && t.address == u.address ==> t == u)
    }

    ghost predicate Consistent()
      reads `timers, `all, all
    {
      ConsistentBut({})
    }

    /** Nobody sleeps past a deadline: a wake-up was raised, or no timer is due before what was seen. */
    ghost predicate NoLostWakeUp()
      reads `tickled, `seen, `timers, timers
    {
      tickled || forall t :: t in timers ==> seen.Some? && seen.value <= t.next
    }

    /** Every armed timer was started at a time already read. */
    ghost predicate Started()
      reads `clock, `timers, timers
    {
      forall t :: t in timers ==> t.ms <= t.next <= clock + t.ms
    }

    ghost predicate Valid()
      reads this, all
    {
      Consistent() && raised == tickled && (regular ==> Started() && NoLostWakeUp() && previousTime <= clock)
    }

    constructor (now: nat)
      ensures Valid() && timers == [] && all == {} && previousTime == clock == now && regular && !raised && seen == None
    {
      timers, tickled, previousTime := [], false, now;
      all, clock, regular, raised, seen := {}, now, true, false, None;
    }

    /** A reading of the clock, which may be older than one that came before the lock earlier. */
    ghost method Observe(now: nat, fits: bool)
      modifies `clock, `regular
      ensures regular == (old(regular) && fits)
      ensures clock == Later(old(clock), now)
    {
      regular := regular && fits;
      clock := Later(clock, now);
    }

    /** m_timers.find: lower_bound, then a check that neither is before the other. */
    method Find(t: Timer) returns (at: nat)
      requires Sorted(timers) && t in all && (forall t :: t in timers ==> t in all)
      requires forall t, u :: t in all && u in all && t.address == u.address ==> t == u
      ensures at <= |timers| && (t in timers <==> at < |timers|)
      ensures at < |timers| ==> timers[at] == t
    {
      at := 0;
      while at < |timers| && Less(timers[at].Key(), t.Key())
        invariant at <= |timers|
        invariant forall i :: 0 <= i < at ==> timers[i] != t
      {
        at := at + 1;
      }
      if at < |timers| && Less(t.Key(), timers[at].Key()) {
        at := |timers|;
      }
    }

    method Erase(at: nat)
      requires Consistent() && at < |timers|
      modifies `timers
      ensures ConsistentBut({old(timers)[at]})
      ensures timers == Without(old(timers), at)
      ensures forall u :: u in timers <==> u in old(timers) && u != old(timers)[at]
    {
      DropKeepsOrder(timers, at);
      timers := Without(timers, at);
    }

    /** m_timers.insert. */
    method Insert(t: Timer, ghost out: set<Timer>) returns (at: nat)
      requires ConsistentBut(out) && t in out && t.cb.Some?
      modifies `timers
      ensures ConsistentBut(out - {t})
      ensures at <= |old(timers)| && timers == old(timers)[..at] + [t] + old(timers)[at..]
    {
      at := 0;
      while at < |timers| && Less(timers[at].Key(), t.Key())
        invariant at <= |timers|
        invariant forall i :: 0 <= i < at ==> Less(timers[i].Key(), t.Key())
      {
        at := at + 1;
      }
      InsertKeepsOrder(timers, t, at);
      timers := timers[..at] + [t] + timers[at..];
    }

    /** The private addTimer(): insert, and raise a wake-up for a new front unless one is under way. */
    method AddLocked(t: Timer, ghost out: set<Timer>) returns (notify: bool)
      requires ConsistentBut(out) && t in out && t.cb.Some? && raised == tickled
      requires regular ==> NoLostWakeUp()
      modifies `timers, `tickled, `raised
      ensures ConsistentBut(out - {t}) && raised == tickled
      ensures regular ==> NoLostWakeUp()
      ensures forall u :: u in timers <==> u == t || u in old(timers)
      ensures notify == (timers[0] == t && !old(tickled)) && tickled == (old(tickled) || notify)
    {
      var at := Insert(t, out);
      notify := at == 0 && !tickled;
      if notify {
        tickled := true;
        raised := true;
      }
      if !tickled {
        forall u | u in timers
          ensures regular ==> seen.Some? && seen.value <= u.next
        {
          FrontIsEarliest(timers, u);
        }
      }
    }

    method AddTimer(now: nat, ms: nat, cb: nat, recurring: bool, address: nat) returns (t: Timer, notify: bool)
      requires Valid() && forall u :: u in all ==> u.address != address
      modifies this
      ensures Valid() && fresh(t) && all == old(all) + {t}
      ensures t.ms == ms && t.next == Wrap(now + ms) && t.cb == Some(cb) && t.recurring == recurring && t.address == address
      ensures forall u :: u in timers <==> u == t || u in old(timers)
      ensures notify == (timers[0] == t && !old(tickled)) && tickled == (old(tickled) || notify)
      ensures regular == (old(regular) && now + ms < Two64)
      ensures clock == Later(old(clock), now) && seen == old(seen) && previousTime == old(previousTime)
    {
      t := new Timer(ms, Wrap(now + ms), cb, recurring, address);
      Observe(now, now + ms < Two64);
      all := all + {t};
      notify := AddLocked(t, {t});
    }

    method Cancel(t: Timer) returns (ok: bool)
      requires Valid() && t in all
      modifies `timers, t`cb, t`cancelled
      ensures Valid()
      ensures ok == old(t.cb.Some?) && t.cb == None
      ensures forall u :: u in timers <==> u != t && u in old(timers)
    {
      if t.cb.Some? {
        t.cb := None;
        t.cancelled := true;
        TakeCancelled(t);
        return true;
      }
      return false;
    }

    /** The lookup of cancel(), which finds the timer by its key. */
    method TakeCancelled(t: Timer)
      requires t in timers && t in all && Sorted(timers) && (forall u :: u in timers ==> u in all)
      requires forall t, u :: t in all && u in all && t.address == u.address ==> t == u
      modifies `timers
      ensures Sorted(timers)
      ensures forall u :: u in timers <==> u != t && u in old(timers)
    {
      var at := Find(t);
      DropKeepsOrder(timers, at);
      timers := Without(timers, at);
    }

    /** Finds an armed timer and takes it out of the set. */
    method TakeOut(t: Timer) returns (found: bool)
      requires Consistent() && t in all && t.cb.Some?
      modifies `timers
      ensures found && ConsistentBut({t})
      ensures forall u :: u in timers <==> u in old(timers) && u != t
      ensures t in old(timers)
    {
      var it := Find(t);
      if it == |timers| {
        return false;
      }
      Erase(it);
      found := true;
    }

    method Refresh(t: Timer, now: nat) returns (ok: bool)
      requires Valid() && t in all
      modifies `timers, `clock, `regular, t`next
      ensures Valid() && ok == t.cb.Some?
      ensures !ok ==> timers == old(timers) && t.next == old(t.next) && clock == old(clock) && regular == old(regular)
      ensures ok ==> t.next == Wrap(now + t.ms) && forall u :: u in timers <==> u in old(timers)
      ensures ok ==> regular == (old(regular) && old(clock) <= now && now + t.ms < Two64) && clock == Later(old(clock), now)
      ensures ok && !tickled && old(NoLostWakeUp()) ==> seen.Some? && (NoLostWakeUp() <==> seen.value <= Wrap(now + t.ms))
      ensures tickled == old(tickled) && seen == old(seen)
    {
      hide ConsistentBut, Wrap;
      if t.cb.None? {
        return false;
      }
      var found := TakeOut(t);
      if !found {
        return false;
      }
      Observe(now, clock <= now && now + t.ms < Two64);
      PutBack(t, now);
      ok := true;
    }

    /** Back into the set at now + ms, without a look at the front. */
    method PutBack(t: Timer, now: nat)
      requires ConsistentBut({t}) && t.cb.Some? && raised == tickled
      requires regular ==> Started() && NoLostWakeUp() && Later(previousTime, now) <= clock && now + t.ms < Two64
      requires regular ==> (tickled || (seen.Some? && seen.value <= now + t.ms))
      modifies `timers, t`next
      ensures Valid() && t.next == Wrap(now + t.ms)
      ensures !tickled && old(NoLostWakeUp()) ==> (NoLostWakeUp() <==> seen.Some? && seen.value <= t.next)
      ensures forall u :: u in timers <==> u == t || u in old(timers)
    {
      t.next := Wrap(now + t.ms);
      var at := Insert(t, {t});
    }

    method Reset(t: Timer, ms: nat, fromNow: bool, now: nat) returns (ok: bool, notify: bool)
      requires Valid() && t in all
      modifies `timers, `clock, `regular, `tickled, `raised, t`next, t`ms
      ensures Valid()
      ensures var same := ms == old(t.ms) && !fromNow;
        && ok == (same || t.cb.Some?)
        && (same || !ok ==> timers == old(timers) && t.next == old(t.next) && t.ms == old(t.ms) && !notify && tickled == old(tickled))
        && (same || !ok ==> clock == old(clock) && regular == old(regular))
        && (!same && ok ==>
              && t.ms == ms && t.next == Wrap((if fromNow then now else Wrap(old(t.next) - old(t.ms))) + ms)
              && (forall u :: u in timers <==> u in old(timers))
              && (fromNow ==> clock == Later(old(clock), now) && regular == (old(regular) && now + ms < Two64))
              && (!fromNow ==> clock == old(clock) && regular == (old(regular) && Wrap(old(t.next) - old(t.ms)) + ms < Two64))
              && notify == (timers[0] == t && !old(tickled)) && tickled == (old(tickled) || notify))
    {
      hide ConsistentBut;
      notify := false;
      if ms == t.ms && !fromNow {
        return true, false;
      }
      if t.cb.None? {
        return false, false;
      }
      var found := TakeOut(t);
      if !found {
        return false, false;
      }
      var start := if fromNow then now else Wrap(t.next - t.ms);
      Observe(if fromNow then now else clock, start + ms < Two64);
      notify := Rearm(t, start, ms);
      ok := true;
    }

    /** The new key goes in while the timer is out of the set. */
    method Rearm(t: Timer, start: nat, ms: nat) returns (notify: bool)
      requires ConsistentBut({t}) && t.cb.Some? && raised == tickled
      requires regular ==> Started() && NoLostWakeUp() && previousTime <= clock && start <= clock && start + ms < Two64
      modifies `timers, `tickled, `raised, t`next, t`ms
      ensures Valid() && t.ms == ms && t.next == Wrap(start + ms)
      ensures forall u :: u in timers <==> u == t || u in old(timers)
      ensures notify == (timers[0] == t && !old(tickled)) && tickled == (old(tickled) || notify)
    {
      t.ms := ms;
      t.next := Wrap(start + ms);
      notify := AddLocked(t, {t});
    }

    method GetNextTimer(now: nat) returns (timeout: nat)
      requires Valid()
      modifies `tickled, `raised, `seen, `clock, `regular
      ensures Valid() && !tickled && !raised
      ensures timers == [] ==> timeout == Two64 - 1 && seen == None && clock == old(clock) && regular == old(regular)
      ensures timers != [] ==> seen == Some(timers[0].next)
      ensures timers != [] ==> timeout == if now >= timers[0].next then 0 else timers[0].next - now
      ensures forall t :: t in timers && now <= t.next ==> now + timeout <= t.next
      ensures timers != [] ==> clock == Later(old(clock), now) && regular == old(regular)
    {
      tickled, raised := false, false;
      if timers == [] {
        seen := None;
        return Two64 - 1;
      }
      seen := Some(timers[0].next);
      Observe(now, true);
      forall t | t in timers
        ensures timers[0].next <= t.next
      {
        FrontIsEarliest(timers, t);
      }
      if now >= timers[0].next {
        timeout := 0;
      } else {
        timeout := timers[0].next - now;
      }
    }

    method DetectClockRollover(now: nat) returns (rollover: bool)
      modifies `previousTime
      ensures previousTime == now
      ensures rollover == RollsOver(old(previousTime), now)
    {
      rollover := false;
      if now < previousTime && now < Wrap(previousTime - Hour) {
        rollover := true;
      }
      previousTime := now;
    }

    /** m_timers.lower_bound. */
    method LowerBoundOf(probe: Key) returns (at: nat)
      ensures at == LowerBound(Keys(timers), probe)
    {
      ghost var keys := Keys(timers);
      at := 0;
      while at < |timers| && Less(timers[at].Key(), probe)
        invariant at <= |timers| && at + LowerBound(keys[at..], probe) == LowerBound(keys, probe)
      {
        assert keys[at..][1..] == keys[at + 1..];
        at := at + 1;
      }
    }

    /** lower_bound of the probe timer, then on over the timers due exactly now. */
    method EndOfDue(now: nat, address: nat) returns (end: nat)
      requires Sorted(timers)
      ensures end <= |timers|
      ensures forall i :: 0 <= i < |timers| ==> (i < end <==> timers[i].next <= now)
    {
      hide LowerBound, Less;
      end := LowerBoundOf(Key(now, address));
      ghost var keys, at := Keys(timers), end;
      assert Ascending(keys);
      while end < |timers| && timers[end].next == now
        invariant end <= |timers| && SkipEqual(keys, end, now) == SkipEqual(keys, at, now)
      {
        end := end + 1;
      }
      ProbeSplitsDue(keys, now, address);
    }

    /** One pass of the loop over the expired timers. */
    method Collect(t: Timer, now: nat, ghost out: set<Timer>) returns (cb: nat)
      requires ConsistentBut(out) && t in out && t.cb.Some?
      requires regular ==> Started() && NoLostWakeUp() && now <= clock
      requires regular ==> (tickled || (seen.Some? && seen.value <= now)) && (t.recurring ==> now + t.ms < Two64)
      modifies `timers, t`next, t`cb, t`collected
      ensures ConsistentBut(out - {t}) && (regular ==> Started() && NoLostWakeUp())
      ensures Some(cb) == old(t.cb) && t.collected == old(t.collected) + 1
      ensures t.recurring ==> t.cb == old(t.cb) && t.next == Wrap(now + t.ms)
      ensures !t.recurring ==> t.cb == None && t.next == old(t.next)
      ensures forall u :: u in timers <==> (u == t && t.recurring) || u in old(timers)
    {
      cb := t.cb.value;
      t.collected := t.collected + 1;
      if t.recurring {
        t.next := Wrap(now + t.ms);
        var at := Insert(t, out);
      } else {
        t.cb := None;
      }
    }

    /** What the loop does to timer `t`, which was collected. */
    twostate predicate WasCollected(t: Timer, now: nat)
      reads t
    {
      && t.collected == old(t.collected) + 1
      && (t.recurring ==> t.cb == old(t.cb) && t.next == Wrap(now + t.ms))
      && (!t.recurring ==> t.cb == None && t.next == old(t.next))
    }

    twostate predicate WasLeftAlone(t: Timer)
      reads t
    {
      t.collected == old(t.collected) && t.cb == old(t.cb) && t.next == old(t.next)
    }

    /** The loop over the expired timers, which have just been taken out of the set. */
    method CollectAll(expired: seq<Timer>, now: nat) returns (cbs: seq<nat>)
      requires ConsistentBut(Elements(expired))
      requires forall i, j :: 0 <= i < j < |expired| ==> expired[i] != expired[j]
      requires forall t :: t in expired ==> t in all && t.cb.Some?
      requires regular ==> Started() && NoLostWakeUp() && now <= clock
      requires regular ==> (tickled || (seen.Some? && seen.value <= now))
      requires regular ==> forall t :: t in expired && t.recurring ==> now + t.ms < Two64
      modifies `timers, all`next, all`cb, all`collected
      ensures Consistent() && (regular ==> Started() && NoLostWakeUp())
      ensures |cbs| == |expired| && forall i :: 0 <= i < |expired| ==> Some(cbs[i]) == old(expired[i].cb)
      ensures forall t :: t in expired ==> WasCollected(t, now)
      ensures forall t :: t in all && t !in expired ==> WasLeftAlone(t)
      ensures forall t :: t in timers <==> (t in expired && t.recurring) || t in old(timers)
    {
      hide ConsistentBut, Started, NoLostWakeUp;
      cbs := [];
      for i := 0 to |expired|
        invariant ConsistentBut(Elements(expired[i..])) && (regular ==> Started() && NoLostWakeUp())
        invariant |cbs| == i && forall j :: 0 <= j < i ==> Some(cbs[j]) == old(expired[j].cb)
        invariant forall j :: 0 <= j < i ==> WasCollected(expired[j], now)
        invariant forall t :: t in all && t !in expired[..i] ==> WasLeftAlone(t)
        invariant forall t :: t in timers <==> (t in expired[..i] && t.recurring) || t in old(timers)
      {
        OneLess(expired, i);
        var cb := Collect(expired[i], now, Elements(expired[i..]));
        cbs := cbs + [cb];
      }
      assert expired[|expired|..] == [] && Elements([]) == {};
    }

    /**
     Takes the first `k` timers of the set: without a clock rollback those due at or before now, whatever address
     the probe gets, and all of them after one. Their callbacks come back in deadline order.
     */
    method ListExpired(now: nat, probe: nat) returns (cbs: seq<nat>, ghost k: nat)
      requires Valid()
      modifies `timers, `previousTime, `clock, `regular, all`next, all`cb, all`collected
      ensures Valid() && clock == Later(old(clock), now) && k <= |old(timers)|
      ensures previousTime == if old(timers) == [] then old(previousTime) else now
      ensures forall i :: 0 <= i < |old(timers)| ==>
                (i < k <==> RollsOver(old(previousTime), now) || old(timers[i].next) <= now)
      ensures |cbs| == k && forall i :: 0 <= i < k ==> Some(cbs[i]) == old(timers[i].cb)
      ensures forall i :: 0 <= i < k ==> WasCollected(old(timers)[i], now)
      ensures forall t :: t in all && t !in old(timers)[..k] ==> WasLeftAlone(t)
      ensures forall t :: t in timers <==> t in old(timers) && (t.recurring || t !in old(timers)[..k])
      ensures regular == (old(regular) && (old(timers) == [] || !RollsOver(old(previousTime), now))
                && forall i :: 0 <= i < k && old(timers)[i].recurring ==> now + old(timers)[i].ms < Two64)
    {
      hide ConsistentBut;
      Observe(now, timers == [] || !RollsOver(previousTime, now));
      if timers == [] {
        return [], 0;
      }
      var rollover := DetectClockRollover(now);
      if !rollover && timers[0].next > now {
        NothingDue(now);
        return [], 0;
      }
      var end := |timers|;
      if !rollover {
        assert Sorted(timers) by { IsSorted(); }
        end := EndOfDue(now, probe);
      }
      k := end;
      cbs := CollectFirst(end, now);
    }

    /** The first `end` timers go out of the set and through the loop. */
    method CollectFirst(end: nat, now: nat) returns (cbs: seq<nat>)
      requires Valid() && 0 < end <= |timers| && previousTime == now <= clock
      requires regular ==> timers[0].next <= now
      modifies `timers, `regular, `clock, all`next, all`cb, all`collected
      ensures Valid() && clock == old(clock)
      ensures |cbs| == end && forall i :: 0 <= i < end ==> Some(cbs[i]) == old(timers[i].cb)
      ensures forall i :: 0 <= i < end ==> WasCollected(old(timers)[i], now)
      ensures forall t :: t in all && t !in old(timers)[..end] ==> WasLeftAlone(t)
      ensures forall t :: t in timers <==> t in old(timers) && (t.recurring || t !in old(timers)[..end])
      ensures regular == (old(regular) && forall i :: 0 <= i < end && old(timers)[i].recurring ==> now + old(timers)[i].ms < Two64)
    {
      hide ConsistentBut;
      Observe(now, forall i :: 0 <= i < end && timers[i].recurring ==> now + timers[i].ms < Two64);
      assert regular ==> (tickled || (seen.Some? && seen.value <= now)) by {
        assert timers[0] in timers;
      }
      var expired := SplitOff(end);
      cbs := CollectAll(expired, now);
    }

    lemma IsSorted()
      requires Consistent()
      ensures Sorted(timers)
    {
    }

    lemma NothingDue(now: nat)
      requires Consistent() && timers != [] && timers[0].next > now
      ensures forall i :: 0 <= i < |timers| ==> timers[i].next > now
    {
      forall i | 0 <= i < |timers|
        ensures timers[i].next > now
      {
        FrontIsEarliest(timers, timers[i]);
      }
    }

    /** Takes the first `end` timers out of the set. */
    method SplitOff(end: nat) returns (expired: seq<Timer>)
      requires Consistent() && end <= |timers|
      modifies `timers
      ensures expired == old(timers)[..end] && timers == old(timers)[end..]
      ensures ConsistentBut(Elements(expired))
      ensures forall i, j :: 0 <= i < j < |expired| ==> expired[i] != expired[j]
      ensures forall t :: t in expired ==> t in all && t.cb.Some? && t !in timers
      ensures forall t :: t in old(timers) <==> t in expired || t in timers
    {
      expired := timers[..end];
      assert timers == expired + timers[end..];
      Distinct(timers);
      timers := timers[end..];
    }

    lemma Distinct(ts: seq<Timer>)
      requires Sorted(ts)
      ensures forall i, j :: 0 <= i < j < |ts| ==> ts[i] != ts[j]
    {
      forall i, j | 0 <= i < j < |ts|
        ensures ts[i] != ts[j]
      {
        assert Less(ts[i].Key(), ts[j].Key());
      }
    }
  }
}
