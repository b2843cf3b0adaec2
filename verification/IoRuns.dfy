/** Runs of the event loop: any order of lock-protected sections, from any number of threads. */
module IoRuns {
  import opened IoManagers
  import opened Options

  /**
   A section works on a context that its thread found before: any one made so far, since each was in the table once.
   A report of epoll_wait names the context in its data.ptr.
   */
  datatype Section =
    | Resizing(fd: nat)                                              // the write-locked part of addEvent
    | Registering(id: nat, e: Event, w: Waiter, accepts: bool)       // its part under the context lock
    | Deleting(id: nat, e: Event, accepts: bool)
    | Cancelling(id: nat, e: Event, accepts: bool)
    | CancellingAll(id: nat, accepts: bool)
    | Dispatching(id: nat, reported: Mask, errOrHup: bool, accepts: bool)

  datatype Status = Going | AssertionFailed

  /** The context exists; a resize is for an fd that was not in the table, which never has less than 32 entries. */
  predicate Possible(cs: seq<FdContext>, s: Section) {
    if s.Resizing? then s.fd >= 32 else s.id < |cs|
  }

  /** The table leads from its fd to the context, so delEvent, cancelEvent and cancelAll can find it. */
  predicate Reachable(cs: seq<FdContext>, table: seq<nat>, id: nat)
    requires id < |cs|
  {
    cs[id].fd < |table| && table[cs[id].fd] == id
  }

  predicate Found(cs: seq<FdContext>, table: seq<nat>, id: nat)
    requires id < |cs|
  {
    !cs[id].events.Empty() ==> Reachable(cs, table, id)
  }

  ghost predicate AllFound(cs: seq<FdContext>, table: seq<nat>) {
    forall id :: 0 <= id < |cs| ==> Found(cs, table, id)
  }

  /** A resize to `n` entries cuts off a context in use. */
  ghost predicate CutsOff(cs: seq<FdContext>, n: nat) {
    exists id :: 0 <= id < |cs| && !cs[id].events.Empty() && cs[id].fd >= n
  }

  /** A resize below a context in use, or a registration through a context that the table no longer has. */
  ghost predicate Strands(cs: seq<FdContext>, table: seq<nat>, s: Section)
    requires Possible(cs, s)
  {
    match s
    case Resizing(fd) => CutsOff(cs, fd * 3 / 2)
    case Registering(id, e, _, accepts) => Succeeds(cs, id, e, accepts) && !Reachable(cs, table, id)
    case _ => false
  }

  /** Some context for `fd` is in use, so the kernel knows it. */
  ghost predicate Watched(cs: seq<FdContext>, fd: nat) {
    exists i :: 0 <= i < |cs| && cs[i].fd == fd && !cs[i].events.Empty()
  }

  /** A registration goes through: the event is new, the kernel says yes, and an unused context does not meet one in use. */
  ghost predicate Succeeds(cs: seq<FdContext>, id: nat, e: Event, accepts: bool)
    requires id < |cs|
  {
    !cs[id].events.Has(e) && accepts && (cs[id].events.Empty() ==> !Watched(cs, cs[id].fd))
  }

  lemma KernelKnows(io: IOManager, fd: nat)
    requires io.Valid()
    ensures fd in io.interest <==> Watched(io.objects, fd)
  {
    if fd in io.interest {
      assert EntryMatches(io.objects, fd, io.interest[fd]);
    }
    if Watched(io.objects, fd) {
      var i :| 0 <= i < |io.objects| && io.objects[i].fd == fd && !io.objects[i].events.Empty();
      assert HasEntry(io.interest, io.objects[i], i);
    }
  }

  /** The assertions: an event registered twice, or a report of which only a part is still registered. */
  predicate Fails(cs: seq<FdContext>, s: Section)
    requires Possible(cs, s)
  {
    match s
    case Registering(id, e, _, _) => cs[id].events.Has(e)
    case Dispatching(id, reported, errOrHup, accepts) =>
      var events := cs[id].events;
      accepts && !reported.Within(events) && (if errOrHup then !events.Empty() else !events.And(reported).Empty())
    case _ => false
  }

  /** One context changed, and it is not newly in use. */
  lemma StaysFound(cs: seq<FdContext>, table: seq<nat>, id: nat, c: FdContext)
    requires AllFound(cs, table) && id < |cs| && c.fd == cs[id].fd && (!c.events.Empty() ==> !cs[id].events.Empty())
    ensures AllFound(cs[id := c], table)
  {
    var cs' := cs[id := c];
    assert Found(cs, table, id);
    forall i | 0 <= i < |cs'|
      ensures Found(cs', table, i)
    {
      assert Found(cs, table, i);
    }
  }

  /** One context changed, and is in use now. */
  lemma RegisterStrands(cs: seq<FdContext>, table: seq<nat>, id: nat, c: FdContext)
    requires AllFound(cs, table) && id < |cs| && c.fd == cs[id].fd && !c.events.Empty()
    ensures AllFound(cs[id := c], table) <==> Reachable(cs, table, id)
  {
    var cs' := cs[id := c];
    assert Found(cs', table, id) <==> Reachable(cs, table, id);
    forall i | 0 <= i < |cs'| && i != id
      ensures Found(cs', table, i)
    {
      assert Found(cs, table, i);
    }
  }

  /** The table got another size, and new contexts may have been made. */
  lemma ResizeStrands(cs: seq<FdContext>, table: seq<nat>, cs': seq<FdContext>, table': seq<nat>)
    requires AllFound(cs, table) && cs <= cs'
    requires forall i :: 0 <= i < |table'| && i < |table| ==> table'[i] == table[i]
    requires forall i :: |cs| <= i < |cs'| ==> cs'[i].events.Empty()
    ensures AllFound(cs', table') <==> !CutsOff(cs, |table'|)
  {
    if CutsOff(cs, |table'|) {
      var id :| 0 <= id < |cs| && !cs[id].events.Empty() && cs[id].fd >= |table'|;
      assert !Found(cs', table', id);
    } else {
      forall i | 0 <= i < |cs'|
        ensures Found(cs', table', i)
      {
        if i < |cs| {
          assert Found(cs, table, i) && cs'[i] == cs[i];
        }
      }
    }
  }

  // ---- waiters ----

  function Held(c: FdContext): (ws: multiset<Waiter>) {
    multiset(AsSeq(c.read)) + multiset(AsSeq(c.write))
  }

  /** The waiters in the slots of all contexts. */
  function Parked(cs: seq<FdContext>): (ws: multiset<Waiter>) {
    if cs == [] then multiset{} else Held(cs[0]) + Parked(cs[1..])
  }

  lemma Shift<T>(a: multiset<T>, p: multiset<T>, x: multiset<T>, q: multiset<T>, y: multiset<T>)
    requires p + x == q + y
    ensures (a + p) + x == (a + q) + y
  {
    assert (a + p) + x == a + (p + x) && (a + q) + y == a + (q + y);
  }

  /** What went into a slot, or came out of it, went into the whole, or came out of it. */
  lemma Difference<T>(p: multiset<T>, h: multiset<T>, q: multiset<T>, x: multiset<T>)
    requires p + h == q + (h + x)
    ensures p == q + x
  {
    forall t: T
      ensures p[t] == (q + x)[t]
    {
      assert (p + h)[t] == (q + (h + x))[t];
    }
  }

  lemma {:induction false} ParkedUpdate(cs: seq<FdContext>, i: nat, c: FdContext)
    requires i < |cs|
    ensures Parked(cs[i := c]) + Held(cs[i]) == Parked(cs) + Held(c)
  {
    hide Held;
    if i == 0 {
      assert cs[i := c][1..] == cs[1..];
    } else {
      ParkedUpdate(cs[1..], i - 1, c);
      assert cs[i := c][1..] == cs[1..][i - 1 := c];
      Shift(Held(cs[0]), Parked(cs[1..][i - 1 := c]), Held(cs[i]), Parked(cs[1..]), Held(c));
    }
  }

  lemma {:induction false} ParkedAppend(a: seq<FdContext>, b: seq<FdContext>)
    ensures Parked(a + b) == Parked(a) + Parked(b)
    decreases |a|
  {
    hide Held;
    if a == [] {
      assert a + b == b;
    } else {
      assert (a + b)[1..] == a[1..] + b;
      ParkedAppend(a[1..], b);
    }
  }

  lemma {:induction false} NobodyParked(cs: seq<FdContext>)
    requires Slots(cs) && forall i :: 0 <= i < |cs| ==> cs[i].events.Empty()
    ensures Parked(cs) == multiset{}
    decreases |cs|
  {
    if cs != [] {
      assert SlotsMatch(cs[0]);
      forall i | 0 <= i < |cs[1..]|
        ensures SlotsMatch(cs[1..][i])
      {
        assert SlotsMatch(cs[i + 1]);
      }
      NobodyParked(cs[1..]);
    }
  }

  /** The events that a section takes out of a context. */
  function Ends(c: FdContext, s: Section): (m: Mask) {
    match s
    case Deleting(_, e, accepts) => if accepts && c.events.Has(e) then NONE.With(e) else NONE
    case Cancelling(_, e, accepts) => if accepts && c.events.Has(e) then NONE.With(e) else NONE
    case CancellingAll(_, accepts) => if accepts then c.events else NONE
    case Dispatching(_, reported, errOrHup, accepts) =>
      if !accepts then NONE else if errOrHup then c.events else c.events.And(reported)
    case _ => NONE
  }

  /** The events are gone from mask and slots, all else is as before. */
  predicate TakenOut(c: FdContext, c': FdContext, m: Mask) {
    && c'.fd == c.fd
    && (forall e :: c'.events.Has(e) <==> c.events.Has(e) && !m.Has(e))
    && (forall e :: c'.Slot(e) == if m.Has(e) then None else c.Slot(e))
  }

  /** Who held the events. */
  function Holders(c: FdContext, m: Mask): (ws: seq<Waiter>) {
    (if m.read then AsSeq(c.read) else []) + (if m.write then AsSeq(c.write) else [])
  }

  lemma HeldAfter(c: FdContext, c': FdContext, m: Mask)
    requires TakenOut(c, c', m)
    ensures Held(c') + multiset(Holders(c, m)) == Held(c)
  {
    assert c'.Slot(READ) == (if m.Has(READ) then None else c.Slot(READ)) && c'.Slot(WRITE) == (if m.Has(WRITE) then None else c.Slot(WRITE));
  }

  lemma HeldMore(c: FdContext, e: Event, w: Waiter)
    requires c.Slot(e).None?
    ensures Held(c.Fill(e, Some(w)).(events := c.events.With(e))) == Held(c) + multiset{w}
  {
  }

  lemma TasksAreHolders(c: FdContext, m: Mask)
    requires SlotsMatch(c) && m.Within(c.events)
    ensures Tasks(c, m) == Holders(c, m) && TakenOut(c, Triggered(c, m), m)
  {
  }

  // ---- what a section does ----

  /** Contexts, table and queue. The kernel's table and the counter follow from the contexts. */
  datatype Io = Io(objects: seq<FdContext>, table: seq<nat>, queue: seq<Waiter>)

  const Start := Io(seq(32, (i: nat) => Unused(i)), seq(32, (i: nat) => i), [])

  ghost function Shows(io: IOManager): (s: Io)
    reads io
  {
    Io(io.objects, io.table, io.queue)
  }

  ghost function Applied(io: Io, s: Section): (io': Io)
    requires Possible(io.objects, s)
  {
    match s
    case Resizing(fd) =>
      var n := fd * 3 / 2;
      io.(objects := Made(io.objects, io.table, n), table := Resized(io.objects, io.table, n))
    case Registering(id, e, w, accepts) =>
      if !Succeeds(io.objects, id, e, accepts) then io
      else var c := io.objects[id];
        io.(objects := io.objects[id := c.Fill(e, Some(w)).(events := c.events.With(e))])
    case _ =>
      var c := io.objects[s.id];
      io.(objects := io.objects[s.id := Triggered(c, Ends(c, s))], queue := io.queue + if s.Deleting? then [] else Holders(c, Ends(c, s)))
  }

  /** The waiter that a section was given, if it was registered. */
  ghost function GivenTo(cs: seq<FdContext>, s: Section): (ws: multiset<Waiter>)
    requires Possible(cs, s)
  {
    if s.Registering? && Succeeds(cs, s.id, s.e, s.accepts) then multiset{s.w} else multiset{}
  }

  /** The waiter that delEvent took back. */
  ghost function RemovedBy(cs: seq<FdContext>, s: Section): (ws: multiset<Waiter>)
    requires Possible(cs, s)
  {
    if s.Deleting? then multiset(Holders(cs[s.id], Ends(cs[s.id], s))) else multiset{}
  }

  /** What a whole run comes to; a section on a context that does not exist yet is passed over. */
  ghost function AllApplied(io: Io, sections: seq<Section>): (io': Io)
    decreases |sections|
  {
    if sections == [] then io
    else AllApplied(if Possible(io.objects, sections[0]) then Applied(io, sections[0]) else io, sections[1..])
  }

  ghost predicate SomeFails(io: Io, sections: seq<Section>)
    decreases |sections|
  {
    sections != [] &&
    if Possible(io.objects, sections[0]) then Fails(io.objects, sections[0]) || SomeFails(Applied(io, sections[0]), sections[1..])
    else SomeFails(io, sections[1..])
  }

  ghost function AllGiven(io: Io, sections: seq<Section>): (ws: multiset<Waiter>)
    decreases |sections|
  {
    if sections == [] then multiset{}
    else if Possible(io.objects, sections[0]) then GivenTo(io.objects, sections[0]) + AllGiven(Applied(io, sections[0]), sections[1..])
    else AllGiven(io, sections[1..])
  }

  ghost function AllRemoved(io: Io, sections: seq<Section>): (ws: multiset<Waiter>)
    decreases |sections|
  {
    if sections == [] then multiset{}
    else if Possible(io.objects, sections[0]) then RemovedBy(io.objects, sections[0]) + AllRemoved(Applied(io, sections[0]), sections[1..])
    else AllRemoved(io, sections[1..])
  }

  // ---- sections ----

  method StepResize(io: IOManager, fd: nat)
    requires io.Valid() && fd >= 32
    modifies io`table, io`objects
    ensures io.Valid() && Parked(io.objects) == Parked(old(io.objects)) && Shows(io) == Applied(old(Shows(io)), Resizing(fd))
    ensures old(AllFound(io.objects, io.table)) ==> (AllFound(io.objects, io.table) <==> !CutsOff(old(io.objects), fd * 3 / 2))
  {
    hide AllFound, CutsOff, Parked;
    ghost var cs, table := io.objects, io.table;
    var id := io.Grow(fd);
    NewOnesAreEmpty(cs, io.objects);
    if AllFound(cs, table) {
      ResizeStrands(cs, table, io.objects, io.table);
    }
  }

  lemma NewOnesAreEmpty(cs: seq<FdContext>, cs': seq<FdContext>)
    requires cs <= cs' && Slots(cs') && forall i :: |cs| <= i < |cs'| ==> cs'[i].events.Empty()
    ensures Parked(cs') == Parked(cs)
  {
    var more := cs'[|cs|..];
    assert cs' == cs + more;
    ParkedAppend(cs, more);
    forall i | 0 <= i < |more|
      ensures SlotsMatch(more[i])
    {
      assert SlotsMatch(cs'[|cs| + i]);
    }
    NobodyParked(more);
  }

  method StepRegister(io: IOManager, id: nat, e: Event, w: Waiter, accepts: bool) returns (r: Added)
    requires io.Valid() && id < |io.objects|
    modifies io
    ensures io.Valid() && io.queue == old(io.queue)
    ensures r == if old(io.objects)[id].events.Has(e) then AlreadyThere else if Succeeds(old(io.objects), id, e, accepts) then Registered else Refused
    ensures Parked(io.objects) == Parked(old(io.objects)) + if r.Registered? then multiset{w} else multiset{}
    ensures Shows(io) == Applied(old(Shows(io)), Registering(id, e, w, accepts))
    ensures old(AllFound(io.objects, io.table)) ==>
      (AllFound(io.objects, io.table) <==> !(r.Registered? && !Reachable(old(io.objects), old(io.table), id)))
  {
    hide IOManager.Valid, AllFound, Parked, Watched, Held, Reachable, Watching;
    ghost var cs, table := io.objects, io.table;
    io.Own(id);
    KernelKnows(io, cs[id].fd);
    r := io.Register(id, e, w, accepts);
    if r.Registered? {
      ParkedUpdate(cs, id, io.objects[id]);
      HeldMore(cs[id], e, w);
      Difference(Parked(io.objects), Held(cs[id]), Parked(cs), multiset{w});
      if AllFound(cs, table) {
        RegisterStrands(cs, table, id, io.objects[id]);
      }
    }
  }

  lemma EndsWithin(c: FdContext, s: Section)
    ensures Ends(c, s).Within(c.events)
    ensures Ends(c, s).Empty() ==> Triggered(c, Ends(c, s)) == c && Holders(c, Ends(c, s)) == []
  {
  }

  method StepDispatch(io: IOManager, s: Section) returns (aborted: bool)
    requires io.Valid() && s.Dispatching? && s.id < |io.objects|
    modifies io
    ensures aborted <==> Fails(old(io.objects), s)
    ensures !aborted ==> io.Valid() && Shows(io) == Applied(old(Shows(io)), s)
  {
    hide IOManager.Valid;
    ghost var c := io.objects[s.id];
    io.Own(s.id);
    EndsWithin(c, s);
    TasksAreHolders(c, Ends(c, s));
    assert io.objects[s.id := c] == io.objects;
    var r := io.Dispatch(s.id, s.reported, s.errOrHup, s.accepts);
    aborted := r.Aborted?;
  }

  method StepCancel(io: IOManager, s: Section)
    requires io.Valid() && (s.Cancelling? || s.CancellingAll?) && s.id < |io.objects|
    modifies io
    ensures io.Valid() && Shows(io) == Applied(old(Shows(io)), s)
  {
    hide IOManager.Valid;
    ghost var c := io.objects[s.id];
    io.Own(s.id);
    EndsWithin(c, s);
    TasksAreHolders(c, Ends(c, s));
    assert io.objects[s.id := c] == io.objects;
    var ok: bool;
    if s.Cancelling? {
      ok := io.CancelEvent(s.id, s.e, s.accepts);
    } else {
      ok := io.CancelAll(s.id, s.accepts);
    }
  }

  method StepDelete(io: IOManager, s: Section) returns (removed: multiset<Waiter>)
    requires io.Valid() && s.Deleting? && s.id < |io.objects|
    modifies io
    ensures io.Valid() && Shows(io) == Applied(old(Shows(io)), s)
    ensures removed == RemovedBy(old(io.objects), s)
  {
    hide IOManager.Valid;
    ghost var c := io.objects[s.id];
    EndsWithin(c, s);
    assert io.objects[s.id := c] == io.objects;
    removed := multiset(Holders(io.objects[s.id], Ends(io.objects[s.id], s)));
    var ok := io.DelEvent(s.id, s.e, s.accepts);
  }

  method StepRemove(io: IOManager, s: Section) returns (aborted: bool, removed: multiset<Waiter>)
    requires io.Valid() && !s.Resizing? && !s.Registering? && s.id < |io.objects|
    modifies io
    ensures aborted <==> Fails(old(io.objects), s)
    ensures !aborted ==> io.Valid() && Shows(io) == Applied(old(Shows(io)), s)
    ensures !aborted ==> removed == RemovedBy(old(io.objects), s)
    ensures !aborted ==> multiset(io.queue) + removed + Parked(io.objects) == multiset(old(io.queue)) + Parked(old(io.objects))
    ensures !aborted && old(AllFound(io.objects, io.table)) ==> AllFound(io.objects, io.table)
  {
    hide IOManager.Valid, TakenOut, Ends, Parked, Held, Holders, AllFound, Triggered;
    aborted, removed := false, multiset{};
    ghost var cs, table, queue := io.objects, io.table, io.queue;
    ghost var c, m := cs[s.id], Ends(cs[s.id], s);
    io.Own(s.id);
    EndsWithin(c, s);
    TasksAreHolders(c, m);
    if s.Deleting? {
      removed := StepDelete(io, s);
    } else if s.Dispatching? {
      aborted := StepDispatch(io, s);
    } else {
      StepCancel(io, s);
    }
    if !aborted {
      var c' := io.objects[s.id];
      ParkedUpdate(cs, s.id, c');
      HeldAfter(c, c', m);
      Difference(Parked(cs), Held(c'), Parked(io.objects), multiset(Holders(c, m)));
      NotNewlyInUse(c, c', m);
      if AllFound(cs, table) {
        StaysFound(cs, table, s.id, c');
      }
      WentThere(queue, Holders(c, m), s.Deleting?, Parked(io.objects));
    }
  }

  lemma WentThere(queue: seq<Waiter>, out: seq<Waiter>, deleted: bool, parked: multiset<Waiter>)
    ensures multiset(queue + (if deleted then [] else out)) + (if deleted then multiset(out) else multiset{}) + parked
         == multiset(queue) + (parked + multiset(out))
  {
    assert queue + [] == queue;
  }

  lemma NotNewlyInUse(c: FdContext, c': FdContext, m: Mask)
    requires TakenOut(c, c', m)
    ensures c'.fd == c.fd && (!c'.events.Empty() ==> !c.events.Empty())
  {
    assert c'.events.Has(READ) ==> c.events.Has(READ);
    assert c'.events.Has(WRITE) ==> c.events.Has(WRITE);
  }

  /**
   Every section, on any context, keeps all views in agreement, unless an assertion fails; the waiters given to it, taken
   back by it and handed to the scheduler are accounted for; and it makes a context in use unreachable by its fd exactly
   when it is one of the two that Strands names.
   */
  method Step(io: IOManager, s: Section) returns (status: Status, given: multiset<Waiter>, removed: multiset<Waiter>)
    requires io.Valid() && Possible(io.objects, s)
    modifies io
    ensures status.AssertionFailed? <==> Fails(old(io.objects), s)
    ensures status.Going? ==> io.Valid() && Shows(io) == Applied(old(Shows(io)), s)
    ensures status.Going? ==> given == GivenTo(old(io.objects), s) && removed == RemovedBy(old(io.objects), s)
    ensures status.Going? ==> multiset(io.queue) + removed + Parked(io.objects) == multiset(old(io.queue)) + given + Parked(old(io.objects))
    ensures status.Going? && old(AllFound(io.objects, io.table)) ==>
      (AllFound(io.objects, io.table) <==> !Strands(old(io.objects), old(io.table), s))
  {
    hide IOManager.Valid, AllFound, CutsOff, Parked, Ends, Holders, Triggered, Watched;
    status, given, removed := Going, multiset{}, multiset{};
    match s
    case Resizing(fd) =>
      StepResize(io, fd);
    case Registering(id, e, w, accepts) =>
      var r := StepRegister(io, id, e, w, accepts);
      given := if r.Registered? then multiset{w} else multiset{};
      if r.AlreadyThere? {
        status := AssertionFailed;
      }
    case _ =>
      var aborted;
      aborted, removed := StepRemove(io, s);
      if aborted {
        status := AssertionFailed;
      }
  }

  /**
   Every run, resizes and stale contexts included, up to a failed assertion: the views agree (Valid), and the waiters
   given to successful registrations are just those queued for running, those removed and those still parked. A section
   on a context that does not exist yet is passed over.
   */
  method Run(sections: seq<Section>) returns (io: IOManager, status: Status, given: multiset<Waiter>, removed: multiset<Waiter>)
    ensures status.AssertionFailed? <==> SomeFails(Start, sections)
    ensures status.Going? ==> io.Valid() && Shows(io) == AllApplied(Start, sections)
    ensures status.Going? ==> given == AllGiven(Start, sections) && removed == AllRemoved(Start, sections)
    ensures status.Going? ==> given == multiset(io.queue) + removed + Parked(io.objects) && io.pending == |Parked(io.objects)|
  {
    hide Parked, IOManager.Valid, Applied, GivenTo, RemovedBy, Fails;
    io := new IOManager();
    NobodyAtFirst(io);
    status, given, removed := Going, multiset{}, multiset{};
    var i := 0;
    assert sections[0..] == sections;
    while i < |sections| && status.Going?
      invariant 0 <= i <= |sections| && fresh(io)
      invariant status.Going? ==> io.Valid() && given == multiset(io.queue) + removed + Parked(io.objects)
      invariant status.Going? ==> AllApplied(Shows(io), sections[i..]) == AllApplied(Start, sections)
      invariant status.Going? ==> given + AllGiven(Shows(io), sections[i..]) == AllGiven(Start, sections)
      invariant status.Going? ==> removed + AllRemoved(Shows(io), sections[i..]) == AllRemoved(Start, sections)
      invariant if status.Going? then SomeFails(Shows(io), sections[i..]) == SomeFails(Start, sections) else SomeFails(Start, sections)
    {
      ghost var before := Shows(io);
      assert sections[i..][0] == sections[i] && sections[i..][1..] == sections[i + 1..];
      if Possible(io.objects, sections[i]) {
        var a, b;
        ghost var parked := Parked(io.objects);
        status, a, b := Step(io, sections[i]);
        if status.Going? {
          Ledger(given, multiset(before.queue), removed, parked, a, b, multiset(io.queue), Parked(io.objects));
          Carry(given, a, AllGiven(Shows(io), sections[i + 1..]));
          Carry(removed, b, AllRemoved(Shows(io), sections[i + 1..]));
        }
        given, removed := given + a, removed + b;
      }
      i := i + 1;
    }
    if status.Going? {
      PendingIsParked(io);
    }
  }

  lemma Carry<T>(x: multiset<T>, y: multiset<T>, z: multiset<T>)
    ensures x + (y + z) == (x + y) + z
  {
  }

  lemma Ledger<T>(given: multiset<T>, queue: multiset<T>, removed: multiset<T>, parked: multiset<T>, a: multiset<T>, b: multiset<T>, queue': multiset<T>, parked': multiset<T>)
    requires given == queue + removed + parked && queue' + b + parked' == queue + a + parked
    ensures given + a == queue' + (removed + b) + parked'
  {
    forall t: T
      ensures (given + a)[t] == (queue' + (removed + b) + parked')[t]
    {
      assert (queue' + b + parked')[t] == (queue + a + parked)[t];
    }
  }

  lemma NobodyAtFirst(io: IOManager)
    requires io.Valid() && io.pending == 0
    ensures Parked(io.objects) == multiset{}
  {
    BitsZero(io.objects);
    NobodyParked(io.objects);
  }

  /** The counter is the number of parked waiters. */
  lemma PendingIsParked(io: IOManager)
    requires io.Valid()
    ensures io.pending == |Parked(io.objects)|
  {
    ParkedCount(io.objects);
  }

  lemma {:induction false} ParkedCount(cs: seq<FdContext>)
    requires Slots(cs)
    ensures |Parked(cs)| == Bits(cs)
    decreases |cs|
  {
    if cs != [] {
      assert SlotsMatch(cs[0]);
      forall i | 0 <= i < |cs[1..]|
        ensures SlotsMatch(cs[1..][i])
      {
        assert SlotsMatch(cs[i + 1]);
      }
      ParkedCount(cs[1..]);
    }
  }

  /**
   Two threads in addEvent: both find no context, `high` is grown and registered first, then `low` resizes to
   less than that. delEvent, cancelEvent and cancelAll no longer find the context of `high`.
   */
  method DroppedInUse(low: nat, high: nat, e: Event, w: Waiter) returns (io: IOManager, id: nat)
    requires 32 <= low && low * 3 / 2 <= high
    ensures io.Valid() && |io.table| <= high && id < |io.objects| && io.objects[id].fd == high && io.objects[id].events.Has(e) && io.pending == 1
  {
    io := new IOManager();
    var foundLow := io.LookUp(low);
    var foundHigh := io.LookUp(high);
    assert foundLow.None? && foundHigh.None?;
    id := io.Grow(high);
    NothingWatched(io, id);
    var rt := io.Register(id, e, w, true);
    var other := io.Grow(low);
  }

  /** The same gap, the other way round: the table is cut between the look-up of `high` and its registration. */
  method RegisteredAfterDrop(low: nat, high: nat, e: Event, w: Waiter) returns (io: IOManager, id: nat)
    requires 32 <= low && low * 3 / 2 <= high
    ensures io.Valid() && |io.table| <= high && id < |io.objects| && io.objects[id].fd == high && io.objects[id].events.Has(e) && io.pending == 1
  {
    io := new IOManager();
    var foundLow := io.LookUp(low);
    assert foundLow.None?;
    id := io.Grow(high);
    var other := io.Grow(low);
    NothingWatched(io, id);
    var rt := io.Register(id, e, w, true);
  }

  lemma NothingWatched(io: IOManager, id: nat)
    requires io.Valid() && io.interest == map[] && id < |io.objects|
    ensures io.objects[id].events.Empty()
  {
    assert !io.objects[id].events.Empty() ==> HasEntry(io.interest, io.objects[id], id);
  }

  /** epoll_wait reports both directions, one is cancelled before the dispatcher takes the lock: the assertion fails. */
  method StaleReport(fd: nat, r: Waiter, w: Waiter) returns (outcome: Dispatched)
    requires fd < 32
    ensures outcome == Aborted
  {
    var io := new IOManager();
    var id := io.LookUp(fd);
    NothingWatched(io, id.value);
    var a := io.Register(id.value, READ, r, true);
    var b := io.Register(id.value, WRITE, w, true);
    var reported := io.objects[id.value].events;
    var ok := io.CancelEvent(id.value, WRITE, true);
    outcome := io.Dispatch(id.value, reported, false, true);
  }
}
