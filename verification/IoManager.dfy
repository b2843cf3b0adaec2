/**
 The event registrations of yuyu/iomanager.cc. Each method is one lock-protected section, so any order of calls
 is an interleaving of threads. A context is named by a number, as by a pointer: a section works on the context that its
 thread looked up some time before, whether the table still has it or not. The kernel's epoll table is part of the
 state; its answers are inputs.
 */
module IoManagers {
  import opened Options

  datatype Event = READ | WRITE

  /** A mask of READ (EPOLLIN) and WRITE (EPOLLOUT). */
  datatype Mask = Mask(read: bool, write: bool) {
    predicate Has(e: Event) { if e.READ? then read else write }
    predicate Empty() { !read && !write }
    function With(e: Event): (m: Mask) { if e.READ? then this.(read := true) else this.(write := true) }
    function Without(e: Event): (m: Mask) { if e.READ? then this.(read := false) else this.(write := false) }
    function And(other: Mask): (m: Mask) { Mask(read && other.read, write && other.write) }
    function Or(other: Mask): (m: Mask) { Mask(read || other.read, write || other.write) }
    function Minus(other: Mask): (m: Mask) { Mask(read && !other.read, write && !other.write) }
    function Count(): (n: nat) { (if read then 1 else 0) + (if write then 1 else 0) }
    predicate Within(other: Mask) { (read ==> other.read) && (write ==> other.write) }
  }

  const NONE := Mask(false, false)

  /** What an EventContext holds: a fiber or a callback to schedule. */
  datatype Waiter = FiberWaiter(id: nat) | CallbackWaiter(id: nat)

  /** An FdContext: what it is for, what is registered, and who waits. */
  datatype FdContext = FdContext(fd: nat, events: Mask, read: Option<Waiter>, write: Option<Waiter>) {
    function Slot(e: Event): (s: Option<Waiter>) { if e.READ? then read else write }
    function Fill(e: Event, s: Option<Waiter>): (c: FdContext) {
      if e.READ? then this.(read := s) else this.(write := s)
    }
  }

  function Unused(fd: nat): (c: FdContext) {
    FdContext(fd, NONE, None, None)
  }

  // ---- the kernel ----

  /** An entry of the epoll table: the events, and the context that `data.ptr` points to. */
  datatype Entry = Entry(events: Mask, id: nat)

  datatype CtlOp = CTL_ADD | CTL_MOD | CTL_DEL

  /** epoll_ctl: refused when the kernel says so, when ADD meets a known fd, or MOD and DEL an unknown one. */
  function EpollCtl(table: map<nat, Entry>, op: CtlOp, fd: nat, entry: Entry, accepts: bool): (r: Option<map<nat, Entry>>) {
    if !accepts then None
    else match op
      case CTL_ADD => if fd in table then None else Some(table[fd := entry])
      case CTL_MOD => if fd in table then Some(table[fd := entry]) else None
      case CTL_DEL => if fd in table then Some(table - {fd}) else None
  }

  // ---- counting ----

  function Bits(cs: seq<FdContext>): (n: nat) {
    if cs == [] then 0 else cs[0].events.Count() + Bits(cs[1..])
  }

  lemma {:induction false} BitsAppend(a: seq<FdContext>, b: seq<FdContext>)
    ensures Bits(a + b) == Bits(a) + Bits(b)
  {
    if a == [] {
      assert a + b == b;
    } else {
      assert (a + b)[1..] == a[1..] + b;
      BitsAppend(a[1..], b);
    }
  }

  lemma BitsUpdate(cs: seq<FdContext>, i: nat, c: FdContext)
    requires i < |cs|
    ensures Bits(cs[i := c]) == Bits(cs) - cs[i].events.Count() + c.events.Count()
    ensures cs[i].events.Count() <= Bits(cs)
  {
    assert cs == cs[..i] + ([cs[i]] + cs[i + 1..]);
    assert cs[i := c] == cs[..i] + ([c] + cs[i + 1..]);
    BitsAppend(cs[..i], [cs[i]] + cs[i + 1..]);
    BitsAppend(cs[..i], [c] + cs[i + 1..]);
  }

  /** No bit counted means no bit anywhere. */
  lemma {:induction false} BitsZero(cs: seq<FdContext>)
    ensures Bits(cs) == 0 <==> forall i :: 0 <= i < |cs| ==> cs[i].events.Empty()
  {
    if cs != [] {
      BitsZero(cs[1..]);
      if Bits(cs) == 0 {
        forall i | 0 <= i < |cs|
          ensures cs[i].events.Empty()
        {
          assert i == 0 || cs[i] == cs[1..][i - 1];
        }
      } else {
        assert cs[0].events.Empty() ==> exists i :: 0 <= i < |cs[1..]| && !cs[1..][i].events.Empty();
      }
    }
  }

  datatype Dispatched = Skipped | CtlFailed | Done | Aborted

  // ---- what happened to whom ----

  /** A waiter was registered for a slot; the slot's waiter was handed to the scheduler; it was removed by delEvent. */
  datatype Happened =
    | Parks(fd: nat, e: Event, w: Waiter)
    | Wakes(fd: nat, e: Event)
    | Drops(fd: nat, e: Event)

  /** Who was registered last for the slot, unless woken or dropped since. */
  function Waiting(h: seq<Happened>, fd: nat, e: Event): (w: Option<Waiter>)
    decreases |h|
  {
    if h == [] then None
    else
      var last := h[|h| - 1];
      if last.fd == fd && last.e == e then (if last.Parks? then Some(last.w) else None)
      else Waiting(h[..|h| - 1], fd, e)
  }

  function AsSeq<T>(o: Option<T>): (s: seq<T>) {
    if o.Some? then [o.value] else []
  }

  /** For each wake-up, in order, the waiter that was registered last for its slot. */
  function Woken(h: seq<Happened>): (ws: seq<Waiter>)
    decreases |h|
  {
    if h == [] then []
    else
      var before, last := h[..|h| - 1], h[|h| - 1];
      Woken(before) + if last.Wakes? then AsSeq(Waiting(before, last.fd, last.e)) else []
  }

  /** A slot is filled only when it is empty, and emptied only when it is filled. */
  ghost predicate Sensible(h: seq<Happened>)
    decreases |h|
  {
    h == [] ||
    var before, last := h[..|h| - 1], h[|h| - 1];
    Sensible(before) && (last.Parks? <==> Waiting(before, last.fd, last.e).None?)
  }

  lemma WaitingAfter(h: seq<Happened>, x: Happened, fd: nat, e: Event)
    ensures Waiting(h + [x], fd, e) == if x.fd == fd && x.e == e then (if x.Parks? then Some(x.w) else None) else Waiting(h, fd, e)
  {
    assert (h + [x])[..|h|] == h;
  }

  lemma HappenedNext(h: seq<Happened>, x: Happened)
    requires Sensible(h) && (x.Parks? <==> Waiting(h, x.fd, x.e).None?)
    ensures Sensible(h + [x])
    ensures Woken(h + [x]) == Woken(h) + if x.Wakes? then AsSeq(Waiting(h, x.fd, x.e)) else []
  {
    assert (h + [x])[..|h|] == h;
  }

  /** The waiters of one slot: those registered, woken and dropped. */
  function Given(h: seq<Happened>, fd: nat, e: Event): (ws: multiset<Waiter>)
    decreases |h|
  {
    if h == [] then multiset{}
    else
      var last := h[|h| - 1];
      Given(h[..|h| - 1], fd, e) + if last.Parks? && last.fd == fd && last.e == e then multiset{last.w} else multiset{}
  }

  function Ended(h: seq<Happened>, fd: nat, e: Event, dropped: bool): (ws: multiset<Waiter>)
    decreases |h|
  {
    if h == [] then multiset{}
    else
      var before, last := h[..|h| - 1], h[|h| - 1];
      Ended(before, fd, e, dropped)
        + if last.fd == fd && last.e == e && (if dropped then last.Drops? else last.Wakes?) then multiset(AsSeq(Waiting(before, fd, e))) else multiset{}
  }

  /** Nobody gets lost and nobody is woken twice: for each slot, who was registered was woken, dropped or still waits. */
  lemma {:induction false} SlotBalances(h: seq<Happened>, fd: nat, e: Event)
    requires Sensible(h)
    ensures Given(h, fd, e) == Ended(h, fd, e, false) + Ended(h, fd, e, true) + multiset(AsSeq(Waiting(h, fd, e)))
    decreases |h|
  {
    if h != [] {
      SlotBalances(h[..|h| - 1], fd, e);
    }
  }

  /** What the kernel watches `fd` for. */
  function MaskAt(table: map<nat, Entry>, fd: nat): (m: Mask) {
    if fd in table then table[fd].events else NONE
  }

  predicate SlotsMatch(c: FdContext) {
    (c.events.read <==> c.read.Some?) && (c.events.write <==> c.write.Some?)
  }

  ghost predicate Slots(cs: seq<FdContext>) {
    forall i :: 0 <= i < |cs| ==> SlotsMatch(cs[i])
  }

  /** The kernel's entry for `fd` is that of a context for `fd` with the same, non-empty mask. */
  predicate EntryMatches(cs: seq<FdContext>, fd: nat, entry: Entry) {
    && entry.id < |cs| && cs[entry.id].fd == fd
    && cs[entry.id].events == entry.events && !entry.events.Empty()
  }

  /** A context in use is the one that the kernel has for its fd. */
  predicate HasEntry(table: map<nat, Entry>, c: FdContext, id: nat) {
    c.fd in table && table[c.fd].id == id
  }

  /** Contexts in use and the kernel's entries are the same, so there is at most one context in use for an fd. */
  ghost predicate Kernel(cs: seq<FdContext>, table: map<nat, Entry>) {
    && (forall fd :: fd in table ==> EntryMatches(cs, fd, table[fd]))
    && (forall id :: 0 <= id < |cs| && !cs[id].events.Empty() ==> HasEntry(table, cs[id], id))
  }

  /** The waiter in the slot of the context that the kernel has for `fd`. */
  function SlotAt(cs: seq<FdContext>, table: map<nat, Entry>, fd: nat, e: Event): (w: Option<Waiter>) {
    if fd in table && table[fd].id < |cs| then cs[table[fd].id].Slot(e) else None
  }

  /** The slots hold who waits according to the history, and the queue is who was woken. */
  ghost predicate Accounted(cs: seq<FdContext>, table: map<nat, Entry>, h: seq<Happened>, queue: seq<Waiter>) {
    Sensible(h) && queue == Woken(h) && forall fd: nat, e :: Waiting(h, fd, e) == SlotAt(cs, table, fd, e)
  }

  /** The kernel's table once context `id` for `fd` has the mask `m`. */
  function Watching(table: map<nat, Entry>, fd: nat, m: Mask, id: nat): (table': map<nat, Entry>) {
    if m.Empty() then table - {fd} else table[fd := Entry(m, id)]
  }

  /** A change of one context and of the kernel's entry for its fd keeps them in step. */
  lemma KernelReplaced(cs: seq<FdContext>, table: map<nat, Entry>, id: nat, c: FdContext)
    requires id < |cs| && Kernel(cs, table) && c.fd == cs[id].fd
    requires !cs[id].events.Empty() || c.fd !in table
    ensures Kernel(cs[id := c], Watching(table, c.fd, c.events, id))
  {
    var cs', table' := cs[id := c], Watching(table, c.fd, c.events, id);
    assert !cs[id].events.Empty() ==> HasEntry(table, cs[id], id);
    forall fd | fd in table'
      ensures EntryMatches(cs', fd, table'[fd])
    {
      if fd != c.fd {
        assert EntryMatches(cs, fd, table[fd]);
      }
    }
    forall i | 0 <= i < |cs'| && !cs'[i].events.Empty()
      ensures HasEntry(table', cs'[i], i)
    {
      if i != id {
        assert HasEntry(table, cs[i], i);
      }
    }
  }

  /** The slots after a change of one context and of the kernel's entry for its fd. */
  lemma SlotsReplaced(cs: seq<FdContext>, table: map<nat, Entry>, id: nat, c: FdContext, fd: nat, e: Event)
    requires id < |cs| && Kernel(cs, table) && SlotsMatch(cs[id]) && SlotsMatch(c) && c.fd == cs[id].fd
    requires !cs[id].events.Empty() || c.fd !in table
    ensures SlotAt(cs, table, c.fd, e) == cs[id].Slot(e)
    ensures SlotAt(cs[id := c], Watching(table, c.fd, c.events, id), fd, e) == if fd == c.fd then c.Slot(e) else SlotAt(cs, table, fd, e)
  {
    if !cs[id].events.Empty() {
      assert HasEntry(table, cs[id], id);
    }
    if fd in table {
      assert EntryMatches(cs, fd, table[fd]);
    }
  }

  /** FdContext::triggerEvent leaves the bit cleared and the slot empty; the waiter goes to the scheduler. */
  function Triggered(c: FdContext, fired: Mask): (after: FdContext) {
    FdContext(c.fd, c.events.Minus(fired), if fired.read then None else c.read, if fired.write then None else c.write)
  }

  /** The waiters scheduled, READ first. */
  function Tasks(c: FdContext, fired: Mask): (ws: seq<Waiter>)
    requires SlotsMatch(c) && fired.Within(c.events)
    ensures |ws| == fired.Count()
  {
    (if fired.read then [c.read.value] else []) + (if fired.write then [c.write.value] else [])
  }

  lemma InUseIsWatched(cs: seq<FdContext>, table: map<nat, Entry>, id: nat)
    requires Kernel(cs, table) && id < |cs| && !cs[id].events.Empty()
    ensures cs[id].fd in table && table[cs[id].fd] == Entry(cs[id].events, id)
  {
    assert HasEntry(table, cs[id], id);
    assert EntryMatches(cs, cs[id].fd, table[cs[id].fd]);
  }

  /** Firing some of the events of a context keeps the views in step, once the kernel has let go of them. */
  lemma FiringKeeps(cs: seq<FdContext>, table: map<nat, Entry>, id: nat, fired: Mask)
    requires id < |cs| && Slots(cs) && Kernel(cs, table)
    requires fired.Within(cs[id].events) && !fired.Empty()
    ensures var c := Triggered(cs[id], fired);
      var table' := Watching(table, c.fd, c.events, id);
      && SlotsMatch(cs[id]) && Slots(cs[id := c]) && Kernel(cs[id := c], table')
      && Bits(cs[id := c]) == Bits(cs) - fired.Count()
  {
    hide Kernel, Bits;
    var c := Triggered(cs[id], fired);
    BitsUpdate(cs, id, c);
    KernelReplaced(cs, table, id, c);
  }

  /** What firing adds to the history, READ first. */
  function Wakings(fd: nat, fired: Mask): (h: seq<Happened>) {
    (if fired.read then [Wakes(fd, READ)] else []) + (if fired.write then [Wakes(fd, WRITE)] else [])
  }

  /** Who is to be woken then: for each slot the one registered last. */
  function Due(h: seq<Happened>, fd: nat, fired: Mask): (ws: seq<Waiter>) {
    (if fired.read then AsSeq(Waiting(h, fd, READ)) else []) + (if fired.write then AsSeq(Waiting(h, fd, WRITE)) else [])
  }

  lemma WakingsAccount(h: seq<Happened>, fd: nat, fired: Mask)
    requires Sensible(h) && forall e :: fired.Has(e) ==> Waiting(h, fd, e).Some?
    ensures var h' := h + Wakings(fd, fired);
      && Sensible(h')
      && Woken(h') == Woken(h) + Due(h, fd, fired)
      && forall f: nat, e :: Waiting(h', f, e) == if f == fd && fired.Has(e) then None else Waiting(h, f, e)
  {
    hide Sensible, Woken, Waiting;
    var h1 := if fired.read then h + [Wakes(fd, READ)] else h;
    if fired.read {
      assert fired.Has(READ);
      HappenedNext(h, Wakes(fd, READ));
    }
    forall f: nat, e
      ensures Waiting(h1, f, e) == if f == fd && e == READ && fired.read then None else Waiting(h, f, e)
    {
      WaitingAfter(h, Wakes(fd, READ), f, e);
    }
    var h2 := if fired.write then h1 + [Wakes(fd, WRITE)] else h1;
    if fired.write {
      assert fired.Has(WRITE);
      HappenedNext(h1, Wakes(fd, WRITE));
    }
    forall f: nat, e
      ensures Waiting(h2, f, e) == if f == fd && fired.Has(e) then None else Waiting(h, f, e)
    {
      WaitingAfter(h1, Wakes(fd, WRITE), f, e);
    }
    assert h + Wakings(fd, fired) == h2;
  }

  /** Firing hands over just the waiters that the history has for the slots. */
  lemma FiringAccounts(cs: seq<FdContext>, table: map<nat, Entry>, h: seq<Happened>, queue: seq<Waiter>, id: nat, fired: Mask)
    requires id < |cs| && Slots(cs) && Kernel(cs, table) && Accounted(cs, table, h, queue)
    requires fired.Within(cs[id].events) && !fired.Empty()
    ensures var c := Triggered(cs[id], fired);
      && SlotsMatch(cs[id]) && Tasks(cs[id], fired) == Due(h, c.fd, fired)
      && Accounted(cs[id := c], Watching(table, c.fd, c.events, id), h + Wakings(c.fd, fired), queue + Tasks(cs[id], fired))
  {
    hide Kernel, Sensible, Woken, Waiting, SlotAt, Watching;
    var c := Triggered(cs[id], fired);
    var cs', table', h' := cs[id := c], Watching(table, c.fd, c.events, id), h + Wakings(c.fd, fired);
    forall e
      ensures Waiting(h, c.fd, e) == cs[id].Slot(e)
    {
      SlotsReplaced(cs, table, id, c, c.fd, e);
    }
    WakingsAccount(h, c.fd, fired);
    forall f: nat, e
      ensures Waiting(h', f, e) == SlotAt(cs', table', f, e)
    {
      SlotsReplaced(cs, table, id, c, f, e);
      assert Waiting(h, f, e) == SlotAt(cs, table, f, e);
      FilledAfter(cs[id], fired, e);
    }
    assert queue + Tasks(cs[id], fired) == Woken(h');
  }

  lemma FilledAfter(c: FdContext, fired: Mask, e: Event)
    requires SlotsMatch(c)
    ensures Triggered(c, fired).Slot(e) == if fired.Has(e) then None else c.Slot(e)
  {
  }

  /** One registration more, or one taken back: `x` is what happened to the slot, and `c` the context with it. */
  lemma BookingKeeps(cs: seq<FdContext>, table: map<nat, Entry>, h: seq<Happened>, queue: seq<Waiter>, id: nat, c: FdContext, x: Happened)
    requires id < |cs| && Slots(cs) && Kernel(cs, table) && Accounted(cs, table, h, queue) && !x.Wakes?
    requires x.fd == cs[id].fd && (x.Drops? <==> cs[id].events.Has(x.e))
    requires !cs[id].events.Empty() || x.fd !in table
    requires c == Booked(cs[id], x)
    ensures var table' := Watching(table, c.fd, c.events, id);
      && Slots(cs[id := c]) && Kernel(cs[id := c], table') && Accounted(cs[id := c], table', h + [x], queue)
      && Bits(cs[id := c]) == Bits(cs) + if x.Parks? then 1 else -1
  {
    hide Kernel, Bits, Sensible, Woken, Waiting, SlotAt, Watching;
    var table' := Watching(table, c.fd, c.events, id);
    BitsUpdate(cs, id, c);
    KernelReplaced(cs, table, id, c);
    SlotsReplaced(cs, table, id, c, x.fd, x.e);
    assert Waiting(h, x.fd, x.e) == cs[id].Slot(x.e);
    HappenedNext(h, x);
    forall f: nat, e
      ensures Waiting(h + [x], f, e) == SlotAt(cs[id := c], table', f, e)
    {
      WaitingAfter(h, x, f, e);
      SlotsReplaced(cs, table, id, c, f, e);
      assert Waiting(h, f, e) == SlotAt(cs, table, f, e);
    }
  }

  /** The context once that has happened to its slot. */
  function Booked(c: FdContext, x: Happened): (c': FdContext) {
    if x.Parks? then c.Fill(x.e, Some(x.w)).(events := c.events.With(x.e))
    else c.Fill(x.e, None).(events := c.events.Without(x.e))
  }

  /** All contexts once the table has `n` entries: one more for each fd that had none. */
  function Made(cs: seq<FdContext>, table: seq<nat>, n: nat): (cs': seq<FdContext>)
    ensures cs <= cs' && forall i :: |cs| <= i < |cs'| ==> cs'[i].events.Empty()
    ensures n <= |table| ==> cs' == cs
  {
    if n <= |table| then cs else Made(cs, table, n - 1) + [Unused(n - 1)]
  }

  function Resized(cs: seq<FdContext>, table: seq<nat>, n: nat): (table': seq<nat>)
    ensures |table'| == n && forall i :: 0 <= i < n && i < |table| ==> table'[i] == table[i]
  {
    if n <= |table| then table[..n] else Resized(cs, table, n - 1) + [|Made(cs, table, n - 1)|]
  }

  datatype Added = Registered | Refused | AlreadyThere   // 0, -1, and the failed assertion

  class IOManager {
    var objects: seq<FdContext>               // every context made so far
    var table: seq<nat>                       // m_fdContexts: the context for each fd
    var pending: nat                          // m_pendingEventCount
    var queue: seq<Waiter>                    // tasks handed to the scheduler, in order
    var interest: map<nat, Entry>             // the kernel's epoll table
    ghost var history: seq<Happened>

    /**
     Masks, waiter slots and kernel agree for every context made, in the table or not; the counter is the number of
     their bits; and every registration is accounted for.
     */
    ghost predicate Valid()
      reads this
    {
      && TableFits()
      && Slots(objects)
      && Kernel(objects, interest)
      && pending == Bits(objects)
      && Accounted(objects, interest, history, queue)
    }

    ghost predicate TableFits()
      reads `table, `objects
    {
      |table| >= 32 && forall i :: 0 <= i < |table| ==> table[i] < |objects| && objects[table[i]].fd == i
    }

    constructor ()
      ensures Valid() && objects == seq(32, (i: nat) => Unused(i)) && table == seq(32, (i: nat) => i) && pending == 0 && queue == [] && interest == map[] && history == []
    {
      objects := seq(32, (i: nat) => Unused(i));
      table := seq(32, (i: nat) => i);
      pending, queue, interest, history := 0, [], map[], [];
      new;
      BitsZero(objects);
    }

    /** The test in stopping(): the counter is zero exactly when no waiter is parked and the kernel watches nothing. */
    lemma PendingZeroMeansIdle()
      requires Valid()
      ensures pending == 0 <==> forall i :: 0 <= i < |objects| ==> objects[i].read.None? && objects[i].write.None?
      ensures pending == 0 <==> interest == map[]
    {
      BitsZero(objects);
      if pending != 0 {
        var i :| 0 <= i < |objects| && !objects[i].events.Empty();
        assert SlotsMatch(objects[i]) && HasEntry(interest, objects[i], i);
        assert objects[i].fd in interest;
      } else {
        forall i | 0 <= i < |objects|
          ensures objects[i].read.None? && objects[i].write.None?
        {
          assert SlotsMatch(objects[i]);
        }
        AnEntryIsInUse();
      }
    }

    lemma AnEntryIsInUse()
      requires Kernel(objects, interest)
      ensures interest != map[] ==> exists i :: 0 <= i < |objects| && !objects[i].events.Empty()
    {
      if interest != map[] {
        var fd :| fd in interest;
        assert EntryMatches(objects, fd, interest[fd]);
        assert !objects[interest[fd].id].events.Empty();
      }
    }

    /** At most one context in use for an fd, however many were made for it. */
    lemma OneInUse(i: nat, j: nat)
      requires Valid() && i < |objects| && j < |objects| && objects[i].fd == objects[j].fd
      requires !objects[i].events.Empty() && !objects[j].events.Empty()
      ensures i == j
    {
      assert HasEntry(interest, objects[i], i) && HasEntry(interest, objects[j], j);
    }

    /** The read-locked look-up: the context that the table has for `fd` now. */
    method LookUp(fd: nat) returns (id: Option<nat>)
      ensures id == if fd < |table| then Some(table[fd]) else None
    {
      id := if |table| > fd then Some(table[fd]) else None;
    }

    /** The contexts above the new size leave the table and live on; new ones are made for the fds that have none. */
    method ContextResize(n: nat)
      requires n >= 32 && Valid()
      modifies `table, `objects
      ensures Valid() && objects == Made(old(objects), old(table), n) && table == Resized(old(objects), old(table), n)
    {
      if n <= |table| {
        table := table[..n];
      }
      assert objects == Made(old(objects), old(table), |table|);
      while |table| < n
        invariant Valid() && |table| <= n && (n <= |old(table)| ==> |table| == n) && (n > |old(table)| ==> |table| >= |old(table)|)
        invariant objects == Made(old(objects), old(table), |table|) && table == Resized(old(objects), old(table), |table|)
      {
        MakeContext();
      }
    }

    /** One pass of the loop: a context for the next fd. */
    method MakeContext()
      requires Valid()
      modifies `table, `objects
      ensures Valid() && objects == old(objects) + [Unused(|old(table)|)] && table == old(table) + [|old(objects)|]
    {
      MoreContexts(objects, [Unused(|table|)]);
      objects, table := objects + [Unused(|table|)], table + [|objects|];
    }

    lemma MoreContexts(before: seq<FdContext>, more: seq<FdContext>)
      requires Slots(before) && Kernel(before, interest) && forall i :: 0 <= i < |more| ==> SlotsMatch(more[i]) && more[i].events.Empty()
      ensures Slots(before + more) && Kernel(before + more, interest) && Bits(before + more) == Bits(before)
    {
      BitsAppend(before, more);
      BitsZero(more);
      var all := before + more;
      forall fd | fd in interest
        ensures EntryMatches(all, fd, interest[fd])
      {
        assert EntryMatches(before, fd, interest[fd]);
      }
      forall i | 0 <= i < |all| && !all[i].events.Empty()
        ensures HasEntry(interest, all[i], i)
      {
        assert HasEntry(interest, before[i], i);
      }
    }

    /** The write-locked part of addEvent, for a thread that found no context for `fd` some time before. */
    method Grow(fd: nat) returns (id: nat)
      requires Valid() && fd >= 32
      modifies `table, `objects
      ensures Valid() && fd < |table| && id == table[fd]
      ensures objects == Made(old(objects), old(table), fd * 3 / 2) && table == Resized(old(objects), old(table), fd * 3 / 2)
    {
      ContextResize(fd * 3 / 2);
      id := table[fd];
    }

    /** Whether epoll_ctl takes the entry that a registration through context `id` makes. */
    predicate KernelTakes(id: nat, accepts: bool)
      requires id < |objects|
      reads `objects, `interest
    {
      accepts && (objects[id].events.Empty() ==> objects[id].fd !in interest)
    }

    /**
     The part of addEvent under the lock of context `id`; `accepts` is the kernel's answer. Through a second context
     for the same fd the kernel refuses an ADD.
     */
    method Register(id: nat, e: Event, w: Waiter, accepts: bool) returns (r: Added)
      requires Valid() && id < |objects|
      modifies this
      ensures r == if old(objects)[id].events.Has(e) then AlreadyThere else if old(KernelTakes(id, accepts)) then Registered else Refused
      ensures Valid() && queue == old(queue) && table == old(table)
      ensures r.Registered? ==>
        var c := old(objects)[id];
        objects == old(objects)[id := c.Fill(e, Some(w)).(events := c.events.With(e))] && pending == old(pending) + 1
        && history == old(history) + [Parks(c.fd, e, w)]
        && interest == Watching(old(interest), c.fd, c.events.With(e), id)
      ensures !r.Registered? ==> Untouched()
    {
      var ctx := objects[id];
      if ctx.events.Has(e) {
        return AlreadyThere;
      }
      hide Kernel, Accounted, Bits, Slots, TableFits;
      var op := if ctx.events.Empty() then CTL_ADD else CTL_MOD;
      var events := ctx.events.With(e);
      Own(id);
      var table' := EpollCtl(interest, op, ctx.fd, Entry(events, id), accepts);
      if table'.None? {
        return Refused;
      }
      assert ctx.Slot(e).None?;   // YUYU_ASSERT: the slot is free
      Replace(id, Parks(ctx.fd, e, w));
      interest, pending := table'.value, pending + 1;
      r := Registered;
    }

    /** What a section may rely on for the context it has locked. */
    lemma Own(id: nat)
      requires Valid() && id < |objects|
      ensures SlotsMatch(objects[id])
      ensures !objects[id].events.Empty() ==> objects[id].fd in interest && interest[objects[id].fd] == Entry(objects[id].events, id)
    {
      if !objects[id].events.Empty() {
        assert HasEntry(interest, objects[id], id);
        assert EntryMatches(objects, objects[id].fd, interest[objects[id].fd]);
      }
    }

    /** A changed context and its books; the caller changes kernel and counter along with it. */
    method Replace(id: nat, x: Happened)
      requires Valid() && id < |objects| && !x.Wakes? && x.fd == objects[id].fd && (x.Drops? <==> objects[id].events.Has(x.e))
      requires !objects[id].events.Empty() || x.fd !in interest
      modifies `objects, `history
      ensures objects == old(objects)[id := Booked(old(objects)[id], x)] && history == old(history) + [x]
      ensures
        var table' := Watching(interest, x.fd, objects[id].events, id);
        && TableFits() && Slots(objects) && Kernel(objects, table') && Accounted(objects, table', history, queue)
        && Bits(objects) == pending + if x.Parks? then 1 else -1
    {
      hide Kernel, Accounted, Bits, Slots;
      var c := Booked(objects[id], x);
      BookingKeeps(objects, interest, history, queue, id, c, x);
      objects, history := objects[id := c], history + [x];
    }

    /** delEvent behind its look-up. */
    method DelEvent(id: nat, e: Event, accepts: bool) returns (ok: bool)
      requires Valid() && id < |objects|
      modifies this
      ensures ok == (accepts && old(objects)[id].events.Has(e))
      ensures Valid() && queue == old(queue) && table == old(table)
      ensures ok ==>
        var c := old(objects)[id];
        objects == old(objects)[id := c.Fill(e, None).(events := c.events.Without(e))] && pending == old(pending) - 1
        && history == old(history) + [Drops(c.fd, e)]
      ensures !ok ==> Untouched()
    {
      var ctx := objects[id];
      if !ctx.events.Has(e) {
        return false;
      }
      var left := ctx.events.Without(e);
      var op := if left.Empty() then CTL_DEL else CTL_MOD;
      Own(id);
      var table' := EpollCtl(interest, op, ctx.fd, Entry(left, id), accepts);
      if table'.None? {
        return false;
      }
      Replace(id, Drops(ctx.fd, e));
      interest, pending := table'.value, pending - 1;
      ok := true;
    }

    twostate predicate Untouched()
      reads this
    {
      && objects == old(objects) && table == old(table) && queue == old(queue) && pending == old(pending)
      && interest == old(interest) && history == old(history)
    }

    /** The waiters of the fired events, and nothing else, moved from their slots to the end of the queue. */
    twostate predicate Fired(id: nat, fired: Mask)
      reads this
    {
      && id < |old(objects)| && SlotsMatch(old(objects)[id]) && fired.Within(old(objects)[id].events)
      && objects == old(objects)[id := Triggered(old(objects)[id], fired)]
      && queue == old(queue) + Tasks(old(objects)[id], fired) == old(queue) + Due(old(history), old(objects)[id].fd, fired)
      && pending == old(pending) - fired.Count() && table == old(table)
      && history == old(history) + Wakings(old(objects)[id].fd, fired)
    }

    /** triggerEvent for each fired event, with the counter going down each time; the kernel has let go already. */
    method Fire(id: nat, fired: Mask, ghost was: map<nat, Entry>)
      requires id < |objects| && TableFits() && Slots(objects) && Kernel(objects, was) && pending == Bits(objects)
      requires Accounted(objects, was, history, queue)
      requires fired.Within(objects[id].events) && !fired.Empty()
      requires interest == Watching(was, objects[id].fd, objects[id].events.Minus(fired), id)
      modifies `objects, `queue, `pending, `history
      ensures Valid() && Fired(id, fired)
    {
      hide Kernel, Accounted, Bits, Slots;
      var ctx := objects[id];
      ghost var after := Triggered(ctx, fired);
      FiringKeeps(objects, was, id, fired);
      FiringAccounts(objects, was, history, queue, id, fired);
      history := history + Wakings(ctx.fd, fired);
      if fired.read {
        queue := queue + [ctx.read.value];
        objects := objects[id := ctx.(read := None, events := ctx.events.Without(READ))];
        pending := pending - 1;
      }
      if fired.write {
        queue := queue + [ctx.write.value];
        objects := objects[id := objects[id].(write := None, events := objects[id].events.Without(WRITE))];
        pending := pending - 1;
      }
      assert objects == old(objects)[id := after];
      assert queue == old(queue) + Tasks(ctx, fired);
    }

    /** cancelEvent behind its look-up. */
    method CancelEvent(id: nat, e: Event, accepts: bool) returns (ok: bool)
      requires Valid() && id < |objects|
      modifies this
      ensures Valid()
      ensures ok == (accepts && old(objects)[id].events.Has(e))
      ensures ok ==> Fired(id, NONE.With(e))
      ensures !ok ==> Untouched()
    {
      var ctx := objects[id];
      if !ctx.events.Has(e) {
        return false;
      }
      var left := ctx.events.Without(e);
      var op := if left.Empty() then CTL_DEL else CTL_MOD;
      Own(id);
      var table' := EpollCtl(interest, op, ctx.fd, Entry(left, id), accepts);
      if table'.None? {
        return false;
      }
      ghost var was := interest;
      interest := table'.value;
      Fire(id, NONE.With(e), was);
      ok := true;
    }

    /** cancelAll behind its look-up. */
    method CancelAll(id: nat, accepts: bool) returns (ok: bool)
      requires Valid() && id < |objects|
      modifies this
      ensures Valid()
      ensures ok == (accepts && !old(objects)[id].events.Empty())
      ensures ok ==> Fired(id, old(objects)[id].events) && objects[id] == Unused(old(objects)[id].fd)
      ensures !ok ==> Untouched()
    {
      var ctx := objects[id];
      if ctx.events.Empty() {
        return false;
      }
      Own(id);
      var table' := EpollCtl(interest, CTL_DEL, ctx.fd, Entry(NONE, id), accepts);
      if table'.None? {
        return false;
      }
      ghost var was := interest;
      interest := table'.value;
      Fire(id, ctx.events, was);
      assert objects[id].events.Empty();   // YUYU_ASSERT
      ok := true;
    }

    /**
     What idle() does with one reported event: `id` is its data.ptr. `reported` came from epoll_wait, before the lock was
     taken. The assertion in triggerEvent fails exactly when some of it is registered and some of it is not.
     */
    method Dispatch(id: nat, reported: Mask, errOrHup: bool, accepts: bool) returns (r: Dispatched)
      requires Valid() && id < |objects|
      modifies this
      ensures
        var events := old(objects)[id].events;
        var hit := if errOrHup then reported.Or(events) else reported;
        && r == (if events.And(hit).Empty() then Skipped
                 else if !accepts then CtlFailed
                 else if hit.Within(events) then Done
                 else Aborted)
        && (r.Done? ==> Fired(id, hit))
      ensures !r.Aborted? ==> Valid()
      ensures r.Skipped? || r.CtlFailed? ==> Untouched()
    {
      var ctx := objects[id];
      var hit := reported;
      if errOrHup {
        hit := hit.Or(ctx.events);
      }
      if ctx.events.And(hit).Empty() {
        return Skipped;
      }
      var left := ctx.events.Minus(hit);
      var op := if left.Empty() then CTL_DEL else CTL_MOD;
      Own(id);
      var table' := EpollCtl(interest, op, ctx.fd, Entry(left, id), accepts);
      if table'.None? {
        return CtlFailed;
      }
      ghost var was := interest;
      interest := table'.value;
      if (hit.read && !ctx.events.read) || (hit.write && !ctx.events.write) {
        return Aborted;   // YUYU_ASSERT(events & event) in triggerEvent
      }
      Fire(id, hit, was);
      r := Done;
    }

    /** addEvent without other threads in between. */
    method AddEvent(fd: nat, e: Event, w: Waiter, accepts: bool) returns (r: Added)
      requires Valid()
      modifies this
      ensures Valid() && queue == old(queue) && fd < |table|
      ensures r.Registered? ==>
        && MaskAt(interest, fd) == MaskAt(old(interest), fd).With(e) && interest[fd].id == table[fd]
        && objects[table[fd]].Slot(e) == Some(w) && pending == old(pending) + 1
      ensures !r.Registered? ==> interest == old(interest) && pending == old(pending)
      ensures forall f: nat :: f != fd ==> MaskAt(interest, f) == MaskAt(old(interest), f)
    {
      var id := LookUp(fd);
      if id.None? {
        var made := Grow(fd);
        id := Some(made);
      }
      Own(id.value);
      r := Register(id.value, e, w, accepts);
      Own(id.value);
    }
  }
}
