# Verified models of yuyu

yuyu is a C++ framework of fibers on top of epoll: a scheduler, an I/O manager with timers, hooked blocking calls, a
chunked byte buffer and an HTTP layer. This project models the parts of it where the state is delicate and proves what
they keep. `dafny verify dfyconfig.toml` checks all of it.

| files | what they model |
|---|---|
| `Bytes`, `ByteArray`, `ByteArrayRuns`, `BaseSize`, `SocketStream` | the linked list of nodes with its cached cursor, as one flat memory with a head; runs, and what they show of the base size; readv and writev |
| `Codec`, `WireFormat`, `TypedIo`, `RoundTrip` | byte order, zigzag, varints, strings with a length prefix, what each value looks like on the wire, and the typed readers and writers |
| `TimerOrder`, `Timer`, `TimerRuns` | the ordered set of timers, its wake-up flag, and runs of it |
| `IoManager`, `IoRuns` | event masks, waiter slots, the kernel's interest table, the pending counter and the task queue |
| `HookIo`, `HookCalls` | the wait of `do_io` and `connect_with_timeout` as a transition system, and what a call does from start to return |
| `Scheduler`, `SchedulerRuns`, `SchedulerStops`, `SchedulerFibers`, `SchedulerCollisions`, `SchedulerFailures` | the task list, the run loop on any number of threads, when its workers leave, which thread has which fiber, and runs that go wrong |
| `FiberState`, `Fiber` | fiber states in one run loop |
| `HeaderMachine`, `HeaderAlphabet`, `HeaderText`, `HeaderCuts`, `HeaderPackets` | the header states of the request parser, which bytes they take, printed headers, packets |
| `Stream`, `Session`, `RequestText` | short reads, the receive loop, bodies by length, a printed request received again |
| `ChunkLine`, `ChunkGrammar`, `Chunked` | chunk-size lines, their grammar, and the chunked body |
| `Ascii`, `Options`, `CaseInsensitive`, `Url`, `Query` | byte classes and other shared definitions; percent-encoding and the parameter parser |

Classes stand for the objects that the code updates in place. A C++ assertion is a precondition where the callers have
to meet it, and an explicit outcome (`Aborted`, `AssertionFailed`) where a run can fail it. Null dereferences that can
happen are outcomes too (`NullCursor`).

Some things the code is meant to do hold only under a condition. Each has a member that states it exactly:

- An empty `read` behind the last byte dereferences the null cursor when the bytes fill their nodes
  (`ByteArrayRuns.EmptyReadAtEnd`). So the typed round trip fails exactly for lists that end with an empty string and
  fill their nodes (`RoundTrips.RoundTrip`).
- Results, positions and sizes of a ByteArray are the same for all base sizes exactly for runs that do not seek past
  what was written or reserved and do no empty read at that end (`BaseSize.BaseSizeIsHiddenIff`); such runs also read the
  same bytes wherever bytes were written (`BaseSize.BytesAgree`).
- A `refresh` loses a wake-up exactly when the new deadline, wrapped at 64 bits, lies before the one that the sleeper saw
  (`Timers.TimerManager.Refresh`); with a clock that does not go back and no wrap it never does (`TimerRuns.Run`).
- Masks, slots, kernel interest and counter agree after every run up to a failed assertion (`IoRuns.Run`). A context in
  use cannot be found by its fd any more exactly after a resize below it, or a registration through a context that the
  table no longer has (`IoRuns.Step`); the gap between the two locks of `addEvent` allows both (`IoRuns.DroppedInUse`,
  `IoRuns.RegisteredAfterDrop`).
- `idle` hits an assertion exactly when epoll reports a bit that is no longer registered along with one that is
  (`IoManagers.IOManager.Dispatch`, `IoRuns.StaleReport`).
- A timeout of `do_io` is lost exactly when the flag of the call is set and no callback of it or of an earlier call is
  left that would cancel the event (`HookIo.TimeoutFiresIff`). A wait starts that way or never gets there
  (`HookIo.SpentOnlyByLateRegistration`, `HookIo.TimeoutCanBeLost`). The timers of earlier calls can end a wait exactly
  when a callback of such a call is past its test of the flag, or holds the `timer_info` with the flag unset
  (`HookIo.EarlierCallWakesIff`).
- A worker leaves `run` exactly when stop was called, the list is empty and no worker is between picking an entry and
  lowering the counter (`SchedulerStops.IdleLeavesIff`, `SchedulerStops.EveryLeaveIsFromQuiet`). Work can still come then,
  from a READY fiber not yet listed again or from an idle fiber, and from nowhere else (`SchedulerStops.WorkAfterQuietIff`).
- Two workers get hold of one fiber exactly when a search takes a fiber that another worker has picked, is not done with
  or keeps for its callbacks (`SchedulerFibers.ExclusiveIff`); calling `schedule` only for fibers that wait rules that out
  (`SchedulerFibers.OrderlyRunsAreExclusive`), and calling it for one that is held or listed can lead there
  (`SchedulerCollisions.HeldCollides`, `SchedulerCollisions.ListedCollides`). Then an assertion of `swapIn` or `reset` can
  fail, and a fiber can run on two threads at once (`SchedulerFailures`).
- All workers can leave with a pinned task in the list (`SchedulerFailures.PinnedTaskCanBeStranded`), and only with one
  (`SchedulerRuns.DrainOnExit`): it came after its thread had left, or while its fiber was executing
  (`SchedulerRuns.WhatRemains`).
- The run loop switches into a finished idle fiber exactly when the idle function threw
  (`Fibers.Worker.Run`); the callback fiber kept for reuse can be EXCEPT only if the list handed it out
  (`Fibers.CallbackSchedulesItsFiber`).
- A header block in any packets is read as it was printed exactly when no cut is inside a line
  (`HeaderPackets.PacketsSurviveIff`). A size line, extensions included, survives a cut exactly when what is left starts
  with the same number (`ChunkLine.CutLineSurvivesIff`), which between its digits means that only zeros were cut off
  (`ChunkLine.CutInDigitsSurvivesIff`).
- A printed request comes back with its body exactly when the body is not empty or its headers announce no length
  (`RequestText.DumpIsReceived`).
- Decoding inverts encoding except when a space was sent as a plus that is not undone (`Url.RoundTrip`), and a printed
  query parses back exactly when no key contains `=` (`Query.QueryRoundTrip`).

The comment above `UrlEncode` lists the unreserved characters without `=`, but the table next to it has `=`; the model
follows the table.

## Model

| member | source | states |
|---|---|---|
| `ByteArrays.ByteArray.constructor` | yuyu/bytearray.cc:28-36 | an empty buffer of one node, big-endian |
| `ByteArrays.ByteArray.CursorIsQuotient` | yuyu/bytearray.cc:341-374 | in every valid state the cursor is node position / base, and null exactly at capacity |
| `ByteArrays.ByteArray.Clear` | yuyu/bytearray.cc:328-339 | empty content and head 0 again, with only the root node left in the list |
| `ByteArrays.ByteArray.AddCapacity` | yuyu/bytearray.cc:495-524 | room for n bytes with as few new nodes as possible; no byte of the old ones changes |
| `ByteArrays.ByteArray.Write` | yuyu/bytearray.cc:341-374 | overwrites the flat content at the head, growing it, for every base size; the head moves by the length |
| `ByteArrays.ByteArray.Read` | yuyu/bytearray.cc:376-403 | delivers the bytes at the head and moves it; out of range past the size; a null dereference exactly for an empty read at capacity |
| `ByteArrays.ByteArray.SetPosition` | yuyu/bytearray.cc:435-451 | refused exactly past the capacity; otherwise the head and the largest size are as asked, with the cursor on the right node |
| `ByteArrays.ByteArray.ToString` | yuyu/bytearray.cc:526-534 | the unread bytes of the flat content, copied node by node without moving the head |
| `ByteArrays.ByteArray.GetReadBuffers` | yuyu/bytearray.cc:551-580 | regions that cover exactly the next min(len, unread) bytes, in order |
| `ByteArrays.ByteArray.GetWriteBuffers` | yuyu/bytearray.cc:618-646 | regions that cover exactly len bytes from the head on, after growing; content unchanged |
| `ByteArrays.ByteArray.Scatter` | yuyu/streams/socket_stream.cc:23-35 | filling the regions splices the bytes into the flat view at the head, whatever nodes they lie in |
| `ByteArrays.ByteArray.Gather` | yuyu/streams/socket_stream.cc:44-56 | the regions concatenate to the flat bytes from the head on |
| `ByteArrayRuns.Perform` | yuyu/bytearray.cc:328-524 | each operation, with any arguments, is one move of a flat memory whose length is computed from the base size; refused seeks and the null cursor are results |
| `ByteArrayRuns.Execute` | yuyu/bytearray.cc:328-524 | over every run, filling reserved regions included, results, position, size and unread bytes are those of the flat memory |
| `ByteArrayRuns.EmptyReadAtEnd` | yuyu/bytearray.cc:376-382 | an empty read after writing dereferences null exactly when the data is not empty and fills its nodes |
| `BaseSize.TraceIsObserved` | yuyu/bytearray.cc:328-524 | of every run a caller sees exactly what head, size and capacity determine; the bytes have no part in it |
| `BaseSize.BaseSizeIsHiddenIff` | yuyu/bytearray.cc:376-451 | results, positions and sizes are the same for all base sizes if and only if no seek goes past what was reached since the last clear, or past 1, and no empty read happens at that end |
| `BaseSize.PlainRunsAreText` | yuyu/bytearray.cc:328-524 | runs that do not move the head past the size also read the same bytes for every base size: those of a byte string with a head |
| `BaseSize.WrittenIsRead` | yuyu/bytearray.cc:341-403 | in every run of the kind of BaseSizeIsHiddenIff, seeks past the size included, a read gives the bytes last written where it reads, for every base size |
| `BaseSize.BytesAgree` | yuyu/bytearray.cc:341-403 | what a read gives where bytes were written since the last clear is the same for any two base sizes |
| `SocketStreams.ReadInto` | yuyu/streams/socket_stream.cc:23-35 | receiving into the regions has the effect of write() with the received bytes, and none at the end of the stream or on an error |
| `SocketStreams.WriteFrom` | yuyu/streams/socket_stream.cc:44-56 | what is sent from the regions is what read() would deliver, and the head moves by the same amount, or not at all on an error |
| `Codec.HostDoesNotMatter` | yuyu/bytearray.cc:67-107 | on a host of either byte order the bytes in memory are those of the buffer's byte order |
| `Codec.SwapTwice` | yuyu/endian.h:12-34 | swapping bytes twice gives the value back |
| `WireFormat.FixedAt` | yuyu/bytearray.cc:67-107 | byte i of a number is at i in little-endian order and at i from the end in big-endian order |
| `WireFormat.FromFixedAt` | yuyu/bytearray.cc:212-244 | reading puts each byte back where it counts, in either order |
| `WireFormat.SwapAt` | yuyu/endian.h:12-34 | byteswap exchanges the bytes that count 256^i and 256^(width-1-i) |
| `WireFormat.VarintIff` | yuyu/bytearray.cc:138-162 | a varint is the fewest groups of seven bits, low ones first, with the top bit set on all but the last, and nothing else is |
| `WireFormat.VarintReadMeans` | yuyu/bytearray.cc:246-280 | any bytes: how far a read goes, and that the result is the number they stand for, reduced to the width |
| `WireFormat.EncodeIff` | yuyu/bytearray.cc:67-194 | the encoding of every value is what belongs on the wire, said position by position, and nothing else is |
| `WireFormat.FixedReadsWire` | yuyu/bytearray.cc:212-244 | a field of fixed width read from any bytes stands for just these bytes |
| `Codec.SignedRoundTrip` | yuyu/bytearray.cc:212-244 | two's complement reinterpretation is undone for every value of the width |
| `Codec.ZigzagInterleaves` | yuyu/bytearray.cc:110-132 | the shifts and complements give 2v and -2v-1 for every value, the smallest one included |
| `Codec.ZigzagRoundTrip` | yuyu/bytearray.cc:110-132 | decoding inverts encoding on the whole signed range |
| `Codec.VarintRoundTrip` | yuyu/bytearray.cc:138-162 | reading a varint at the front of any bytes gives the value and its exact length |
| `Codec.VarintLength` | yuyu/bytearray.cc:138-162 | n groups of seven bits take at most n bytes |
| `Codec.VarintReadBounded` | yuyu/bytearray.cc:246-280 | reading stops after the limit of bytes whatever they are |
| `Codec.StringRoundTrip` | yuyu/bytearray.cc:176-194 | a string comes back cut to its length modulo what the prefix can hold |
| `Codec.ValueRoundTrip` | yuyu/bytearray.cc:67-326 | decoding the encoding of any value in range, followed by anything, gives it back with its exact length |
| `TypedIo.VarintBytes` | yuyu/bytearray.cc:138-162 | the loop never leaves its 5 or 10 byte array and produces the varint |
| `TypedIo.WriteValue` | yuyu/bytearray.cc:67-194 | every typed write, of strings of any length too, leaves from the old head to the new one just the bytes that belong on the wire, adding nodes only as needed |
| `TypedIo.ReadFixed` | yuyu/bytearray.cc:212-244 | decodes the bytes at the head in the buffer's byte order, on either host, or is out of range |
| `TypedIo.ReadVarint` | yuyu/bytearray.cc:246-280 | decodes a varint at the head byte by byte and moves exactly past it |
| `TypedIo.ReadString` | yuyu/bytearray.cc:296-326 | reads prefix and bytes, with the out-of-range and null-cursor cases exactly as in read() |
| `TypedIo.ReadValue` | yuyu/bytearray.cc:212-326 | every typed read decodes what is at the head and moves exactly past it |
| `RoundTrips.WriteAll` | yuyu/bytearray.cc:67-194 | the content is the concatenated encoding for every base size and all values that can be written, and when it ends at capacity |
| `RoundTrips.ReadAll` | yuyu/bytearray.cc:212-326 | reading back gives the values in order, up to a last empty string at capacity |
| `RoundTrips.RoundTrip` | yuyu/bytearray.cc:67-326 | any list of values, base size and byte orders: the same values and nothing left, if and only if the list does not end with an empty string in full nodes |
| `TimerOrder.ComparatorIsStrictTotalOrder` | yuyu/timer.cc:8-27 | irreflexive, transitive and total, null pointers included |
| `TimerOrder.ComparatorOrdersBy` | yuyu/timer.cc:8-27 | null pointers come first, then earlier deadlines, then lower addresses |
| `TimerOrder.ProbeSplitsDue` | yuyu/timer.cc:149-157 | lower bound plus the skip of equal deadlines splits the set at `now`, wherever the probe's address falls |
| `Timers.TimerManager.constructor` | yuyu/timer.cc:90-92 | no timers, and the clock reading as previous time |
| `Timers.TimerManager.AddTimer` | yuyu/timer.cc:97-103 | the timer is in the set with its deadline; notified exactly when it is first and nobody was |
| `Timers.TimerManager.AddLocked` | yuyu/timer.cc:173-184 | insertion keeps the order; the front notification is raised once and remembered |
| `Timers.TimerManager.Find` | yuyu/timer.cc:42-51 | the set lookup by key finds a timer exactly when it is in the set |
| `Timers.TimerManager.Cancel` | yuyu/timer.cc:42-51 | succeeds exactly for an armed timer and takes it, and only it, out |
| `Timers.TimerManager.Refresh` | yuyu/timer.cc:53-66 | new deadline, same members; from any state without a lost wake-up it loses one if and only if the new deadline lies before the one seen |
| `Timers.TimerManager.Reset` | yuyu/timer.cc:68-88 | new period from now or from the old start, same members, notification exactly at the front |
| `Timers.TimerManager.GetNextTimer` | yuyu/timer.cc:119-133 | a timeout that oversleeps no timer, 0 for an overdue one, the largest value for none; clears the flag |
| `Timers.RollbackMeans` | yuyu/timer.cc:186-194 | the wrapped comparison means a step back by more than an hour, and in the first hour after time 0 any step back |
| `Timers.TimerManager.ListExpired` | yuyu/timer.cc:135-171 | exactly the timers due at or before now, or all after a rollback, in deadline order; one-shots disarmed, recurring at now + period, all others untouched |
| `TimerRuns.Perform` | yuyu/timer.cc:42-194 | every call does what it is for, to its timer and no other, and keeps the manager's invariant, also with times read before the lock that are older than ones read by earlier calls |
| `TimerRuns.Run` | yuyu/timer.cc:42-194 | after any run of calls from any threads the timers are those added, without a callback where the run cancelled them; no wake-up is lost, the set is the armed timers, a one-shot is collected at most once and a cancelled one never |
| `IoManagers.IOManager.constructor` | yuyu/iomanager.cc:13-33 | 32 unused contexts, one for each fd in the table, and nothing pending or watched |
| `IoManagers.IOManager.PendingZeroMeansIdle` | yuyu/iomanager.cc:219-224 | pending is 0 exactly when no waiter is parked in any context, dropped ones included, and exactly when the kernel watches nothing |
| `IoManagers.IOManager.OneInUse` | yuyu/iomanager.cc:59-106 | of all contexts ever made for an fd at most one is in use |
| `IoManagers.IOManager.ContextResize` | yuyu/iomanager.cc:48-57 | the table keeps its entries below the new size, gets new unused contexts up to it and loses the others, whose contexts live on; all views still agree |
| `IoManagers.IOManager.Grow` | yuyu/iomanager.cc:66-70 | the table has 3/2 of the fd and leads to a context for it; contexts and views are otherwise as before, for a smaller size too |
| `IoManagers.IOManager.Register` | yuyu/iomanager.cc:72-106 | through any context, one that the table lost included: mask, slot, kernel interest and counter change together, or not at all when epoll_ctl refuses or the event is there already, each exactly when |
| `IoManagers.IOManager.AddEvent` | yuyu/iomanager.cc:59-106 | the event is added and its waiter stored, with no other fd's mask changed |
| `IoManagers.IOManager.DelEvent` | yuyu/iomanager.cc:108-138 | removes exactly one registered event without scheduling anything |
| `IoManagers.IOManager.Fire` | yuyu/iomanager.cc:352-363 | the fired events leave mask and slots, and just the waiters that were registered last for them join the queue, READ first |
| `IoManagers.IOManager.CancelEvent` | yuyu/iomanager.cc:140-168 | fires exactly the one event if it was registered, else changes nothing |
| `IoManagers.IOManager.CancelAll` | yuyu/iomanager.cc:170-205 | fires whatever was registered and leaves the context unused |
| `IoManagers.IOManager.Dispatch` | yuyu/iomanager.cc:279-324 | for a report on any context: skipped, refused by epoll_ctl, done or aborted, each exactly when; done fires exactly the reported events |
| `IoManagers.FiringAccounts` | yuyu/iomanager.cc:352-363 | firing hands over the waiters that the history of registrations has for the slots, and empties just these |
| `IoManagers.SlotBalances` | yuyu/iomanager.cc:72-138 | for each fd and direction, in every such history: the waiters registered are those scheduled, those removed and the one still waiting |
| `IoRuns.RegisterStrands` | yuyu/iomanager.cc:72-106 | a registration leaves every context in use reachable by its fd if and only if the table leads to the one it went through |
| `IoRuns.ResizeStrands` | yuyu/iomanager.cc:48-57 | a resize does if and only if no context in use lies above the new size |
| `IoRuns.Step` | yuyu/iomanager.cc:59-324 | every locked section on any context does to contexts, table and queue what it is for, or fails an assertion, exactly when; views stay in agreement, no waiter is lost or made, and contexts in use stay reachable unless it is one of those two |
| `IoRuns.Run` | yuyu/iomanager.cc:59-363 | every sequence of sections up to a failed assertion: the state is that of the sections one after the other, the views agree, and the waiters given to registrations are, one by one, those scheduled, those removed and those parked |
| `IoRuns.DroppedInUse` | yuyu/iomanager.cc:59-70 | two threads in the gap between the locks leave the table without the context of an fd that kernel and counter still have |
| `IoRuns.RegisteredAfterDrop` | yuyu/iomanager.cc:66-106 | the same when the table is cut between look-up and registration |
| `IoRuns.StaleReport` | yuyu/iomanager.cc:288-323 | a report with one bit no longer registered ends in the assertion of triggerEvent |
| `HookIo.InvStep` | yuyu/hook.cc:106-154 | every step of call, kernel, timer, callback and other threads keeps the protocol's invariant |
| `HookIo.EveryRun` | yuyu/hook.cc:106-154 | over every interleaving a parked fiber is registered or scheduled exactly once, a finished call leaves no event or timer, ETIMEDOUT comes only from the call's own timer |
| `HookCalls.EveryCall` | yuyu/hook.cc:106-154 | over every run the calls return in order, each once; the steps of each are those of its loop, and they explain its result: ETIMEDOUT if and only if a test after a wait found the flag |
| `HookCalls.TimedOutIff` | yuyu/hook.cc:141-151 | what explains a result: the flag is found at most once, as the last thing a call does, and exactly when it times out; do_io goes on otherwise, connect asks the socket |
| `HookCalls.FlaggedTimesOut` | yuyu/hook.cc:141-151 | from any wait with the flag set every run has ETIMEDOUT of this call as its next outcome, and the call does not try, block or ask again |
| `HookCalls.OwnTimerFlags` | yuyu/hook.cc:121-128 | a wait that the call's own timer ends is such a wait |
| `HookCalls.WokenBeforeYield` | yuyu/hook.cc:131-145 | a wake-up between addEvent and the yield is not lost |
| `HookIo.TimeoutFiresIff` | yuyu/hook.cc:115-141 | the timer and the callbacks of this and earlier calls can wake a timed wait if and only if the call's flag is unset or a callback is left that will cancel the event |
| `HookIo.SpentOnlyByLateRegistration` | yuyu/hook.cc:115-141 | a timed wait gets into the other case exactly by a successful addEvent when that case held already |
| `HookIo.TimeoutCanBeLost` | yuyu/hook.cc:115-141 | a run in which a fiber is parked with its timeout gone |
| `HookIo.SpentNeverWakes` | yuyu/hook.cc:246-271 | then no run of timer and callback steps wakes it, in connect as in do_io |
| `HookIo.WhoWakes` | yuyu/hook.cc:115-151 | a waiting fiber is scheduled exactly by readiness, another's cancel, or the end of a timer callback, and only while its event is registered |
| `HookIo.EarlierCallWakesIff` | yuyu/hook.cc:121-128 | in any state the callbacks of earlier calls can go on to schedule the fiber if and only if its event is registered and one of them is past its test or holds the timer_info with the flag unset |
| `HookIo.ConnectWokenByEarlierCall` | yuyu/hook.cc:246-289 | a run in which a connect is woken by the callback of a call that had completed, and reports success without the socket having become ready |
| `Schedulers.FirstEligible` | yuyu/scheduler.cc:145-168 | the earliest entry that is not pinned elsewhere and whose fiber is not executing |
| `Schedulers.AppendedComesLast` | yuyu/scheduler.h:70-77 | a scheduled task is taken next only if nothing before it is eligible |
| `Schedulers.Scheduler.Take` | yuyu/scheduler.cc:141-172 | takes the earliest eligible entry, keeps the order of the others, and tickles exactly when another thread may have work |
| `SchedulerRuns.EveryRun` | yuyu/scheduler.cc:141-222 | over every run with any number of workers: each entry taken at most once and never against its pin, the counter is the workers between pick and decrement, and what is EXEC is in the hands of a worker |
| `SchedulerRuns.ActiveStep` | yuyu/scheduler.cc:145-222 | all branches of the loop, the gap between pick and switch included, keep the counter right |
| `SchedulerRuns.ConservedStep` | yuyu/scheduler.cc:145-168 | entries are neither lost nor duplicated by any step, and keep their order |
| `SchedulerRuns.ExecutingStep` | yuyu/scheduler.cc:174-222 | a fiber stays EXEC only as long as some worker is not done with it |
| `SchedulerRuns.WhatRemains` | yuyu/scheduler.cc:205-241 | when all have left, an entry in the list is pinned, not to the last to leave, and came after its thread had left or while its fiber was executing |
| `SchedulerRuns.DrainOnExit` | yuyu/scheduler.cc:205-241 | without pinned tasks no run ends with all workers gone and work left |
| `SchedulerStops.IdleEndsIff` | yuyu/scheduler.cc:230-241 | a test of stopping() ends the idle fiber if and only if stop was called, the list is empty and no worker is between its pick and its decrement |
| `SchedulerStops.IdleLeavesIff` | yuyu/scheduler.cc:205-241 | an idle worker that makes this test and looks again leaves if and only if that held |
| `SchedulerStops.EveryLeaveIsFromQuiet` | yuyu/scheduler.cc:129-241 | in every run with any number of workers, a worker that has left made a test of its own at which that held |
| `SchedulerStops.WorkAfterQuietIff` | yuyu/scheduler.cc:174-204 | from there an entry comes exactly from a fiber that came back READY and is not yet listed, or from an idle fiber |
| `SchedulerStops.QuietIsNotTheEnd` | yuyu/scheduler.cc:174-204 | and both can come |
| `SchedulerStops.OverStays` | yuyu/scheduler.cc:174-241 | with no such fiber nothing comes any more, as long as idle fibers schedule nothing |
| `SchedulerFibers.DistinctStep` | yuyu/scheduler.cc:145-204 | two workers come to hold one fiber exactly when a search takes one that another holds |
| `SchedulerFibers.NoAssertionFails` | yuyu/fiber.cc:89-117 | as long as no fiber is held twice, no assertion of swapIn or reset fails on any worker |
| `SchedulerFibers.ExclusiveIff` | yuyu/scheduler.cc:141-222 | over every run with any number of workers no fiber is ever held twice if and only if no search takes a held one, and then no assertion fails |
| `SchedulerFibers.CallbacksComeBack` | yuyu/scheduler.cc:186-200 | in such runs a callback that is run can come back in any state, in a reused fiber too |
| `SchedulerFibers.KeptChangesIff` | yuyu/scheduler.cc:186-204 | a worker gets a callback fiber exactly when it runs a callback without one, and gives it up exactly when the callback did not end |
| `SchedulerFibers.OrderlyRunsAreExclusive` | yuyu/scheduler.h:30-40 | if schedule() is called only for fibers that wait, no fiber is on two workers, listed twice, or listed while held, and no assertion fails |
| `SchedulerCollisions.HeldCollides` | yuyu/scheduler.h:30-40 | from every sound state, scheduling a fiber that a worker is at can go on to another worker that has not left holding it too |
| `SchedulerCollisions.ListedCollides` | yuyu/scheduler.h:30-40 | the same for scheduling a fiber that waits in the list for any thread, with two workers left |
| `SchedulerFailures.ScheduledTwice` | yuyu/scheduler.cc:161-176 | a fiber with two entries is picked by two workers before either switches in, and the assertion of swapIn fails |
| `SchedulerFailures.KeptFiberIsReset` | yuyu/scheduler.cc:186-204 | a callback that schedules its own fiber and returns: one worker runs it while the other resets it, and the assertion of reset fails |
| `SchedulerFailures.SelfScheduledRunsTwice` | yuyu/scheduler.cc:174-185 | a fiber that schedules itself and yields ends up running on two threads, though the list never has it twice |
| `SchedulerFailures.ReadyHidesWork` | yuyu/scheduler.cc:174-186 | between decrement and re-schedule of a READY fiber another worker can see stopping() |
| `SchedulerFailures.PinnedTaskCanBeStranded` | yuyu/scheduler.cc:141-241 | a run that ends with a task pinned to a worker that has left |
| `Fibers.Worker.RunFiber` | yuyu/scheduler.cc:174-185 | leaves the fiber in its settled state and re-schedules it exactly when READY |
| `Fibers.Worker.RunCallback` | yuyu/scheduler.cc:186-204 | the callback fiber is kept, INIT and empty, exactly when the callback finished |
| `Fibers.Worker.RunIdle` | yuyu/scheduler.cc:205-222 | leaves after TERM, aborts after EXCEPT, goes on otherwise |
| `Fibers.Worker.TakeTurn` | yuyu/scheduler.cc:141-222 | each turn keeps the loop-head invariant: nothing EXEC, callback fiber null or reusable |
| `Fibers.Worker.Run` | yuyu/scheduler.cc:129-224 | for every sequence of turns and returned states no reset or swapIn assertion fails, and the loop aborts if and only if the idle function threw and idles again |
| `Fibers.FateAborts` | yuyu/scheduler.cc:205-222 | that condition on the turns, for every state of the idle fiber |
| `Fibers.CallbackSchedulesItsFiber` | yuyu/scheduler.cc:186-204 | a callback that schedules its own fiber and returns leaves that fiber EXCEPT at the loop head |
| `HeaderMachine.Parser.Advance` | yuyu/http/http11_parser.rl.cc:343-628 | one transition of the automaton, with its marks and actions |
| `HeaderMachine.Parser.ParserExecute` | yuyu/http/http11_parser.rl:280-313 | the loop computes the run from cleared marks, and its closing assertions hold |
| `HeaderAlphabet.RefusedIff` | yuyu/http/http11_parser.rl.cc:373-628 | each header state stops with an error at just the bytes listed: separators, NUL, DEL and what lies above in names, NUL and DEL in values |
| `HeaderAlphabet.GoodNameIff` | yuyu/http/http11_parser.rl.cc:373-450 | the names that are read as printed, by their bytes |
| `HeaderAlphabet.PlainFieldsAreRead` | yuyu/http/http11_parser.rl.cc:373-628 | printed fields with names of letters, digits and hyphens, and values of visible characters and blanks, are read back |
| `HeaderAlphabet.StrippedIs` | yuyu/http/http11_parser.rl.cc:459-471 | a value loses the spaces and tabs in front of it, all of them and nothing else |
| `HeaderAlphabet.BareLineParsed` | yuyu/http/http11_parser.rl.cc:350-366 | a line without its carriage return gives the same field |
| `HeaderAlphabet.BareBlankLine` | yuyu/http/http11_parser.rl.cc:518-535 | a line feed between lines ends the block |
| `HeaderText.CutIsInvisible` | yuyu/http/http11_parser.rl:282-286 | for any text, a cut where the machine is between lines changes neither fields nor end |
| `HeaderText.PacketsDoNotMatter` | yuyu/http/http_session.cc:20-40 | for any text and any number of such cuts the packets give what one buffer gives, and leave the same bytes |
| `HeaderText.LineParsed` | yuyu/http/http11_parser.rl.cc:343-516 | a printed line delivers its name and its value without leading blanks |
| `HeaderText.RoundTrip` | yuyu/http/http.cc:168-183 | a printed block delivers exactly its fields, ends after the blank line and leaves the body; values come back unchanged exactly when none starts with a blank |
| `HeaderText.CutsAtLineEnds` | yuyu/http/http_parser.cc:167-171 | any number of cuts after line ends and any cuts in the body give the same fields and leftover |
| `HeaderCuts.HarmfulCut` | yuyu/http/http11_parser.rl:282-286 | a cut inside a line delivers the rest of the name or loses the field, and nothing else changes |
| `HeaderCuts.CutSurvivesIff` | yuyu/http/http11_parser.rl:282-286 | the fields survive a cut at any byte of any line if and only if it is not inside the line |
| `HeaderPackets.LineFed` | yuyu/http/http11_parser.rl:282-286 | a line in any packets delivers what its last cut inside it leaves of the field |
| `HeaderPackets.TakenApart` | yuyu/http/http11_parser.rl:282-286 | for any text, a further cut between lines changes nothing for any packets |
| `HeaderPackets.PacketsSurviveIff` | yuyu/http/http_session.cc:19-40 | any packets of any printed block: the fields are as printed if and only if no cut falls inside a line; the block's end and the body are found in every case |
| `Streams.Stream.ReadFixSize` | yuyu/stream.cc:5-17 | for every fragmentation the first `length` bytes, returned as an int, or the end's return value |
| `Session.Execute` | yuyu/http/http_parser.cc:167-171 | parses, then has the bytes not consumed at the front of the buffer |
| `Session.RecvHeaders` | yuyu/http/http_session.cc:19-40 | the read loop feeds the packets as they fit the buffer, and leaves what follows the header block in buffer and stream |
| `Session.ReadBody` | yuyu/http/http_session.cc:41-62 | the first `length` bytes after the header block, buffer first; fails exactly when they do not come or the missing size is not positive as an int |
| `Session.RecvRequest` | yuyu/http/http_session.cc:19-66 | below 2^31 bytes it succeeds exactly when the block ends and the body comes, with those fields and that body |
| `Session.PrintedRequestIsReceived` | yuyu/http/http_session.cc:19-62 | a printed block in any packets not cut inside a header line yields its fields and its body |
| `RequestText.DecimalRoundTrip` | yuyu/http/http.cc:178-180 | the printed length reads back as the length |
| `RequestText.DecimalAt` | yuyu/http/http.cc:178-180 | it is in decimal digits, without a leading zero |
| `RequestText.DumpKeepsHeaders` | yuyu/http/http.cc:168-183 | under each name, in any case, a receiver finds what the request's own headers say, but for `connection` and the length of a body |
| `RequestText.AnnouncedLength` | yuyu/http/http.cc:168-183 | the receiver finds the body's length, or with an empty body what the request's own headers say |
| `RequestText.DumpIsReceived` | yuyu/http/http.cc:168-183 | a dumped request is received with its body if and only if that is not empty or no header announces a length |
| `ChunkLine.Execute` | yuyu/http/httpclient_parser.rl.cc:96-465 | the loop computes how the size line ends: complete with size and length, unfinished, malformed |
| `ChunkLine.PlainLine` | yuyu/http/httpclient_parser.rl.cc:122-308 | hexadecimal digits and CRLF give their number |
| `ChunkLine.HexAt` | yuyu/http/httpclient_parser.rl:95-97 | which is the one in base 16 |
| `ChunkLine.StrtolMeans` | yuyu/http/httpclient_parser.rl:95-97 | below 2^31 itself, then its low 32 bits as an int, and -1 from 2^63 on |
| `ChunkGrammar.LineIff` | yuyu/http/httpclient_parser.rl:149-154 | a text is taken for a size line if and only if it is digits, any extensions with or without values and the end of the line, and the size is that of its digits |
| `ChunkGrammar.Taken` | yuyu/http/httpclient_parser.rl.cc:96-465 | a buffer is a status line exactly when it begins with H, and otherwise malformed exactly when nothing that could follow makes its beginning a size line |
| `ChunkLine.LineInBuffer` | yuyu/http/httpclient_parser.rl.cc:122-465 | a whole line, extensions included, is read the same whatever follows it |
| `ChunkLine.CutLine` | yuyu/http/http_parser.cc:244-252 | any line, extensions included, cut anywhere: the first part is unfinished, and the second is a size line exactly when it starts with digits that end as a size does |
| `ChunkLine.CutLineSurvivesIff` | yuyu/http/http_parser.cc:244-252 | the size survives a cut if and only if what is left starts with such digits for the same number |
| `ChunkLine.CutInDigitsSurvivesIff` | yuyu/http/http_parser.cc:244-252 | between the digits it survives if and only if only zeros were cut off |
| `Chunked.ReadLine` | yuyu/http/http_connection.cc:65-87 | a line that is whole once the buffer is loaded is found and exactly its bytes are consumed |
| `Chunked.ReadRest` | yuyu/http/http_connection.cc:98-107 | the completing reads take exactly the missing bytes from the stream |
| `Chunked.TakeChunk` | yuyu/http/http_connection.cc:90-110 | the data of the chunk, and not a byte past its CRLF is taken |
| `Chunked.RecvChunked` | yuyu/http/http_connection.cc:62-111 | for every list of chunks and every fragmentation in which each size line is whole in the read that looks for it, packets longer than the buffer included, the body is the concatenated data |
| `Chunked.InChunksIsWellFormed` | yuyu/http/http_connection.cc:62-111 | a body sent in pieces of any sizes, each behind its size in hexadecimal, is such a list of chunks |
| `Chunked.AfterChunksText` | yuyu/http/http_connection.cc:62-111 | what is then left in buffer and stream is exactly what follows the last chunk |
| `Url.UrlEncode` | yuyu/util.cc:255-284 | the lazily made output is the encoding of each byte on its own |
| `Url.UrlDecode` | yuyu/util.cc:286-315 | the lazily made output is the decoding unit by unit |
| `Ascii.HexDigits` | yuyu/util.cc:232-249 | the hexadecimal digits in either case, with their values |
| `Url.SentAsItIsIff` | yuyu/util.cc:209-230 | a byte is sent as it is exactly when it is a letter, a digit or one of - . _ ~ = |
| `Url.Escaped` | yuyu/util.cc:255-284 | any other byte is a percent sign and two upper-case digits, but for a space sent as a plus |
| `Url.EscapeDecoded` | yuyu/util.cc:286-315 | decoding takes the digits of an escape in either case |
| `Url.OtherDecoded` | yuyu/util.cc:286-315 | what is no escape stays as it is, and a plus becomes a space where that is asked for |
| `Url.RoundTrip` | yuyu/util.cc:209-315 | for every byte string and each pair of modes, decoding inverts encoding if and only if no space was sent as a plus that is not undone |
| `Query.ParseParam` | yuyu/http/http.cc:215-235 | the loop inserts exactly the pairs of the text, first ones winning |
| `Query.QueryRoundTrip` | yuyu/http/http.cc:215-235 | a printed query parses to its parameters, in order, if and only if no key contains `=` |
| `Query.PrintedQueryIsParsed` | yuyu/http/http.cc:54-57 | under each key, in any case, the map has the first value given for it and nothing else |
| `CaseInsensitive.SameKeyIff` | yuyu/http/http.cc:54-57 | two keys are the same exactly when they differ in the case of letters at most, up to a NUL |

## Left out

- Real system calls, context switching, locks and `epoll_wait` timing: they are nondeterministic inputs or steps; counters are taken as atomic.
- Memory addresses are numbers given to timers; two live timers never share one.
- SchedulerRuns.EveryRun: does not interleave inside a yield; the test of a picked fiber's state, the assertion and the switch are one step, and so are the test and the update after its return.
- Schedulers.AppendedComesLast: one task at a time; the iterator form and the pointer constructors that swap the task out of the caller are not modelled.
- IoManagers.IOManager.constructor: the tickle pipe and its entry in epoll are left out; the kernel's table changes by epoll_ctl only, not by closing an fd.
- Fibers.Worker.Run: one worker; fibers are not destroyed, so the assertions in the destructor are not covered.
- ByteArrayRuns.Execute: the bytes of new memory are arbitrary, as in the source; it does not say what a read of bytes never written returns.
- ByteArrays.ByteArray.AddCapacity: the ceiling that the source computes in floating point is taken exactly.
- ByteArrays.ByteArray.ToString: the position-taking `read` is used only at the current position, as here.
- TimerRuns.Run: times and periods below 2^63, so that no sum wraps, and times from an hour after 0 on; listExpiredCb's reading is at most an hour older than the newest. Single calls are modelled without these limits. `addConditionTimer` is in HookIo only, as the lock that its callback takes first.
- SchedulerCollisions.HeldCollides: leaves out a fiber that has returned and whose state still says EXEC because its worker has not updated it yet.
- HookIo.EveryRun: the calls of one fiber on one fd and event.
- HeaderMachine.Parser.ParserExecute: the start-line and URI states are left out, and so are the XML and JSON switches they set; runs start in state 13.
- ChunkLine.CutInDigitsSurvivesIff: sizes below 2^31; larger ones wrap, and CutLineSurvivesIff still holds for them.
- Chunked.RecvChunked: a status line in place of a size line and sizes that an int cannot hold end as Undefined; extensions are accepted but their delivery as header fields is not recorded.
- RequestText.AnnouncedLength: lengths are digit strings; other forms that the number conversion may accept count as absent.
- Session.ReadBody: also stands for the Content-Length branch of recvResponse, which is the same code; gzip and deflate bodies are left out.
- Query.ParseParam: the `&` form; cookies, which also trim their keys, are left out.
- `Fiber::call` and `back`, `switchTo`, `HttpConnectionPool`, servlets, sockets, SSL, configuration and logging would only add easy members or rest on libraries outside the repository.
- File input and output of ByteArray, its floating-point fields and hex dump: thin wrappers over what is modelled.
