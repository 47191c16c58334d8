# Fast Message Queue: a verified model

The Fast Message Queue passes fixed-size messages between processes through a ring in shared memory. This project
models it in three layers and proves what each is for.

1. **The ring.** Two 64-bit byte counters that only grow, transactions of up to two regions, and copies in and out of
   them. The *synchronized* flavour is a lock-free FIFO for one writer and one reader; the *unsynchronized* flavour has
   one writer that overwrites and any number of readers with private cursors.
2. **The event flag.** A futex word: `wake()` is an atomic OR followed by a conditional futex wake, `wait()` an atomic
   AND followed by the kernel's compare-and-sleep.
3. **The blocking calls**, which compose the two, and the layout of the shared memory they all live in.

The first two layers are modelled twice. As step systems (`QueueProtocol`, `FutexProtocol`, composed in
`BlockingProtocol`) every atomic load or store, every message copied by a `memcpy` and every futex call is one step,
threads interleave freely, and the theorems hold for every run. As classes (`MessageQueue`, `EventFlag`, with
`BlockingCalls` on top) the methods have the program's branches and loops, update the ring and the counters in place, and
are proved against an abstract history of messages.

| file | contents |
|---|---|
| `Prelude.dfy` | options; facts about division |
| `Bits.dfy` | what bit masks do to numbers |
| `Ring.dfy` | counters, offsets, regions, copies |
| `QueueProtocol.dfy` | the queue's steps and the invariant of both flavours |
| `SynchronizedQueue.dfy` | FIFO, counter bounds, disjoint cells |
| `UnsynchronizedQueue.dfy` | intact reads, accounting, independence, overflow recovery |
| `TornReads.dfy` | exactly which successful reads can be torn |
| `CounterWrap.dfy` | wrapping 64-bit counters simulate unbounded ones |
| `MessageQueue.dfy` | the queue as an object over an array |
| `FutexProtocol.dfy` | the event flag's steps: no lost wakeup, conservation |
| `EventFlag.dfy` | the event flag as an object: the retry loop, deadlines |
| `BlockingProtocol.dfy` | blocking calls of two peers, timed or not: no stranded sleeper |
| `DeadlockBound.dfy` | runs that show the deadlock bound is exact |
| `WrappedRuns.dfy` | the synchronized queue and the blocking calls with 64-bit counters |
| `WrappedReads.dfy` | the unsynchronized queue with 64-bit counters |
| `BlockingCalls.dfy` | `writeBlocking` and `readBlocking` with timeouts |
| `Layout.dfy` | descriptor, region size, mapping arithmetic |

## Reading the model

* The ring is addressed in cells of one message, its counters in bytes. `Ring.CounterCell` shows that every offset the
  program computes is a whole number of messages, so no cell is ever split.
* `Bits64` counters wrap at 2^64 where the program's do; `Unbounded` ones are the integers they stand for. The protocol
  theorems are proved for unbounded counters. `CounterWrap.WrapRefinement` makes every run
  with wrapping counters the image of one with unbounded counters, and `WrappedRuns.BlockingRefine` does so for the
  blocking calls. `WrappedRuns` and `WrappedReads` state for the counters the program has what is said of whole runs:
  FIFO, counter bounds, disjoint cells, no stranded sleeper, the deadlock bound, intact reads and exactly which, the
  accounting, and recovery from an overflow. Their hypotheses are about the 64-bit run itself.
* Masks and flag words are the sets of their one-bits, which is all that `|`, `&` and `~` look at.
* `written`, `position`, `skipped`, `slices`, `raised`, `reported`, `taken` and `asked` are history. No decision of the
  program reads them.
* In the classes, what other threads do between two accesses is an argument: a `Round` is what one iteration of `wait()`
  meets, a `Lap` what one iteration of a blocking call meets, and a script of them what a whole call meets. A method
  whose script ends first answers that it is still waiting, so no theorem assumes that it returns.
* What the program asks of its callers is a precondition: one writer, and in the synchronized flavour one reader; a commit
  of what was begun; fewer than 2^64 bytes through a synchronized queue; a ring that divides 2^64 once an unsynchronized
  queue's counter wraps; disjoint, non-empty masks shared by both ends of a blocking pair.

## Where the code does not do what its documentation says

* `commitRead` is documented to fail if a write overflow happened after `beginRead`. It sees only committed writes. A write
  that is still open when the write counter is loaded can have replaced messages already granted, and the read returns
  true with them. `TornReads.ReadTornByOpenWrite` gives such a run, and `TornReads.IntactExactly` says when it can happen:
  exactly when the committed messages and those of the open write reach more than one lap past the reader's cursor.
* `getSlot` is documented to return null for every invalid index. `Ring.GetSlotNull`: at the first index past the
  transaction it does so exactly when the transaction does not wrap; `Ring.GetSlotPastEnd` is a case where it does not.
* `wake()` is documented to return `BAD_VALUE` for an empty mask; it returns `NO_ERROR` (`EventFlag.EventFlag.Wake`).
* `availableToRead()` reports an empty queue while only the write counter has wrapped (`CounterWrap.AvailableMessages`).
* The descriptor takes rings of up to 2^31 - 24 bytes, but those larger than 2^31 - 1 less a page cannot be mapped
  (`Layout.OneFileMaps`).
* A queue too large for the descriptor is refused with an error message, except where the ring, or the ring with its
  counters, is within 7 bytes of 2^64: there the process aborts (`Layout.AbortMeaning`).
* `wait()` is documented to time out by CLOCK_MONOTONIC. It budgets on another clock, and computes each deadline from a later
  reading of CLOCK_MONOTONIC; the kernel's deadline is that of the call plus the difference of the two readings
  (`EventFlag.EventFlag.WaitRetrying`).

## Model

| member | source | states |
|---|---|---|
| Ring.CounterCell | include/fmq/MessageQueueBase.h:1085-1099 | A counter that has passed k messages is aligned, its ring offset is k mod capacity whole messages, and capacity - k mod capacity messages fit before the end of the ring; also for a wrapped counter, if it never wrapped or the ring divides 2^64 |
| Ring.CyclicSlice | include/fmq/MessageQueueBase.h:1093-1116 | For every counter and every n up to the capacity, the two regions hold n messages, lie in the ring without overlap, split no message, and slot i is cell (k + i) mod capacity |
| Ring.LagOfCounters | include/fmq/MessageQueueBase.h:1194 | The 64-bit difference of two counters is the true distance in bytes while that is below 2^64, however often either has wrapped |
| Ring.BeginReadMeaning | include/fmq/MessageQueueBase.h:1170-1232 | beginRead resets if more than a ring's worth is pending, refuses if fewer than n messages are, and otherwise grants the n messages at the cursor |
| Ring.AlignedExactly | include/fmq/MessageQueueBase.h:1085-1092 | Whatever a counter in shared memory has become, the alignment test accepts it exactly if it is the counter of some message, which it then locates |
| Ring.GrantedInRing | include/fmq/MessageQueueBase.h:1186-1229 | beginRead refuses as misaligned exactly if one of the counters is no message's, and whatever else they hold, a transaction it grants is n cells of the ring, from the reader's own on |
| Ring.OverrunMeaning | include/fmq/MessageQueueBase.h:1248-1251 | commitRead's test is true exactly when more than capacity messages are pending |
| Ring.AvailabilityMeaning | include/fmq/MessageQueueBase.h:1049-1068 | In messages, the two queries give what is pending and the rest of the ring |
| Ring.WindowSlots | include/fmq/MessageQueueBase.h:484-515 | A window is accepted exactly when it lies in the transaction; its two parts give every message its own slot, whether the window lies in the first region, in the second or across both |
| Ring.CopyToFills | include/fmq/MessageQueueBase.h:548-577 | copyTo succeeds exactly for a non-null source and a window in the transaction, and then every slot of the window holds its message |
| Ring.CopyToKeeps | include/fmq/MessageQueueBase.h:548-577 | copyTo changes no ring cell outside the window |
| Ring.CopyFromSlots | include/fmq/MessageQueueBase.h:517-546 | copyFrom succeeds exactly for a window in the transaction and returns the contents of its slots in order |
| Ring.CopyRoundTrip | include/fmq/MessageQueueBase.h:517-577 | For any two windows, copyFrom after copyTo returns the data written where they meet and what was there before elsewhere |
| Ring.CopyToCells | include/fmq/MessageQueueBase.h:1093-1116 | Copying n messages into a transaction at message k fills the cells of messages k to k + n and spares every older message less than a lap before them |
| Ring.CopyFromCells | include/fmq/MessageQueueBase.h:1207-1229 | Copying from a transaction at message k returns the cells of messages k to k + n |
| Ring.SlotsDistinct | include/fmq/MessageQueueBase.h:468-481 | No two slots of a transaction are one cell |
| Ring.GetSlotNull | include/fmq/MessageQueueBase.h:300-310 | getSlot gives an address inside the transaction; outside, null unless it is the first index past a transaction that wraps |
| Ring.GetSlotAtEnd | include/fmq/MessageQueueBase.h:468-481 | For a transaction of n messages the program hands out, getSlot(n) is not null exactly when the transaction wraps around |
| Ring.GetSlotPastEnd | include/fmq/MessageQueueBase.h:468-481 | With two cells and one message passed, index 2 of a transaction of two messages gives cell 1 |
| QueueProtocol.WriterFrame | include/fmq/MessageQueueBase.h:1121-1137 | No step of the writer touches a reader, and its history and reach only grow |
| QueueProtocol.ReadDecides | include/fmq/MessageQueueBase.h:1170-1257 | In every reachable state, a read that has loaded the write counter goes on to reset its cursor to that counter if more than a ring's worth was pending, is refused if fewer than n messages were, and is granted them otherwise; a commit goes on to reset exactly if more than a ring's worth is pending by then |
| QueueProtocol.WriteDecides | include/fmq/MessageQueueBase.h:1072-1092 | A write is refused exactly if it can never fit or, synchronized, does not fit into the room the reader has left by then |
| QueueProtocol.MisalignedRefused | include/fmq/MessageQueueBase.h:1086-1092 | A writer or reader whose counter is no message's is refused, and nothing moves |
| QueueProtocol.JoinStarts | include/fmq/MessageQueueBase.h:596-618 | A reader that opens the queue starts at message 0, with everything pending, nothing delivered and nothing skipped, and disturbs nobody |
| QueueProtocol.CopyStepKeeps | include/fmq/MessageQueueBase.h:568-574 | Copying one message of an open write, in any order, keeps every message the write cannot have reached, and every message it has copied |
| QueueProtocol.StoreStepKeeps | include/fmq/MessageQueueBase.h:1127-1137 | The store of the write counter turns the copied messages into history that the ring holds |
| QueueProtocol.CaptureStepKeeps | include/fmq/MessageQueueBase.h:537-543 | A message a reader copies while the writer cannot have come round to it is the one the history has there |
| QueueProtocol.StepKeeps | include/fmq/MessageQueueBase.h:1072-1257 | Every step of any thread, in both flavours, keeps the ring, writer and reader invariants, and only extends the history |
| QueueProtocol.RunKeeps | include/fmq/MessageQueueBase.h:1072-1257 | So they hold after every run from a new queue |
| QueueProtocol.SliceOfHistory | include/fmq/MessageQueueBase.h:1158-1162 | A read out of the writer's reach returned a contiguous piece of the history |
| SynchronizedQueue.GrantedRoom | include/fmq/MessageQueueBase.h:1079-1083 | The writer is granted, on a stale view of the read counter, only room the reader has left |
| SynchronizedQueue.NoReset | include/fmq/MessageQueueBase.h:1194-1197 | The only reader is never sent to reset its cursor |
| SynchronizedQueue.DeliverSync | include/fmq/MessageQueueBase.h:1253-1256 | The store that ends a read delivers exactly the next messages of the history |
| SynchronizedQueue.RunSync | include/fmq/MessageQueueBase.h:1072-1257 | The synchronized invariant holds after every run |
| SynchronizedQueue.ConcurrentFifo | include/fmq/MessageQueueBase.h:810-814 | In every interleaving, what successful reads returned, end to end, is a prefix of what successful writes supplied; the counters are the lengths of the two, and every unread message is intact in its cell |
| SynchronizedQueue.CounterBounds | include/fmq/MessageQueueBase.h:1140-1155 | Always readPtr <= writePtr <= readPtr + size, also for the value about to be stored, and the reset branches are never taken |
| SynchronizedQueue.WriterAndReaderCellsApart | include/fmq/MessageQueueBase.h:1079-1116 | The cells an open write may fill are none of those of unread messages and none of those a reader is copying |
| UnsynchronizedQueue.ReadIntact | include/fmq/MessageQueueBase.h:1158-1162 | Every read that returned true returned the history at its old cursor, if committed and open messages were then within a lap of it; in particular whenever no write was open, however many raced with the copy |
| UnsynchronizedQueue.Accounting | include/fmq/MessageQueueBase.h:1194-1205 | For each of any number of readers, delivered + skipped + pending messages are all those written, and delivered slices are disjoint and increasing; what is skipped is exactly the sum, over the reader's resets, of what was pending up to the counter it loaded |
| UnsynchronizedQueue.CursorMoves | include/fmq/MessageQueueBase.h:1248-1256 | A cursor moves only by a delivery, with a true return, or by a skip, with a false return, to exactly the write counter that was loaded |
| UnsynchronizedQueue.ReadersDoNotInterfere | include/fmq/MessageQueueBase.h:596-605 | Taking every other reader out of a run changes nothing for the writer, the ring or this reader |
| UnsynchronizedQueue.LappedResets | include/fmq/MessageQueueBase.h:1194-1197 | In every reachable state, a read that finds more than a ring's worth pending, in beginRead or in commitRead, resets its cursor next, to the write counter it loaded |
| UnsynchronizedQueue.LappedReadFails | include/fmq/MessageQueueBase.h:1194-1251 | It returns false and leaves the reader idle with its cursor at that counter, whatever the others do before and after the reset |
| UnsynchronizedQueue.ResetPoint | include/fmq/MessageQueueBase.h:1194-1197 | From the reset on: the reader stands at the loaded write counter, whatever the others do meanwhile |
| UnsynchronizedQueue.OverflowRecovery | tests/msgq_test_client.cpp:342-363 | From a lapped read on: whatever the others do around its reset, once n messages have been committed after the reset point and no more than a ring's worth has arrived, the next read of n never fails, however the others interleave with it, and what it returns are the first n messages written after the reset point |
| UnsynchronizedQueue.StepNearer | include/fmq/MessageQueueBase.h:1173-1256 | Each step of such a read, whichever message it copies next, brings it nearer to its end |
| UnsynchronizedQueue.RecoveryEnds | tests/msgq_test_client.cpp:342-363 | From a lapped read on, some run of the next read's own steps alone returns true with those messages |
| UnsynchronizedQueue.LateJoinReads | include/fmq/MessageQueueBase.h:596-618 | A reader that opens the queue when n messages are in it, none of them overwritten, reads exactly the first n with its own steps alone |
| TornReads.Tear | include/fmq/MessageQueueBase.h:1240-1256 | For every cursor, read size, committed and open counts more than a lap apart, a run in which a read returns true with a message that was never committed there |
| TornReads.IntactExactly | include/fmq/MessageQueueBase.h:412-416 | Reads with these counts return the history in every run if and only if committed + open messages are within one lap of the cursor |
| TornReads.ReadTornByOpenWrite | include/fmq/MessageQueueBase.h:412-416 | With a ring of one message: a read returns true with a message that no write has committed |
| CounterWrap.SameRegions | include/fmq/MessageQueueBase.h:1093-1116 | A wrapped counter hands out the same transaction as the unbounded one |
| CounterWrap.SameGrant | include/fmq/MessageQueueBase.h:1180-1229 | beginRead decides alike on wrapped and unbounded counters while the lag is below 2^64 bytes |
| CounterWrap.SameOverrun | include/fmq/MessageQueueBase.h:1242-1248 | So does commitRead |
| CounterWrap.SameAvailability | include/fmq/MessageQueueBase.h:1049-1068 | So does beginWrite's availability test, before the first wrap |
| CounterWrap.StepWraps | include/fmq/MessageQueueBase.h:1085-1256 | One step with 64-bit counters is the 64-bit image of the step with unbounded counters |
| CounterWrap.RunWraps | include/fmq/MessageQueueBase.h:1085-1256 | From any state, a run with 64-bit counters that fits throughout is the image of the unbounded one |
| CounterWrap.AlwaysFitsTruncated | include/fmq/MessageQueueBase.h:1085-1256 | A run of the unbounded queue that fits throughout is imaged by one with 64-bit counters that does |
| CounterWrap.WrapRefinement | include/fmq/MessageQueueBase.h:1122-1137 | However long the run, the wrapping queue makes the same decisions, uses the same cells and delivers the same messages as the unbounded one, while fewer than 2^64 bytes have been written or, in the unsynchronized flavour, for ever if the ring divides 2^64 |
| CounterWrap.OffsetsSurviveWrap | include/fmq/MessageQueueBase.h:1093 | Wrapped counters find the right ring offset for every message if and only if the ring size divides 2^64 |
| CounterWrap.AvailabilityUnderWrap | include/fmq/MessageQueueBase.h:1146-1154 | The availability query is right if and only if both counters have wrapped equally often, and is 0 otherwise |
| CounterWrap.AvailableMessages | include/fmq/MessageQueueBase.h:1067-1069 | The same in messages |
| CounterWrap.AvailableRoom | include/fmq/MessageQueueBase.h:1049-1064 | availableToWrite is the capacity less that number, or 0 when it is larger |
| WrappedRuns.ConcurrentFifo64 | include/fmq/MessageQueueBase.h:810-814 | Concurrent FIFO with 64-bit counters, while fewer than 2^64 bytes have been written or begun |
| WrappedRuns.CounterBounds64 | include/fmq/MessageQueueBase.h:1140-1155 | Counter bounds and unreachable resets with 64-bit counters, as long |
| WrappedRuns.WriterAndReaderCellsApart64 | include/fmq/MessageQueueBase.h:1079-1116 | Disjoint cells with 64-bit counters, as long |
| WrappedReads.ReadIntact64 | include/fmq/MessageQueueBase.h:1158-1162 | ReadIntact with 64-bit counters that may have wrapped any number of times, in every run that fits throughout |
| WrappedReads.Accounting64 | include/fmq/MessageQueueBase.h:1194-1205 | Accounting likewise, skips included, with the counters being the totals modulo 2^64 |
| WrappedReads.IntactExactly64 | include/fmq/MessageQueueBase.h:412-416 | Which reads are intact in every run, exactly, with 64-bit counters that can hold so many bytes |
| WrappedReads.OverflowRecovery64 | tests/msgq_test_client.cpp:342-363 | Overflow recovery from a lapped read on, after any run with 64-bit counters that fits throughout |
| WrappedReads.RecoveryEnds64 | tests/msgq_test_client.cpp:342-363 | The recovering read can end by its own steps, from a lapped read on, and the run to its end fits |
| MessageQueue.MessageQueue.constructor | include/fmq/MessageQueueBase.h:596-618 | A queue whose counters have been reset is valid, with nothing written |
| MessageQueue.MessageQueue.AvailableToRead | include/fmq/MessageQueueBase.h:1067-1069 | The number of pending messages, or 0 while only the write counter has wrapped |
| MessageQueue.MessageQueue.AvailableToWrite | include/fmq/MessageQueueBase.h:1062-1064 | The capacity less what AvailableToRead counts, or 0 when that is larger; for the synchronized flavour the two queries add up to getQuantumCount |
| MessageQueue.MessageQueue.BeginWrite | include/fmq/MessageQueueBase.h:1072-1119 | Grants exactly when the messages fit, and hands out null regions when they do not |
| MessageQueue.MessageQueue.CommitWrite | include/fmq/MessageQueueBase.h:1127-1137 | Appends the copied messages to the history, also when the counter wraps |
| MessageQueue.MessageQueue.Write | include/fmq/MessageQueueBase.h:810-814 | Succeeds exactly for non-null data that fits, appends it, and otherwise changes neither counter nor ring |
| MessageQueue.MessageQueue.BeginRead | include/fmq/MessageQueueBase.h:1170-1232 | Grants exactly when n messages and no more than a ring's worth are pending; skips everything pending on an overrun |
| MessageQueue.MessageQueue.CommitRead | include/fmq/MessageQueueBase.h:1240-1257 | Advances the cursor by n, or skips everything pending and fails on an overrun |
| MessageQueue.MessageQueue.Read | include/fmq/MessageQueueBase.h:1158-1162 | Delivers the next n messages and removes them exactly when they are there and intact; otherwise the buffer is unchanged and the cursor moves only on an overrun |
| MessageQueue.MessageQueue.CopyTo | include/fmq/MessageQueueBase.h:549-577 | The array afterwards is the specified ring; a refused copy changes nothing |
| MessageQueue.MessageQueue.CopyFrom | include/fmq/MessageQueueBase.h:518-546 | The buffer afterwards begins with the specified copy and is otherwise unchanged |
| MessageQueue.MessageQueue.CopyReads | include/fmq/MessageQueueBase.h:1207-1229 | What a granted read copies is the history at the cursor |
| FutexProtocol.WaitTakes | EventFlag.cpp:111-118 | A wait whose AND meets its mask, before the futex call or after it, returns exactly the bits of its mask that are on, and takes exactly those out of the word |
| FutexProtocol.SleepsUnlessChanged | EventFlag.cpp:111-135 | A wait that finds no bit falls asleep if and only if the word, whatever other bits are on in it, is when the kernel compares still the one it saw, whatever the other threads did between; else it fails with EAGAIN; it never changes the word |
| FutexProtocol.FruitlessWait | EventFlag.cpp:141-150 | A futex call that returned although no bit is on ends in EINTR, and a retry starts over |
| FutexProtocol.WakeRaises | EventFlag.cpp:82-84 | wake() switches on its mask and owes a futex call exactly if some bit of it was off |
| FutexProtocol.WakeDelivers | EventFlag.cpp:82-147 | A wake of a bit that a sleeper waits for ends its wait with exactly the bits of its mask that are then on, which leave the word |
| FutexProtocol.WholeWait | EventFlag.cpp:162-195 | A wait() on its own from call to return: it reports the bits of its mask that are on, the word loses them, and nothing else changes |
| FutexProtocol.WholeWake | EventFlag.cpp:73-96 | A wake() on its own from call to return: its mask is on, and the sleepers woken are those whose masks meet it, none if it was all on already |
| FutexProtocol.StepNoneLost | EventFlag.cpp:73-154 | Every step keeps: a sleeper whose mask meets the word has a waker that owes it a futex wake |
| FutexProtocol.NoLostWakeup | EventFlag.cpp:82-94 | For any number of threads and any masks, in every run; with no wake in flight every sleeper's mask misses the word, though wake() skips the call when all its bits were on |
| FutexProtocol.StepConserves | EventFlag.cpp:111-154 | No step changes the balance of a bit between word, wakes, waits on their way out and waits returned |
| FutexProtocol.NotificationsConserved | EventFlag.cpp:111-153 | In every run and for each bit, initial value + times switched on = times returned + results on their way + current value |
| EventFlag.Found | EventFlag.cpp:111-147 | The bits one iteration reports are part of the mask |
| EventFlag.Answer | EventFlag.cpp:110-154 | One iteration succeeds exactly when it found a bit of the mask |
| EventFlag.AnswerMeaning | EventFlag.cpp:110-154 | Bit by bit which bits an iteration reports, and its status for every result of the futex call |
| EventFlag.EventFlag.Wake | EventFlag.cpp:73-96 | All bits of the mask end up on; the futex call is made exactly when some bit was off; an empty mask changes nothing and is no error |
| EventFlag.EventFlag.WaitHelper | EventFlag.cpp:102-155 | Status, reported bits and remaining word, which is the word its last AND met less the mask, for every result of the futex call; it is made exactly when no bit was found first, for the given timeout from the moment its deadline is computed, or for ever if that is 0; bad input changes nothing |
| EventFlag.ClockMoves | EventFlag.cpp:175-181 | On a clock that moves on between iterations, iteration i is reached i or more after the start |
| EventFlag.TimeRunsOut | EventFlag.cpp:173-187 | So the retry loop uses up a timeout before that many iterations run out |
| EventFlag.EventFlag.WaitRetrying | EventFlag.cpp:170-194 | Never ends with EAGAIN or EINTR; its result is that of the first iteration that is not fruitless or comes too late, and the word is what the last iteration it went into left, the word met less the mask, or as before if there was none; exactly the reported bits leave the word; every futex call of a timed wait gets a deadline the kernel accepts, which is that of the whole wait plus exactly the difference between the kernel clock's reading and the loop's; every one of an untimed wait gets none; ETIMEDOUT only at or after the deadline; on an advancing clock it ends within the budget |
| EventFlag.EventFlag.Wait | EventFlag.cpp:162-195 | The same, word included, and without retry what the one futex call gives |
| EventFlag.AddNanosecondsToCurrentTime | EventFlag.cpp:224-235 | The deadline is exact, and acceptable to the kernel if and only if the nanoseconds do not go negative, as for every timeout that is not negative |
| BlockingProtocol.StepKeeps | include/fmq/MessageQueueBase.h:855-923 | Every step of either peer keeps: a side that is stuck although it could proceed has a notification set, or its peer is about to set one |
| BlockingProtocol.RunKeeps | include/fmq/MessageQueueBase.h:972-1039 | So it holds in every run |
| BlockingProtocol.NoStrandedSleeper | include/fmq/MessageQueueBase.h:855-923 | In every run of blocking calls, timed or not, with spurious wakes, signals, timeouts and last attempts, unless the peer is between its commit and the end of its wake(), a sleeping writer has too little room and a sleeping reader too few messages |
| BlockingProtocol.WriterServed | include/fmq/MessageQueueBase.h:855-916 | In every reachable state, when a reader with a sleeping writer has read and not yet set the flag, then by the end of its wake() the writer is awake, its wait succeeds, and it tries its write again |
| BlockingProtocol.ReaderServed | include/fmq/MessageQueueBase.h:972-1032 | Likewise a sleeping reader whose peer has written |
| BlockingProtocol.WriterFailedWaitEnds | include/fmq/MessageQueueBase.h:899-908 | A writer whose wait times out or fails ends its call with false; queue, word and peer are as they were |
| BlockingProtocol.ReaderFailedWaitEnds | include/fmq/MessageQueueBase.h:1015-1024 | So does a reader |
| BlockingProtocol.NoMutualSleep | include/fmq/MessageQueueBase.h:972-1039 | Both are never asleep together when what they want adds up to no more than the capacity plus one |
| DeadlockBound.MutualSleepIff | include/fmq/MessageQueueBase.h:855-917 | Some run leaves both asleep if and only if what they want adds up to more than that |
| WrappedRuns.BlockingRefine | include/fmq/MessageQueueBase.h:817-1040 | With 64-bit counters, each run of the blocking calls is the image of the run with unbounded counters, while fewer than 2^64 bytes have been written or begun |
| WrappedRuns.NoStrandedSleeper64 | include/fmq/MessageQueueBase.h:855-923 | No stranded sleeper with 64-bit counters, as long |
| WrappedRuns.NoMutualSleep64 | include/fmq/MessageQueueBase.h:972-1039 | No mutual deadlock within the bound with 64-bit counters, as long |
| WrappedRuns.MutualSleepIff64 | include/fmq/MessageQueueBase.h:855-917 | Some run that writes fewer than 2^64 bytes leaves both asleep if and only if the bound is passed |
| BlockingCalls.ClockMoves | include/fmq/MessageQueueBase.h:873-879 | On a clock that moves on between laps, lap i is reached i or more after the start |
| BlockingCalls.TimelyEnd | include/fmq/MessageQueueBase.h:863-889 | So a timed loop uses up its budget before such laps run out |
| BlockingCalls.AskedSooner | include/fmq/MessageQueueBase.h:896-897 | A wait() on what is left of the budget aims at the deadline of the whole call, late by no more than the time between the two clock readings of a lap, and never at none |
| BlockingCalls.CourseIs | include/fmq/MessageQueueBase.h:863-917 | The first lap that ends a call says how it ends, and if none does it is in its loop still |
| BlockingCalls.CourseEnds | include/fmq/MessageQueueBase.h:863-917 | A call is blocked in wait() only in a lap reached in time in which every iteration is fruitless; in its loop if and only if every lap has passed; and it expires in its loop if and only if the budget is used up in a lap it reaches in which an attempt fails |
| BlockingCalls.UntimedPause | EventFlag.cpp:162-195 | An untimed wait() brings a notification if and only if some iteration finds a bit after fruitless ones only, and never returns if and only if all are fruitless |
| BlockingCalls.UntimedWrite | include/fmq/MessageQueueBase.h:817-924 | An untimed writeBlocking succeeds if and only if there is data, and room at once or in some lap up to which every wait is notified |
| BlockingCalls.UntimedRead | include/fmq/MessageQueueBase.h:933-1040 | An untimed readBlocking, likewise with enough messages |
| BlockingCalls.Pause | include/fmq/MessageQueueBase.h:895-907 | One wait() of either call: it brings a notification of the mask, or ends the call, exactly as its iterations say and for lack of time only when the time of the whole call is up; the word is what the last iteration left |
| BlockingCalls.WriteLap | include/fmq/MessageQueueBase.h:867-916 | One pass of the loop, exactly: time up, the call ends with the outcome of a last attempt; else it ends as its wait() does, or with success if there is room after a notification; else it goes on with a positive budget that makes up the deadline with the clock, and too little room. The word is what the wait left |
| BlockingCalls.WriteLoop | include/fmq/MessageQueueBase.h:863-917 | Outcome and word are those of the first lap that ends the call; remaining budget + last clock reading is invariant, so every futex call aims at the deadline of the call; the data is appended once or not at all; a call that expired found too little room in a last attempt |
| BlockingCalls.ReadLap | include/fmq/MessageQueueBase.h:983-1033 | One pass of the loop of readBlocking, likewise |
| BlockingCalls.ReadLoop | include/fmq/MessageQueueBase.h:980-1034 | The same for reading, whatever the writer brings meanwhile |
| BlockingCalls.WriteBlocking | include/fmq/MessageQueueBase.h:817-924 | Refused exactly without a flag, with an empty read notification or too much data, and then nothing changes; success at once if there is room, else outcome and word as the laps decide; success means appended once, with the write notification set and a futex wake exactly if some bit of it was off; anything else means not appended and the word as the waits left it; giving up means, unless a futex call failed otherwise, that the requested time has passed; an advancing clock ends a timed call |
| BlockingCalls.ReadBlocking | include/fmq/MessageQueueBase.h:933-1040 | The same for reading: success means the next messages delivered once, the read notification set and a futex wake exactly if some bit of it was off; anything else leaves buffer and cursor as they were and the word as the waits left it |
| Bits.LowMask | base/fmq/MQDescriptorBase.h:87-90 | Masking with a power of two less one leaves the remainder by it |
| Bits.HighMask | base/fmq/MQDescriptorBase.h:84 | Masking with its complement takes the remainder away |
| Layout.WordMask | base/fmq/MQDescriptorBase.h:84-90 | The masks of alignToWordBoundary and isAlignedToWordBoundary round 64-bit sizes down to a word and test for one |
| Layout.PageMask | include/fmq/MessageQueueBase.h:704-709 | The constructor's mask rounds down to a page, for every page size that is a power of two |
| Layout.AlignMeaning | base/fmq/MQDescriptorBase.h:75-85 | The rounded length, and the abort exactly when it would not fit 64 bits |
| Layout.RoundUpLeast | base/fmq/MQDescriptorBase.h:84 | Rounding gives the least multiple that is large enough |
| Layout.DescribableExactly | include/fmq/AidlMQDescriptorShim.h:177-190 | The descriptor takes exactly rings of up to 2^31 - 24 bytes with messages of up to 2^31 - 1 |
| Layout.OneFileStep | include/fmq/AidlMQDescriptorShim.h:214-220 | Each turn of the loop places the next grantor without any wrap or truncation |
| Layout.AidlMQDescriptorShim.constructor | include/fmq/AidlMQDescriptorShim.h:169-221 | No grantors for sizes it does not take; otherwise counters, ring and flag word one after the other |
| Layout.TooLarge | include/fmq/MessageQueueBase.h:667-672 | The division test rejects exactly the sizes whose product overflows |
| Layout.TwoFileGrantors | include/fmq/MessageQueueBase.h:736-764 | For user-supplied memory the ring is alone in the second file and the others are packed in the first |
| Layout.AshmemMeaning | include/fmq/MessageQueueBase.h:688-710 | The region is the least number of whole pages for ring, counters and flag word, with no sum overflowing, for every ring of less than 2^31 bytes |
| Layout.AshmemForUser | include/fmq/MessageQueueBase.h:701-704 | With user-supplied memory it holds counters and flag word only |
| Layout.AbortMeaning | include/fmq/AidlMQDescriptorShim.h:177-182 | The process aborts exactly for the sizes where rounding overflows, none of which the descriptor takes |
| Layout.NewQueue | include/fmq/MessageQueueBase.h:662-771 | Rejects exactly empty, overflowing and too large requests; aborts exactly where rounding overflows; leaves no grantors exactly for the other sizes the descriptor does not take; and otherwise makes the region and the grantors of the layout |
| Layout.OneFileSound | include/fmq/MessageQueueBase.h:695-710 | For every size taken, offsets are 8-aligned and fit int32, the ranges of counters, ring and flag word are disjoint and end inside a region of whole pages |
| Layout.TwoFilesSound | include/fmq/MessageQueueBase.h:700-764 | The same with user-supplied memory for the ring |
| Layout.MapGrantorDescr | include/fmq/MessageQueueBase.h:1275-1355 | Maps exactly the grantors that pass every check, and none unless both counters have 8 bytes and the flag word 4; the arguments and the address are those of the page the grantor begins in, and the length fits int |
| Layout.MappableExactly | include/fmq/MessageQueueBase.h:1275-1338 | Those checks in numbers: a position and a file that exist, an offset that is a multiple of 8, an extent of at most 2^31 - 1 less a page, and at the positions that exist at least 8 bytes for either counter and 4 for the flag word, with no minimum for the ring or for unknown positions |
| Layout.MappingMeaning | include/fmq/MessageQueueBase.h:1332-1354 | The 32- and 64-bit conversions leave length and distance exact for every offset; the mapping covers the grantor exactly when its page begins below 2^31 |
| Layout.CoversExactly | include/fmq/MessageQueueBase.h:1332-1339 | With page sizes that are powers of two, exactly when its offset is below 2^31 |
| Layout.OneFileMaps | include/fmq/MessageQueueBase.h:1332-1369 | A queue the descriptor takes can be mapped in full if and only if its ring is no larger than 2^31 - 1 less a page; each mapping then stays inside the region, and unmapping gives back its base and length |
| Layout.TwoFilesMap | include/fmq/MessageQueueBase.h:1332-1369 | The same with user-supplied memory for the ring |

## Left out

- BlockingCalls.WriteBlocking: a `bool` in the program; the model tells the reasons for false apart, and says that a call whose script ended is still blocked.
- BlockingCalls.ReadBlocking: as for WriteBlocking.
- MessageQueue.MessageQueue.BeginWrite: the exit for a misaligned counter, which the program takes without setting the result, sets null regions here; no valid queue reaches it.
- MessageQueue.MessageQueue.Read: one object stands for one process's view between two steps of others; interleaving inside a call is the subject of the step system.
- MessageQueue.MessageQueue.BeginRead: asks that `n * sizeof(T)` stays below 2^64, which the program assumes without a test.
- Ring.WindowSlots: `startIdx + nMessages` is taken not to overflow 64 bits.
- FutexProtocol.NoLostWakeup: a wake reaches every sleeper it should (there are fewer than `INT_MAX`) and the futex wake call itself does not fail; a failing wait call ends the wait.
- BlockingProtocol.NoStrandedSleeper: time is not counted in the step system, so a timed call may find it used up at any clock reading; `BlockingCalls` counts it. Both ends use the blocking calls; plain `read` and `write` never wake a blocked peer.
- Layout.MapGrantorDescr: that `mmap` itself fails is not modelled.
- EventFlag.EventFlag.WaitRetrying: takes the loop's clock to run no slower than the kernel's, and the kernel not to report ETIMEDOUT before the deadline it was given.
- Weak memory: atomic accesses are sequentially consistent steps, and copies are separate steps between them.
- `mmap`, ashmem, native handles, file descriptors, their ownership and every transport of descriptors.
- `initMemory`'s error path and the balance of what it releases.
- Opening a queue again with `resetPointers`, which sets a shared counter back under its users.
- Counters corrupted by a peer: what the alignment test and beginRead then do is proved (`Ring.GrantedInRing`, `QueueProtocol.MisalignedRefused`); the invariants of whole runs assume that they are not.
- Descriptors built from a parcel, copies and conversions between HIDL and AIDL: field-by-field copies.
- Default-argument overloads, logging, `toString`, type-trait checks, test and build code.
