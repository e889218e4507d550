# gosem in Dafny

This project models the gosem library: counting semaphores and mutexes built on
Go buffered channels, a broadcast (fan-out) queue that gives each subscriber its
own ring buffer, and a small wait-group counter. The model proves properties of
each piece.

Each primitive is a sequential state machine. A Go call that would block becomes
an operation that may only run while its token is available, written as a
`requires` clause (`CanWait`, `CanSignal`, `CanDone`, `semR.tokens > 0`, ...).
The Go objects become Dafny classes, and their methods are imperative, like the
Go code. The fields are the Go fields with four exceptions: a semaphore's
channel `sch` becomes the pair `capacity`/`tokens`, the Sync channel
`csync chan int` becomes the count `csync` of values it buffers, the
diagnostic `name` is dropped, and so is the registry's `qmutex`. The `Sem`,
`Mutex` and `Sync` methods are proved against a value-level transition function
(`State() == AfterWait(old(State()))`), and lemmas state the properties of
those functions. The queue's methods (`SubQueue.Read`, `Deliver`, `Next`,
`GetIndex`, `QU.Subscribe`, `Close`, `Fanout`) state their effects field by
field, and `SubQueue.Read` and `Deliver` also through the `RingBuffer` value
their invariant ties them to.

- `wrappers.dfy` (`Wrappers`): the `Option` type and `Repeat`, a run of n
  copies of one call.
- `semaphore.dfy` (`Semaphore`): `SemState` and its transitions; runs of
  acquires and releases; the `Sem` and `Mutex` classes.
  - The channel `sch` is a token counter `tokens` in `[0, capacity]`.
  - The channel is closed exactly when `valid` is false.
  - A receive on a closed channel first drains the buffered tokens and then
    returns at once. So `Wait` is enabled when `tokens > 0 || !valid`.
  - This one module models both `pkg/semaphore/sem.go` and
    `semaphore/sem.go`. The second file holds unresolved merge markers; its two
    sides agree in meaning, and the model takes their union.
  - Names found in only one file (`Csem`, `Cmutex`, `CreateReadSemaphore`,
    `CreateWriteSemaphore`) are separate members. Synonyms (`P`/`Wait`,
    `V`/`Signal`) are thin methods that call the primary one.
- `ring_buffer.dfy` (`RingBuffer`): one subscriber's buffer as a value.
  - `Write` is one Fanout delivery and `Read` is one read.
  - `Replay` runs a trace of deliveries and reads.
  - Lemmas prove FIFO order and flow control (SemW and SemR blocking) over
    every trace.
- `queue.dfy` (`Queue`): the `SubQueue` and `QU` classes over a slot `array`,
  `Sem` objects and a `map<int, SubQueue>` registry.
  - `SubQueue.Valid()` ties the object to a `RingBuffer.Ring`. It also keeps
    the ghost histories: `Delivered` (items Fanout wrote) always equals `Taken`
    (items Read returned) followed by the buffered contents.
  - A `Snapshot` of a subscriber holds its `Delivered`, `Taken`, `Head`, `Tail`
    and SemW count. `Bumped` is that snapshot after one more delivery: item
    appended, `Head` advanced modulo size, SemW one lower, everything else
    unchanged.
- `sync.dfy` (`SyncCounter`): `SyncState` and its transitions, runs of calls,
  and the `Sync` class over a `Semaphore.Mutex`.
  - `lock` is the number of tokens in the mutex (1 when free).
  - `csync` is the number of values in the one-slot channel.

`Fanout` visits the keys `0 .. len(consmap)-1` (queue/queue.go:86-88), so it is
defined only while the keys are contiguous from 0. A key in that range is
missing, and the code dereferences a nil pointer, once the keys are no longer
`0 .. n-1`: after closing any subscriber but the one with the highest key
(which leaves a gap), or after closing that one and subscribing again (which
puts the new entry above the range, because `cinstance` is never reused,
queue/queue.go:56-57). Closing the subscriber with the highest key keeps the
keys contiguous, and Fanout goes on as before. The model requires the keys to be exactly `0 .. n-1`.

## Model

| member | source | states |
|---|---|---|
| Semaphore.Created | pkg/semaphore/sem.go:32-53 | capacity becomes max(capacity, 1); the initial count is clamped into [0, capacity] and stored as ic; tokens == ic; valid; each clamping case stated separately |
| Semaphore.AfterWait | pkg/semaphore/sem.go:104-112 | with a token: exactly one fewer; on a closed, drained semaphore: no change; capacity, ic and valid untouched; bounds kept |
| Semaphore.AfterSignal | pkg/semaphore/sem.go:90-98 | exactly one more token; nothing else changes; bounds kept |
| Semaphore.AfterFlush | pkg/semaphore/sem.go:77-85 | the pool is empty; capacity, ic, valid unchanged |
| Semaphore.AfterFill | pkg/semaphore/sem.go:49-51 | n sends that fit add exactly n tokens |
| Semaphore.AfterReset | pkg/semaphore/sem.go:69-74 | tokens == ic afterwards whatever the prior count; nothing else changes |
| Semaphore.AfterMutexReset | pkg/semaphore/sem.go:155-158 | exactly one token afterwards |
| Semaphore.AfterClose | pkg/semaphore/sem.go:58-63 | valid is false; tokens, capacity and ic unchanged |
| Semaphore.WaitThenSignal | pkg/semaphore/sem.go:128-139 | Enter then Leave on an open semaphore with a token restores the state exactly |
| Semaphore.SignalThenWait | pkg/semaphore/sem.go:90-112 | a Signal followed by a Wait restores the state exactly |
| Semaphore.CloseIdempotent | pkg/semaphore/sem.go:58-63 | a second Close changes nothing |
| Semaphore.WaitAfterClose | pkg/semaphore/sem.go:104-107 | after Close, Wait never blocks and reports false; it consumes a leftover token if there is one, otherwise it changes nothing |
| Semaphore.ResetForgetsTokens | pkg/semaphore/sem.go:69-85 | Reset gives the same state whatever the prior token count; resetting a fresh semaphore is the identity |
| Semaphore.MutexResetIsReset | pkg/semaphore/sem.go:155-158 | when ic == 1, the mutex reset and the semaphore reset agree |
| Semaphore.RunReleases | pkg/semaphore/sem.go:90-98 | n releases on an open semaphore succeed exactly when n more tokens fit, and then add n |
| Semaphore.RunAcquires | pkg/semaphore/sem.go:104-112 | n acquires on an open semaphore succeed exactly when n tokens are buffered, and then remove n |
| Semaphore.RunIffWithinBounds | pkg/semaphore/sem.go:90-112 | a run of acquires and releases never blocks exactly when every prefix keeps the count in [0, capacity]; it then ends with the count moved by releases minus acquires |
| Semaphore.ReleasesThenAcquires | pkg/semaphore/sem.go:17-19 | on a fresh read semaphore, n releases (n ≤ capacity) let n acquires through and return to the initial state; one acquire more blocks; a further release lets it through |
| Semaphore.Sem.Createsem | pkg/semaphore/sem.go:32-53 | the new object's state is Created(capacity, ic), built by the fill loop |
| Semaphore.Sem.Csem | semaphore/sem.go:35-56 | a fresh valid semaphore in state Created(capacity, ic) |
| Semaphore.Sem.CreateReadSemaphore | pkg/semaphore/sem.go:17-19 | a fresh semaphore with 0 tokens |
| Semaphore.Sem.CreateWriteSemaphore | pkg/semaphore/sem.go:24-26 | capacity ≥ 1: full (tokens == capacity); capacity < 1: capacity 1 and 0 tokens |
| Semaphore.Sem.Fill | pkg/semaphore/sem.go:49-51 | the loop of n sends leaves the state AfterFill(old state, n) |
| Semaphore.Sem.Close | pkg/semaphore/sem.go:58-63 | new state is AfterClose(old state); the same code is at semaphore/sem.go:65-70 |
| Semaphore.Sem.FlushChannel | pkg/semaphore/sem.go:77-85 | the drain loop ends with an empty pool: AfterFlush(old state); the same code is at semaphore/sem.go:84-92 |
| Semaphore.Sem.Reset | pkg/semaphore/sem.go:69-74 | new state is AfterReset(old state), so tokens == ic; the same code is at semaphore/sem.go:76-81 |
| Semaphore.Sem.Signal | pkg/semaphore/sem.go:90-93 | enabled only below capacity on an open semaphore; new state AfterSignal(old); returns valid; the same code is at semaphore/sem.go:108-110 |
| Semaphore.Sem.V | pkg/semaphore/sem.go:95-98 | same contract as Signal; the same code is at semaphore/sem.go:103-106 |
| Semaphore.Sem.Wait | pkg/semaphore/sem.go:104-107 | enabled only when a token is buffered or the semaphore is closed; new state AfterWait(old); returns valid; the same code is at semaphore/sem.go:130-133 |
| Semaphore.Sem.P | pkg/semaphore/sem.go:109-112 | same contract as Wait; the same code is at semaphore/sem.go:125-128 |
| Semaphore.Mutex.Createmutex | pkg/semaphore/sem.go:118-123 | capacity 1, initial count 1, one token, valid |
| Semaphore.Mutex.Cmutex | semaphore/sem.go:144-149 | a fresh mutex whose semaphore is Created(1, 1) |
| Semaphore.Mutex.Enter | pkg/semaphore/sem.go:128-131 | Wait on the inner semaphore; the same code is at semaphore/sem.go:154-157 |
| Semaphore.Mutex.Leave | pkg/semaphore/sem.go:136-139 | Signal on the inner semaphore; the same code is at semaphore/sem.go:162-165 |
| Semaphore.Mutex.Close | pkg/semaphore/sem.go:144-149 | inner state AfterClose(old), so valid is false and a second call changes nothing; the same code is at semaphore/sem.go:170-175 |
| Semaphore.Mutex.Reset | pkg/semaphore/sem.go:155-158 | exactly one token afterwards, whatever the prior state; the same code is at semaphore/sem.go:182-185 |
| RingBuffer.Empty | queue/queue.go:49-55 | a new subscriber's buffer: valid, both cursors 0, nothing buffered |
| RingBuffer.Write | queue/queue.go:88-94 | the item goes into the slot at Head; Head advances modulo size; one more filled slot; buffered contents gain the item at the end; validity kept |
| RingBuffer.Read | queue/queue.go:71-77 | returns the oldest buffered item and the Tail index; Tail advances modulo size; contents lose their first item; validity kept |
| RingBuffer.FirstReadAfterSubscribe | queue/queue.go:71-77 | the first Read after Subscribe and one delivery returns that item, from slot 0 |
| RingBuffer.Replay | queue/queue.go:71-96 | every trace of deliveries and reads that does not block keeps the buffer valid (cursors in range, Head − Tail agreeing with SemR modulo size) |
| RingBuffer.ReplayIsFifo | queue/queue.go:71-96 | over any trace: buffered contents before plus items delivered equal items read plus contents after |
| RingBuffer.SubscriberReadsPrefix | queue/queue.go:47-96 | from a fresh subscriber, the items read are a prefix of the items delivered, in order, and the rest are exactly what is buffered |
| RingBuffer.ReplayIffFlowWithin | queue/queue.go:71-96 | a trace blocks exactly when some prefix would overfill the buffer (waiting on SemW) or read an empty one (waiting on SemR) |
| RingBuffer.CapacityTwoBlocksThirdDelivery | queue/queue.go:85-96 | with 2 slots, two deliveries go through and a third blocks |
| RingBuffer.CapacityTwoReadUnblocks | queue/queue.go:71-96 | with 2 slots, after two deliveries a Read returns the first item from slot 0, and the third delivery then goes through |
| Queue.SubQueue.constructor | queue/queue.go:49-55 | Size and Instance set, Head == Tail == 0, SemW full, SemR empty, no items |
| Queue.SubQueue.Read | queue/queue.go:71-77 | enabled only when SemR > 0; returns the slot at the old Tail and that index; the item is the oldest buffered one, i.e. Delivered at position |old Taken|, and is appended to Taken; Tail advances modulo size; SemR − 1, SemW + 1; invariant kept |
| Queue.SubQueue.Next | queue/queue.go:42-44 | needs a positive size (Go divides by Size) and a non-negative Tail; Tail advances modulo size and stays in [0, size), so Next can be repeated; Head, Delivered and Taken stay; on a valid subscriber of more than one slot the cursors no longer agree with SemR |
| Queue.SubQueue.GetIndex | queue/queue.go:80-82 | returns Tail in any state, also after Next; no state change; on a valid subscriber it lies in [0, size) and, when an item is buffered, is the slot of the oldest one, which the next Read returns |
| Queue.SubQueue.Deliver | queue/queue.go:88-94 | enabled only when SemW > 0; the item is stored at the old Head; Head advances modulo size; SemW − 1, SemR + 1; the item is appended to the buffered contents and to Delivered; invariant kept |
| Queue.QU.InitQueue | queue/queue.go:32-39 | empty registry, cinstance 0, the given size |
| Queue.QU.Subscribe | queue/queue.go:47-60 | exactly one entry added, under the old cinstance, which was free; the entry has Head == Tail == 0, the registry's size, SemW == size, SemR == 0; cinstance + 1; other entries untouched |
| Queue.QU.Close | queue/queue.go:63-67 | only the entry keyed by sq's instance is removed; cinstance unchanged |
| Queue.QU.DeliverAt | queue/queue.go:88-94 | one loop iteration of Fanout: entry k's snapshot becomes Bumped, every other entry's snapshot is unchanged |
| Queue.QU.Fanout | queue/queue.go:85-96 | with keys exactly 0..n-1 and SemW > 0 everywhere: changes only the objects of registered subscribers, so a closed subscriber is untouched; registry, cinstance and footprint unchanged, so Fanout can be called again; every entry's snapshot is Bumped once (item appended to Delivered, Head advanced modulo size, SemW − 1, Taken and Tail unchanged); invariant kept |
| Queue.QU.Broadcast | tests/broadcast/broadcast.go:95-101 | the broadcaster's loop of Fanout calls: with SemW ≥ the number of items everywhere, every registered subscriber has all the items appended to Delivered, in order, and Taken unchanged; its snapshot is BumpedAll; only registered subscribers' objects change |
| Queue.BumpedAll | queue/queue.go:85-96 | a subscriber after m deliveries in a row: the m items appended to Delivered in order, m free slots fewer, Taken and Tail unchanged |
| Queue.BumpedAllAppends | queue/queue.go:85-96 | from a Head in [0, size), m deliveries in a row append the m items in order, advance Head by m modulo size, take m free slots and leave Taken and Tail alone |
| SyncCounter.Initial | pkg/sync/sync.go:17-22 | cnt 0, not in use, empty channel, free mutex |
| SyncCounter.AfterAdd | pkg/sync/sync.go:24-31 | cnt + 1, in use, channel and mutex unchanged |
| SyncCounter.AfterDone | pkg/sync/sync.go:33-44 | matched: cnt − 1 and csync filled exactly when cnt was 1; unmatched: cnt and csync unchanged, and the mutex stays held unless releasing |
| SyncCounter.AfterSyncWait | pkg/sync/sync.go:46-48 | the channel value is consumed; nothing else changes |
| SyncCounter.Run | pkg/sync/sync.go:24-48 | no run of Add, Done and Wait calls makes cnt negative or leaves the bounds of the channel or mutex |
| SyncCounter.RunAdds | pkg/sync/sync.go:24-31 | with a free mutex, n Adds never block and raise cnt by n |
| SyncCounter.RunDones | pkg/sync/sync.go:39-44 | n matched Dones never block; cnt falls by n; csync is filled only by the Done that takes cnt from 1 to 0 |
| SyncCounter.WaitAfterAllDones | pkg/sync/sync.go:24-48 | after n Adds, Wait goes through once all n Dones have run and blocks after only n − 1; Wait with no Add blocks |
| SyncCounter.LockedAdmitsOnlyWaits | pkg/sync/sync.go:33-38 | while the mutex is held, every run that does not block consists of Wait calls only |
| SyncCounter.UnmatchedDoneBlocksLaterCalls | pkg/sync/sync.go:35-38 | as written, an unmatched Done keeps the mutex, and every later Add or Done blocks |
| SyncCounter.ReleasingKeepsMutexFree | pkg/sync/sync.go:33-44 | with the corrected Done, the mutex is free after every run, so another Add always goes through |
| SyncCounter.Sync.NewSync | pkg/sync/sync.go:17-22 | a fresh mutex and state Initial() |
| SyncCounter.Sync.Add | pkg/sync/sync.go:24-31 | under the mutex; new state AfterAdd(old state) |
| SyncCounter.Sync.Done | pkg/sync/sync.go:33-44 | as written; new state AfterDone(old state, false) |
| SyncCounter.Sync.DoneReleasing | pkg/sync/sync.go:33-44 | corrected; new state AfterDone(old state, true) |
| SyncCounter.Sync.Wait | pkg/sync/sync.go:46-48 | enabled only when csync holds a value; new state AfterSyncWait(old state) |

## Left out

- Real blocking, wake-up order, fairness and goroutine interleaving. Every
  blocking channel operation is an enabling precondition on a sequential call.
  Mutual exclusion across threads is therefore not stated.
- Go panics and endless loops become preconditions:
  - a send on a closed channel panics (`Signal`, `V`, `Leave` after `Close`);
  - `_flushChannel` on a closed channel never returns: the receive is always
    ready, so the `default` branch is never taken. `Reset` and `Mutex.Reset`
    flush before they send, so after `Close` they loop forever and never
    reach their send (all three require `valid`);
  - a missing key in `Fanout` once keys are no longer exactly `0 .. n-1`
    (after a `Close` of any subscriber but the one with the highest key, or
    after closing that one and subscribing again);
  - a slot count of 0 or less (`InitQueue` requires `size > 0`; 0 would divide
    by zero in `Next`, and a negative size panics in `make`).
- Go's 64-bit `int` wrap-around. The counters `cnt` (pkg/sync/sync.go:29, 42)
  and `cinstance` (queue/queue.go:57) are unbounded in the model; only
  2^63 calls could make them wrap.
- The `name` fields. They are diagnostic text only.
- `fmt.Println` in `Done`. It is output only.
- `maxthreads` in `NewSync`. It is clamped, then never stored, so the
  constructor takes the argument and ignores it.
- The `qmutex` field and `QU.Enter`/`QU.Leave` (queue/queue.go:17, 22-29 and
  the calls in Subscribe, Close and Fanout). In a sequential model they do not
  change the registry.
- The demonstration programs under tests/ and xcons1prod.go, apart from the
  broadcaster's loop of Fanout calls (`QU.Broadcast`). They hold no logic of
  the core.
- Queue.QU.Repr keeps the objects of closed subscribers, so closing a
  subscriber does not shrink the registry's footprint. `Fanout` and
  `Broadcast` may change only the objects of registered subscribers.
- Queue.QU.Fanout: the ensures names each subscriber's slot array only through
  the ring-buffer invariant. The slot written at Head is stated by
  `SubQueue.Deliver`, which each iteration runs (`QU.DeliverAt` is that
  iteration).
- Queue.SubQueue.Next: it has no caller in the core. It leaves the subscriber
  outside its invariant, and the model states that rather than preserving
  anything; a `Read` after `Next` is therefore not modelled.

## Findings

| source | as written | input that shows it | evidently intended | confidence | as-written member | corrected member |
|---|---|---|---|---|---|---|
| pkg/sync/sync.go:35-38 | an unmatched Done (not in use, or cnt < 1) returns after `Enter` without `Leave`, so the mutex stays held | `Done` on a fresh Sync (cnt 0, not in use); after it every `Add` and `Done` blocks forever | release the mutex before the early return | not executed | SyncCounter.UnmatchedDoneBlocksLaterCalls | SyncCounter.ReleasingKeepsMutexFree |

`SyncCounter.Sync.Done` models the code as written, and `SyncCounter.Sync.DoneReleasing` is the
corrected method. Both are tied to `AfterDone` through its `releasing` flag. The
wait-group lemmas (`RunAdds`, `RunDones`, `WaitAfterAllDones`) hold for both.
