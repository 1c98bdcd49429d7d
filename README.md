# Log-Library buffering core in Dafny

This project models the buffering core of the Log-Library C++ logger and proves properties of the model. The core has five parts:

- **MPMC ticket queue** (`include/log/mpmc_queue.h`). It is a bounded multi-producer multi-consumer queue.
  - Producers and consumers draw tickets from two counters.
  - Ticket `t` uses slot `(t * stride) % capacity + kSlotPadding` on lap `t / capacity`.
  - The stride is a small prime chosen by `computeStride`.
  - Each slot has a turn sequencer. Lap `l` may enqueue on turn `2l` and dequeue on turn `2l + 1`.
- **Turn sequencer** (`include/log/turn_sequencer.h`). Its state is one 32-bit word: the current turn shifted left by 6, OR-ed with a waiter delta that saturates at 63. It also has the adaptive spin cutoff and the `PAST` test of `tryWaitForTurn`.
- **Two cursor ring buffers.**
  - `Queue.h` holds elements, and NUL-terminated strings as `char`.
  - `include/log/queue.h` holds runs of bytes.

  Both index `ring[cursor % capacity]` with monotone push and pop cursors, and copy runs in at most two `memcpy`/`memset` segments.
- **Futex deadline arithmetic** (`include/log/futex.h`):
  - time point to `timespec`;
  - conversion between the steady and the system clock;
  - the choice between an untimed and a timed wait.
- **Log facade** (`include/log/log.h`, `src/log.cpp`).
  - Every call renders a record, writes it to a 100-slot MPMC queue of strings, and drains the queue into the writer while it is at least half full.
  - The destructor drains the queue to empty.

Modules, one per file:

| file | module | models |
|---|---|---|
| `wrappers.dfy` | `Wrappers` | `Option`, `Result` |
| `bits.dfy` | `Bits` | `uint32` values, wrapping subtraction, bitwise OR, powers of two |
| `number_theory.dfy` | `NumberTheory` | gcd, primes, Bezout: why a coprime stride spreads `cap` tickets over `cap` slots |
| `turn_sequencer.dfy` | `TurnSequencer` | the sequencer word and the `Sequencer` class |
| `mpmc_queue.dfy` | `Mpmc` | slots, ticket arithmetic, the slot-array invariant `Window`, the `MPMCQueue` class |
| `ring_math.dfy` | `RingMath` | `RingRead`/`RingWrite` as values; `Memcpy`, `Memset` and the two-segment copies in place |
| `logging_queue.dfy` | `LoggingQueue` | `logging::Queue<char>` of `include/log/queue.h` |
| `cursor_queue.dfy` | `CursorQueue` | `Queue<char>` of `Queue.h` |
| `futex.dfy` | `Futex` | `timeSpecFromTimePoint`, `time_point_conv`, `futexWaitUntil` |
| `log_facade.dfy` | `LogFacade` | `Log`, `logLevelToString`, the record layout |

How the model is built:

- **One step at a time.** Every operation is one atomic step of one thread. A wait that would block becomes a precondition: the slot's turn has come.
- **Integer widths.**
  - `uint32` arithmetic is written out modulo 2^32.
  - A shift by 6 is multiplication or division by 64; a mask is `% 64`.
  - The 64-bit tickets and the cursors are unbounded `nat`s.
- **Queue contents.** `MPMCQueue.Contents` is a ghost sequence of the queued elements. The invariant `Window` ties it to the slot array:
  - tickets `pop .. push - 1` hold the queued elements on their dequeue turn;
  - tickets `push .. pop + capacity - 1` are empty on their enqueue turn.
- **Ring contents.** In both ring buffers, `Contents()` reads the live bytes between the cursors. `Intact()` says the cursors are at most one capacity apart, so no live byte has been overwritten.

## Model

| member | source | states |
|---|---|---|
| `Mpmc.SlotPadding` | include/log/mpmc_queue.h:198 | `kSlotPadding` is at least 1, and is the fewest slots whose bytes reach past 63 |
| `Mpmc.ComputeStride` | include/log/mpmc_queue.h:217-235 | The stride is 1 or a listed prime that neither is a multiple of the capacity nor divides it. Its separation `min(s % cap, cap - s % cap)` is at least that of every eligible prime. It is strictly greater than that of every smaller eligible prime, so ties keep the first. A stride other than 1 separates by more than 1 |
| `Mpmc.StrideCoprime` | include/log/mpmc_queue.h:217-235 | Whatever `computeStride` may return is coprime with the capacity |
| `Mpmc.Idx` | include/log/mpmc_queue.h:237-239 | A ticket's slot lies in `[padding, padding + cap)`, inside the array of `cap + 2 * padding` slots |
| `Mpmc.WindowInjective` | include/log/mpmc_queue.h:237-239 | With a coprime stride, two tickets less than `cap` apart use different slots |
| `Mpmc.NextLap` | include/log/mpmc_queue.h:237-244 | Ticket `t + cap` uses the slot of ticket `t`, on the next turn (mod 2^32) |
| `Mpmc.TurnParity` | include/log/mpmc_queue.h:380-396 | The enqueue turn `2 * turn` is even and the dequeue turn `2 * turn + 1` is odd (mod 2^32). The dequeue turn follows the enqueue turn, and the next lap's enqueue turn follows the dequeue turn |
| `Mpmc.ParityApart` | include/log/turn_sequencer.h:11-14 | Turns of different parity never shift to the same state word |
| `Mpmc.EncodeNoWaiters` | include/log/turn_sequencer.h:9 | A shifted turn encoded with no waiters is the shifted turn itself |
| `Mpmc.SlotAlternation` | include/log/mpmc_queue.h:380-396 | A slot is never ready for both operations of a lap. An enqueue makes it ready for that lap's dequeue and no longer for the enqueue. A dequeue makes it ready for the next lap's enqueue |
| `Mpmc.ExpectedConsistent` | include/log/mpmc_queue.h:362-366 | A slot holding an element has an odd pending turn, and an empty slot an even one. The destructor's low-bit test therefore finds exactly the full slots |
| `Mpmc.WindowInit` | include/log/mpmc_queue.h:17-20 | A freshly allocated slot array satisfies the invariant for an empty queue with both tickets at 0 |
| `Mpmc.PushAdmission` | include/log/mpmc_queue.h:246-264 | Under the invariant, `mayEnqueue` holds at the push ticket's slot iff fewer than `cap` elements are queued |
| `Mpmc.PopAdmission` | include/log/mpmc_queue.h:298-316 | Under the invariant, `mayDequeue` holds at the pop ticket's slot iff the queue is non-empty |
| `Mpmc.EnqueuePreserves` | include/log/mpmc_queue.h:419-423 | Enqueueing at the push ticket's slot, and completing its turn, gives the invariant for the contents with the element appended |
| `Mpmc.DequeuePreserves` | include/log/mpmc_queue.h:443-448 | Dequeueing at the pop ticket's slot yields the oldest element and gives the invariant for the remaining contents |
| `Mpmc.HeldContentsHas` | include/log/mpmc_queue.h:362-366 | Every element held in a slot is among those the slot destructors destroy |
| `Mpmc.SlotsOfCard` | include/log/mpmc_queue.h:237-239 | With a stride coprime to the capacity, `n <= cap` consecutive tickets map to `n` distinct slots |
| `Mpmc.WindowCovers` | include/log/mpmc_queue.h:237-239 | Any `cap` consecutive tickets together own every slot between the two paddings |
| `Mpmc.EmptyWindowHoldsNothing` | include/log/mpmc_queue.h:237-239 | With nothing queued, no slot of the array holds an element: the window's slots wait for an enqueue, and the padding slots that `idx` never reaches are fresh |
| `Mpmc.DequeueHeld` | include/log/mpmc_queue.h:354-357 | Dequeuing the oldest element takes exactly that element out of the ones the slot destructors would destroy |
| `Mpmc.QueuedAreHeld` | include/log/mpmc_queue.h:362-366 | The slot destructors destroy exactly the queued elements, as multisets: every copy of a queued element once, and nothing else |
| `Mpmc.HeldBy` | include/log/mpmc_queue.h:362-366 | On a consistent slot, the destructor's odd-low-bit test destroys exactly the element the slot holds |
| `Mpmc.DeleteSlots` | include/log/mpmc_queue.h:55 | `delete[]` runs the slot destructors from the last slot down to the first; the destroyed elements are collected in that order, and each slot is left empty with its sequencer word |
| `Mpmc.MPMCQueue.constructor` | include/log/mpmc_queue.h:17-41 | Capacity as given, stride from `computeStride`, `cap + 2 * kSlotPadding` fresh slots, both tickets and spin cutoffs 0, empty contents, invariant established |
| `Mpmc.MPMCQueue.Make` | include/log/mpmc_queue.h:35-44 | Fails with "MPMCQueue with explicit capacity 0 is impossible" exactly for capacity 0. Otherwise it yields an empty valid queue of that capacity |
| `Mpmc.MPMCQueue.Size` | include/log/mpmc_queue.h:57-72 | The size is the number of queued elements, at most the capacity |
| `Mpmc.MPMCQueue.IsEmpty` | include/log/mpmc_queue.h:74 | True iff nothing is queued |
| `Mpmc.MPMCQueue.IsFull` | include/log/mpmc_queue.h:76 | True iff `capacity` elements are queued |
| `Mpmc.MPMCQueue.TryObtainReadyPushTicket` | include/log/mpmc_queue.h:246-264 | Succeeds iff the push ticket's slot may enqueue, iff the queue is not full. On success it claims the ticket and advances the counter by 1; otherwise nothing changes |
| `Mpmc.MPMCQueue.TryObtainPromisedPushTicket` | include/log/mpmc_queue.h:280-296 | Fails, leaving the counter alone, iff `pushTicket - popTicket >= capacity`. Otherwise it claims the ticket and advances the counter by 1 |
| `Mpmc.MPMCQueue.TryObtainReadyPopTicket` | include/log/mpmc_queue.h:298-316 | Succeeds iff the pop ticket's slot may dequeue, iff the queue is non-empty. On success it claims and advances by 1 |
| `Mpmc.MPMCQueue.TryObtainPromisedPopTicket` | include/log/mpmc_queue.h:332-347 | Fails iff `popTicket >= pushTicket`. Otherwise it claims and advances by 1 |
| `Mpmc.MPMCQueue.EnqueueWithTicket` | include/log/mpmc_queue.h:419-423 | Appends the element to the contents, restores the invariant, and re-measures the push spin cutoff when `ticket % 128 == 0` |
| `Mpmc.MPMCQueue.DequeueWithTicket` | include/log/mpmc_queue.h:443-448 | Returns the oldest element and drops it from the contents. Re-measures the pop spin cutoff when `ticket % 128 == 0` |
| `Mpmc.MPMCQueue.Write` | include/log/mpmc_queue.h:95-107 | Succeeds iff the queue is not full. The element is then appended; otherwise the contents are unchanged |
| `Mpmc.MPMCQueue.WriteIfNotFull` | include/log/mpmc_queue.h:123-135 | As `Write`, through the promised ticket |
| `Mpmc.MPMCQueue.BlockingWrite` | include/log/mpmc_queue.h:90-93 | On a queue that is not full, appends the element |
| `Mpmc.MPMCQueue.Read` | include/log/mpmc_queue.h:148-163 | Returns nothing iff the queue is empty. Otherwise it returns the oldest element and removes it (FIFO) |
| `Mpmc.MPMCQueue.BlockingRead` | include/log/mpmc_queue.h:137-146 | On a non-empty queue, returns and removes the oldest element |
| `Mpmc.MPMCQueue.Destroy` | include/log/mpmc_queue.h:55 | `delete[] slots_` destroys, from the last slot down, the elements of the slots whose pending turn is odd. As a multiset these are exactly the queued elements. Each slot is left empty with its sequencer word unchanged |
| `TurnSequencer.DecodeEncode` | include/log/turn_sequencer.h:137-147 | For a shifted turn with the low 6 bits clear, decoding `encode(s, d)` gives back `s` and `min(63, d)` |
| `TurnSequencer.ShiftTurnValue` | include/log/turn_sequencer.h:30 | `turn << 6` on a uint32 is `64 * (turn mod 2^26)`, with the low 6 bits clear |
| `TurnSequencer.ShiftTurnInjective` | include/log/turn_sequencer.h:11-14 | Two turns shift to the same word iff they agree mod 2^26 |
| `TurnSequencer.CompleteTurnAdvances` | include/log/turn_sequencer.h:99-104 | Completing the current turn makes turn + 1 current and the completed turn no longer current. The waiter delta drops by 1, saturating at 0 |
| `TurnSequencer.FutexChannel` | include/log/turn_sequencer.h:133-135 | `1 << (turn & 31)` has exactly one bit set |
| `TurnSequencer.UncompletedTurnLSB` | include/log/turn_sequencer.h:115-117 | The result is a byte whose low bit is the low bit of `state >> 6` |
| `TurnSequencer.UncompletedTurnLSBOfShift` | include/log/turn_sequencer.h:115-117 | On a word holding a shifted turn, the low bit reported is that turn's low bit |
| `TurnSequencer.ClassifyByDistance` | include/log/turn_sequencer.h:32-41 | A wait stops at once when its turn is current. It keeps waiting for a turn fewer than 2^25 turns ahead (mod 2^26) and reports PAST otherwise |
| `TurnSequencer.RaisedStateSpec` | include/log/turn_sequencer.h:59-69 | Registering as a waiter keeps the current turn. It sets the delta to the larger of the old delta and the waiter's own distance capped at 63, never lowering it |
| `TurnSequencer.EffectiveSpinCutoff` | include/log/turn_sequencer.h:25-26 | The cutoff spun for lies in [200, 20000] whenever the stored one is 0 or already there |
| `TurnSequencer.SpinTarget` | include/log/turn_sequencer.h:80-87 | The target lies in [200, 20000], and is 200 once the wait spun through 20000 tries |
| `TurnSequencer.NextSpinCutoffInRange` | include/log/turn_sequencer.h:89-93 | A cutoff of 0 or in [200, 20000] stays in [200, 20000]. It moves by `(target - prev) / 8` rounded toward zero, with no uint32 wrap, and ends between the old value and the target |
| `TurnSequencer.SpinCutoffAfterWait` | include/log/turn_sequencer.h:80-94 | The stored cutoff stays in [200, 20000] once there (or starting from 0). It is left alone unless asked to re-measure or still 0 |
| `TurnSequencer.Sequencer.constructor` | include/log/turn_sequencer.h:9 | The first turn is current and no waiter is recorded |
| `TurnSequencer.Sequencer.CompleteTurn` | include/log/turn_sequencer.h:99-113 | Requires the turn to be current. The next turn becomes current, the delta drops by 1 saturating at 0, and channel `(turn + 1) & 31` is woken iff the old delta was non-zero |
| `TurnSequencer.Sequencer.RegisterWaiter` | include/log/turn_sequencer.h:59-69 | The new word keeps the current turn and raises the delta to `max(old, min(63, ours))`. The futex wait expects exactly that word |
| `TurnSequencer.Sequencer.TryWaitForTurn` | include/log/turn_sequencer.h:22-97 | Returns SUCCESS iff the turn is current, and PAST iff the turn lies behind. The shared spin cutoff changes only on SUCCESS and stays in [200, 20000] |
| `RingMath.RingReadWrite` | include/log/queue.h:49-58 | Reading back a run just written at a cursor gives the run |
| `RingMath.RingAppend` | Queue.h:62-86 | Writing a run at the push cursor, when it fits in the free space, appends it to the live run and leaves that run intact |
| `RingMath.RingReadAdvance` | Queue.h:113-122 | Dropping the first live element is advancing the pop cursor by one |
| `RingMath.RingWriteOne` | Queue.h:56 | Writing one element at a cursor is an update at `cursor % capacity` |
| `RingMath.SplitWrite` | include/log/queue.h:49-56 | The two `memcpy` segments, to the ring's end and then from index 0, write exactly the run at the cursor. So does the single `memcpy` when the run fits before the end |
| `RingMath.SplitRead` | include/log/queue.h:76-84 | The two-segment read gathers exactly the run at the cursor, and so does the single read |
| `RingMath.Memcpy` | include/log/queue.h:52-55 | `memcpy(dst + at, src, n)` replaces exactly `dst[at .. at + n)` with `src` |
| `RingMath.Memset` | include/log/queue.h:79-83 | `memset(dst + at, c, n)` replaces exactly `dst[at .. at + n)` with `c` |
| `RingMath.RingCopyIn` | Queue.h:76-82 | The split copy leaves the ring equal to `RingWrite(old ring, cursor, data)` |
| `RingMath.RingCopyOut` | include/log/queue.h:76-84 | The split copy-out places the run at the cursor at the front of the destination and keeps the rest of it. The run in the ring is overwritten with the filler |
| `RingMath.RingReadOut` | include/log/queue.h:77-78 | The one or two `memcpy` segments place exactly the run at the cursor at the front of the destination, oldest first, and leave the rest of the destination as it was |
| `RingMath.RingFill` | include/log/queue.h:79-80 | The one or two `memset` segments overwrite exactly the run at the cursor with the filler, which is `RingWrite` of a run of fillers |
| `LoggingQueue.DrainLengthIsSize` | include/log/queue.h:67-75 | With the push cursor reduced whenever the pop cursor has completed a lap, `pop` drains exactly `push - pop` bytes |
| `LoggingQueue.DrainLengthAsWrittenAgrees` | include/log/queue.h:72-74 | The length as written equals `push - pop` iff the pop cursor is not exactly the capacity |
| `LoggingQueue.DrainLengthAsWrittenOverruns` | include/log/queue.h:72 | Capacity 4, pop 4, push 6: six bytes are copied where two are live |
| `LoggingQueue.PushOverwritesUnread` | include/log/queue.h:44-58 | Capacity 4 holding "ab": pushing "cde" overwrites the unread 'a' |
| `LoggingQueue.Queue.constructor` | include/log/queue.h:12-22 | Both cursors 0, the ring has the given capacity (0 for the default), nothing is live |
| `LoggingQueue.Queue.Size` | include/log/queue.h:28-30 | `push - pop`, equal to the number of live bytes while intact, and at most the capacity iff intact |
| `LoggingQueue.Queue.Empty` | include/log/queue.h:32-34 | True iff nothing is live |
| `LoggingQueue.Queue.Full` | include/log/queue.h:36-38 | True iff `capacity` bytes are live |
| `LoggingQueue.Queue.Element` | include/log/queue.h:106-108 | A cursor's index is inside the ring |
| `LoggingQueue.Queue.Push` | include/log/queue.h:44-60 | A no-op when full. Otherwise the ring becomes `RingWrite(old, push, value[..len])` and the push cursor advances by `len`. The run is appended to the live bytes when it fits; when it does not, live bytes are overwritten |
| `LoggingQueue.Queue.PushChecked` | include/log/queue.h:44-60 | `push` with a free-space check: appends the run when it fits, else changes nothing. The ring stays intact |
| `LoggingQueue.Queue.Pop` | include/log/queue.h:62-89 | Copies every live byte to the front of `value` and keeps the rest of `value`. Each copied byte is overwritten in the ring with '0', and the ring is left empty |
| `LoggingQueue.Queue.Flush` | include/log/queue.h:91-95 | Returns a new buffer of exactly `size()` bytes holding the live bytes in order; the ring is left empty |
| `CursorQueue.Strlen` | Queue.h:69 | The index of the first NUL |
| `CursorQueue.PopAsWrittenCorrectIff` | Queue.h:95-106 | `pop(T*)` as written drains exactly the live characters, and moves the pop cursor to the push cursor, iff the pop cursor is 0 on the first lap or the live run reaches or crosses the end of the ring |
| `CursorQueue.PopAsWrittenOvershoots` | Queue.h:95-106 | Capacity 8, cursors (2, 4): 4 copied, pop cursor to 6. Cursors (9, 11): 10 copied, pop cursor to 19 |
| `CursorQueue.Queue.constructor` | Queue.h:14-18 | Both cursors 0, the ring has the given capacity, nothing is live |
| `CursorQueue.Queue.Size` | Queue.h:30-36 | `push - pop` under `pop <= push`, equal to the number of live characters while intact |
| `CursorQueue.Queue.Empty` | Queue.h:38-39 | True iff nothing is live |
| `CursorQueue.Queue.Full` | Queue.h:41-42 | True iff `capacity` characters are live |
| `CursorQueue.Queue.Element` | Queue.h:134-136 | A cursor's index is inside the ring |
| `CursorQueue.Queue.Push` | Queue.h:50-60 | A no-op when full. Otherwise it stores the value at `push % capacity`, advances the push cursor by 1 and appends the value to the live characters |
| `CursorQueue.Queue.Pop` | Queue.h:113-123 | Nothing iff empty. Otherwise it returns the oldest live character and drops it, so it is FIFO with `Push` |
| `CursorQueue.Queue.PushCString` | Queue.h:62-86 | A no-op when full. Otherwise the string and its NUL are written at the push cursor, wrapping to index 0, and the cursor advances by `strlen + 1`. They are appended when they fit; when they do not, live characters are overwritten |
| `CursorQueue.Queue.PushCStringChecked` | Queue.h:62-86 | `push(T*)` with its commented-out check at lines 70-73 restored: appends when the string fits, else changes nothing |
| `CursorQueue.Queue.PopCString` | Queue.h:88-109 | Copies exactly the live characters to the front of `value`, overwrites them with '0' and leaves the ring empty |
| `CursorQueue.Queue.Destroy` | Queue.h:20-26 | Destroys the live characters one by one, oldest first, and leaves the ring empty |
| `Futex.TimeSpecFromTimePoint` | include/log/futex.h:34-47 | A negative time is clamped to the epoch. `tv_nsec` lies in [0, 10^9), and `tv_sec * 10^9 + tv_nsec` is the clamped time |
| `Futex.TimeSpecUnique` | include/log/futex.h:43-45 | That is the only normalised seconds/nanoseconds split of the clamped time |
| `Futex.TimePointConv` | include/log/futex.h:78-95 | The maximum maps to the maximum, and a time point of the target clock keeps its ticks. Any other keeps its distance from "now" |
| `Futex.FutexWaitUntil` | include/log/futex.h:65-71 | The untimed wait is chosen iff the deadline is the maximum. Otherwise the wait is the steady one iff the clock is steady, and it gets the deadline unchanged |
| `LogFacade.LogLevelToString` | src/log.cpp:31-38 | A listed level gives its own name; any other value gives "UNKNOWN" |
| `LogFacade.LogLevelNamesDistinct` | include/log/LogLevel.h:3-13 | Distinct listed levels have distinct names, none "UNKNOWN" |
| `LogFacade.NatToString` | include/log/log.h:68 | The line number prints as decimal digits with no leading zero |
| `LogFacade.NatToStringRoundTrip` | include/log/log.h:68 | The printed line number reads back as the line number |
| `LogFacade.Render` | include/log/log.h:68 | The record starts with the prefix and ends with the message and a newline |
| `LogFacade.Log.constructor` | include/log/log.h:93 | An empty queue of capacity 100, with nothing logged or written |
| `LogFacade.Log.AddLogMessage` | include/log/log.h:61-80 | The rendered record is always accepted and appended to what was logged. At most one record is forwarded, the oldest, and exactly when the queue reaches half full. The writer receives the records in logged order, each once, and the queue is left below half full |
| `LogFacade.Log.ForwardWhileHalfFull` | include/log/log.h:74-79 | Entered with at most half the capacity queued, the drain loop forwards the oldest record exactly when half is queued and nothing otherwise. Afterwards the queue is below half full and the writer plus the queue still hold every logged record in order |
| `LogFacade.Log.ForwardOne` | include/log/log.h:75-77 | One pass of the drain loop on a non-empty queue removes the oldest record and hands exactly that record to the writer |
| `LogFacade.Log.SetOutputFile` | src/log.cpp:12-15 | Stores the path, then registers it with the writer |
| `LogFacade.Log.Close` | src/log.cpp:3-10 | Drains the queue to empty. Every buffered record reaches the writer once, in FIFO order, after those already written |

## Left out

- Concurrency: CAS retries, memory orderings, `pause`/`rdtsc` spinning, and the retry of `size()` on unstable counters. Every operation is one atomic step, and the spin loop's `tries` and cycle count are parameters.
- Blocking: `waitForTurn` and the futex sleep are not modelled. A wait becomes the precondition that the turn has come (`EnqueueWithTicket`, `DequeueWithTicket`, `BlockingWrite`, `BlockingRead`, `TryWaitForTurn`).
- Timed variants: `tryWriteUntil`, `tryReadUntil` and the `*Until` ticket helpers depend on clocks and blocking. `readIfNotEmpty` has the same body as `read` and is covered by `Mpmc.MPMCQueue.Read`.
- Ticket and cursor widths: 64-bit tickets and `size_t` cursors are unbounded naturals. Wrap after 2^64 operations, and the overflow of `ticket * stride`, are not modelled.
- Futex syscalls (`src/futex.cpp`) and the wake itself. `Sequencer.CompleteTurn` returns the channel it would wake.
- `Futex.Clock`: `time_point_conv` and `futexWaitUntil` are templates over any clock; only the two standard clocks, steady and system, are modelled. Since `futexWaitUntil` converts a deadline to its own clock's kind, the cross-clock path of `time_point_conv` (through `Clock::now()` and `TargetClock::now()`) is stated in `Futex.TimePointConv` but never taken by `Futex.FutexWaitUntil`.
- `Futex.TimePointConv`: durations are whole nanoseconds, the tick of both standard clocks, so `duration_cast` is the identity. Overflow of the 64-bit tick count in `now() + delta` is not modelled.
- The io_uring writer (`io_context`): it is modelled as a sink that appends the records it is given and the files it registers.
- `getPrefix` and `fmt`'s formatting of the message body: these are opaque strings supplied by the caller.
- The per-level entry points `debug`/`info`/`error`/`fatal` (include/log/log.h:49-55): each only calls `addLogMessage` with its own level.
- `LoggingQueue.Queue.Push`, `CursorQueue.Queue.PushCString`: require the run to be at most one capacity long (or the ring full). Runs longer than the capacity are not modelled. For a run of `len` bytes with `capacity < len <= 2 * capacity - push % capacity`, the second `memcpy` stays inside the ring and overwrites part of what the first one wrote. Only a run longer than `2 * capacity - push % capacity` writes past the end of the ring.
- `LoggingQueue.Queue.Pop`, `LoggingQueue.Queue.Flush`, `CursorQueue.Queue.PopCString`: model the corrected drain (see Findings) and require the cursors to be at most one capacity apart. With overwritten bytes there is no defined content to drain. `Flush` calls the same `pop`. As written, with the pop cursor at the capacity, that `pop` writes more bytes than `flush` allocated (capacity 4, cursors 4 and 6: 6 bytes into a 2-byte buffer).
- Uninitialised ring memory: the constructors fill the ring with a caller-chosen character.
- `Queue.h` is modelled at `T = char`, the instance its string operations need. Placement `new` and the element destructor become a plain store and a plain read.
- `Mpmc.MPMCQueue.Destroy`: the debug `memset(&contents_, 'Q', sizeof(T))` after destruction is not modelled.
- The getters `sizeGuess`, `writeCount`, `readCount` and `capacity` of the MPMC queue. They read fields the model exposes directly.
- `kSlotPadding` depends on `sizeof(Slot)`, which the constructor takes as a parameter. The facade's queue uses 40 bytes for a `std::string` slot.

## Findings

| source | as written | input that shows it | evidently intended | confidence | as-written member | corrected member |
|---|---|---|---|---|---|---|
| Queue.h:95-98 | When the push cursor is below the capacity, `pop(T*)` copies `push % capacity` characters and adds the push cursor to the pop cursor | capacity 8, pop 2, push 4: 4 characters copied, 2 of them not live; the pop cursor moves to 6, past the push cursor | copy `push - pop` characters and set the pop cursor to the push cursor | not executed | `CursorQueue.PopAsWrittenOvershoots` | `CursorQueue.Queue.PopCString` |
| Queue.h:100-105 | In the wrapped branch, `pop(T*)` always copies to the end of the ring and then `push % capacity` more | capacity 8, pop 9, push 11: 10 characters copied where 2 are live; the pop cursor moves to 19 | copy only the live run, in two segments only when it crosses the end | not executed | `CursorQueue.PopAsWrittenCorrectIff` | `CursorQueue.Queue.PopCString` |
| include/log/queue.h:72 | `popCursor_ > capacity_` keeps the unreduced push cursor when the pop cursor equals the capacity | capacity 4, pop 4, push 6: `pop` copies 6 bytes, and `flush` allocates only 2 for them | `popCursor_ >= capacity_` | not executed | `LoggingQueue.DrainLengthAsWrittenOverruns` | `LoggingQueue.DrainLengthIsSize` |
| include/log/queue.h:44-60 | `push` checks only that the ring is full, not that the run fits the free space | capacity 4 holding "ab" at cursors 0-1; push "cde" at cursor 2: the 'a' not yet popped becomes 'e' | refuse a run longer than the free space | not executed | `LoggingQueue.PushOverwritesUnread` | `LoggingQueue.Queue.PushChecked` |
| Queue.h:62-86 | `push(T*)` has its free-space check commented out (lines 70-73) | capacity 4 holding 2 characters; push a 2-character string (3 with its NUL): the cursors end 5 apart, so a live character is overwritten | refuse a string longer than the free space | not executed | `CursorQueue.Queue.PushCString` | `CursorQueue.Queue.PushCStringChecked` |
