# QF-nano scheduler kernel (Win32 port), modelled in Dafny

This project models the cooperative scheduler kernel of QP-nano's Win32 port, `ports/win32/qfn_win32.c`. It covers five parts:

- **Event rings.** Each active object has a ring buffer of events. `QActive_post` and `QActive_postISR` fill it; the dequeue inside `QF_run` drains it.
- **Bitmaps.** The 8-bit ready set `QF_readySet_` and timer set `QF_timerSet_` are maintained with the `l_pow2Lkup` / `l_invPow2Lkup` tables.
- **Resolver.** A constant-time nibble lookup in `log2Lkup` finds the highest ready priority.
- **Timers.** One-shot countdowns: `QActive_arm`, `QActive_disarm` and `QF_tickISR`.
- **Run and stop.** The startup loop of `QF_run` that gives `QF_active[p]` priority `p`, the `while (l_running)` dispatch loop, and `QF_stop`.

There are four modules, one file each:

- `bits.dfy` (`Bits`): the three lookup tables, adding and removing one priority in a bitmap, and the resolver. The resolver is proved to return the highest set bit, and proved equal to a plain top-down bit scan.
- `model.dfy` (`Model`):
  - the abstract kernel state: capacities, waiting events, counters, both bitmaps and `l_running`;
  - one pure function per critical section: post, dequeue, arm, disarm, stop, one visit of the tick, the whole tick, one iteration of the loop;
  - the loop itself, run over a script that gives, after each pass, the batch of things interrupts and handlers do before the next one;
  - the two bitmap invariants and their preservation. The ready bit is set exactly when the queue is non-empty. The timer bit is set exactly when the counter is non-zero.
- `properties.dfy` (`Properties`): what the kernel promises, proved about the model:
  - FIFO delivery per object under any interleaving of posts and dequeues;
  - the fatal path of a full queue;
  - the exact effect of a tick;
  - one-shot timers: arm(3) followed by three ticks gives one timeout;
  - disarming prevents the timeout, and disarming twice is a no-op;
  - strict priority order;
  - `QF_stop` as the only normal exit of the loop.
- `kernel.dfy` (`Kernel`): the kernel as the C code runs it.
  - Class `Active` holds `head`, `tail`, `nUsed`, `tickCtr`, `prio`, the current event, and the ring as an `array`.
  - Class `QF` holds the object table and the globals.
  - Each method updates these fields in place and is proved to refine the matching function of `Model`. Its `ensures` states the new abstract state as that function of the old one.
  - The ring invariant ties the `head`/`tail`/`nUsed` arithmetic with wrap-around to the abstract list of waiting events.

Priorities are 1-based, as in the code: the object of priority `p` owns bit `p-1` of both bitmaps and sits at index `p-1` of every sequence. The ready set `0b00101100` (priorities 3, 4 and 6 ready) therefore resolves to priority 6. A description that counts bit positions from 0 calls the same answer "bit 5"; the model follows the code's 1-based priority.

A failed `Q_ASSERT` is not modelled as a halt. A post to a full queue returns `ok == false` (`None` in `Model`) and writes nothing. A tick stops at the first timeout post that fails, and the loop then ends with `fatal == true`.

## Model

| member | source | states |
|---|---|---|
| Bits.MaskTables | ports/win32/qfn_win32.c:63-72 | for p in 1..8, `l_pow2Lkup[p]` is `1 << (p-1)` and `l_invPow2Lkup[p]` is its bitwise complement |
| Bits.SetMask | ports/win32/qfn_win32.c:108 | or-ing in `l_pow2Lkup[p]` sets bit p-1 and leaves every other bit as it was |
| Bits.ClearMask | ports/win32/qfn_win32.c:273 | and-ing with `l_invPow2Lkup[p]` clears bit p-1 and leaves every other bit as it was |
| Bits.Log2LkupTop | ports/win32/qfn_win32.c:222-227 | for every non-zero nibble, the `log2Lkup` entry is the 1-based position of its highest set bit |
| Bits.Resolve | ports/win32/qfn_win32.c:258-267 | for every non-zero ready set that uses only configured priorities, the nibble lookup yields p in 1..QF_MAX_ACTIVE with bit p-1 set and no higher bit set |
| Bits.TopFromIsTop | ports/win32/qfn_win32.c:258-267 | the reference linear scan from bit n-1 downwards finds the highest set bit |
| Bits.ResolveIsScan | ports/win32/qfn_win32.c:258-267 | the table-driven resolver returns what a top-down linear scan of the bitmap returns |
| Bits.ResolveSmallConfig | ports/win32/qfn_win32.c:258-267 | with QF_MAX_ACTIVE <= 4 the ready set lies in the low nibble, and a single `log2Lkup` lookup of it is the answer |
| Bits.ResolveIndependentOfConfig | ports/win32/qfn_win32.c:258-264 | the `QF_MAX_ACTIVE > 4` branch never changes the answer for a set that fits both configurations |
| Bits.ResolveExample | ports/win32/qfn_win32.c:259-261 | the ready set 0x2C (priorities 3, 4, 6) resolves to priority 6 |
| Model.Initial | ports/win32/qfn_win32.c:52-61 | before `QF_run` all queues are empty, all counters and both bitmaps are zero: both invariants hold and the loop is not running |
| Model.Post | ports/win32/qfn_win32.c:86-118 | a post fails (the `Q_ASSERT`) exactly when the queue holds `acb->end` events; otherwise it keeps the sizes in range and changes neither capacities nor `l_running` |
| Model.PostKeepsReady | ports/win32/qfn_win32.c:107-108 | setting the bit when `nUsed` becomes 1 keeps "ready bit set iff queue non-empty" |
| Model.DequeueKeepsReady | ports/win32/qfn_win32.c:270-274 | clearing the bit when `nUsed` reaches 0 keeps the ready-bit invariant |
| Model.PostKeepsTimer | ports/win32/qfn_win32.c:94-117 | a post keeps the timer-bit invariant |
| Model.ArmTimer | ports/win32/qfn_win32.c:194-201 | arming keeps "timer bit set iff counter non-zero" exactly when `tout > 0` |
| Model.DisarmKeepsTimer | ports/win32/qfn_win32.c:203-210 | disarming keeps the timer-bit invariant |
| Model.TickAtKeepsReady | ports/win32/qfn_win32.c:174-188 | one visit of the tick, including its timeout post, keeps the ready-bit invariant |
| Model.TickAtKeepsTimer | ports/win32/qfn_win32.c:174-188 | one visit clears the timer bit exactly when the counter reaches 0, so the timer-bit invariant holds |
| Model.TickFromKeepsInv | ports/win32/qfn_win32.c:172-190 | the do-while over priorities n..1 keeps both invariants, even when it stops at a failed post |
| Model.TickKeepsInv | ports/win32/qfn_win32.c:171-191 | `QF_tickISR` keeps both invariants |
| Model.Dequeue | ports/win32/qfn_win32.c:270-282 | the dequeue keeps the sizes in range and the capacities (its exact effect is `Properties.DequeueEffect`) |
| Model.Arm | ports/win32/qfn_win32.c:194-201 | arming keeps the sizes in range and the capacities (its exact effect is `Properties.ArmEffect`) |
| Model.Disarm | ports/win32/qfn_win32.c:203-210 | disarming keeps the sizes in range and the capacities (its exact effect is `Properties.DisarmEffect`) |
| Model.Stop | ports/win32/qfn_win32.c:215-218 | `QF_stop` clears `l_running` and changes nothing else |
| Model.Expire | ports/win32/qfn_win32.c:177-186 | clearing the timer bit and posting the timeout keep the sizes in range, the capacities and `l_running` |
| Model.TickAt | ports/win32/qfn_win32.c:174-188 | one visit of the do-while body keeps the sizes in range, the capacities and `l_running` |
| Model.TickFrom | ports/win32/qfn_win32.c:172-190 | the do-while from priority n down to 1 keeps the sizes in range, the capacities and `l_running` |
| Model.Tick | ports/win32/qfn_win32.c:171-191 | `QF_tickISR` keeps the sizes in range, the capacities and `l_running` (its exact effect is `Properties.TickEffect`) |
| Model.Iterate | ports/win32/qfn_win32.c:254-290 | one pass of the loop body keeps both bitmap invariants, the capacities and `l_running` |
| Model.ApplyAction | ports/win32/qfn_win32.c:86-218 | of everything interrupts and handlers can do (post, tick, arm, disarm, stop), `QF_stop` and only it clears `l_running`; each action keeps the ready-bit invariant, and the timer-bit invariant unless it arms with a zero timeout |
| Model.ApplyAll | ports/win32/qfn_win32.c:86-218 | a batch of such actions, cut short at a failed assertion: `l_running` goes from set to clear only if the batch holds a `QF_stop`, and a batch that completes with a `QF_stop` in it leaves it clear; both invariants are kept as for one action |
| Model.Loop | ports/win32/qfn_win32.c:253-296 | the event loop keeps the ready-bit invariant through every pass, and the timer-bit invariant too when no batch arms with a zero timeout |
| Properties.CapacityTwo | ports/win32/qfn_win32.c:94 | a queue of capacity 2 accepts two posts in order; the third hits the capacity assertion |
| Properties.PostEffect | ports/win32/qfn_win32.c:98-106 | a post appends its event to its own queue only; counters, timer set and `l_running` are unchanged |
| Properties.DequeueEffect | ports/win32/qfn_win32.c:270-282 | a dequeue hands over the oldest event and removes exactly that one; other queues, counters and timer set are unchanged |
| Properties.Fifo | ports/win32/qfn_win32.c:275-282 | for any interleaving of posts and dequeues within capacity, each object's delivered events followed by those still waiting are the events it held followed by everything posted to it, in order |
| Properties.FifoPost | ports/win32/qfn_win32.c:98-106 | the FIFO statement for a sequence of operations that begins with a post |
| Properties.FifoTake | ports/win32/qfn_win32.c:270-282 | the FIFO statement for a sequence of operations that begins with a dequeue |
| Properties.TickAtSelf | ports/win32/qfn_win32.c:175-187 | the visited object's non-zero counter drops by one; reaching 0 posts exactly one timeout, which fails only on a full queue |
| Properties.TickAtOthers | ports/win32/qfn_win32.c:174 | visiting priority p touches no other object's counter or queue |
| Properties.TickFromCounter | ports/win32/qfn_win32.c:172-190 | a completed tick decrements every non-zero counter exactly once and leaves zero counters at 0 |
| Properties.TickFromTimeout | ports/win32/qfn_win32.c:177-186 | a completed tick appends exactly one timeout event (`Q_TIMEOUT_SIG`, par 0) to each object whose counter went from 1 to 0, and nothing to any other queue |
| Properties.TickFromCompletes | ports/win32/qfn_win32.c:183 | the tick completes exactly when every object whose counter expires has room for its timeout |
| Properties.TickEffect | ports/win32/qfn_win32.c:171-191 | the whole tick: when it completes, what it does to every counter and every queue; `l_running` is untouched |
| Properties.ArmThreeTicks | ports/win32/qfn_win32.c:171-201 | after arm(3), ticks 1 and 2 post nothing and keep the timer bit; tick 3 posts exactly one timeout and clears the bit |
| Properties.DisarmedStaysQuiet | ports/win32/qfn_win32.c:175 | an object with counter 0 gets no timeout however many ticks come |
| Properties.TickFromQueueUnchanged | ports/win32/qfn_win32.c:172-190 | even a tick that fails leaves a disarmed object's queue and counter alone |
| Properties.DisarmPreventsTimeout | ports/win32/qfn_win32.c:203-210 | disarming after the first of three ticks means no timeout is ever posted to the object |
| Properties.ArmEffect | ports/win32/qfn_win32.c:194-201 | arm loads the object's counter and adds its timer bit; queues, ready set, other counters and other bits are unchanged |
| Properties.DisarmEffect | ports/win32/qfn_win32.c:203-210 | disarm zeroes the object's counter and drops its timer bit only; queues and ready set are untouched |
| Properties.DisarmIdempotent | ports/win32/qfn_win32.c:203-210 | disarming an object with no armed timer leaves the state bit-for-bit unchanged |
| Properties.IterateHighest | ports/win32/qfn_win32.c:255-282 | the loop idles exactly when every queue is empty; otherwise it hands over the oldest event of the highest-priority object that has one, and every higher object's queue is empty |
| Properties.TwoObjectsPriorityOrder | ports/win32/qfn_win32.c:253-290 | with an event posted to priority 1 and then to priority 2, the loop dispatches priority 2's event first |
| Properties.TwoObjectsLoop | ports/win32/qfn_win32.c:253-296 | a whole run: two one-slot objects, both posts arriving during the first (idle) pass; the loop delivers priority 2's event and then priority 1's, with no failure |
| Properties.StopIsOnlyExit | ports/win32/qfn_win32.c:253 | a running loop that ends with `l_running` clear met a `QF_stop` in one of its batches |
| Properties.StopEndsLoop | ports/win32/qfn_win32.c:215-218 | a `QF_stop` ends the loop after the pass in which it arrives: the run delivers only that pass's event, and ends with `l_running` clear unless an earlier action of the batch failed |
| Properties.LoopRunsToEnd | ports/win32/qfn_win32.c:253-296 | without a `QF_stop` in any batch, the loop is still running when the script ends or an assertion fails |
| Kernel.Active.Insert | ports/win32/qfn_win32.c:98-106 | the event is written at slot `head` and no other slot changes; `head` moves down by one with 0 wrapping to `end-1`; `nUsed` grows by one; the waiting events gain it at the back |
| Kernel.Active.constructor | ports/win32/qfn_win32.c:91-94 | stands for the C start-up zeroing of a `QActive` and of the queue array named by its `QF_active[]` control block. That zeroing is done by the application, which is not part of this model. The cited lines are where the post reads the block's `acb->end`, which is the capacity given here. The result is an empty ring of `acb->end` slots that satisfies the ring invariant, with the counter disarmed and no priority assigned yet |
| Kernel.Active.Remove | ports/win32/qfn_win32.c:271-282 | the current event becomes the slot at `tail`, which is the oldest waiting event; `tail` moves down by one with wrap; `nUsed` drops by one |
| Kernel.QF.constructor | ports/win32/qfn_win32.c:52-61 | the kernel starts in `Model.Initial` with every object's ring registered and valid |
| Kernel.QF.Post | ports/win32/qfn_win32.c:86-118 | fails exactly when `nUsed == end`, and then changes nothing; otherwise the new state is `Model.Post` of the old one; it writes only the globals and `head`, `nUsed` and the ring of the target object, and no object's `tail` or current event changes |
| Kernel.QF.PostISR | ports/win32/qfn_win32.c:121-165 | the same queue and bitmap effect, and the same frame, as `QActive_post` |
| Kernel.QF.Arm | ports/win32/qfn_win32.c:194-201 | the new state is `Model.Arm` of the old one |
| Kernel.QF.Disarm | ports/win32/qfn_win32.c:203-210 | the new state is `Model.Disarm` of the old one |
| Kernel.QF.Stop | ports/win32/qfn_win32.c:215-218 | clears `l_running` and nothing else |
| Kernel.QF.Expire | ports/win32/qfn_win32.c:177-186 | clearing the timer bit and posting the timeout through `QActive_postISR` give `Model.Expire`; only that object's `head`, `nUsed`, counter and ring are written, and no `tail` or current event changes |
| Kernel.QF.TickOne | ports/win32/qfn_win32.c:174-188 | one pass of the do-while body follows `Model.TickAt`, with the same frame as `Expire` |
| Kernel.QF.TickISR | ports/win32/qfn_win32.c:171-191 | the in-place loop from `QF_MAX_ACTIVE` down to 1 computes `Model.Tick`; no object's `tail` or current event changes, and priorities stay as assigned |
| Kernel.QF.SetPriorities | ports/win32/qfn_win32.c:235-239 | after the startup loop, `QF_active[p].prio == p` for every p |
| Kernel.QF.Take | ports/win32/qfn_win32.c:268-282 | the dequeue for the resolved priority gives `Model.Dequeue`: the returned event is the oldest one and becomes the object's current event, that object's `tail` moves down by one with wrap, and the ready bit clears when the queue drains; only that object's `tail`, `nUsed`, ring contents and current event are written, and no other object's `tail` or current event changes |
| Kernel.QF.Iterate | ports/win32/qfn_win32.c:254-290 | one critical section of the loop (resolve, dequeue, clear the ready bit when drained) follows `Model.Iterate`; the dispatched object's current event is the delivered one and its `tail` moved down by one with wrap; every other object's current event, and on an idle pass every object's, stays as it was; only `tail`, `nUsed`, the current event and the globals are written |
| Kernel.QF.Perform | ports/win32/qfn_win32.c:86-218 | one action of another context (post, tick, arm, disarm, stop) follows `Model.ApplyAction`; no object's `tail` or current event changes |
| Kernel.QF.PerformAll | ports/win32/qfn_win32.c:86-218 | a batch of actions, in order up to the first failed assertion, follows `Model.ApplyAll`; no object's `tail` or current event changes |
| Kernel.QF.Run | ports/win32/qfn_win32.c:221-302 | startup followed by the loop produces exactly the outcome `Model.Loop` gives from the running state |
| Kernel.QF.EventLoop | ports/win32/qfn_win32.c:252-296 | the `while (l_running)` loop produces `Model.Loop`'s final state, deliveries and fatal flag |
| Kernel.QF.Pass | ports/win32/qfn_win32.c:253-296 | one pass of the loop, then the script's next batch, is one step of `Model.Loop` |

## Left out

- Win32 synchronisation (`InitializeCriticalSection`, `Enter/LeaveCriticalSection`, `CreateEvent`, `SetEvent`, `WaitForSingleObject`): OS facilities. Each critical section is one atomic method (but see the `Model.Post` line below for the code that runs outside one), and the wake-up is a no-op. Waiting for an event is a loop pass that finds nothing ready.
- The `QK_PREEMPTIVE` branch of `QActive_post`: this port refuses that configuration at compile time.
- The `QF_ISR_NEST` / `QF_ISR_STAT_TYPE` interrupt-masking variants of `QActive_postISR`: they only change how interrupts are masked.
- `QHsm_init`/`QFsm_init` (the initial-transition loop), `QHsm_dispatch`/`QFsm_dispatch`, `QF_onStartup`, `QF_onIdle`, `QF_onCleanup`: code outside this file. A dispatch is recorded as a `Delivery(prio, event)`. The initial transitions and the callbacks are left out.
- `Q_onAssert`: halting is replaced by a failure result.
  - A post to a full queue returns `ok == false` and writes nothing.
  - The tick and the loop stop at that failure.
  - The dequeue's `nUsed > 0` assertion is a precondition, proved to hold from the ready-bit invariant.
  - The startup assertion `QF_active[p] != 0` holds by construction, since the object table is a sequence of allocated objects.
- Kernel.QF.Run: the source loop never returns except through `QF_stop`. The model runs the loop over a finite script: after each pass, one batch of any number of actions (posts, ticks, arms, disarms, stops) runs before the next pass. Interrupts that arrive inside a critical section or in the middle of a dispatch are placed at the end of that pass, each one whole. So the model does not show an interrupt landing between a post's capacity check and its insert (see the `Model.Post` line).
- Model.Post: in the code the capacity check `Q_ASSERT(me->nUsed < end)` runs before the critical section opens. This happens in `QActive_post` (qfn_win32.c:94, before line 96) and in `QActive_postISR` (line 134, before the masking at 136-142, which exists only under `QF_ISR_NEST`). The model checks and inserts in one atomic step, so its promise that a post never overwrites a waiting event holds only when no other post to the same object runs between the check and the insert. As an example, suppose a handler's post to an object with `nUsed == end - 1` passes the check and the tick then posts that object's timeout before line 96. The handler's insert then lands on the oldest waiting event and `nUsed` reaches `end + 1`. No run of `Model.Loop` shows this, because every action of a batch is atomic.
- Model.Tick: `QF_tickISR` (qfn_win32.c:171-191) has no critical section of its own. The model treats the whole tick as one atomic action, which holds only when its caller masks interrupts for the whole tick.
- `Q_TIMEOUT_SIG`: its value comes from `qpn.h`, which is not part of this model. It is taken as 4, the slot after the reserved entry, exit and init signals.
- Integer widths: `QTimeEvtCtr` and the signal and parameter types are unbounded naturals. `head`, `tail`, `nUsed` and `acb->end` are bounded by keeping capacities in 1..255, so the `uint8_t` fields never wrap.
- Configuration switches: the model fixes `Q_PARAM_SIZE != 0` (events carry a parameter), `Q_TIMERSET` defined, and `QF_TIMEEVT_CTR_SIZE != 0`. `QF_MAX_ACTIVE` is any value in 1..8.
- Kernel.QF.Arm: like the code, it accepts `tout == 0`. The timer bit is then set over a zero counter, which the tick never clears. `Model.ArmTimer` shows that the timer-bit invariant survives arming exactly when `tout > 0`.
- The board support files (`bsp.c`) of the M16C example boards: hardware register setup, LED and LCD output, and pin-driven tick interrupts.
