# WatchDog scheduler core in Dafny

This project models the task-scheduling stack of the WatchDog repository,
together with the pure bookkeeping of its heartbeat watchdog. The stack runs
from leaf to root:

- **DynamicVector** (`dynamic_vector.c`): a growable array whose size and
  capacity are kept in bytes, as in the C code. A push into a full vector
  doubles the capacity. A pop halves it once the occupied bytes fall to a
  quarter of it.
- **BinaryHeap** (`heap.c`): an array heap stored in that vector. It is
  ordered by a caller-supplied "is before" relation, with the C orientation
  kept: `isBefore(queued, incoming)` means `incoming` belongs nearer the
  root. It offers push with sift-up, pop with sift-down, and removal of the
  first match in array order.
- **PriorityQueue** (`pqueue.c`): a thin layer over the heap.
- **UniqueId** (`uid.c`): task identifiers. Each is a time, a pid and a
  counter. The process-wide counter is explicit generator state.
- **Tasks** (`task.c`): task records and drift-tolerant rescheduling.
- **TaskScheduler** (`scheduler.c`): adding and removing tasks, and the run
  loop. Each turn of the loop:
  - waits for the earliest task to fall due;
  - dispatches it;
  - drops it on DONE or FAIL, and re-queues it on REPEAT;
  - stops once a callback has cleared the running flag.
- **Watchdog** (`wd_shared.c`):
  - the three recurring tasks and the staleness counter;
  - the keep-running flag and the stop and heartbeat signal handlers;
  - the keep-running guard of Revive;
  - the main loop, as a state machine over events. It comes in two
    versions: as written, and with the corrections of the findings below.
- **Scenarios**: the expectations of the unit tests in `heap_test.c`,
  `pqueue_test.c` and `scheduler_test.c`. They are derived from the general
  contracts above, not computed by evaluation.

Every operation is a pure function over immutable datatypes. Effects the
source gets from its environment are modelled as follows:

- **Allocation:** each `malloc`/`realloc` becomes a boolean saying whether it
  succeeds.
- **Clock:** an integer argument. Sleeping until a task is due becomes
  `max(clock, runTime)`.
- **Callbacks:** an interpreter `call(callback, data, env, now)`. It returns
  the outcome, the new environment, whether the callback stopped the
  scheduler, and the time it took.
- **Run loop:** its possible non-termination (eternal REPEAT tasks) is
  modelled by a step function plus a driver bounded by fuel.

## Model

| member | source | states |
|---|---|---|
| DynamicVector.Size | scheduler/pqueue/heap/dynamic_vctor/dynamic_vector.c:145-150 | The byte count divided by the element size is exactly the number of stored elements. |
| DynamicVector.Capacity | scheduler/pqueue/heap/dynamic_vctor/dynamic_vector.c:156-161 | The capacity in elements times the element size is the capacity in bytes, and it is never less than the number of stored elements. |
| DynamicVector.Create | scheduler/pqueue/heap/dynamic_vctor/dynamic_vector.c:33-55 | A vector exists exactly when allocation succeeds; it is then empty, with room for exactly the requested number of elements. |
| DynamicVector.Reserve | scheduler/pqueue/heap/dynamic_vctor/dynamic_vector.c:182-201 | On success the capacity grows by exactly the requested number of elements with the contents kept; on failure the vector is unchanged. |
| DynamicVector.PushBackAsWritten | scheduler/pqueue/heap/dynamic_vctor/dynamic_vector.c:80-101 | The source's push: a success appends the element to the old contents, a failure changes nothing. |
| DynamicVector.ZeroCapacityPushOverflows | scheduler/pqueue/heap/dynamic_vctor/dynamic_vector.c:86-98 | On a vector created with capacity 0, doubling gives 0 more bytes, so the source's push depends on `realloc(p, 0)`. If that returns a buffer, the push reports success with more bytes occupied than allocated. If it returns NULL, the push reports failure. |
| DynamicVector.PushBack | scheduler/pqueue/heap/dynamic_vctor/dynamic_vector.c:80-101 | A push fails exactly when the vector is full and cannot grow, and then nothing changes. Otherwise the element is appended after the unchanged old contents. A full vector of positive capacity doubles. The capacity never shrinks. |
| DynamicVector.PushBackAgreesWhenCapacityPositive | scheduler/pqueue/heap/dynamic_vctor/dynamic_vector.c:86-93 | The corrected push and the source's push agree on every vector of positive capacity. |
| DynamicVector.ShrinkDueInElements | scheduler/pqueue/heap/dynamic_vctor/dynamic_vector.c:119-120 | The byte test for shrinking holds exactly when four times the element count is at most the capacity in elements. |
| DynamicVector.HalvedCapacityInElements | scheduler/pqueue/heap/dynamic_vctor/dynamic_vector.c:122-124 | The halved byte capacity, rounded down to whole elements, is half the capacity in elements times the element size. |
| DynamicVector.PopBack | scheduler/pqueue/heap/dynamic_vctor/dynamic_vector.c:107-139 | Popping an empty vector fails and changes nothing. Otherwise it removes exactly the last element and keeps the prefix. The capacity halves when the vector is at most a quarter full, and fails only if that shrink fails. The result still holds its elements and keeps a positive capacity. |
| DynamicVector.GetItem | scheduler/pqueue/heap/dynamic_vctor/dynamic_vector.c:167-176 | Nothing for an index at or past the size, otherwise the element at that index. |
| DynamicVector.PopThenPushNeverGrows | scheduler/pqueue/heap/dynamic_vctor/dynamic_vector.c:107-139 | After a successful pop there is always room for one more element, so pushing back the popped task never needs to grow. |
| BinaryHeap.SwapElements | scheduler/pqueue/heap/heap.c:354-368 | The two positions exchange their elements; every other position and the multiset of elements are unchanged. |
| BinaryHeap.HeapifyUp | scheduler/pqueue/heap/heap.c:124-141 | Sifting up keeps the length and the multiset of elements. |
| BinaryHeap.SwapUpKeepsExcept | scheduler/pqueue/heap/heap.c:130-139 | One swap with a parent that should come after its child moves the only heap violation up to the parent's position. |
| BinaryHeap.HeapifyUpRestores | scheduler/pqueue/heap/heap.c:124-141 | Sifting up from the only violating position restores the heap invariant. |
| BinaryHeap.GetPreferredChild | scheduler/pqueue/heap/heap.c:198-225 | The marker 0 means there is no left child. The right child is chosen exactly when it exists and the left one is not strictly before it; otherwise the left. |
| BinaryHeap.PreferredChildIsFirst | scheduler/pqueue/heap/heap.c:198-225 | No existing child should come before the preferred one. |
| BinaryHeap.HeapifyDown | scheduler/pqueue/heap/heap.c:168-194 | Sifting down keeps the length and the multiset of elements. |
| BinaryHeap.SwapDownKeepsExcept | scheduler/pqueue/heap/heap.c:176-191 | One swap with a preferred child that should come first moves the only violation down to that child's position. |
| BinaryHeap.HeapifyDownRestores | scheduler/pqueue/heap/heap.c:168-194 | Sifting down from the only violating position restores the heap invariant. |
| BinaryHeap.RootIsFirst | scheduler/pqueue/heap/heap.c:301-313 | In a heap, no element should come before the root. |
| BinaryHeap.TailInto | scheduler/pqueue/heap/heap.c:246-253 | Moving the last element into a slot and dropping the tail removes exactly the slot's old element. |
| BinaryHeap.TailIntoSplit | scheduler/pqueue/heap/heap.c:253-266 | After the tail moves into a slot, the heap is broken at most at that slot: upwards when the moved element should come before its parent, downwards otherwise. |
| BinaryHeap.DropSlot | scheduler/pqueue/heap/heap.c:246-253 | The vector after the swap and pop holds the tail-into-slot sequence and still has room for the old size. |
| BinaryHeap.Create | scheduler/pqueue/heap/heap.c:60-86 | A heap exists exactly when allocation succeeds, and it is empty with the requested capacity. |
| BinaryHeap.Size | scheduler/pqueue/heap/heap.c:330-335 | The size is the number of stored elements. |
| BinaryHeap.Peek | scheduler/pqueue/heap/heap.c:301-313 | Nothing exactly when the heap is empty, otherwise the element at index 0. |
| BinaryHeap.PeekIsFirst | scheduler/pqueue/heap/heap.c:301-313 | Under a strict weak order, no stored element should come before the peeked one. |
| BinaryHeap.Push | scheduler/pqueue/heap/heap.c:105-120 | The invariant is kept. The push fails exactly when the vector is full and cannot grow, and then nothing changes. On success the multiset gains exactly the new element and the size grows by one. |
| BinaryHeap.PushAgreesWhenCapacityPositive | scheduler/pqueue/heap/heap.c:105-120 | On a heap of positive capacity, the push agrees with the source's vector push in status, capacity and elements. |
| BinaryHeap.Pop | scheduler/pqueue/heap/heap.c:147-164 | Always reports success. On an empty heap nothing changes; otherwise exactly the old root is removed and the invariant holds again. |
| BinaryHeap.Resift | scheduler/pqueue/heap/heap.c:253-266 | After the tail moves into a slot, sifting up or down as the source decides yields a valid heap with the same elements. |
| BinaryHeap.FindElement | scheduler/pqueue/heap/heap.c:275-295 | Returns the index of the first match in array order, or the size when nothing matches. |
| BinaryHeap.Remove | scheduler/pqueue/heap/heap.c:231-271 | Returns nothing, with the heap unchanged, exactly when no element matches. Otherwise returns the first match in array order, removes exactly that one occurrence and keeps the invariant. |
| PriorityQueue.Create | scheduler/pqueue/pqueue.c:34-57 | A queue exists exactly when allocation succeeds, and it is empty over a heap of the fixed initial capacity. |
| PriorityQueue.CreatedIsValid | scheduler/pqueue/pqueue.c:34-57 | A new queue is a valid heap under any order. |
| PriorityQueue.Size | scheduler/pqueue/pqueue.c:131-136 | The size is the heap's element count. |
| PriorityQueue.Peek | scheduler/pqueue/pqueue.c:120-125 | Nothing exactly when the queue is empty; otherwise one of its elements. |
| PriorityQueue.PeekIsFirst | scheduler/pqueue/pqueue.c:120-125 | The peeked element is the heap's root: no queued element should come before it. |
| PriorityQueue.Push | scheduler/pqueue/pqueue.c:77-87 | Reports the heap's status. A success adds exactly the element and grows the size by one; a failure leaves the queue as it was. |
| PriorityQueue.Pop | scheduler/pqueue/pqueue.c:93-103 | Returns exactly what Peek returned, nothing on an empty queue. A non-empty pop removes that element, and no element should have come before it. |
| PriorityQueue.Clear | scheduler/pqueue/pqueue.c:142-150 | Clearing leaves a valid, empty queue. |
| PriorityQueue.Drain | scheduler/pqueue/pqueue.c:142-150 | Popping until empty hands out every element exactly once, and no later element should come before an earlier one. |
| PriorityQueue.Erase | scheduler/pqueue/pqueue.c:156-161 | Returns nothing, with the queue unchanged, exactly when nothing matches. Otherwise returns the first match in array order and removes exactly that one, so the size drops by one. |
| UniqueId.IsSameIsEquality | scheduler/task/uid/uid.c:35-40 | Field-wise sameness is equality, so it is reflexive and symmetric. |
| UniqueId.CreateBad | scheduler/task/uid/uid.c:58-63 | The result is bad, and it is the only bad identifier. |
| UniqueId.Create | scheduler/task/uid/uid.c:18-29 | Records the given time and pid and the counter's value before the call, then advances the counter by one. The result is not bad unless all three are zero. |
| UniqueId.SuccessiveAreDistinct | scheduler/task/uid/uid.c:21-26 | Two successive identifiers are never the same, and the second has the larger counter. |
| UniqueId.CreateMany | scheduler/task/uid/uid.c:18-29 | A run of creations yields strictly increasing counters within the generator's range, and advances the generator by the run's length. |
| UniqueId.CreateManyDistinct | scheduler/task/uid/uid.c:18-29 | No two identifiers from a run of creations are the same. |
| Tasks.Create | scheduler/task/task.c:29-49 | A task exists exactly when allocation succeeds. It stores the given start time, interval, callback and data under a fresh identifier, which is not bad when the pid is not zero. A failed allocation leaves the counter untouched. |
| Tasks.UpdateRunTime | scheduler/task/task.c:90-95 | The next run time is now plus the interval, and nothing else changes. |
| Tasks.UpdateRunTimeIgnoresOldDueTime | scheduler/task/task.c:90-95 | Rescheduling does not depend on the previous run time, so it does not drift. |
| TaskScheduler.PriorityIsStrictWeakOrder | scheduler/scheduler.c:266-280 | Ordering by earlier run time is a strict weak order, so the heap results apply to the scheduler's queue. |
| TaskScheduler.Create | scheduler/scheduler.c:57-79 | A scheduler exists exactly when both allocations succeed, and it is empty, valid and not running. |
| TaskScheduler.Size | scheduler/scheduler.c:241-246 | The size is the number of queued tasks. |
| TaskScheduler.Stop | scheduler/scheduler.c:230-235 | Stopping clears the running flag and leaves the queue alone. |
| TaskScheduler.AddTask | scheduler/scheduler.c:108-131 | When the task can be created and queued, it returns the fresh identifier (time, pid, counter) and adds exactly that task. Otherwise it returns the bad identifier and leaves the scheduler unchanged. A nonzero pid makes the bad identifier mean failure. Unique identifiers are kept. |
| TaskScheduler.RemoveTask | scheduler/scheduler.c:137-157 | Fails, with nothing changed, exactly when no queued task has the identifier. Otherwise removes exactly one task with that identifier. |
| TaskScheduler.RemoveTwiceFails | scheduler/scheduler.c:137-157 | With unique identifiers, removing the same identifier a second time fails. |
| TaskScheduler.AddThenRemove | scheduler/scheduler.c:108-157 | Removing a task by the identifier its addition returned succeeds and restores the original contents. |
| TaskScheduler.Destroy | scheduler/scheduler.c:85-102 | Destroying disposes of every queued task exactly once, in non-decreasing run-time order. |
| TaskScheduler.Step | scheduler/scheduler.c:174-220 | One turn of the loop: it dispatches a task with the least run time, not before that time. The task is dropped unless it asked to repeat; then it is re-queued at finish time plus interval. The running flag falls exactly when the callback stops the scheduler. Identifiers stay unique. |
| TaskScheduler.Settle | scheduler/scheduler.c:195-220 | After a dispatch, DONE and FAIL drop the task; REPEAT re-queues it rescheduled, and the size is unchanged. |
| TaskScheduler.Loop | scheduler/scheduler.c:174-223 | The loop returns COMPLETE exactly when it ends with the flag still up, and then the queue is empty. It never turns on a stopped scheduler. When every callback repeats, the queue never drains. |
| TaskScheduler.Run | scheduler/scheduler.c:163-224 | Run raises the running flag, so an empty scheduler completes at once. A STOP result leaves the flag down. When every task repeats, Run can never COMPLETE. |
| TaskScheduler.StopEndsRun | scheduler/scheduler.c:174-175 | A callback that stops the scheduler ends the run right after itself with STOP, even with other tasks due. |
| TaskScheduler.StepLeavesLaterTasks | scheduler/scheduler.c:174-220 | With non-negative intervals, every task left after a turn is due no earlier than the one just dispatched. |
| TaskScheduler.DispatchOrderNonDecreasing | scheduler/scheduler.c:174-220 | With non-negative intervals, successive dispatches have non-decreasing run times. |
| Watchdog.SendSignalTask | wd_shared.c:149-160 | Sends one heartbeat to the stored peer pid, changes nothing else and asks to repeat. |
| Watchdog.CounterAddOneTask | wd_shared.c:164-176 | The staleness counter grows by exactly one, nothing else changes, and the task repeats. |
| Watchdog.CheckSignalTask | wd_shared.c:181-197 | Stops the scheduler and resets the counter exactly when the counter exceeds 3. Otherwise nothing changes. Always repeats. |
| Watchdog.Call | wd_shared.c:149-197 | Every watchdog callback repeats. Only the check task stops the scheduler, exactly when the counter is stale, and it then zeroes the counter. The flag and the peer pid are never touched, and at most one heartbeat is sent. |
| Watchdog.RunOnlyStops | wd_shared.c:80-94 | A run over the watchdog's tasks never drains the queue, so it can only end with STOP. |
| Watchdog.SigHandZeroCounter | wd_shared.c:201-213 | The heartbeat handler zeroes the counter and touches nothing else. |
| Watchdog.AddOne | wd_shared.c:52-70 | One of InitScheduler's additions adds the task due now with its interval, or nothing when the task cannot be created. |
| Watchdog.LoadTasks | wd_shared.c:52-70 | InitScheduler's three additions yield three identifiers and as many queued tasks as succeeded. |
| Watchdog.LoadTasksContents | wd_shared.c:52-70 | With every addition succeeding, the queue holds exactly the send (interval 1), check (interval 2) and count (interval 1) tasks, all due now. |
| Watchdog.LoadTasksUids | wd_shared.c:52-70 | Each returned identifier is bad exactly when its addition failed. |
| Watchdog.InitScheduler | wd_shared.c:44-76 | The status is success exactly when the scheduler can be created. The new scheduler is not running and holds one task per successful addition. With all three added, those are the send, check and count tasks, due now. Each identifier is bad exactly when its addition failed. |
| Watchdog.ReviveAsWritten | wd_shared.c:98-128 | With the flag down nothing happens; otherwise the peer pid becomes whatever fork returned, -1 included. |
| Watchdog.FailedForkBroadcasts | wd_shared.c:114 | After a failed fork, the next heartbeat goes to pid -1. |
| Watchdog.Revive | wd_shared.c:98-128 | Does nothing with the flag down. Otherwise it agrees with the source except after a failed fork, which leaves the state as it was. |
| Watchdog.ReviveKeepsPeerPid | wd_shared.c:110-126 | In the parent, a positive peer pid stays positive across a revival. |
| Watchdog.StopMainLoop | wd_shared.c:227-231 | Clears the keep-running flag and the scheduler's running flag, leaving the queue alone. |
| Watchdog.Start | wd_shared.c:80-94 | The main loop begins with the flag up, the counter zero and the given peer. |
| Watchdog.DispatchNext | scheduler/scheduler.c:174-223 | Inside a run, dispatching the earliest task keeps the scheduler valid and its size, and keeps the flag and the peer pid. It never restarts a stopped scheduler. It stops a running one only when the counter is stale, and then zeroes it. It sends at most one heartbeat, to the peer. |
| Watchdog.ReviveIn | wd_shared.c:98-128 | With the flag down the revival changes nothing. Otherwise it keeps the counter, the flag and the heartbeat log. It stores the child's pid in the parent and 0 in the child. After a failed fork the peer pid becomes -1 in the loop as written, and is kept in the corrected loop. |
| Watchdog.Next | wd_shared.c:80-94 | One event, in the loop as written or in the corrected one, keeps the scheduler valid and its size. Only the stop signal lowers the flag, and nothing raises it. A heartbeat only zeroes the counter. A task stops the scheduler only when stale. The loop test enters exactly when the flag is up. |
| Watchdog.NextKeepsExit | wd_shared.c:80-94 | The loop is left only with the flag down, and once left it stays left. |
| Watchdog.NextSignalsPeer | wd_shared.c:80-160 | Only the revival of that loop version changes the peer pid. An event sends at most one heartbeat, to the current peer. |
| Watchdog.Trace | wd_shared.c:80-94 | Any sequence of events keeps the scheduler valid and its size. |
| Watchdog.StartInv | wd_shared.c:44-94 | The state after InitScheduler with its three tasks satisfies the invariant. |
| Watchdog.TraceKeepsInv | wd_shared.c:80-94 | In both loop versions, every reachable state keeps a valid, non-empty scheduler and exits only with the flag down. |
| Watchdog.StopIsFinal | wd_shared.c:217-231 | In both loop versions, once the stop signal has lowered the keep-running flag, no later event raises it. |
| Watchdog.HeartbeatsGoToOneProcess | wd_shared.c:98-160 | In the corrected loop, and outside a forked child, every heartbeat goes to one positive pid. |
| Watchdog.NextHeartbeatTarget | wd_shared.c:98-160 | In the corrected loop, a single event keeps the peer pid positive and sends at most one heartbeat, to that pid. The loop as written breaks this after a failed fork (Watchdog.MainLoopFailedFork). |
| Watchdog.MainLoopFailedFork | wd_shared.c:88-93 | Back from a stopped run with the flag up, a failed fork sets the peer pid to -1 in the loop as written. The corrected loop keeps the old peer. |
| Watchdog.StopBeforeRunStartsIsOverridden | scheduler/scheduler.c:172 | In the loop as written, a stop signal between the main loop's flag test (wd_shared.c:86) and SchedulerRun raising the running flag is overridden: the scheduler runs with the flag down. |
| Watchdog.NextHonoursStop | scheduler/scheduler.c:172-175 | In the corrected loop, one event keeps "the scheduler runs only while the flag is up". |
| Watchdog.StopIsHonoured | wd_shared.c:217-231 | In the corrected loop, no sequence of events leaves the scheduler running with the flag down. |
| Watchdog.StopBeforeRunStartsExits | wd_shared.c:86-92 | In the corrected loop, a stop signal in the same window keeps the run from starting, and the next flag test leaves the loop. |
| Scenarios.HeapPopScenario | scheduler/pqueue/heap/heap_test.c:203-251 | Popping a one-value heap succeeds, and popping it again empty succeeds too. With the eight test values in a max-heap, one pop leaves 7 with 80 first and another leaves 6 with 70 first. |
| Scenarios.HeapPeekScenario | scheduler/pqueue/heap/heap_test.c:109-200 | An empty heap has size 0 and peeks nothing; after pushing 1 to 7 it has size 7 and 7 first. |
| Scenarios.HeapIsEmptyScenario | scheduler/pqueue/heap/heap_test.c:143-167 | A new heap is empty, and one push makes it non-empty. |
| Scenarios.RemoveValue | scheduler/pqueue/heap/heap.c:231-271 | Removing by value returns the value exactly when it is queued, and takes out only that one copy. |
| Scenarios.HeapRemoveMissingScenario | scheduler/pqueue/heap/heap_test.c:254-283 | Removing 5 finds nothing, on an empty heap and on the full one. |
| Scenarios.HeapRemoveScenario | scheduler/pqueue/heap/heap_test.c:254-295 | Removing 100 returns it and leaves 80 first; removing 70 keeps 80 first and leaves 6. |
| Scenarios.QueueScenario | scheduler/pqueue/pqueue_test.c:152-214 | An empty queue pops nothing. After pushing 15, 7, 20 and 100 it holds four with 7 first. Popping the queue of 15, 7 and 20 yields 7, and a second pop leaves one. |
| Scenarios.QueuePeekScenario | scheduler/pqueue/pqueue_test.c:97-146 | An empty queue peeks nothing and has size 0; after pushing 15 and 7 it peeks 7 and has size 2. |
| Scenarios.QueueEmptyScenario | scheduler/pqueue/pqueue_test.c:221-268 | A new queue is empty, a push makes it non-empty, and Clear empties it again. |
| Scenarios.QueueEraseScenario | scheduler/pqueue/pqueue_test.c:273-300 | Erasing 15 from the queue of 15, 7 and 20 returns 15 and leaves two. |
| Scenarios.TwoTasks | scheduler/scheduler_test.c:122-140 | Two additions to a new scheduler queue two tasks, and the first added task, under the identifier returned for it, is among them. |
| Scenarios.RemoveScenario | scheduler/scheduler_test.c:147-177 | After two additions the size is 2. Removing the first task by its identifier succeeds and leaves 1. Removing it again fails and leaves 1. |

## Left out

- Signal I/O is not modelled: `WaitForSignal` and the signal masks, the
  `kill` system call (a heartbeat is recorded as an entry in a log) and the
  installation of handlers. These are operating-system effects.
- `fork` and `execv` are not modelled beyond fork's three outcomes. A child
  whose `execv` fails carries on as a copy of the parent with peer pid 0.
  The heartbeat lemma excludes that case rather than modelling it.
- `wd_api.c`, `wd_outer.c` and the thread that runs the watchdog are not
  part of this model. Neither are the environment-variable marker and
  `getppid`.
- Real time is not modelled. `time(NULL)` becomes the clock argument, and
  the `sleep` retry loop becomes `max(clock, runTime)`.
- Concurrency between the signal handlers and the scheduler is reduced to
  interleaved events in `Watchdog.Next`. The atomic counter of `uid.c` and
  the threaded UID test are modelled sequentially.
- `size_t` and `time_t` overflow is not modelled: integers are unbounded.
  The only overflow modelled is the one the first finding is about.
- Byte copies (`memcpy`/`memset`) and pointer swaps are replaced by
  sequence operations over a generic element type.
- BinaryHeap.Push: it pushes through the corrected DynamicVector.PushBack.
  So a heap created with capacity 0 grows, where the source's HeapPush goes
  through the zero-byte reserve of the first finding. HeapCreate accepts
  capacity 0, but no caller in the repository uses it: PQCreate asks for
  10, and the heap tests ask for 3 and 20. On every positive capacity,
  BinaryHeap.PushAgreesWhenCapacityPositive shows that the two pushes agree.
- Watchdog.Next: it takes a flag choosing the loop as written or the
  corrected loop of the second and third findings. The lemmas about
  invariants and the stop flag cover both versions. The single-target
  heartbeat lemmas hold only for the corrected loop, and
  Watchdog.MainLoopFailedFork shows how the loop as written breaks them.
- BinaryHeap.Pop and BinaryHeap.Remove take the shrinking `realloc` inside
  `DVPopBack` to succeed. `HeapRemove` ignores that status anyway
  (scheduler/pqueue/heap/heap.c:250-251).
- The comparator's `param` argument and `HeapSetParam` are dropped: no
  comparator in the repository reads it.
- The heap tests use a non-strict `>=` comparator. The scenarios use the
  strict `<`, which orders the distinct test values the same way; the heap
  invariant is stated for strict weak orders only.
- `HeapDestroy`, `DVDestroy`, `PQDestroy`, `TaskDestroy` and the freeing in
  `SchedulerDestroy` are not modelled. Only the draining order of
  `SchedulerDestroy` is modelled, as TaskScheduler.Destroy.
- Debug `printf`/`fprintf` output is not modelled.
- TaskScheduler.Run: it is bounded by fuel. A run that would go on forever
  ends as `OutOfFuel` with the flag up and the queue non-empty.
- TaskScheduler.Step: a REPEAT that the re-push fails to queue would
  destroy the task. The model never reaches that branch: Step re-pushes
  without growth, and DynamicVector.PopThenPushNeverGrows shows a pop
  always leaves room.
- `SchedulerRunTest` (scheduler_test.c:182-222) is not replayed on its
  concrete tasks, because that needs many dispatch steps evaluated in
  sequence. Its claims follow from TaskScheduler.StopEndsRun, Loop and Run.
- Tasks.GetId, Tasks.GetRunTime and Tasks.Run are plain accessors or
  applications of the callback, with no contract of their own. Their
  behaviour is stated where they are used, in TaskScheduler.Step.
- The `IsSame`, `IsBad` and `IsEmpty` predicates and `HasHigherPriority`
  and `IDIsMatch` are definitions, not operations. Their properties are
  stated by UniqueId.IsSameIsEquality, UniqueId.CreateBad,
  TaskScheduler.PriorityIsStrictWeakOrder and TaskScheduler.RemoveTask.
- `IDIsMatch` names its parameters in the opposite order from the one
  `HeapRemove` passes them in. It works only because the identifier is the
  first field of the task record. The model states what it evidently
  means: the task's identifier equals the key.
- Watchdog.Call: callbacks take no time (`elapsed` is 0), since the
  watchdog's callbacks only update counters and flags.
- Watchdog.InitScheduler: like the source, it ignores the identifiers that
  come back from failed additions. The status reports only whether the
  scheduler was created.

## Findings

| source | as written | input that shows it | evidently intended | confidence | as-written member | corrected member |
|---|---|---|---|---|---|---|
| scheduler/pqueue/heap/dynamic_vctor/dynamic_vector.c:86-98 | A push into a full vector reserves as many more elements as it already has, then copies the element into the next slot. | `DVCreate(0, 8)` followed by `DVPushBack`: capacity 0 doubles to 0, so DVReserve calls `realloc(p, 0)`. If that returns a buffer, the element is written past it and success is reported. If it returns NULL, as glibc does after freeing the buffer, FAIL is reported and `dv->vector` still points at freed memory, which DVDestroy frees again. | Grow by at least one element, e.g. doubling a positive capacity and going to one from zero. | not executed | DynamicVector.ZeroCapacityPushOverflows | DynamicVector.PushBack |
| wd_shared.c:114 | Revive stores fork's return value straight into the peer pid slot. | A failed fork leaves -1 there. The next SendSignalTask calls `kill(-1, SIGUSR1)`, which signals every process the user may signal. | On failure, keep the old peer pid and try again, as the comment after the branch says. | not executed | Watchdog.FailedForkBroadcasts, Watchdog.MainLoopFailedFork | Watchdog.Revive, Watchdog.HeartbeatsGoToOneProcess |
| scheduler/scheduler.c:172 | SchedulerRun sets `is_running` to TRUE unconditionally, and MainLoop tests `g_keep_run` only before calling it (wd_shared.c:86-89). | The stop signal arrives after the flag test and before `is_running = TRUE`. StopMainLoop clears both flags, then SchedulerRun raises `is_running` again. The run ends only when CheckSignalTask finds the counter stale, which never happens while heartbeats keep arriving. | A stop signal ends the current run and prevents every later one: the run starts only while `g_keep_run` is still set. | not executed | Watchdog.StopBeforeRunStartsIsOverridden | Watchdog.StopIsHonoured, Watchdog.StopBeforeRunStartsExits |
