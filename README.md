# Task-queue drain kernel, modelled in Dafny

This project models the task-queue kernel of the `tqs-sycl` benchmark
(`TaskQueue_gpu` and the launch shape of `call_TaskQueue_gpu` in
`tqs-sycl/kernel.cpp`). A launch starts `blocks` work-groups of `threads`
lanes each. Every group does the same thing over and over:

- lane 0 claims the next queue index from a shared counter `consumed` by
  fetch-and-add;
- it copies that task descriptor (`id`, `op`) into group-local scratch;
- the lanes then add into their own cells of `data_queue`. A heavy task
  (`SIGNAL_WORK_KERNEL`) adds `tile_size` once per iteration and then its
  `id`. A light task (`SIGNAL_NOTWORK_KERNEL`) adds `tile_size` once and then
  its `id`.

A group stops at its first claim at or past `gpuQueueSize`.

The model has three modules:

- `Accumulation` (accumulation.dfy) is the value-level reference. It defines
  the task descriptor, what a task adds to a cell (`LaneGain`, `CellGain`),
  what a sequence of executed indices adds (`Total`), and the buffer after
  every index below the queue size has run exactly once (`Drained`). Its
  lemmas prove that the result does not depend on execution order, that
  regions of different tasks are disjoint, and what each lane cell ends up
  holding.
- `Interleaving` (interleaving.dfy) is the ghost bookkeeping of one launch:
  - which group claimed each index (`owner`);
  - what each group holds in its scratch (`GroupState`);
  - which groups are still inside the kernel (`live`);
  - the indices executed so far (`log`).

  It also holds the invariant every turn of a group keeps, and what that
  invariant gives once every group has left.
- `Kernel` (kernel.dfy) is the imperative model:
  - a `Scheduler` class holds the counter, and `Claim` is the fetch-and-add;
  - `FetchTask` is lane 0's claim-and-copy block;
  - `ExecuteTask` runs the lane loop over an `array<int>` buffer;
  - `TaskQueueGpu` is one group's kernel loop;
  - `RunGroups` and `CallTaskQueue` are the launch, where the group taking
    each turn is chosen arbitrarily (`:|`).

  Each method is proved against the reference functions.

A group's lanes run one after another inside `ExecuteTask`, and all of them
finish the held task before lane 0 claims the next one. A turn of a group is its first claim, or one iteration of its
loop (execute the held task, then claim again). Turns of different groups
interleave in any order.

Lane 0 reads `task_queue[*next]` right after every claim, before the loop
guard tests `*next < gpuQueueSize` (`tqs-sycl/kernel.cpp` lines 60-61, 89-90,
66), so the last claim of every group reads one descriptor past the queue. The
model makes this read explicit in three places:
- `FetchTask` requires the claimed index to exist in the task queue.
- `TaskQueueGpu` requires a queue longer than `gpuQueueSize`.
- `CallTaskQueue` requires at least `max(gpuQueueSize, 0) + blocks` entries,
  one extra descriptor per group.

The values of `SIGNAL_WORK_KERNEL` and `SIGNAL_NOTWORK_KERNEL` are defined in
`kernel.h`, which is not part of this model. They appear here as the
constants `SignalWorkKernel = 1` and `SignalNotWorkKernel = 2`, and every
proof uses only that they differ.

## Model

| member | source | states |
|---|---|---|
| Kernel.Scheduler.constructor | tqs-sycl/kernel.cpp:42 | the shared counter of a launch starts at 0 |
| Kernel.Scheduler.Claim | tqs-sycl/kernel.cpp:55-59 | fetch-and-add by one: returns the counter's value before the increment and raises the counter by exactly 1 |
| Kernel.FetchTask | tqs-sycl/kernel.cpp:54-62 | lane 0 claims the counter's old value and copies exactly that queue entry into the group's scratch; the entry must exist whatever the index, since the copy happens before the loop guard |
| Kernel.ExecuteTask | tqs-sycl/kernel.cpp:68-81 | after the group's lane loop, each cell grows by exactly the task's `CellGain`. For a heavy task each of the `tile_size` cells starting at `(id - offset) * tile_size` grows by `max(iterations, 0) * tile_size + id`; for a light task by `tile_size + id`. A task with any other op leaves the buffer unchanged, and no cell outside the task's region changes |
| Kernel.TaskQueueGpu | tqs-sycl/kernel.cpp:38-94 | one group alone: the counter ends at `gpuQueueSize + 1` (or one past its start if that was already at or past the queue size). The executed indices are exactly the counter's start up to the queue size, in order; the final claim is discarded. The buffer grows by their `Total`, and from counter 0 it ends as `Drained` |
| Kernel.GroupTurn | tqs-sycl/kernel.cpp:66-93 | one turn of a group that has not left: the task it holds (if any) is executed and logged, the buffer stays `Total` of the log, and the group holds the new claim and its descriptor |
| Kernel.TakeTurn | tqs-sycl/kernel.cpp:66-93 | a live group's turn moves the launch state by exactly `Turn`, raises the counter by one and keeps the launch invariant and the buffer's relation to the log |
| Kernel.RunGroups | tqs-sycl/kernel.cpp:107-116 | whatever order the groups take turns in, the launch ends with no live group, the launch invariant holding and the buffer grown by `Total` of the execution log |
| Kernel.CallTaskQueue | tqs-sycl/kernel.cpp:96-118 | from counter 0, with `blocks > 0`, in any interleaving: every index below the queue size is executed exactly once, the counter ends at `max(gpuQueueSize, 0) + blocks`, and the buffer ends as `Drained`. Each group makes exactly one claim at or past the queue size and none after it, and every index is claimed by exactly one group. With no groups nothing changes |
| Interleaving.GroupIndices | tqs-sycl/kernel.cpp:107-108 | the launch's groups are exactly the indices `0 .. blocks - 1` |
| Interleaving.ClaimStep | tqs-sycl/kernel.cpp:59-61 | a group that has not left claims the counter's value and copies its descriptor; the claim history invariant is kept |
| Interleaving.LogStep | tqs-sycl/kernel.cpp:66-90 | a group's turn adds to the log exactly the index it held, which was not yet executed. Every claimed index below the queue size is either logged once or held, unexecuted, by its claimant |
| Interleaving.LiveStep | tqs-sycl/kernel.cpp:66 | a group leaves the live set exactly when its claim reaches the queue size, and each turn brings the launch one claim nearer its `max(gpuQueueSize, 0) + blocks` claims |
| Interleaving.LaunchStartInvariant | tqs-sycl/kernel.cpp:107-108 | the launch before any claim (all groups live, nothing claimed or executed) satisfies the invariant |
| Interleaving.TurnEnabled | tqs-sycl/kernel.cpp:60-66 | a live group's next claim is read inside the task queue, and the task it holds is below the queue size with the descriptor read at that index |
| Interleaving.TurnInvariant | tqs-sycl/kernel.cpp:54-93 | every turn of a live group keeps the launch invariant |
| Interleaving.AllFinished | tqs-sycl/kernel.cpp:66 | once no group is live, every group's last claim is at or past the queue size, and the counter is `max(gpuQueueSize, 0) + blocks` (or 0 with no groups) |
| Interleaving.LogComplete | tqs-sycl/kernel.cpp:66-81 | once every group has left, the log is a permutation of the indices below the queue size: each is executed exactly once |
| Interleaving.ClaimsComplete | tqs-sycl/kernel.cpp:59-66 | once every group has left, a claim at or past the queue size is the last its group made, and those claims are one per group |
| Interleaving.ConcurrentRegionsDisjoint | tqs-sycl/kernel.cpp:66-81 | between turns, two different running groups hold different claims below the queue size; with distinct queued ids, the cells the two tasks write are disjoint, so their unsynchronised `+=` never touch the same cell |
| Interleaving.LaunchEnd | tqs-sycl/kernel.cpp:54-93 | the end of a launch: counter value, every index executed exactly once, and one discarded claim per group, which is that group's last |
| Accumulation.TotalConcat | tqs-sycl/kernel.cpp:68-81 | what a log adds is what its two halves add |
| Accumulation.TotalPermutation | tqs-sycl/kernel.cpp:66-93 | two logs holding the same indices, in any order, add the same amount to every cell: the buffer does not depend on which group ran which task or when |
| Accumulation.RegionsDisjoint | tqs-sycl/kernel.cpp:70-80 | tasks with different ids write disjoint `tile_size`-cell regions |
| Accumulation.DrainedLane | tqs-sycl/kernel.cpp:68-81 | with distinct ids, after the drain, lane cell `(id - offset) * tile_size + lane` of a writing task holds its initial value plus that task's lane gain. It depends only on the task's `id` and `op` and on `iterations`, `offset` and `tile_size` |
| Accumulation.DrainedUntouched | tqs-sycl/kernel.cpp:70-80 | a cell outside every writing task's region keeps its initial value after the drain |
| Accumulation.ExactlyOnce | tqs-sycl/kernel.cpp:54-66 | a log without repeats that holds every index below `n`, and nothing else, is a permutation of `0 .. n - 1` |
| Accumulation.DrainedFromLog | tqs-sycl/kernel.cpp:96-118 | a buffer grown by a log that is a permutation of the indices below the queue size is the `Drained` buffer |
| Accumulation.ScenarioLight | tqs-sycl/kernel.cpp:75-81 | four light tasks with ids 0..3 on a four-lane group leave cell `4 * i + l` at `4 + i` |
| Accumulation.ScenarioMixed | tqs-sycl/kernel.cpp:68-81 | a heavy task 0 with 3 iterations and a light task 1 on a two-lane group leave the buffer `[6, 6, 3, 3]` |

## Left out

- SYCL machinery is not modelled: queue submission, the local `accessor`,
  `nd_range`, the `l_mem_size` scratch layout (`tqs-sycl/kernel.cpp`
  lines 107-117). A launch is `blocks` groups of `threads` lanes.
- Memory ordering is not modelled (`relaxed` and `device` on the atomic). The
  fetch-and-add is a sequential increment.
- Kernel.ExecuteTask: assumes an ordering the source does not enforce. The
  kernel's only barriers are at `tqs-sycl/kernel.cpp` lines 64 and 92, both
  after a claim. Nothing separates the compute block (lines 68-81) from lane
  0's next claim and copy (lines 82-91). So lane 0 can overwrite `*next`,
  `t->id` and `t->op` while other lanes still read them at lines 66, 70, 73,
  77 and 80. A lane can then add into the next task's cell, or leave the loop
  while lane 0 waits at the barrier on line 92. The model runs every lane of
  the held task to completion before lane 0 claims. The claim that each lane
  cell grows by exactly `LaneGain` rests on that assumed ordering.
- Kernel.CallTaskQueue: interleaves groups only at the granularity of group
  turns (a first claim, or execute-then-claim), not of individual
  non-atomic `+=` writes. The source gives the same buffer only when the
  queued tasks below the queue size have distinct ids. Two running groups
  then hold different tasks writing disjoint cells
  (`Interleaving.ConcurrentRegionsDisjoint`). Two concurrent tasks with the
  same id add into the same cells without atomics and can lose updates. The
  model's `Drained` result, stated for every queue, holds in the source only
  for distinct ids.
- Integer overflow is not modelled: the counter and the buffer cells are
  unbounded integers, while the source uses 32-bit `int`.
- The numeric values of `SIGNAL_WORK_KERNEL` and `SIGNAL_NOTWORK_KERNEL` are
  not modelled, because `kernel.h` is not part of this model. Only their
  distinctness is used.
- Kernel.CallTaskQueue: also covers only a launch whose counter starts at 0, as the
  host sets it before the launch. A single group starting from any counter
  value is `TaskQueueGpu`.
- Kernel.TaskQueueGpu: ends as `Drained` only when the counter starts at 0.
  From another start, its contract gives the buffer as `Total` of the executed
  range.
- The other files of the repository are not modelled, because they hold no
  kernel logic:
  - `heartwall-sycl/main.c` is file I/O and timing around a wrapper that is
    not shown;
  - `src/gemmBatched-sycl/main.cpp` is option parsing and a call into a
    math library;
  - `black-scholes-dpct/blackScholesAnalyticEngineKernels.h` has
    declarations and floating-point pricing only.
