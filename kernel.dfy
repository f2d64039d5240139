/** The task-queue kernel: work-groups claim queue indices from a shared
    counter, copy the claimed descriptor into group-local scratch and add into
    their lanes' cells of the output buffer until the counter passes the queue
    size. The device's atomic is a sequential increment, and a group's lanes
    run one after another, each lane finishing the task before lane 0 claims
    the next one (an ordering the kernel itself does not enforce). */
module Kernel {
  import opened Accumulation
  import opened Interleaving

  /** The counter shared by every group of one launch (`consumed`). */
  class Scheduler {
    var consumed: int

    constructor ()
      ensures consumed == 0
    {
      consumed := 0;
    }

    /** Fetch-and-add by one: returns the counter before the increment. */
    method Claim() returns (index: int)
      modifies this
      ensures index == old(consumed)
      ensures consumed == old(consumed) + 1
    {
      index := consumed;
      consumed := consumed + 1;
    }
  }

  /** Lane 0's block: claim the next index and copy that entry of the task
      queue into the group's scratch. The copy happens whatever the index, so
      the entry must exist even when the index is past the queue size. */
  method FetchTask(sched: Scheduler, taskQueue: seq<Task>) returns (next: int, t: Task)
    requires 0 <= sched.consumed < |taskQueue|
    modifies sched
    ensures next == old(sched.consumed) && sched.consumed == next + 1
    ensures t == taskQueue[next]
  {
    next := sched.Claim();
    t := Task(taskQueue[next].id, taskQueue[next].op);
  }

  /** Every lane `tid` of the group executes `t` on its own cell
      `(t.id - offset) * tileSize + tid`; a heavy task adds `tileSize` once per
      iteration, a light one once, and both then add the task's id. */
  method ExecuteTask(dataQueue: array<int>, t: Task, tileSize: int, iterations: int, offset: int)
    requires tileSize > 0
    requires Fits(t, KernelArgs(tileSize, iterations, offset), dataQueue.Length)
    modifies dataQueue
    ensures forall j :: 0 <= j < dataQueue.Length ==>
              dataQueue[j] == old(dataQueue[j]) + CellGain(t, KernelArgs(tileSize, iterations, offset), j)
    ensures t.op == SignalWorkKernel ==>
              forall j :: 0 <= j < dataQueue.Length && InRegion(t, KernelArgs(tileSize, iterations, offset), j) ==>
                dataQueue[j] == old(dataQueue[j]) + Max0(iterations) * tileSize + t.id
    ensures t.op == SignalNotWorkKernel ==>
              forall j :: 0 <= j < dataQueue.Length && InRegion(t, KernelArgs(tileSize, iterations, offset), j) ==>
                dataQueue[j] == old(dataQueue[j]) + tileSize + t.id
    ensures !Writes(t) ==> dataQueue[..] == old(dataQueue[..])
    ensures forall j :: 0 <= j < dataQueue.Length && !InRegion(t, KernelArgs(tileSize, iterations, offset), j) ==>
              dataQueue[j] == old(dataQueue[j])
  {
    ghost var args := KernelArgs(tileSize, iterations, offset);
    var start := (t.id - offset) * tileSize;
    assert start == RegionStart(t, args);
    var tid := 0;
    while tid < tileSize
      invariant 0 <= tid <= tileSize
      invariant forall j :: 0 <= j < dataQueue.Length ==>
                  dataQueue[j] == old(dataQueue[j]) + (if j < start + tid then CellGain(t, args, j) else 0)
    {
      ghost var before := dataQueue[..];
      var cell := start + tid;
      if t.op == SignalWorkKernel {
        var i := 0;
        while i < iterations
          invariant 0 <= i <= Max0(iterations)
          invariant dataQueue[cell] == before[cell] + i * tileSize
          invariant forall j :: 0 <= j < dataQueue.Length && j != cell ==> dataQueue[j] == before[j]
        {
          dataQueue[cell] := dataQueue[cell] + tileSize;
          i := i + 1;
        }
        dataQueue[cell] := dataQueue[cell] + t.id;
      }
      if t.op == SignalNotWorkKernel {
        var i := 0;
        while i < 1
          invariant 0 <= i <= 1
          invariant dataQueue[cell] == before[cell] + i * tileSize
          invariant forall j :: 0 <= j < dataQueue.Length && j != cell ==> dataQueue[j] == before[j]
        {
          dataQueue[cell] := dataQueue[cell] + tileSize;
          i := i + 1;
        }
        dataQueue[cell] := dataQueue[cell] + t.id;
      }
      tid := tid + 1;
    }
  }

  /** One work-group running the kernel with no other group claiming in
      between: it executes the queue from the counter's current value upwards
      in index order, and its last claim, the first at or past the queue size,
      is read from the task queue and discarded. */
  method TaskQueueGpu(sched: Scheduler, taskQueue: seq<Task>, dataQueue: array<int>,
                      tileSize: int, iterations: int, offset: int, gpuQueueSize: int)
    returns (ghost log: seq<int>)
    requires tileSize > 0
    requires 0 <= sched.consumed
    requires sched.consumed < |taskQueue| && gpuQueueSize < |taskQueue|
    requires forall i :: sched.consumed <= i < gpuQueueSize ==>
               Fits(taskQueue[i], KernelArgs(tileSize, iterations, offset), dataQueue.Length)
    modifies sched, dataQueue
    ensures sched.consumed == if old(sched.consumed) < gpuQueueSize then gpuQueueSize + 1 else old(sched.consumed) + 1
    ensures log == Range(old(sched.consumed), sched.consumed - 1)
    ensures IndicesIn(log, |taskQueue|)
    ensures forall j :: 0 <= j < dataQueue.Length ==>
              dataQueue[j] == old(dataQueue[j]) + Total(taskQueue, log, KernelArgs(tileSize, iterations, offset), j)
    ensures old(sched.consumed) == 0 ==>
              dataQueue[..] == Drained(old(dataQueue[..]), taskQueue, gpuQueueSize, KernelArgs(tileSize, iterations, offset))
  {
    ghost var args := KernelArgs(tileSize, iterations, offset);
    ghost var init := dataQueue[..];
    ghost var first := sched.consumed;
    var next, t := FetchTask(sched, taskQueue);
    log := [];
    while next < gpuQueueSize
      invariant first <= next && sched.consumed == next + 1
      invariant next == first || next <= gpuQueueSize
      invariant t == taskQueue[next]
      invariant log == Range(first, next)
      invariant forall j :: 0 <= j < dataQueue.Length ==> dataQueue[j] == init[j] + Total(taskQueue, log, args, j)
      decreases gpuQueueSize - next
    {
      var s;
      s, log := GroupTurn(sched, taskQueue, dataQueue, Holding(next, t), tileSize, iterations, offset,
                          gpuQueueSize, init, log);
      next, t := s.next, s.t;
    }
    if first == 0 {
      DrainedFromLog(init, dataQueue[..], taskQueue, log, gpuQueueSize, args);
    }
  }

  /** One turn of a group that has not finished: execute the task it holds,
      if it has claimed before (the body of the kernel's loop), then claim the
      next index and copy its descriptor. */
  method GroupTurn(sched: Scheduler, taskQueue: seq<Task>, dataQueue: array<int>, s: GroupState,
                   threads: int, iterations: int, offset: int, gpuQueueSize: int,
                   ghost init: seq<int>, ghost log: seq<int>)
    returns (s': GroupState, ghost log': seq<int>)
    requires threads > 0
    requires !Finished(s, gpuQueueSize)
    requires s.Holding? ==> 0 <= s.next < |taskQueue| && s.t == taskQueue[s.next] &&
                            Fits(s.t, KernelArgs(threads, iterations, offset), dataQueue.Length)
    requires 0 <= sched.consumed < |taskQueue|
    requires IndicesIn(log, |taskQueue|) && |init| == dataQueue.Length
    requires forall j :: 0 <= j < dataQueue.Length ==>
               dataQueue[j] == init[j] + Total(taskQueue, log, KernelArgs(threads, iterations, offset), j)
    modifies sched, dataQueue
    ensures s' == Holding(old(sched.consumed), taskQueue[old(sched.consumed)])
    ensures sched.consumed == old(sched.consumed) + 1
    ensures log' == if s.Holding? then log + [s.next] else log
    ensures IndicesIn(log', |taskQueue|)
    ensures forall j :: 0 <= j < dataQueue.Length ==>
              dataQueue[j] == init[j] + Total(taskQueue, log', KernelArgs(threads, iterations, offset), j)
  {
    log' := log;
    if s.Holding? {
      ExecuteTask(dataQueue, s.t, threads, iterations, offset);
      assert (log + [s.next])[..|log|] == log;
      log' := log + [s.next];
    }
    var next, t := FetchTask(sched, taskQueue);
    s' := Holding(next, t);
  }

  /** Live group `g` takes its turn in the launch: the group's scratch, the
      set of groups still inside the kernel, the counter and the buffer all
      move on by that one turn, and the launch invariant still holds. */
  method TakeTurn(sched: Scheduler, blocks: int, threads: int, taskQueue: seq<Task>,
                  dataQueue: array<int>, iterations: int, offset: int, gpuQueueSize: int,
                  groups: seq<GroupState>, live: set<int>, g: int, ghost init: seq<int>, ghost st: Launch)
    returns (groups': seq<GroupState>, live': set<int>, ghost st': Launch)
    requires threads > 0 && blocks >= 0
    requires Max0(gpuQueueSize) + blocks <= |taskQueue|
    requires forall i :: 0 <= i < gpuQueueSize ==>
               Fits(taskQueue[i], KernelArgs(threads, iterations, offset), dataQueue.Length)
    requires st in ValidLaunches(blocks, gpuQueueSize, taskQueue)
    requires groups == st.groups && live == st.live && sched.consumed == st.consumed && g in live
    requires |init| == dataQueue.Length
    requires forall j :: 0 <= j < dataQueue.Length ==>
               dataQueue[j] == init[j] + Total(taskQueue, st.log, KernelArgs(threads, iterations, offset), j)
    modifies sched, dataQueue
    ensures sched.consumed == old(sched.consumed) + 1
    ensures st' == Turn(st, g, gpuQueueSize, taskQueue)
    ensures st' in ValidLaunches(blocks, gpuQueueSize, taskQueue)
    ensures groups' == st'.groups && live' == st'.live && sched.consumed == st'.consumed
    ensures forall j :: 0 <= j < dataQueue.Length ==>
              dataQueue[j] == init[j] + Total(taskQueue, st'.log, KernelArgs(threads, iterations, offset), j)
  {
    assert LaunchInvariant(st, blocks, gpuQueueSize, taskQueue);
    TurnEnabled(st, blocks, gpuQueueSize, taskQueue, g);
    var s;
    ghost var log;
    s, log := GroupTurn(sched, taskQueue, dataQueue, groups[g], threads, iterations, offset, gpuQueueSize, init, st.log);
    groups' := groups[g := s];
    live' := live;
    if s.next >= gpuQueueSize {
      live' := live - {g};
    }
    TurnInvariant(st, blocks, gpuQueueSize, taskQueue, g);
    st' := Turn(st, g, gpuQueueSize, taskQueue);
  }

  /** Every group of the launch runs the kernel, the groups taking turns in
      an arbitrary order (each turn a group's first claim or one iteration of
      its loop), until every group has left the kernel. */
  method RunGroups(sched: Scheduler, blocks: int, threads: int, taskQueue: seq<Task>,
                   dataQueue: array<int>, iterations: int, offset: int, gpuQueueSize: int)
    returns (ghost st: Launch)
    requires blocks >= 0 && threads > 0
    requires sched.consumed == 0
    requires Max0(gpuQueueSize) + blocks <= |taskQueue|
    requires forall i :: 0 <= i < gpuQueueSize ==>
               Fits(taskQueue[i], KernelArgs(threads, iterations, offset), dataQueue.Length)
    modifies sched, dataQueue
    ensures LaunchInvariant(st, blocks, gpuQueueSize, taskQueue) && st.live == {}
    ensures sched.consumed == st.consumed && IndicesIn(st.log, |taskQueue|)
    ensures forall j :: 0 <= j < dataQueue.Length ==>
              dataQueue[j] == old(dataQueue[j]) + Total(taskQueue, st.log, KernelArgs(threads, iterations, offset), j)
  {
    ghost var args := KernelArgs(threads, iterations, offset);
    ghost var init := dataQueue[..];
    var groups: seq<GroupState> := seq(blocks, _ => Launched);
    var live: set<int> := GroupIndices(blocks);
    st := LaunchStart(blocks);
    LaunchStartInvariant(blocks, gpuQueueSize, taskQueue);
    assert st in ValidLaunches(blocks, gpuQueueSize, taskQueue);
    while live != {}
      invariant st in ValidLaunches(blocks, gpuQueueSize, taskQueue)
      invariant groups == st.groups && live == st.live && sched.consumed == st.consumed
      invariant forall j :: 0 <= j < dataQueue.Length ==> dataQueue[j] == init[j] + Total(taskQueue, st.log, args, j)
      decreases Max0(gpuQueueSize) + blocks - sched.consumed
    {
      var g :| g in live;
      groups, live, st := TakeTurn(sched, blocks, threads, taskQueue, dataQueue, iterations, offset, gpuQueueSize,
                                   groups, live, g, init, st);
    }
  }

  /** The launch: `blocks` work-groups of `threads` lanes each run the kernel
      with the counter starting at 0. Whatever order the groups take turns in,
      every index below the queue size is executed exactly once, each group
      makes exactly one claim at or past the queue size and none after it (so
      the counter ends one claim per group past the queue size), and the buffer
      ends as `Drained`. `claimedBy[x]` is the group that claimed index `x`. */
  method CallTaskQueue(sched: Scheduler, blocks: int, threads: int, taskQueue: seq<Task>,
                       dataQueue: array<int>, iterations: int, offset: int, gpuQueueSize: int)
    returns (ghost log: seq<int>, ghost claimedBy: seq<int>)
    requires blocks >= 0 && threads > 0
    requires sched.consumed == 0
    requires Max0(gpuQueueSize) + blocks <= |taskQueue|
    requires forall i :: 0 <= i < gpuQueueSize ==>
               Fits(taskQueue[i], KernelArgs(threads, iterations, offset), dataQueue.Length)
    modifies sched, dataQueue
    ensures sched.consumed == if blocks == 0 then 0 else Max0(gpuQueueSize) + blocks
    ensures multiset(log) == multiset(Range(0, if blocks == 0 then 0 else Max0(gpuQueueSize)))
    ensures dataQueue[..] == Drained(old(dataQueue[..]), taskQueue, if blocks == 0 then 0 else gpuQueueSize,
                                     KernelArgs(threads, iterations, offset))
    ensures |claimedBy| == sched.consumed
    ensures forall x :: 0 <= x < |claimedBy| ==> 0 <= claimedBy[x] < blocks
    ensures forall x, y :: 0 <= x < y < |claimedBy| && x >= gpuQueueSize ==> claimedBy[x] != claimedBy[y]
    ensures blocks > 0 ==> multiset(claimedBy[Max0(gpuQueueSize)..]) == multiset(Range(0, blocks))
  {
    ghost var init := dataQueue[..];
    ghost var st := RunGroups(sched, blocks, threads, taskQueue, dataQueue, iterations, offset, gpuQueueSize);
    LaunchEnd(st, blocks, gpuQueueSize, taskQueue);
    log, claimedBy := st.log, st.owner;
    DrainedFromLog(init, dataQueue[..], taskQueue, log, if blocks == 0 then 0 else gpuQueueSize,
                   KernelArgs(threads, iterations, offset));
  }
}
