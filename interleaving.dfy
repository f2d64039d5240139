/** The bookkeeping of one launch: which group claimed which index, what each
    group holds in its scratch, which groups are still inside the kernel and
    which indices have been executed, with the invariant every turn of a group
    keeps and what it gives once every group has left. */
module Interleaving {
  import opened Accumulation

  /** The indices of the `blocks` groups of a launch. */
  function GroupIndices(blocks: nat): (r: set<int>)
    ensures forall g :: g in r <==> 0 <= g < blocks
    ensures |r| == blocks
  {
    if blocks == 0 then {} else GroupIndices(blocks - 1) + {blocks - 1}
  }

  /** A group's group-local scratch: before its first claim, or holding the
      index it claimed last (`next`) and the descriptor copied from it (`t`). */
  datatype GroupState = Launched | Holding(next: int, t: Task)

  /** The group's loop guard holds: it will execute `t` and claim again. */
  predicate Running(s: GroupState, gpuQueueSize: int)
  {
    s.Holding? && s.next < gpuQueueSize
  }

  /** The group's loop guard failed: it has left the kernel. */
  predicate Finished(s: GroupState, gpuQueueSize: int)
  {
    s.Holding? && s.next >= gpuQueueSize
  }

  /** What the counter's history says after `consumed` claims: `owner[x]` is
      the group that claimed index `x`; every group that has claimed holds a
      claim at least as recent as each of its own, together with the
      descriptor read there; and a claim at or past the queue size is the last
      its group made. */
  ghost predicate ClaimsInvariant(groups: seq<GroupState>, owner: seq<int>, consumed: int,
                                  gpuQueueSize: int, taskQueue: seq<Task>)
  {
    |owner| == consumed &&
    (forall x :: 0 <= x < |owner| ==> 0 <= owner[x] < |groups|) &&
    (forall x :: 0 <= x < |owner| ==> groups[owner[x]].Holding? && x <= groups[owner[x]].next) &&
    (forall g :: 0 <= g < |groups| && groups[g].Holding? ==>
       0 <= groups[g].next < |owner| && owner[groups[g].next] == g &&
       groups[g].next < |taskQueue| && groups[g].t == taskQueue[groups[g].next]) &&
    (forall x :: 0 <= x < |owner| && x >= gpuQueueSize ==> groups[owner[x]].next == x)
  }

  /** What the execution log says after `consumed` claims: it lists, without
      repeats, the claimed indices below the queue size, except the one each
      running group holds and has not executed yet. */
  ghost predicate LogInvariant(groups: seq<GroupState>, owner: seq<int>, log: seq<int>,
                               consumed: int, gpuQueueSize: int)
    requires |owner| == consumed
    requires forall x :: 0 <= x < |owner| ==> 0 <= owner[x] < |groups|
  {
    (forall k :: 0 <= k < |log| ==> 0 <= log[k] < gpuQueueSize && log[k] < consumed) &&
    NoDuplicates(log) &&
    (forall g :: 0 <= g < |groups| && Running(groups[g], gpuQueueSize) ==> groups[g].next !in log) &&
    (forall x :: 0 <= x < consumed && x < gpuQueueSize ==>
       x in log || (Running(groups[owner[x]], gpuQueueSize) && groups[owner[x]].next == x))
  }

  /** Group `g`, not yet finished, claims index `consumed` and copies its descriptor. */
  lemma ClaimStep(groups: seq<GroupState>, owner: seq<int>, consumed: int,
                  gpuQueueSize: int, taskQueue: seq<Task>, g: int)
    requires ClaimsInvariant(groups, owner, consumed, gpuQueueSize, taskQueue)
    requires 0 <= g < |groups| && !Finished(groups[g], gpuQueueSize)
    requires 0 <= consumed < |taskQueue|
    ensures ClaimsInvariant(groups[g := Holding(consumed, taskQueue[consumed])], owner + [g],
                            consumed + 1, gpuQueueSize, taskQueue)
  {
    var groups', owner' := groups[g := Holding(consumed, taskQueue[consumed])], owner + [g];
    forall x | 0 <= x < |owner'| && x >= gpuQueueSize
      ensures groups'[owner'[x]].next == x
    {
      if x < consumed {
        assert owner[x] != g;
      }
    }
  }

  /** Group `g`, not yet finished, executes the task it holds (if any) and
      claims index `consumed`: the log gains the executed index. */
  lemma LogStep(groups: seq<GroupState>, owner: seq<int>, log: seq<int>,
                consumed: int, gpuQueueSize: int, taskQueue: seq<Task>, g: int)
    requires ClaimsInvariant(groups, owner, consumed, gpuQueueSize, taskQueue)
    requires LogInvariant(groups, owner, log, consumed, gpuQueueSize)
    requires 0 <= g < |groups| && !Finished(groups[g], gpuQueueSize)
    requires 0 <= consumed < |taskQueue|
    ensures LogInvariant(groups[g := Holding(consumed, taskQueue[consumed])], owner + [g],
                         if groups[g].Holding? then log + [groups[g].next] else log,
                         consumed + 1, gpuQueueSize)
  {
    var groups', owner' := groups[g := Holding(consumed, taskQueue[consumed])], owner + [g];
    var log' := if groups[g].Holding? then log + [groups[g].next] else log;
    if groups[g].Holding? {
      forall i, j | 0 <= i < j < |log'|
        ensures log'[i] != log'[j]
      {
        if j == |log| {
          assert Running(groups[g], gpuQueueSize);
        }
      }
    }
    forall x | 0 <= x < consumed + 1 && x < gpuQueueSize
      ensures x in log' || (Running(groups'[owner'[x]], gpuQueueSize) && groups'[owner'[x]].next == x)
    {
      if x < consumed && x !in log {
        var h := owner[x];
        assert Running(groups[h], gpuQueueSize) && groups[h].next == x;
        if h == g {
          assert log'[|log|] == x;
        }
      }
    }
    forall h | 0 <= h < |groups'| && Running(groups'[h], gpuQueueSize)
      ensures groups'[h].next !in log'
    {
      if h != g && groups[g].Holding? {
        assert owner[groups[h].next] == h && owner[groups[g].next] == g;
      }
    }
  }

  /** The launch's bookkeeping between turns: each group's scratch, the
      groups still inside the kernel, the group that made each claim, the
      executed indices in execution order, and the counter. */
  datatype Launch = Launch(groups: seq<GroupState>, live: set<int>, owner: seq<int>, log: seq<int>, consumed: int)

  /** The launch before any group has claimed. */
  function LaunchStart(blocks: nat): (st: Launch)
    ensures |st.groups| == blocks && st.live == GroupIndices(blocks) && st.log == [] && st.consumed == 0
  {
    Launch(seq(blocks, _ => Launched), GroupIndices(blocks), [], [], 0)
  }

  /** Group `g` takes a turn: it executes the task it holds, if any, claims the
      index the counter shows and copies that descriptor, and leaves the kernel
      when the claim is at or past the queue size. */
  function Turn(st: Launch, g: int, gpuQueueSize: int, taskQueue: seq<Task>): Launch
    requires 0 <= st.consumed < |taskQueue|
    requires 0 <= g < |st.groups|
  {
    Launch(st.groups[g := Holding(st.consumed, taskQueue[st.consumed])],
           if st.consumed >= gpuQueueSize then st.live - {g} else st.live,
           st.owner + [g],
           if st.groups[g].Holding? then st.log + [st.groups[g].next] else st.log,
           st.consumed + 1)
  }

  /** Everything a launch keeps true between turns: `live` holds the groups
      that have not left the kernel, every turn has raised the counter by one
      and brought the launch one step nearer its `Max0(gpuQueueSize) + blocks`
      claims, and the counter's history and the log are as the two invariants
      above say. */
  ghost predicate LaunchInvariant(st: Launch, blocks: int, gpuQueueSize: int, taskQueue: seq<Task>)
  {
    |st.groups| == blocks &&
    (forall g :: g in st.live <==> 0 <= g < blocks && !Finished(st.groups[g], gpuQueueSize)) &&
    0 <= st.consumed && (blocks == 0 ==> st.consumed == 0) &&
    st.consumed + Max0(Max0(gpuQueueSize) - st.consumed) + |st.live| == Max0(gpuQueueSize) + blocks &&
    ClaimsInvariant(st.groups, st.owner, st.consumed, gpuQueueSize, taskQueue) &&
    LogInvariant(st.groups, st.owner, st.log, st.consumed, gpuQueueSize) &&
    IndicesIn(st.log, |taskQueue|)
  }

  /** The launches the invariant admits. The imperative launch keeps its
      state in this set, so that the invariant is opened only where a turn
      needs it. */
  ghost function ValidLaunches(blocks: int, gpuQueueSize: int, taskQueue: seq<Task>): iset<Launch>
  {
    iset st | LaunchInvariant(st, blocks, gpuQueueSize, taskQueue)
  }

  lemma LaunchStartInvariant(blocks: nat, gpuQueueSize: int, taskQueue: seq<Task>)
    ensures LaunchInvariant(LaunchStart(blocks), blocks, gpuQueueSize, taskQueue)
  {
  }

  /** A turn of live group `g` keeps `live` the set of groups still inside
      the kernel and brings the launch one claim nearer its end. */
  lemma LiveStep(st: Launch, blocks: int, gpuQueueSize: int, taskQueue: seq<Task>, g: int)
    requires |st.groups| == blocks
    requires forall h :: h in st.live <==> 0 <= h < blocks && !Finished(st.groups[h], gpuQueueSize)
    requires 0 <= st.consumed < |taskQueue|
    requires st.consumed + Max0(Max0(gpuQueueSize) - st.consumed) + |st.live| == Max0(gpuQueueSize) + blocks
    requires g in st.live
    ensures var st' := Turn(st, g, gpuQueueSize, taskQueue);
            (forall h :: h in st'.live <==> 0 <= h < blocks && !Finished(st'.groups[h], gpuQueueSize)) &&
            st'.consumed + Max0(Max0(gpuQueueSize) - st'.consumed) + |st'.live| == Max0(gpuQueueSize) + blocks
  {
    var st' := Turn(st, g, gpuQueueSize, taskQueue);
    forall h
      ensures h in st'.live <==> 0 <= h < blocks && !Finished(st'.groups[h], gpuQueueSize)
    {
    }
  }

  /** A turn of live group `g` is enabled: its claim is read inside the task
      queue, and the task it holds, if any, is below the queue size. */
  lemma TurnEnabled(st: Launch, blocks: int, gpuQueueSize: int, taskQueue: seq<Task>, g: int)
    requires LaunchInvariant(st, blocks, gpuQueueSize, taskQueue)
    requires Max0(gpuQueueSize) + blocks <= |taskQueue|
    requires g in st.live
    ensures 0 <= g < blocks && !Finished(st.groups[g], gpuQueueSize)
    ensures 0 <= st.consumed < |taskQueue| && st.consumed < Max0(gpuQueueSize) + blocks
    ensures st.groups[g].Holding? ==>
              0 <= st.groups[g].next < gpuQueueSize && st.groups[g].t == taskQueue[st.groups[g].next]
  {
  }

  /** A turn of live group `g` keeps the launch invariant. */
  lemma TurnInvariant(st: Launch, blocks: int, gpuQueueSize: int, taskQueue: seq<Task>, g: int)
    requires LaunchInvariant(st, blocks, gpuQueueSize, taskQueue)
    requires Max0(gpuQueueSize) + blocks <= |taskQueue|
    requires g in st.live
    ensures 0 <= st.consumed < |taskQueue| && 0 <= g < |st.groups|
    ensures LaunchInvariant(Turn(st, g, gpuQueueSize, taskQueue), blocks, gpuQueueSize, taskQueue)
  {
    TurnEnabled(st, blocks, gpuQueueSize, taskQueue, g);
    ClaimStep(st.groups, st.owner, st.consumed, gpuQueueSize, taskQueue, g);
    LogStep(st.groups, st.owner, st.log, st.consumed, gpuQueueSize, taskQueue, g);
    LiveStep(st, blocks, gpuQueueSize, taskQueue, g);
    assert IndicesIn(Turn(st, g, gpuQueueSize, taskQueue).log, |taskQueue|);
  }

  /** Once no group is live, every group has left the kernel, and the counter
      has taken one claim per index below the queue size and one discarded
      claim per group. */
  lemma AllFinished(st: Launch, blocks: int, gpuQueueSize: int, taskQueue: seq<Task>)
    requires LaunchInvariant(st, blocks, gpuQueueSize, taskQueue)
    requires st.live == {}
    ensures forall g :: 0 <= g < blocks ==> Finished(st.groups[g], gpuQueueSize)
    ensures st.consumed == if blocks == 0 then 0 else Max0(gpuQueueSize) + blocks
  {
    forall g | 0 <= g < blocks
      ensures Finished(st.groups[g], gpuQueueSize)
    {
      assert g !in st.live;
    }
  }

  /** Once every group has left, the log holds every index below the queue
      size exactly once (`n` is the queue size, or 0 when nothing was claimed). */
  lemma LogComplete(groups: seq<GroupState>, owner: seq<int>, log: seq<int>,
                    consumed: int, gpuQueueSize: int, n: nat)
    requires |owner| == consumed
    requires forall x :: 0 <= x < |owner| ==> 0 <= owner[x] < |groups|
    requires LogInvariant(groups, owner, log, consumed, gpuQueueSize)
    requires forall g :: 0 <= g < |groups| ==> Finished(groups[g], gpuQueueSize)
    requires (n == Max0(gpuQueueSize) && n <= consumed) || (n == 0 && consumed == 0)
    ensures IndicesIn(log, n)
    ensures multiset(log) == multiset(Range(0, n))
  {
    forall x | 0 <= x < n
      ensures x in log
    {
      assert !Running(groups[owner[x]], gpuQueueSize);
    }
    ExactlyOnce(log, n);
  }

  /** Once every group has left, the claims at or past the queue size are one
      per group, and each is the last claim its group made. */
  lemma ClaimsComplete(groups: seq<GroupState>, owner: seq<int>, consumed: int,
                       gpuQueueSize: int, taskQueue: seq<Task>)
    requires ClaimsInvariant(groups, owner, consumed, gpuQueueSize, taskQueue)
    requires forall g :: 0 <= g < |groups| ==> Finished(groups[g], gpuQueueSize)
    requires |groups| > 0 ==> consumed == Max0(gpuQueueSize) + |groups|
    ensures forall x, y :: 0 <= x < y < |owner| && x >= gpuQueueSize ==> owner[x] != owner[y]
    ensures |groups| > 0 ==> multiset(owner[Max0(gpuQueueSize)..]) == multiset(Range(0, |groups|))
  {
    forall x, y | 0 <= x < y < |owner| && x >= gpuQueueSize
      ensures owner[x] != owner[y]
    {
      assert groups[owner[x]].next == x;
    }
    if |groups| > 0 {
      var m := Max0(gpuQueueSize);
      var tail := owner[m..];
      forall g | 0 <= g < |groups|
        ensures g in tail
      {
        var x := groups[g].next;
        assert owner[x] == g;
        assert tail[x - m] == g;
      }
      forall i, j | 0 <= i < j < |tail|
        ensures tail[i] != tail[j]
      {
        assert tail[i] == owner[i + m] && tail[j] == owner[j + m];
      }
      ExactlyOnce(tail, |groups|);
    }
  }

  /** Once no group is live, the counter has taken one claim per index below
      the queue size and one discarded claim per group, the log holds every
      index below the queue size exactly once, each group made exactly one
      claim at or past the queue size, and made no claim after it. */
  lemma LaunchEnd(st: Launch, blocks: int, gpuQueueSize: int, taskQueue: seq<Task>)
    requires LaunchInvariant(st, blocks, gpuQueueSize, taskQueue)
    requires st.live == {}
    ensures st.consumed == if blocks == 0 then 0 else Max0(gpuQueueSize) + blocks
    ensures IndicesIn(st.log, if blocks == 0 then 0 else Max0(gpuQueueSize))
    ensures multiset(st.log) == multiset(Range(0, if blocks == 0 then 0 else Max0(gpuQueueSize)))
    ensures |st.owner| == st.consumed
    ensures forall x :: 0 <= x < |st.owner| ==> 0 <= st.owner[x] < blocks
    ensures forall x, y :: 0 <= x < y < |st.owner| && x >= gpuQueueSize ==> st.owner[x] != st.owner[y]
    ensures blocks > 0 ==> multiset(st.owner[Max0(gpuQueueSize)..]) == multiset(Range(0, blocks))
  {
    AllFinished(st, blocks, gpuQueueSize, taskQueue);
    LogComplete(st.groups, st.owner, st.log, st.consumed, gpuQueueSize,
                if blocks == 0 then 0 else Max0(gpuQueueSize));
    ClaimsComplete(st.groups, st.owner, st.consumed, gpuQueueSize, taskQueue);
  }

  /** Between turns, two different running groups hold two different claims
      below the queue size; when the queued ids are distinct, the tasks they
      are about to execute therefore write disjoint cells, so their lanes'
      unsynchronised additions to the buffer never meet. */
  lemma ConcurrentRegionsDisjoint(st: Launch, blocks: int, gpuQueueSize: int, taskQueue: seq<Task>,
                                  g: int, h: int, args: KernelArgs, cell: int)
    requires LaunchInvariant(st, blocks, gpuQueueSize, taskQueue)
    requires gpuQueueSize <= |taskQueue| && DistinctIds(taskQueue, gpuQueueSize)
    requires args.tileSize > 0
    requires 0 <= g < blocks && 0 <= h < blocks && g != h
    requires Running(st.groups[g], gpuQueueSize) && Running(st.groups[h], gpuQueueSize)
    requires Writes(st.groups[g].t) && Writes(st.groups[h].t)
    requires InRegion(st.groups[g].t, args, cell)
    ensures !InRegion(st.groups[h].t, args, cell)
  {
    var a, b := st.groups[g].next, st.groups[h].next;
    assert ClaimsInvariant(st.groups, st.owner, st.consumed, gpuQueueSize, taskQueue);
    assert st.owner[a] == g && st.owner[b] == h;
    assert 0 <= a && 0 <= b && a != b;
    assert taskQueue[a].id != taskQueue[b].id by {
      if a < b {
        assert Writes(taskQueue[a]) && Writes(taskQueue[b]);
      } else {
        assert Writes(taskQueue[b]) && Writes(taskQueue[a]);
      }
    }
    RegionsDisjoint(st.groups[g].t, st.groups[h].t, args, cell);
  }
}
