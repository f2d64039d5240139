/** What one task adds to the output buffer of the task-queue kernel, and what a
    whole drained queue adds: the reference against which the kernel's methods
    (module Kernel) are proved. */
module Accumulation {

  /** Operation codes a task descriptor may carry. Their values live in the
      kernel's header, which is not part of this model; every proof uses only
      that the two codes differ. */
  const SignalWorkKernel: int := 1
  const SignalNotWorkKernel: int := 2

  /** A task descriptor as stored in the task queue. */
  datatype Task = Task(id: int, op: int)

  /** The scalars every lane sees: the group size (`tile_size`, the local range),
      the global iteration count for heavy tasks and the id-to-region offset. */
  datatype KernelArgs = KernelArgs(tileSize: int, iterations: int, offset: int)

  function Max0(x: int): nat
  {
    if x < 0 then 0 else x
  }

  /** A task writes the buffer only when its op is one of the two codes. */
  predicate Writes(t: Task)
  {
    t.op == SignalWorkKernel || t.op == SignalNotWorkKernel
  }

  /** First cell of the task's region: lane `tid` indexes `RegionStart + tid`. */
  function RegionStart(t: Task, args: KernelArgs): int
  {
    (t.id - args.offset) * args.tileSize
  }

  predicate InRegion(t: Task, args: KernelArgs, cell: int)
  {
    RegionStart(t, args) <= cell < RegionStart(t, args) + args.tileSize
  }

  /** Every lane index of a writing task lies inside a buffer of `len` cells. */
  predicate Fits(t: Task, args: KernelArgs, len: int)
  {
    Writes(t) ==> 0 <= RegionStart(t, args) && RegionStart(t, args) + args.tileSize <= len
  }

  /** What each lane of a task adds to its own cell: `tile_size` once per
      iteration of the inner loop, then the task's id. */
  function LaneGain(t: Task, args: KernelArgs): int
  {
    if t.op == SignalWorkKernel then Max0(args.iterations) * args.tileSize + t.id
    else if t.op == SignalNotWorkKernel then args.tileSize + t.id
    else 0
  }

  /** What executing `t` adds to buffer cell `cell`. */
  function CellGain(t: Task, args: KernelArgs, cell: int): int
  {
    if Writes(t) && InRegion(t, args, cell) then LaneGain(t, args) else 0
  }

  predicate IndicesIn(log: seq<int>, n: int)
  {
    forall k :: 0 <= k < |log| ==> 0 <= log[k] < n
  }

  predicate NoDuplicates(log: seq<int>)
  {
    forall i, j :: 0 <= i < j < |log| ==> log[i] != log[j]
  }

  /** What executing the queue entries listed in `log`, in that order, adds to `cell`. */
  function Total(queue: seq<Task>, log: seq<int>, args: KernelArgs, cell: int): int
    requires IndicesIn(log, |queue|)
    decreases |log|
  {
    if log == [] then 0
    else Total(queue, log[..|log| - 1], args, cell) + CellGain(queue[log[|log| - 1]], args, cell)
  }

  /** The queue indices `lo, lo + 1, ..., hi - 1`. */
  function Range(lo: int, hi: int): (r: seq<int>)
    ensures |r| == Max0(hi - lo)
    ensures forall k :: 0 <= k < |r| ==> r[k] == lo + k
  {
    if hi <= lo then [] else seq(hi - lo, k => lo + k)
  }

  /** The buffer after every queue index below `n` has been executed exactly once. */
  function Drained(init: seq<int>, queue: seq<Task>, n: int, args: KernelArgs): (r: seq<int>)
    requires Max0(n) <= |queue|
    ensures |r| == |init|
  {
    seq(|init|, j requires 0 <= j < |init| => init[j] + Total(queue, Range(0, Max0(n)), args, j))
  }

  /** The queue entries below `n` that write have pairwise distinct ids. */
  predicate DistinctIds(queue: seq<Task>, n: int)
    requires n <= |queue|
  {
    forall a, b :: 0 <= a < b < n && Writes(queue[a]) && Writes(queue[b]) ==> queue[a].id != queue[b].id
  }

  lemma {:induction false} TotalConcat(queue: seq<Task>, a: seq<int>, b: seq<int>, args: KernelArgs, cell: int)
    requires IndicesIn(a, |queue|) && IndicesIn(b, |queue|)
    ensures IndicesIn(a + b, |queue|)
    ensures Total(queue, a + b, args, cell) == Total(queue, a, args, cell) + Total(queue, b, args, cell)
    decreases |b|
  {
    if b != [] {
      var b' := b[..|b| - 1];
      assert (a + b)[..|a + b| - 1] == a + b';
      TotalConcat(queue, a, b', args, cell);
    } else {
      assert a + b == a;
    }
  }

  /** Executing the same multiset of queue entries in any order adds the same
      amount to every cell: the buffer does not depend on the claim order. */
  lemma {:induction false} TotalPermutation(queue: seq<Task>, a: seq<int>, b: seq<int>, args: KernelArgs, cell: int)
    requires IndicesIn(a, |queue|) && IndicesIn(b, |queue|)
    requires multiset(a) == multiset(b)
    ensures Total(queue, a, args, cell) == Total(queue, b, args, cell)
    decreases |a|
  {
    if a == [] {
      assert |multiset(b)| == 0;
      assert b == [];
    } else {
      var a' := a[..|a| - 1];
      var x := a[|a| - 1];
      assert a == a' + [x];
      assert x in multiset(b);
      var k :| 0 <= k < |b| && b[k] == x;
      var u, v := b[..k], b[k + 1..];
      assert b == u + [x] + v;
      CancelLast(a', x, u, v);
      TotalConcat(queue, u, [x], args, cell);
      TotalConcat(queue, u + [x], v, args, cell);
      TotalConcat(queue, u, v, args, cell);
      TotalPermutation(queue, a', u + v, args, cell);
    }
  }

  lemma CancelLast(a: seq<int>, x: int, u: seq<int>, v: seq<int>)
    requires multiset(a + [x]) == multiset(u + [x] + v)
    ensures multiset(a) == multiset(u + v)
  {
    assert multiset(a + [x]) == multiset(a) + multiset{x};
    assert multiset(u + [x] + v) == multiset(u) + multiset{x} + multiset(v);
    assert multiset(u + v) == multiset(u) + multiset(v);
    forall y
      ensures multiset(a)[y] == multiset(u + v)[y]
    {
      assert multiset(a + [x])[y] == multiset(u + [x] + v)[y];
    }
  }

  lemma MulMonotone(a: int, b: int, c: int)
    requires a <= b && 0 < c
    ensures a * c <= b * c
  {
    assert b * c - a * c == (b - a) * c;
  }

  /** Tasks with different ids have disjoint regions: no two tasks write the same cell. */
  lemma RegionsDisjoint(t1: Task, t2: Task, args: KernelArgs, cell: int)
    requires args.tileSize > 0
    requires t1.id != t2.id
    requires InRegion(t1, args, cell)
    ensures !InRegion(t2, args, cell)
  {
    var d1, d2 := t1.id - args.offset, t2.id - args.offset;
    if d1 < d2 {
      MulMonotone(d1 + 1, d2, args.tileSize);
      assert (d1 + 1) * args.tileSize == d1 * args.tileSize + args.tileSize;
    } else {
      MulMonotone(d2 + 1, d1, args.tileSize);
      assert (d2 + 1) * args.tileSize == d2 * args.tileSize + args.tileSize;
    }
  }

  lemma {:induction false} TotalPrefixAtLane(queue: seq<Task>, m: nat, n: int, i: int, args: KernelArgs, cell: int)
    requires args.tileSize > 0
    requires m <= n <= |queue|
    requires DistinctIds(queue, n)
    requires 0 <= i < n && Writes(queue[i]) && InRegion(queue[i], args, cell)
    ensures Total(queue, Range(0, m), args, cell) == if i < m then LaneGain(queue[i], args) else 0
  {
    if m > 0 {
      assert Range(0, m)[..m - 1] == Range(0, m - 1);
      TotalPrefixAtLane(queue, m - 1, n, i, args, cell);
      var t := queue[m - 1];
      if m - 1 != i && Writes(t) {
        RegionsDisjoint(queue[i], t, args, cell);
      }
    }
  }

  /** With distinct ids, after the drain every lane cell of a writing task holds
      its initial value plus exactly that task's lane gain: it depends only on
      the task's id and op and on the kernel's scalars. */
  lemma DrainedLane(init: seq<int>, queue: seq<Task>, n: int, args: KernelArgs, i: int, lane: int)
    requires args.tileSize > 0
    requires n <= |queue|
    requires DistinctIds(queue, n)
    requires 0 <= i < n && Writes(queue[i])
    requires 0 <= lane < args.tileSize
    requires 0 <= RegionStart(queue[i], args) + lane < |init|
    ensures Drained(init, queue, n, args)[RegionStart(queue[i], args) + lane]
            == init[RegionStart(queue[i], args) + lane] + LaneGain(queue[i], args)
  {
    TotalPrefixAtLane(queue, n, n, i, args, RegionStart(queue[i], args) + lane);
  }

  lemma {:induction false} TotalPrefixOutside(queue: seq<Task>, m: nat, args: KernelArgs, cell: int)
    requires m <= |queue|
    requires forall k :: 0 <= k < m && Writes(queue[k]) ==> !InRegion(queue[k], args, cell)
    ensures Total(queue, Range(0, m), args, cell) == 0
  {
    if m > 0 {
      assert Range(0, m)[..m - 1] == Range(0, m - 1);
      TotalPrefixOutside(queue, m - 1, args, cell);
    }
  }

  /** A cell that lies in no writing task's region keeps its initial value. */
  lemma DrainedUntouched(init: seq<int>, queue: seq<Task>, n: int, args: KernelArgs, cell: int)
    requires Max0(n) <= |queue|
    requires 0 <= cell < |init|
    requires forall k :: 0 <= k < n && Writes(queue[k]) ==> !InRegion(queue[k], args, cell)
    ensures Drained(init, queue, n, args)[cell] == init[cell]
  {
    TotalPrefixOutside(queue, Max0(n), args, cell);
  }

  lemma {:induction false} NoDuplicatesCount(s: seq<int>, x: int)
    requires NoDuplicates(s)
    ensures multiset(s)[x] == if x in s then 1 else 0
    decreases |s|
  {
    if s != [] {
      var s' := s[..|s| - 1];
      assert s == s' + [s[|s| - 1]];
      assert NoDuplicates(s');
      NoDuplicatesCount(s', x);
    }
  }

  /** A duplicate-free log whose entries are exactly the indices below `n` is a
      permutation of `Range(0, n)`: every index executed exactly once. */
  lemma ExactlyOnce(log: seq<int>, n: nat)
    requires NoDuplicates(log)
    requires IndicesIn(log, n)
    requires forall x :: 0 <= x < n ==> x in log
    ensures multiset(log) == multiset(Range(0, n))
  {
    forall x
      ensures multiset(log)[x] == multiset(Range(0, n))[x]
    {
      assert NoDuplicates(Range(0, n));
      NoDuplicatesCount(log, x);
      NoDuplicatesCount(Range(0, n), x);
      if x in log {
        var k :| 0 <= k < |log| && log[k] == x;
      }
      if 0 <= x < n {
        assert Range(0, n)[x] == x;
      }
    }
  }

  /** Four light tasks with ids 0..3 and a group of four lanes: lane cell `l` of
      task `i` ends at `4 + i`. */
  lemma ScenarioLight()
    ensures Drained(seq(16, _ => 0),
                    [Task(0, SignalNotWorkKernel), Task(1, SignalNotWorkKernel),
                     Task(2, SignalNotWorkKernel), Task(3, SignalNotWorkKernel)],
                    4, KernelArgs(4, 1000, 0))
            == [4, 4, 4, 4, 5, 5, 5, 5, 6, 6, 6, 6, 7, 7, 7, 7]
  {
    var queue := [Task(0, SignalNotWorkKernel), Task(1, SignalNotWorkKernel),
                  Task(2, SignalNotWorkKernel), Task(3, SignalNotWorkKernel)];
    var args := KernelArgs(4, 1000, 0);
    var init := seq(16, _ => 0);
    var r := Drained(init, queue, 4, args);
    forall j | 0 <= j < 16
      ensures r[j] == 4 + j / 4
    {
      var i, lane := j / 4, j % 4;
      assert RegionStart(queue[i], args) == 4 * i;
      DrainedLane(init, queue, 4, args, i, lane);
    }
  }

  /** One heavy task (id 0, three iterations) and one light task (id 1) with
      two lanes: region 0 ends at `3 * 2 + 0` and region 1 at `2 + 1`. */
  lemma ScenarioMixed()
    ensures Drained([0, 0, 0, 0], [Task(0, SignalWorkKernel), Task(1, SignalNotWorkKernel)],
                    2, KernelArgs(2, 3, 0))
            == [6, 6, 3, 3]
  {
    var queue := [Task(0, SignalWorkKernel), Task(1, SignalNotWorkKernel)];
    var args := KernelArgs(2, 3, 0);
    var r := Drained([0, 0, 0, 0], queue, 2, args);
    DrainedLane([0, 0, 0, 0], queue, 2, args, 0, 0);
    DrainedLane([0, 0, 0, 0], queue, 2, args, 0, 1);
    DrainedLane([0, 0, 0, 0], queue, 2, args, 1, 0);
    DrainedLane([0, 0, 0, 0], queue, 2, args, 1, 1);
  }

  /** A buffer that holds its initial contents plus the gains of a log that
      lists every index below `n` exactly once is the drained buffer. */
  lemma DrainedFromLog(init: seq<int>, data: seq<int>, taskQueue: seq<Task>, log: seq<int>, n: int, args: KernelArgs)
    requires Max0(n) <= |taskQueue| && |data| == |init|
    requires IndicesIn(log, |taskQueue|)
    requires multiset(log) == multiset(Range(0, Max0(n)))
    requires forall j :: 0 <= j < |data| ==> data[j] == init[j] + Total(taskQueue, log, args, j)
    ensures data == Drained(init, taskQueue, n, args)
  {
    forall j | 0 <= j < |data|
      ensures data[j] == Drained(init, taskQueue, n, args)[j]
    {
      TotalPermutation(taskQueue, log, Range(0, Max0(n)), args, j);
    }
  }
}
