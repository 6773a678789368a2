/** Round robin is fair: a runnable task gets its turn within as many ticks as there are tasks. */
module Fairness {
  import opened FdCounts
  import opened Processes

  datatype World = World(ts: seq<Task>, current: nat)

  /** What may happen while no task is created: a tick, or a system call of the current task. */
  datatype Step = Tick | Call

  ghost predicate Steps(count: nat, w: World, w': World, step: Step)
    requires w.current < count <= |w.ts|
  {
    match step
    case Tick => (w'.ts, w'.current) == Ticked(w.ts, count, w.current)
    case Call => w'.current == w.current && OthersRunOn(w.ts, w'.ts, w.current)
  }

  /** Every other task is runnable if and only if it was. */
  ghost predicate OthersRunOn(ts: seq<Task>, ts': seq<Task>, current: nat)
  {
    |ts'| == |ts| && forall i :: 0 <= i < |ts| && i != current ==> (Runnable(ts'[i]) <==> Runnable(ts[i]))
  }

  ghost predicate IsRun(count: nat, run: seq<World>, steps: seq<Step>)
  {
    && |run| == |steps| + 1
    && (forall i :: 0 <= i < |run| ==> run[i].current < count <= |run[i].ts|)
    && (forall i :: 0 <= i < |steps| ==> Steps(count, run[i], run[i + 1], steps[i]))
  }

  function Ticks(steps: seq<Step>): nat
  {
    if steps == [] then 0 else (if steps[0].Tick? then 1 else 0) + Ticks(steps[1..])
  }

  /** How many places task t is behind the current one. */
  function Distance(count: nat, current: nat, t: nat): (d: nat)
    requires current < count && t < count
    ensures d < count && (d == 0 <==> t == current)
  {
    if t >= current then t - current else t + count - current
  }

  lemma {:induction false} NextWithin(ts: seq<Task>, count: nat, current: nat, i: nat, t: nat) returns (j: nat)
    requires current < count <= |ts| && t < count && Runnable(ts[t]) && 1 <= i <= Distance(count, current, t)
    ensures i <= j <= Distance(count, current, t)
    ensures NextFrom(ts, count, current, i) == (current + j) % count
    decreases count - i
  {
    var d := Distance(count, current, t);
    Wrap(current, d, count);
    if Runnable(ts[(current + i) % count]) {
      j := i;
    } else {
      j := NextWithin(ts, count, current, i + 1, t);
    }
  }

  lemma Wrap(c: nat, j: nat, count: nat)
    requires c < count && j < count
    ensures (c + j) % count == if c + j < count then c + j else c + j - count
  {
    if c + j >= count {
      var r := c + j - count;
      assert r % count == r && (r + count) % count == r;
    }
  }

  /** A tick brings every waiting task closer. */
  lemma TickAdvances(ts: seq<Task>, count: nat, current: nat, t: nat)
    requires current < count <= |ts| && t < count && t != current && Runnable(ts[t])
    ensures var (ts', current') := Ticked(ts, count, current);
      current' < count <= |ts'| && Distance(count, current', t) < Distance(count, current, t) && Runnable(ts'[t])
  {
    hide NextFrom;
    var j := NextWithin(ts, count, current, 1, t);
    Wrap(current, j, count);
  }

  /** Whatever exits and is waited for in between. */
  lemma {:induction false} RunsSoon(count: nat, run: seq<World>, steps: seq<Step>, t: nat) returns (i: nat)
    requires IsRun(count, run, steps) && t < count && Runnable(run[0].ts[t])
    requires Ticks(steps) >= Distance(count, run[0].current, t)
    ensures i < |run| && run[i].current == t
    decreases |steps|
  {
    if run[0].current == t {
      return 0;
    }
    var w, w' := run[0], run[1];
    assert Steps(count, w, w', steps[0]);
    if steps[0].Tick? {
      TickAdvances(w.ts, count, w.current, t);
    }
    RunTail(count, run, steps);
    var k := RunsSoon(count, run[1..], steps[1..], t);
    i := k + 1;
  }

  lemma RunTail(count: nat, run: seq<World>, steps: seq<Step>)
    requires IsRun(count, run, steps) && steps != []
    ensures IsRun(count, run[1..], steps[1..])
  {
    forall i | 0 <= i < |steps[1..]| ensures Steps(count, run[1..][i], run[1..][i + 1], steps[1..][i]) {
      assert Steps(count, run[i + 1], run[i + 2], steps[i + 1]);
    }
  }

  /** Any runnable task becomes current before task_count ticks have passed. */
  lemma FairWithinCount(count: nat, run: seq<World>, steps: seq<Step>, t: nat)
    requires IsRun(count, run, steps) && t < count && Runnable(run[0].ts[t]) && Ticks(steps) + 1 >= count
    ensures exists i :: 0 <= i < |run| && run[i].current == t
  {
    var i := RunsSoon(count, run, steps, t);
  }

  // ----- the steps the kernel takes

  datatype SystemCall = Pipe | Dup2(oldfd: int, newfd: int) | Close(fd: int) | Exit(code: int) | Wait(child: int)

  ghost function WorldOf(k: Kernel): World
    reads k, k.tasks
  {
    World(k.tasks[..], k.current)
  }

  /** sched_tick is such a step ... */
  method TickIsStep(k: Kernel)
    requires k.Valid() && k.ready
    modifies k`current, k.tasks
    ensures k.Valid() && old(k.current) < k.taskCount <= |old(k.tasks[..])|
    ensures Steps(k.taskCount, old(WorldOf(k)), WorldOf(k), Tick)
  {
    k.SchedTick();
  }

  /** ... and so is every system call but fork, a wait even for a child that has exited: reaping it
      makes no task runnable, and none unrunnable. */
  method CallIsStep(k: Kernel, call: SystemCall)
    requires k.Valid() && Runnable(k.tasks[k.current]) && (call.Exit? ==> k.tasks[k.current].forked)
    requires call.Dup2? ==> call.oldfd != call.newfd
    modifies k`history, k.tasks, k.pipes
    ensures k.Valid() && k.current < k.taskCount <= |old(k.tasks[..])|
    ensures Steps(k.taskCount, old(WorldOf(k)), WorldOf(k), Call)
  {
    match call {
      case Pipe =>
        var ok, r, w, id := k.SysPipe();
      case Dup2(oldfd, newfd) =>
        var r := k.SysDup2(oldfd, newfd);
      case Close(fd) =>
        var r := k.SysClose(fd);
      case Exit(code) =>
        k.SysExit(code);
      case Wait(child) =>
        var r := k.SysWaitpid(child);
    }
  }
}
