/** Tasks: pipes and descriptors, fork, exit, waitpid, and the round-robin scheduler. Tasks other than
    the first are created by fork only. */
module Processes {
  import opened FdCounts

  predicate Runnable(t: Task)
  {
    t.state == Ready || t.state == Running
  }

  /** Descriptors only in slots with a live task; no two tasks running; every task but the first is a
      forked child until it is reaped. */
  ghost predicate TasksOk(ts: seq<Task>, count: nat, current: nat)
  {
    && |ts| == MAX_TASKS && current < count <= MAX_TASKS && TableOk(ts)
    && !ts[0].forked && ts[0].state != Zombie
    && (forall i :: 0 <= i < MAX_TASKS ==> SlotOk(ts[i], i, count))
    && (forall i :: 0 <= i < count && ts[i].state == Running ==> i == current)
  }

  predicate SlotOk(t: Task, i: nat, count: nat)
  {
    && (i >= count ==> !t.forked)
    && (i >= count || t.state == Dead || t.state == Zombie ==> NoFds(t.fds))
    && (t.state == Zombie && i < count ==> t.forked)
    && (0 < i < count && !t.forked ==> t.state == Dead)
    && (t.forked ==> t.state != Dead)
  }

  /** The history of children: which child (by order of birth) each slot holds, the codes the exited
      ones left, and which have been waited for. */
  datatype History = History(slots: seq<nat>, born: nat, codes: map<nat, int>, reaped: set<nat>)

  /** A forked slot holds a child that has not been waited for; a zombie shows the code it exited with;
      and every child ever born is in some slot until it has been waited for. */
  ghost predicate HistoryOk(ts: seq<Task>, h: History)
  {
    && |h.slots| == |ts|
    && (forall i :: 0 <= i < |ts| && ts[i].forked ==> ChildAt(ts, h, i))
    && (forall i, j :: 0 <= i < j < |ts| && ts[i].forked && ts[j].forked ==> h.slots[i] != h.slots[j])
    && (forall s: nat :: s < h.born ==> s in h.reaped || InSomeSlot(ts, h, s))
    && (forall s :: s in h.reaped ==> s < h.born)
  }

  ghost predicate ChildAt(ts: seq<Task>, h: History, i: nat)
    requires i < |ts| == |h.slots|
  {
    && h.slots[i] < h.born && h.slots[i] !in h.reaped
    && (ts[i].state == Zombie <==> h.slots[i] in h.codes)
    && (ts[i].state == Zombie ==> h.codes[h.slots[i]] == ts[i].exitCode)
  }

  ghost predicate InSomeSlot(ts: seq<Task>, h: History, s: nat)
    requires |ts| == |h.slots|
  {
    exists i :: 0 <= i < |ts| && ts[i].forked && h.slots[i] == s
  }

  /** Only forks, exits and waits concern the history. */
  lemma HistoryKept(ts: seq<Task>, ts': seq<Task>, h: History)
    requires HistoryOk(ts, h) && |ts'| == |ts|
    requires forall i :: 0 <= i < |ts| ==>
      ts'[i].forked == ts[i].forked && (ts'[i].state == Zombie <==> ts[i].state == Zombie)
        && ts'[i].exitCode == ts[i].exitCode
    ensures HistoryOk(ts', h)
  {
    forall i | 0 <= i < |ts| && ts'[i].forked ensures ChildAt(ts', h, i) {
      assert ChildAt(ts, h, i);
    }
    forall s: nat | s < h.born && s !in h.reaped ensures InSomeSlot(ts', h, s) {
      assert InSomeSlot(ts, h, s);
      var i :| 0 <= i < |ts| && ts[i].forked && h.slots[i] == s;
      assert ts'[i].forked;
    }
  }

  function Born(h: History, id: nat): History
    requires id < |h.slots|
  {
    h.(slots := h.slots[id := h.born], born := h.born + 1)
  }

  lemma HistoryBorn(ts: seq<Task>, ts': seq<Task>, h: History, id: nat, t: Task)
    requires HistoryOk(ts, h) && id < |ts| && !ts[id].forked && h.born !in h.codes
    requires ts' == ts[id := t] && t.forked && t.state == Ready
    ensures HistoryOk(ts', Born(h, id))
  {
    var h' := Born(h, id);
    forall i | 0 <= i < |ts| && ts'[i].forked ensures ChildAt(ts', h', i) && (i != id ==> h'.slots[i] < h.born) {
      if i != id {
        assert ChildAt(ts, h, i);
      }
    }
    forall s: nat | s < h'.born && s !in h'.reaped ensures InSomeSlot(ts', h', s) {
      if s == h.born {
        assert ts'[id].forked && h'.slots[id] == s;
      } else {
        assert InSomeSlot(ts, h, s);
        var i :| 0 <= i < |ts| && ts[i].forked && h.slots[i] == s;
        assert ts'[i].forked && h'.slots[i] == s;
      }
    }
  }

  lemma HistoryExited(ts: seq<Task>, ts': seq<Task>, h: History, id: nat, t: Task)
    requires HistoryOk(ts, h) && id < |ts| && ts[id].forked && ts[id].state != Zombie
    requires ts' == ts[id := t] && t.forked && t.state == Zombie
    ensures HistoryOk(ts', h.(codes := h.codes[h.slots[id] := t.exitCode]))
  {
    var h' := h.(codes := h.codes[h.slots[id] := t.exitCode]);
    forall i | 0 <= i < |ts| && ts'[i].forked ensures ChildAt(ts', h', i) {
      assert ChildAt(ts, h, i);
    }
    forall s: nat | s < h.born && s !in h.reaped ensures InSomeSlot(ts', h', s) {
      assert InSomeSlot(ts, h, s);
      var i :| 0 <= i < |ts| && ts[i].forked && h.slots[i] == s;
      assert ts'[i].forked;
    }
  }

  lemma HistoryReaped(ts: seq<Task>, ts': seq<Task>, h: History, id: nat, t: Task)
    requires HistoryOk(ts, h) && id < |ts| && ts[id].forked
    requires ts' == ts[id := t] && !t.forked
    ensures HistoryOk(ts', h.(reaped := h.reaped + {h.slots[id]}))
  {
    var h' := h.(reaped := h.reaped + {h.slots[id]});
    forall i | 0 <= i < |ts| && ts'[i].forked ensures ChildAt(ts', h', i) {
      assert ChildAt(ts, h, i);
    }
    forall s: nat | s < h.born && s !in h'.reaped ensures InSomeSlot(ts', h', s) {
      assert InSomeSlot(ts, h, s);
      var i :| 0 <= i < |ts| && ts[i].forked && h.slots[i] == s;
      assert ts'[i].forked;
    }
    assert ChildAt(ts, h, id);
  }

  lemma EntryOf(ts: seq<Task>, i: nat, fd: nat)
    requires TableOk(ts) && i < |ts| && fd < MAX_FDS
    ensures |ts[i].fds| == MAX_FDS && FdOk(ts[i].fds[fd])
  {
  }

  lemma WithFdOk(ts: seq<Task>, i: nat, fd: nat, f: Fd)
    requires TableOk(ts) && i < |ts| && fd < MAX_FDS && FdOk(f)
    ensures |ts[i].fds| == MAX_FDS && TableOk(WithFd(ts, i, fd, f))
  {
  }

  lemma WithFdTasks(ts: seq<Task>, count: nat, current: nat, fd: nat, f: Fd)
    requires TasksOk(ts, count, current) && fd < MAX_FDS && FdOk(f) && Runnable(ts[current])
    ensures |ts[current].fds| == MAX_FDS && TasksOk(WithFd(ts, current, fd, f), count, current)
  {
    WithFdOk(ts, current, fd, f);
    var ts' := WithFd(ts, current, fd, f);
    forall i | 0 <= i < MAX_TASKS ensures SlotOk(ts'[i], i, count) {
      assert SlotOk(ts[i], i, count);
    }
  }

  /** A descriptor in the table keeps its pipe marked used. */
  lemma EntryUsed(pipes: seq<Pipe>, ts: seq<Task>, i: nat, fd: nat)
    requires CountsOk(pipes, ts) && UsedOk(pipes) && |pipes| == MAX_PIPES && i < |ts| && fd < |ts[i].fds|
      && FdOk(ts[i].fds[fd])
    ensures ts[i].fds[fd].ReadEnd? || ts[i].fds[fd].WriteEnd? ==> pipes[PipeOf(ts[i].fds[fd])].used
  {
    var f := ts[i].fds[fd];
    if f.ReadEnd? || f.WriteEnd? {
      assert f in ts[i].fds;
      assert Named(ts, f);
      UsedIsHeld(pipes, ts, PipeOf(f));
    }
  }

  /** The descriptor is the last one for its pipe. */
  ghost predicate LastEntry(ts: seq<Task>, f: Fd)
  {
    (f.ReadEnd? || f.WriteEnd?) && CountAll(ts, ReadEnd(PipeOf(f))) + CountAll(ts, WriteEnd(PipeOf(f))) == 1
  }

  /** The pipe table after closing the end f and opening the end g once more. */
  ghost predicate EndsMoved(ps: seq<Pipe>, ps': seq<Pipe>, f: Fd, g: Fd)
  {
    |ps| == MAX_PIPES && FdOk(f) && FdOk(g) && ps' == WithOpened(WithClosed(ps, f), g)
  }

  datatype Wait = BadPid | Waiting | Reaped(code: int)

  /** A pipe handed out and given back at once leaves the table as it was. */
  lemma UndoPipe(ps: seq<Pipe>, ts: seq<Task>, id: nat)
    requires |ps| == MAX_PIPES && id < MAX_PIPES && CountsOk(ps, ts) && UsedOk(ps) && !ps[id].used
    ensures WithClosed(WithClosed(ps[id := Pipe(1, 1, true)], ReadEnd(id)), WriteEnd(id)) == ps
  {
    assert CountsAt(ps, ts, id) && UsedAt(ps[id]);
  }

  lemma CodeSet(ts: seq<Task>, count: nat, i: nat, code: int)
    requires TasksOk(ts, count, i)
    ensures TasksOk(ts[i := ts[i].(exitCode := code)], count, i)
  {
    var ts' := ts[i := ts[i].(exitCode := code)];
    forall k | 0 <= k < MAX_TASKS ensures SlotOk(ts'[k], k, count) {
      assert SlotOk(ts[k], k, count);
    }
  }

  lemma BecameZombie(ts: seq<Task>, count: nat, i: nat)
    requires TasksOk(ts, count, i) && ts[i].forked && NoFds(ts[i].fds)
    ensures TasksOk(ts[i := ts[i].(state := Zombie)], count, i)
  {
    var ts' := ts[i := ts[i].(state := Zombie)];
    forall k | 0 <= k < MAX_TASKS ensures SlotOk(ts'[k], k, count) {
      assert SlotOk(ts[k], k, count);
    }
  }

  lemma BecameDead(ts: seq<Task>, count: nat, current: nat, i: nat)
    requires TasksOk(ts, count, current) && 0 < i < count && ts[i].forked && ts[i].state == Zombie
    ensures TasksOk(ts[i := ts[i].(forked := false, state := Dead)], count, current)
  {
    var ts' := ts[i := ts[i].(forked := false, state := Dead)];
    forall k | 0 <= k < MAX_TASKS ensures SlotOk(ts'[k], k, count) {
      assert SlotOk(ts[k], k, count);
    }
  }

  lemma HistoryChild(ts: seq<Task>, h: History, i: nat)
    requires HistoryOk(ts, h) && i < |ts| && ts[i].forked
    ensures |h.slots| == |ts| && h.slots[i] < h.born
    ensures ts[i].state == Zombie ==> h.slots[i] in h.codes && h.codes[h.slots[i]] == ts[i].exitCode
  {
    assert ChildAt(ts, h, i);
  }

  /** A slot whose child has been waited for. */
  predicate Free(t: Task)
  {
    t.state == Dead && !t.forked
  }

  lemma FreeSlot(ts: seq<Task>, count: nat, current: nat, id: nat)
    requires TasksOk(ts, count, current) && Runnable(ts[current]) && id < MAX_TASKS
    requires if id < count then Free(ts[id]) else id == count
    ensures NoFds(ts[id].fds) && !ts[id].forked && id != current
    ensures TableOk(ts[id := Task(Ready, 0, current, true, ts[id].fds)])
  {
    assert SlotOk(ts[id], id, count);
  }

  lemma ForkedOk(ts: seq<Task>, count: nat, current: nat, id: nat)
    requires TasksOk(ts, count, current) && 0 < id < MAX_TASKS && id != current
    requires if id < count then Free(ts[id]) else id == count
    ensures TasksOk(ts[id := Task(Ready, 0, current, true, ts[current].fds)], if id == count then count + 1
      else count, current)
  {
    var ts', count' := ts[id := Task(Ready, 0, current, true, ts[current].fds)], if id == count then count + 1
      else count;
    forall k | 0 <= k < MAX_TASKS ensures SlotOk(ts'[k], k, count') {
      assert SlotOk(ts[k], k, count);
    }
  }

  /** Without pipe descriptors all counts are 0. */
  lemma NoEnds(ts: seq<Task>)
    requires forall i, p: nat :: 0 <= i < |ts| ==> ReadEnd(p) !in ts[i].fds && WriteEnd(p) !in ts[i].fds
    ensures forall p: nat :: CountAll(ts, ReadEnd(p)) == 0 && CountAll(ts, WriteEnd(p)) == 0
  {
    forall p: nat ensures CountAll(ts, ReadEnd(p)) == 0 && CountAll(ts, WriteEnd(p)) == 0 {
      CountAllNamed(ts, ReadEnd(p));
      CountAllNamed(ts, WriteEnd(p));
    }
  }

  lemma HistorySize(ts: seq<Task>, h: History)
    requires HistoryOk(ts, h)
    ensures |h.slots| == |ts|
  {
  }

  // ----- the scheduler

  /** The first runnable task from i places behind the current one, itself last. */
  function NextFrom(ts: seq<Task>, count: nat, current: nat, i: nat): (next: nat)
    requires current < count <= |ts|
    ensures next < count
    decreases count + 1 - i
  {
    if i > count then current
    else if Runnable(ts[(current + i) % count]) then (current + i) % count
    else NextFrom(ts, count, current, i + 1)
  }

  lemma {:induction false} NextRunnable(ts: seq<Task>, count: nat, current: nat, i: nat)
    requires current < count <= |ts|
    ensures var next := NextFrom(ts, count, current, i); next != current ==> Runnable(ts[next])
    decreases count + 1 - i
  {
    if i <= count && !Runnable(ts[(current + i) % count]) {
      NextRunnable(ts, count, current, i + 1);
    }
  }

  /** The tasks and the current one after a tick. */
  function Ticked(ts: seq<Task>, count: nat, current: nat): (seq<Task>, nat)
    requires current < count <= |ts|
  {
    var next := NextFrom(ts, count, current, 1);
    if next == current then (ts, current)
    else
      var ts1 := if ts[current].state == Running then ts[current := ts[current].(state := Ready)] else ts;
      (ts1[next := ts1[next].(state := Running)], next)
  }

  /** A tick makes the next task RUNNING, if there is another that can run, and the one that ran READY; it
      changes nothing else. */
  lemma Switches(ts: seq<Task>, count: nat, current: nat)
    requires current < count <= |ts|
    ensures var ts', next := Ticked(ts, count, current).0, Ticked(ts, count, current).1;
      && next < count && |ts'| == |ts| && (next == current ==> ts' == ts)
      && (next != current ==>
            && ts[next].state in {Ready, Running} && ts'[next] == ts[next].(state := Running)
            && ts'[current] == ts[current].(state := if ts[current].state == Running then Ready else ts[current].state)
            && forall k :: 0 <= k < |ts| && k != next && k != current ==> ts'[k] == ts[k])
  {
    NextRunnable(ts, count, current, 1);
  }

  /** The task k places behind the current one, in the round of `count`. */
  function Behind(count: nat, current: nat, k: nat): nat
    requires count > 0
  {
    (current + k) % count
  }

  /** When the task k places behind can run, the next one is it or one before it. */
  lemma {:induction false} FirstBehind(ts: seq<Task>, count: nat, current: nat, i: nat, k: nat) returns (d: nat)
    requires current < count <= |ts| && i <= k <= count && ts[Behind(count, current, k)].state in {Ready, Running}
    ensures i <= d <= k && NextFrom(ts, count, current, i) == Behind(count, current, d)
    decreases k - i
  {
    if Runnable(ts[(current + i) % count]) {
      d := i;
    } else {
      d := FirstBehind(ts, count, current, i + 1, k);
    }
  }

  /** So after a tick the current task is the first behind the old one that could run. */
  lemma TickedIsFirst(ts: seq<Task>, count: nat, current: nat, k: nat) returns (d: nat)
    requires current < count <= |ts| && 1 <= k <= count && ts[Behind(count, current, k)].state in {Ready, Running}
    ensures 1 <= d <= k && Ticked(ts, count, current).1 == Behind(count, current, d)
  {
    d := FirstBehind(ts, count, current, 1, k);
  }

  lemma TickedOk(ts: seq<Task>, count: nat, current: nat)
    requires TasksOk(ts, count, current)
    ensures TasksOk(Ticked(ts, count, current).0, count, Ticked(ts, count, current).1)
  {
    NextRunnable(ts, count, current, 1);
    var ts' := Ticked(ts, count, current).0;
    forall k | 0 <= k < MAX_TASKS ensures SlotOk(ts'[k], k, count) {
      assert SlotOk(ts[k], k, count);
    }
  }

  lemma TickedCounts(ts: seq<Task>, count: nat, current: nat, pipes: seq<Pipe>)
    requires current < count <= |ts| && CountsOk(pipes, ts)
    ensures CountsOk(pipes, Ticked(ts, count, current).0)
  {
    hide CountsOk;
    var next := NextFrom(ts, count, current, 1);
    if next != current {
      var t := ts[current].(state := if ts[current].state == Running then Ready else ts[current].state);
      var ts1 := if ts[current].state == Running then ts[current := ts[current].(state := Ready)] else ts;
      assert ts1 == ts[current := t];
      SameFdsSameCounts(pipes, ts, current, t);
      SameFdsSameCounts(pipes, ts1, next, ts1[next].(state := Running));
    }
  }

  class Kernel {
    const tasks: array<Task>
    const pipes: array<Pipe>        // g_pipes, without the ring buffers
    var taskCount: nat
    var current: nat                // current_task
    var ready: bool                 // sched_ready
    ghost var history: History

    /** Everything but the marking of pipe slots. */
    ghost predicate Coherent()
      reads this, tasks, pipes
    {
      && tasks.Length == MAX_TASKS && pipes.Length == MAX_PIPES
      && TasksOk(tasks[..], taskCount, current)
      && CountsOk(pipes[..], tasks[..])
      && HistoryOk(tasks[..], history) && (forall s :: s in history.codes ==> s < history.born)
    }

    ghost predicate Valid()
      reads this, tasks, pipes
    {
      Coherent() && UsedOk(pipes[..])
    }

    /** sched_init and pipe_init: the shell runs, with keyboard and screen; no pipe exists. */
    constructor ()
      ensures Valid() && taskCount == 1 && current == 0 && ready && fresh(tasks) && fresh(pipes)
      ensures history == History(seq(MAX_TASKS, _ => 0), 0, map[], {})
      ensures tasks[0].state == Running && |tasks[0].fds| == MAX_FDS && !pipes[0].used
      ensures forall fd :: 3 <= fd < MAX_FDS ==> tasks[0].fds[fd] == NoFd
    {
      var none := seq(MAX_FDS, _ => NoFd);
      var idle := Task(Ready, 0, 0, false, none);
      var ts := new Task[MAX_TASKS](_ => idle);
      var ps := new Pipe[MAX_PIPES](_ => Pipe(0, 0, false));
      ts[0] := Task(Running, 0, 0, false, none[0 := StdIn][1 := StdOut][2 := StdOut]);
      tasks, pipes := ts, ps;
      taskCount, current, ready := 1, 0, true;
      history := History(seq(MAX_TASKS, _ => 0), 0, map[], {});
      new;
      NoEnds(tasks[..]);
    }

    /** pipe_alloc, without the ring indices: the first slot not in use, which no descriptor names. */
    method PipeAlloc() returns (id: int)
      requires Valid()
      modifies pipes
      ensures id == -1 <==> forall p: nat :: p < 32 ==> old(pipes[..])[p].used
      ensures id == -1 ==> pipes[..] == old(pipes[..])
      ensures id != -1 ==>
        && 0 <= id < 32 && !old(pipes[..])[id].used
        && !Named(tasks[..], ReadEnd(id)) && !Named(tasks[..], WriteEnd(id))
        && (forall p: nat :: p < id ==> old(pipes[..])[p].used)
        && pipes[..] == old(pipes[..])[id := Pipe(1, 1, true)]
    {
      var i := 0;
      while i < MAX_PIPES
        invariant 0 <= i <= MAX_PIPES && pipes[..] == old(pipes[..])
        invariant forall p: nat :: p < i ==> pipes[..][p].used
      {
        if !pipes[i].used {
          UsedIsHeld(pipes[..], tasks[..], i);
          pipes[i] := Pipe(1, 1, true);
          return i;
        }
        assert pipes[..][i].used;
        i := i + 1;
      }
      return -1;
    }

    /** pipe_ref_read or pipe_ref_write, as the descriptor's type says. */
    method RefEnd(f: Fd)
      requires pipes.Length == MAX_PIPES && FdOk(f)
      modifies pipes
      ensures pipes[..] == WithOpened(old(pipes[..]), f)
    {
      match f {
        case ReadEnd(p) => pipes[p] := pipes[p].(readOpen := pipes[p].readOpen + 1);
        case WriteEnd(p) => pipes[p] := pipes[p].(writeOpen := pipes[p].writeOpen + 1);
        case _ =>
      }
    }

    /** pipe_close_read or pipe_close_write. */
    method CloseEnd(f: Fd)
      requires pipes.Length == MAX_PIPES && FdOk(f)
      modifies pipes
      ensures pipes[..] == WithClosed(old(pipes[..]), f)
    {
      match f {
        case ReadEnd(p) =>
          pipes[p] := pipes[p].(readOpen := pipes[p].readOpen - 1);
          if pipes[p].readOpen <= 0 && pipes[p].writeOpen <= 0 {
            pipes[p] := pipes[p].(used := false);
          }
        case WriteEnd(p) =>
          pipes[p] := pipes[p].(writeOpen := pipes[p].writeOpen - 1);
          if pipes[p].writeOpen <= 0 && pipes[p].readOpen <= 0 {
            pipes[p] := pipes[p].(used := false);
          }
        case _ =>
      }
    }

    /** SYS_CLOSE. */
    method SysClose(fd: int) returns (r: int)
      requires Valid() && Runnable(tasks[current])
      modifies tasks, pipes
      ensures Valid()
      ensures if 0 <= fd < MAX_FDS then
                && r == 0 && |old(tasks[..])[current].fds| == MAX_FDS
                && tasks[..] == WithFd(old(tasks[..]), current, fd, NoFd)
              else r == -1 && tasks[..] == old(tasks[..]) && pipes[..] == old(pipes[..])
    {
      hide TableOk, CountsOk, UsedOk, HistoryOk, WithClosed, SlotOk;
      if fd < 0 || fd >= MAX_FDS {
        return -1;
      }
      ghost var ts, ps := tasks[..], pipes[..];
      EntryOf(ts, current, fd);
      WithFdTasks(ts, taskCount, current, fd, NoFd);
      CloseEnd(tasks[current].fds[fd]);
      DropKeeps(ps, ts, current, fd);
      tasks[current] := tasks[current].(fds := tasks[current].fds[fd := NoFd]);
      HistoryKept(ts, tasks[..], history);
      assert tasks[..] == WithFd(ts, current, fd, NoFd);
      r := 0;
    }

    /** SYS_DUP2. The counts always come out right. A pipe slot is wrongly marked free exactly when a
        descriptor is copied onto itself and is the last one for its pipe. */
    method SysDup2(oldfd: int, newfd: int) returns (r: int)
      requires Valid() && Runnable(tasks[current])
      modifies tasks, pipes
      ensures Coherent()
      ensures
        var inRange := 0 <= oldfd < MAX_FDS && 0 <= newfd < MAX_FDS;
        && r == (if inRange then newfd else -1)
        && |old(tasks[..])[current].fds| == MAX_FDS
        && tasks[..] == (if inRange then WithFd(old(tasks[..]), current, newfd, old(tasks[..])[current].fds[oldfd])
          else old(tasks[..]))
        && (!inRange ==> pipes[..] == old(pipes[..]))
        && (inRange ==>
              EndsMoved(old(pipes[..]), pipes[..], old(tasks[..])[current].fds[newfd],
                        old(tasks[..])[current].fds[oldfd]))
        && (UsedOk(pipes[..]) <==>
          !(inRange && oldfd == newfd && LastEntry(old(tasks[..]), old(tasks[..])[current].fds[oldfd])))
    {
      hide TableOk, CountsOk, UsedOk, HistoryOk, WithClosed, WithOpened, SlotOk, LastEntry;
      EntryOf(tasks[..], current, 0);
      if oldfd < 0 || oldfd >= MAX_FDS || newfd < 0 || newfd >= MAX_FDS {
        return -1;
      }
      ghost var ts, ps := tasks[..], pipes[..];
      ghost var f := ts[current].fds[oldfd];
      EntryOf(ts, current, newfd);
      EntryOf(ts, current, oldfd);
      WithFdTasks(ts, taskCount, current, newfd, f);
      CloseEnd(tasks[current].fds[newfd]);
      tasks[current] := tasks[current].(fds := tasks[current].fds[newfd := tasks[current].fds[oldfd]]);
      RefEnd(tasks[current].fds[newfd]);
      HistoryKept(ts, tasks[..], history);
      assert tasks[..] == WithFd(ts, current, newfd, f);
      Dup2Keeps(ps, ts, current, oldfd, newfd);
      r := newfd;
    }

    /** SYS_PIPE: two new descriptors, from 3 up, for a pipe that none named; or nothing changes. */
    method SysPipe() returns (ok: bool, rfd: nat, wfd: nat, ghost id: nat)
      requires Valid() && Runnable(tasks[current])
      modifies tasks, pipes
      ensures Valid()
      ensures |old(tasks[..])[current].fds| == 16
      ensures ok <==>
        && (exists p: nat :: p < 32 && !old(pipes[..])[p].used)
        && (exists a: nat, b: nat ::
          3 <= a < b < 16 && old(tasks[..])[current].fds[a] == NoFd && old(tasks[..])[current].fds[b] == NoFd)
      ensures !ok ==> tasks[..] == old(tasks[..]) && pipes[..] == old(pipes[..])
      ensures ok ==>
        && 3 <= rfd < wfd < 16 && old(tasks[..])[current].fds[rfd] == NoFd
        && old(tasks[..])[current].fds[wfd] == NoFd
        && (forall k :: 3 <= k < wfd && k != rfd ==> old(tasks[..])[current].fds[k] != NoFd)
        && id < 32 && !Named(old(tasks[..]), ReadEnd(id)) && !Named(old(tasks[..]), WriteEnd(id))
        && tasks[..] == WithFd(WithFd(old(tasks[..]), current, rfd, ReadEnd(id)), current, wfd, WriteEnd(id))
        && pipes[..] == old(pipes[..])[id := Pipe(1, 1, true)]
    {
      hide TableOk, CountsOk, HistoryOk, WithClosed, SlotOk, Named;
      ghost var ts, ps := tasks[..], pipes[..];
      EntryOf(ts, current, 0);
      rfd, wfd, id := 0, 0, 0;
      var pipe := PipeAlloc();
      if pipe < 0 {
        return false, 0, 0, 0;
      }
      id := pipe;
      UsedIsHeld(ps, ts, id);
      var r, w, i := -1, -1, 3;
      while i < MAX_FDS && w < 0
        invariant 3 <= i <= MAX_FDS && tasks[..] == ts && pipes[..] == ps[id := Pipe(1, 1, true)]
        invariant r < 0 ==> r == -1 && w == -1 && forall k :: 3 <= k < i ==> ts[current].fds[k] != NoFd
        invariant r >= 0 ==> 3 <= r < i && ts[current].fds[r] == NoFd
        invariant r >= 0 && w < 0 ==> w == -1 && forall k :: 3 <= k < i && k != r ==> ts[current].fds[k] != NoFd
        invariant w >= 0 ==>
          r >= 0 && w == i - 1 && r < w && ts[current].fds[w] == NoFd && forall k :: 3 <= k < w && k != r ==>
            ts[current].fds[k] != NoFd
      {
        if tasks[current].fds[i] == NoFd {
          if r < 0 {
            r := i;
          } else {
            w := i;
          }
        }
        i := i + 1;
      }
      if r < 0 || w < 0 {
        CloseEnd(ReadEnd(pipe));
        CloseEnd(WriteEnd(pipe));
        UndoPipe(ps, ts, id);
        return false, 0, 0, id;
      }
      rfd, wfd := r, w;
      WithFdTasks(ts, taskCount, current, rfd, ReadEnd(id));
      tasks[current] := tasks[current].(fds := tasks[current].fds[rfd := ReadEnd(pipe)]);
      assert tasks[..] == WithFd(ts, current, rfd, ReadEnd(id));
      WithFdTasks(tasks[..], taskCount, current, wfd, WriteEnd(id));
      tasks[current] := tasks[current].(fds := tasks[current].fds[wfd := WriteEnd(pipe)]);
      assert tasks[..] == WithFd(WithFd(ts, current, rfd, ReadEnd(id)), current, wfd, WriteEnd(id));
      NewPipeCounts(ps, ts, id, current, rfd, wfd);
      HistoryKept(ts, tasks[..], history);
      ok := true;
    }

    /** SYS_EXIT of a forked child: its descriptors are closed, and it waits as a zombie with its code. */
    method SysExit(code: int)
      requires Valid() && Runnable(tasks[current]) && tasks[current].forked
      modifies this`history, tasks, pipes
      ensures Valid() && current == old(current)
      ensures tasks[current].state == Zombie && tasks[current].exitCode == code && NoFds(tasks[current].fds)
      ensures tasks[current].parent == old(tasks[current].parent) && tasks[current].forked
      ensures forall i :: 0 <= i < MAX_TASKS && i != current ==> tasks[i] == old(tasks[i])
      ensures current < |old(history).slots|
      ensures history == old(history).(codes := old(history).codes[old(history).slots[current] := code])
    {
      hide TableOk, CountsOk, UsedOk, HistoryOk, WithClosed, SlotOk, ChildAt;
      tasks[current] := tasks[current].(exitCode := code);
      ghost var ts, ps := old(tasks[..]), old(pipes[..]);
      SameFdsSameCounts(ps, ts, current, tasks[current]);
      assert tasks[..] == ts[current := tasks[current]];
      CodeSet(ts, taskCount, current, code);
      EntryOf(ts, current, 0);
      var i := 0;
      while i < MAX_FDS
        invariant 0 <= i <= MAX_FDS && history == old(history) && tasks.Length == MAX_TASKS
        invariant forall k :: 0 <= k < MAX_TASKS && k != current ==> tasks[k] == old(tasks[k])
        invariant TasksOk(tasks[..], taskCount, current) && pipes.Length == MAX_PIPES
        invariant CountsOk(pipes[..], tasks[..]) && UsedOk(pipes[..])
        invariant tasks[current] == ts[current].(exitCode := code, fds := tasks[current].fds)
        invariant |tasks[current].fds| == MAX_FDS && forall k :: 0 <= k < i ==> tasks[current].fds[k] == NoFd
      {
        ghost var ts1, ps1 := tasks[..], pipes[..];
        EntryOf(ts1, current, i);
        WithFdTasks(ts1, taskCount, current, i, NoFd);
        CloseEnd(tasks[current].fds[i]);
        DropKeeps(ps1, ts1, current, i);
        tasks[current] := tasks[current].(fds := tasks[current].fds[i := NoFd]);
        assert tasks[..] == WithFd(ts1, current, i, NoFd);
        i := i + 1;
      }
      ghost var ts2 := tasks[..];
      tasks[current] := tasks[current].(state := Zombie);
      assert tasks[..] == ts2[current := tasks[current]];
      BecameZombie(ts2, taskCount, current);
      SameFdsSameCounts(pipes[..], ts2, current, tasks[current]);
      assert tasks[..] == ts[current := tasks[current]];
      HistoryChild(ts, history, current);
      HistoryExited(ts, tasks[..], history, current, tasks[current]);
      history := history.(codes := history.codes[history.slots[current] := code]);
    }

    /** SYS_WAITPID, once more round its loop: a child that has exited is reaped, and its code is the one
        it exited with. */
    method SysWaitpid(child: int) returns (r: Wait)
      requires Valid()
      modifies this`history, tasks
      ensures Valid()
      ensures r.BadPid? <==> child < 1 || child >= taskCount || !old(tasks[..])[child].forked
      ensures !r.Reaped? ==> tasks[..] == old(tasks[..]) && history == old(history)
      ensures r.Reaped? <==>
        && 1 <= child < taskCount && old(tasks[..])[child].forked
        && old(tasks[..])[child].state == Zombie
      ensures r.Reaped? ==>
        && child < |old(history).slots| && old(history).slots[child] in old(history).codes
        && r.code == old(history).codes[old(history).slots[child]]
        && tasks[..] == old(tasks[..])[child := old(tasks[..])[child].(forked := false, state := Dead)]
        && history == old(history).(reaped := old(history).reaped + {old(history).slots[child]})
    {
      hide TableOk, CountsOk, HistoryOk, SlotOk, ChildAt;
      if child < 1 || child >= taskCount || !tasks[child].forked {
        return BadPid;
      }
      if tasks[child].state != Zombie {
        return Waiting;
      }
      ghost var ts := tasks[..];
      HistoryChild(ts, history, child);
      r := Reaped(tasks[child].exitCode);
      tasks[child] := tasks[child].(forked := false, state := Dead);
      assert tasks[..] == ts[child := tasks[child]];
      BecameDead(ts, taskCount, current, child);
      SameFdsSameCounts(pipes[..], ts, child, tasks[child]);
      HistoryReaped(ts, tasks[..], history, child, tasks[child]);
      history := history.(reaped := history.reaped + {history.slots[child]});
    }

    /** sched_fork, with the address space cloned or not: the child takes the first slot whose exit code
        has been collected, or a new one, and inherits every descriptor. */
    method SchedFork(cloned: bool) returns (id: int)
      requires Valid() && Runnable(tasks[current])
      modifies this`history, this`taskCount, tasks, pipes
      ensures Valid()
      ensures id == -1 <==>
        || !cloned
        || (old(taskCount) == 32 && forall i :: 1 <= i < 32 ==> !Free(old(tasks[..])[i]))
      ensures id == -1 ==>
        && tasks[..] == old(tasks[..]) && pipes[..] == old(pipes[..]) && history == old(history)
        && taskCount == old(taskCount)
      ensures id != -1 ==>
        && 1 <= id <= old(taskCount) && id < 32 && !old(tasks[..])[id].forked
        && (forall i :: 1 <= i < id && i < old(taskCount) ==> !Free(old(tasks[..])[i]))
        && taskCount == (if id == old(taskCount) then id + 1 else old(taskCount))
        && tasks[..] == old(tasks[..])[id := Task(Ready, 0, current, true, old(tasks[..])[current].fds)]
        && id < |old(history).slots| && history == Born(old(history), id)
    {
      hide TableOk, CountsOk, UsedOk, HistoryOk, WithOpened, SlotOk, ChildAt;
      ghost var ts := tasks[..];
      id := -1;
      var i := 1;
      while i < taskCount && id < 0
        invariant 1 <= i && tasks[..] == ts
        invariant id < 0 ==> id == -1 && i <= taskCount && forall k :: 1 <= k < i ==> !Free(ts[k])
        invariant id >= 0 ==> 1 <= id < taskCount && Free(ts[id]) && forall k :: 1 <= k < id ==> !Free(ts[k])
      {
        if tasks[i].state == Dead && !tasks[i].forked {
          id := i;
        }
        i := i + 1;
      }
      if id < 0 {
        if taskCount >= MAX_TASKS {
          return -1;
        }
        id := taskCount;
      }
      if !cloned {
        return -1;
      }
      FreeSlot(ts, taskCount, current, id);
      tasks[id] := Task(Ready, 0, current, true, tasks[id].fds);
      assert tasks[..] == ts[id := tasks[id]];
      SameFdsSameCounts(pipes[..], ts, id, tasks[id]);
      InheritFds(id);
      if id == taskCount {
        taskCount := taskCount + 1;
      }
      assert tasks[..] == ts[id := tasks[id]];
      ForkedOk(ts, old(taskCount), current, id);
      HistorySize(ts, history);
      HistoryBorn(ts, tasks[..], history, id, tasks[id]);
      history := Born(history, id);
    }

    /** The loop of sched_fork that copies the parent's descriptors and counts the inherited ends. */
    method InheritFds(id: nat)
      requires tasks.Length == MAX_TASKS && pipes.Length == MAX_PIPES && id < MAX_TASKS && current < MAX_TASKS
        && id != current
      requires TableOk(tasks[..]) && CountsOk(pipes[..], tasks[..]) && UsedOk(pipes[..]) && NoFds(tasks[id].fds)
      modifies tasks, pipes
      ensures CountsOk(pipes[..], tasks[..]) && UsedOk(pipes[..])
      ensures forall k :: 0 <= k < MAX_TASKS && k != id ==> tasks[k] == old(tasks[k])
      ensures tasks[id] == old(tasks[id]).(fds := tasks[current].fds)
    {
      hide TableOk, CountsOk, UsedOk, WithOpened;
      EntryOf(tasks[..], current, 0);
      var i := 0;
      while i < MAX_FDS
        invariant 0 <= i <= MAX_FDS && |tasks[id].fds| == MAX_FDS == |tasks[current].fds|
        invariant TableOk(tasks[..]) && CountsOk(pipes[..], tasks[..]) && UsedOk(pipes[..])
        invariant forall k :: 0 <= k < MAX_TASKS && k != id ==> tasks[k] == old(tasks[k])
        invariant tasks[id] == old(tasks[id]).(fds := tasks[id].fds)
        invariant forall k :: 0 <= k < i ==> tasks[id].fds[k] == tasks[current].fds[k]
        invariant forall k :: i <= k < MAX_FDS ==> tasks[id].fds[k] == NoFd
      {
        ghost var ts, ps := tasks[..], pipes[..];
        var f := tasks[current].fds[i];
        EntryOf(ts, current, i);
        EntryUsed(ps, ts, current, i);
        WithFdOk(ts, id, i, f);
        tasks[id] := tasks[id].(fds := tasks[id].fds[i := f]);
        RefEnd(f);
        CopyKeeps(ps, ts, id, i, f);
        assert tasks[..] == WithFd(ts, id, i, f);
        i := i + 1;
      }
      assert tasks[id].fds == tasks[current].fds;
    }

    /** sched_tick: the next runnable task after the current one runs. */
    method SchedTick()
      requires Valid()
      modifies this`current, tasks
      ensures Valid()
      ensures if ready then
                (tasks[..], current) == Ticked(old(tasks[..]), taskCount, old(current))
              else tasks[..] == old(tasks[..]) && current == old(current)
    {
      hide TableOk, CountsOk, HistoryOk, SlotOk;
      if !ready {
        return;
      }
      ghost var ts := tasks[..];
      var next, i, found := current, 1, false;
      while i <= taskCount && !found
        invariant 1 <= i && tasks[..] == ts && next < taskCount
        invariant if found then next == NextFrom(ts, taskCount, current, 1)
                  else
                    && next == current && i <= taskCount + 1
                    && NextFrom(ts, taskCount, current, 1) == NextFrom(ts, taskCount, current, i)
      {
        var c := (current + i) % taskCount;
        if tasks[c].state == Ready || tasks[c].state == Running {
          next := c;
          found := true;
        }
        i := i + 1;
      }
      if next == current {
        return;
      }
      NextRunnable(ts, taskCount, current, 1);
      if tasks[current].state == Running {
        tasks[current] := tasks[current].(state := Ready);
      }
      tasks[next] := tasks[next].(state := Running);
      assert tasks[..] == Ticked(ts, taskCount, current).0;
      TickedOk(ts, taskCount, current);
      TickedCounts(ts, taskCount, current, pipes[..]);
      HistoryKept(ts, tasks[..], history);
      current := next;
    }
  }

  lemma Dup2Keeps(pipes: seq<Pipe>, ts: seq<Task>, i: nat, oldfd: nat, newfd: nat)
    requires |pipes| == MAX_PIPES && TableOk(ts) && i < |ts| && oldfd < MAX_FDS && newfd < MAX_FDS
    requires |ts[i].fds| == MAX_FDS && FdOk(ts[i].fds[oldfd]) && FdOk(ts[i].fds[newfd])
    requires CountsOk(pipes, ts) && UsedOk(pipes)
    ensures |WithClosed(pipes, ts[i].fds[newfd])| == MAX_PIPES
    ensures var f := ts[i].fds[oldfd]; var pipes' := WithOpened(WithClosed(pipes, ts[i].fds[newfd]), f);
      && CountsOk(pipes', WithFd(ts, i, newfd, f))
      && (UsedOk(pipes') <==> !(oldfd == newfd && LastEntry(ts, f)))
  {
    hide CountsOk, UsedOk, Count, CountAll, TableOk, WithOpened, WithClosed;
    var f := ts[i].fds[oldfd];
    var ts1, pipes1 := WithFd(ts, i, newfd, NoFd), WithClosed(pipes, ts[i].fds[newfd]);
    WithClosedLength(pipes, ts[i].fds[newfd]);
    DropKeeps(pipes, ts, i, newfd);
    CopyKeeps(pipes1, ts1, i, newfd, f);
    assert ts[i].fds[newfd := NoFd][newfd := f] == ts[i].fds[newfd := f];
    assert WithFd(ts1, i, newfd, f) == WithFd(ts, i, newfd, f);
    if oldfd != newfd {
      EntryUsed(pipes1, ts1, i, oldfd);
    } else {
      Dup2Self(pipes, ts, i, oldfd);
    }
  }

  lemma WithClosedLength(pipes: seq<Pipe>, f: Fd)
    requires |pipes| == MAX_PIPES && FdOk(f)
    ensures |WithClosed(pipes, f)| == MAX_PIPES
  {
  }

  /** Closing an end and opening it again restores the counts, but the mark is lost if it was the last. */
  lemma Dup2Self(pipes: seq<Pipe>, ts: seq<Task>, i: nat, fd: nat)
    requires |pipes| == MAX_PIPES && i < |ts| && fd < |ts[i].fds| && FdOk(ts[i].fds[fd])
    requires CountsOk(pipes, ts) && UsedOk(pipes)
    ensures var f := ts[i].fds[fd];
      UsedOk(WithOpened(WithClosed(pipes, f), f)) <==> !LastEntry(ts, f)
  {
    var f := ts[i].fds[fd];
    var p, pipes' := PipeOf(f), WithOpened(WithClosed(pipes, f), f);
    assert CountsAt(pipes, ts, p) && UsedAt(pipes[p]);
    if f.ReadEnd? || f.WriteEnd? {
      assert f in ts[i].fds;
      assert Named(ts, f);
      CountAllNamed(ts, f);
    }
    forall q: nat | q < MAX_PIPES && q != p ensures UsedAt(pipes'[q]) {
      assert UsedAt(pipes[q]);
    }
    assert UsedOk(pipes') <==> UsedAt(pipes'[p]);
  }

  /** From the start: make a pipe, close its write end, copy its read end onto itself. The descriptor is
      still there, and its pipe is free to be handed out again. */
  method SelfDupFreesHeldPipe() returns (k: Kernel, rfd: nat, ghost id: nat)
    ensures k.Coherent() && id < MAX_PIPES && rfd < MAX_FDS && |k.tasks[k.current].fds| == MAX_FDS
    ensures k.tasks[k.current].fds[rfd] == ReadEnd(id) && !k.pipes[id].used
  {
    hide TableOk, HistoryOk, SlotOk, LastEntry;
    k := new Kernel();
    assert k.tasks[k.current].fds[3] == NoFd && k.tasks[k.current].fds[4] == NoFd;
    var ok, wfd, r;
    ok, rfd, wfd, id := k.SysPipe();
    ghost var ts, ps := k.tasks[..], k.pipes[..];
    r := k.SysClose(wfd);
    ghost var ts1, ps1 := k.tasks[..], k.pipes[..];
    OnlyReaderLeft(ts, ps, ts1, ps1, k.current, rfd, wfd, id);
    SameFd(ts1, k.current, rfd);
    r := k.SysDup2(rfd, rfd);
    assert k.tasks[..] == ts1;
  }

  lemma SameFd(ts: seq<Task>, i: nat, fd: nat)
    requires i < |ts| && fd < |ts[i].fds|
    ensures WithFd(ts, i, fd, ts[i].fds[fd]) == ts
  {
    assert ts[i].fds[fd := ts[i].fds[fd]] == ts[i].fds;
  }

  /** With the write end closed the read end is the last descriptor for the pipe. */
  lemma OnlyReaderLeft(ts: seq<Task>, ps: seq<Pipe>, ts1: seq<Task>, ps1: seq<Pipe>, i: nat, rfd: nat, wfd: nat,
                       id: nat)
    requires |ps| == |ps1| == MAX_PIPES && id < MAX_PIPES && i < |ts| && |ts[i].fds| == MAX_FDS
    requires rfd < wfd < MAX_FDS && ts[i].fds[rfd] == ReadEnd(id) && ts[i].fds[wfd] == WriteEnd(id)
    requires CountsOk(ps, ts) && ps[id] == Pipe(1, 1, true)
    requires ts1 == WithFd(ts, i, wfd, NoFd) && CountsOk(ps1, ts1) && UsedOk(ps1)
    ensures ts1[i].fds[rfd] == ReadEnd(id) && ps1[id] == Pipe(1, 0, true)
  {
    WithFdCount(ts, i, wfd, NoFd, ReadEnd(id));
    WithFdCount(ts, i, wfd, NoFd, WriteEnd(id));
    assert CountsAt(ps, ts, id) && CountsAt(ps1, ts1, id) && UsedAt(ps1[id]);
  }
}
