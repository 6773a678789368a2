/** Tasks with their file descriptors, and how many descriptors name each end of a pipe. */
module FdCounts {

  const MAX_TASKS := 32
  const MAX_FDS := 16               // TASK_MAX_FDS
  const MAX_PIPES := 32

  datatype Fd = NoFd | StdIn | StdOut | ReadEnd(pipe: nat) | WriteEnd(pipe: nat)

  datatype TaskState = Ready | Running | Dead | Zombie

  datatype Task = Task(state: TaskState, exitCode: int, parent: nat, forked: bool, fds: seq<Fd>)

  datatype Pipe = Pipe(readOpen: int, writeOpen: int, used: bool)

  predicate NoFds(fds: seq<Fd>)
  {
    |fds| == MAX_FDS && forall k :: 0 <= k < MAX_FDS ==> fds[k] == NoFd
  }

  function Count(fds: seq<Fd>, x: Fd): nat
  {
    if fds == [] then 0 else Count(fds[..|fds| - 1], x) + if fds[|fds| - 1] == x then 1 else 0
  }

  /** The descriptors of all tasks equal to x. */
  function CountAll(ts: seq<Task>, x: Fd): nat
  {
    if ts == [] then 0 else CountAll(ts[..|ts| - 1], x) + Count(ts[|ts| - 1].fds, x)
  }

  lemma {:induction false} CountSet(fds: seq<Fd>, i: nat, y: Fd, x: Fd)
    requires i < |fds|
    ensures Count(fds[i := y], x) + (if fds[i] == x then 1 else 0) == Count(fds, x) + if y == x then 1 else 0
  {
    var init := fds[..|fds| - 1];
    if i < |init| {
      CountSet(init, i, y, x);
      assert fds[i := y][..|init|] == init[i := y];
    } else {
      assert fds[i := y][..|init|] == init;
    }
  }

  lemma {:induction false} CountAllSet(ts: seq<Task>, i: nat, t: Task, x: Fd)
    requires i < |ts|
    ensures CountAll(ts[i := t], x) + Count(ts[i].fds, x) == CountAll(ts, x) + Count(t.fds, x)
  {
    var init := ts[..|ts| - 1];
    if i < |init| {
      CountAllSet(init, i, t, x);
      assert ts[i := t][..|init|] == init[i := t];
    } else {
      assert ts[i := t][..|init|] == init;
    }
  }

  /** ts with descriptor fd of task i set to y. */
  function WithFd(ts: seq<Task>, i: nat, fd: nat, y: Fd): seq<Task>
    requires i < |ts| && fd < |ts[i].fds|
  {
    ts[i := ts[i].(fds := ts[i].fds[fd := y])]
  }

  lemma WithFdCount(ts: seq<Task>, i: nat, fd: nat, y: Fd, x: Fd)
    requires i < |ts| && fd < |ts[i].fds|
    ensures CountAll(WithFd(ts, i, fd, y), x) + (if ts[i].fds[fd] == x then 1 else 0) == CountAll(ts, x) + if y == x
      then 1 else 0
  {
    CountAllSet(ts, i, ts[i].(fds := ts[i].fds[fd := y]), x);
    CountSet(ts[i].fds, fd, y, x);
  }

  lemma {:induction false} CountNone(fds: seq<Fd>, x: Fd)
    ensures Count(fds, x) > 0 <==> x in fds
  {
    if fds != [] {
      CountNone(fds[..|fds| - 1], x);
      assert fds == fds[..|fds| - 1] + [fds[|fds| - 1]];
    }
  }

  /** Some task has descriptor x. */
  ghost predicate Named(ts: seq<Task>, x: Fd)
  {
    exists i :: 0 <= i < |ts| && x in ts[i].fds
  }

  lemma {:induction false} CountAllNamed(ts: seq<Task>, x: Fd)
    ensures CountAll(ts, x) > 0 <==> Named(ts, x)
  {
    if ts != [] {
      var init := ts[..|ts| - 1];
      CountAllNamed(init, x);
      CountNone(ts[|ts| - 1].fds, x);
      if Named(init, x) {
        var i :| 0 <= i < |init| && x in init[i].fds;
        assert x in ts[i].fds;
      }
      if Named(ts, x) && x !in ts[|ts| - 1].fds {
        var i :| 0 <= i < |ts| && x in ts[i].fds;
        assert x in init[i].fds;
      }
    }
  }

  // ----- the invariant of pipes and descriptors

  predicate FdOk(f: Fd)
  {
    match f
    case ReadEnd(p) => p < MAX_PIPES
    case WriteEnd(p) => p < MAX_PIPES
    case NoFd => true
    case StdIn => true
    case StdOut => true
  }

  ghost predicate TableOk(ts: seq<Task>)
  {
    forall i :: 0 <= i < |ts| ==> |ts[i].fds| == MAX_FDS && forall k :: 0 <= k < MAX_FDS ==> FdOk(ts[i].fds[k])
  }

  /** The open counts of pipe p are the numbers of descriptors that name its ends. */
  ghost predicate CountsAt(pipes: seq<Pipe>, ts: seq<Task>, p: nat)
    requires p < |pipes|
  {
    pipes[p].readOpen == CountAll(ts, ReadEnd(p)) && pipes[p].writeOpen == CountAll(ts, WriteEnd(p))
  }

  ghost predicate CountsOk(pipes: seq<Pipe>, ts: seq<Task>)
  {
    forall p: nat :: p < |pipes| ==> CountsAt(pipes, ts, p)
  }

  /** A slot is marked used exactly when an end is open. */
  predicate UsedAt(q: Pipe)
  {
    q.used <==> q.readOpen > 0 || q.writeOpen > 0
  }

  ghost predicate UsedOk(pipes: seq<Pipe>)
  {
    forall p: nat :: p < |pipes| ==> UsedAt(pipes[p])
  }

  /** A slot marked used is named by some descriptor, and one that is not is named by none: it can be
      handed out again. */
  lemma UsedIsHeld(pipes: seq<Pipe>, ts: seq<Task>, p: nat)
    requires CountsOk(pipes, ts) && UsedOk(pipes) && p < |pipes|
    ensures pipes[p].used <==> Named(ts, ReadEnd(p)) || Named(ts, WriteEnd(p))
  {
    assert CountsAt(pipes, ts, p) && UsedAt(pipes[p]);
    CountAllNamed(ts, ReadEnd(p));
    CountAllNamed(ts, WriteEnd(p));
  }

  // ----- what the primitive steps do to it

  /** The pipe table after one more (or one less) descriptor for the end f. */
  function Opened(q: Pipe, f: Fd): Pipe
  {
    match f
    case ReadEnd(_) => q.(readOpen := q.readOpen + 1)
    case WriteEnd(_) => q.(writeOpen := q.writeOpen + 1)
    case _ => q
  }

  function Closed(q: Pipe, f: Fd): Pipe
  {
    match f
    case ReadEnd(_) => Pipe(q.readOpen - 1, q.writeOpen, q.used && (q.readOpen > 1 || q.writeOpen > 0))
    case WriteEnd(_) => Pipe(q.readOpen, q.writeOpen - 1, q.used && (q.writeOpen > 1 || q.readOpen > 0))
    case _ => q
  }

  function PipeOf(f: Fd): nat
  {
    match f
    case ReadEnd(p) => p
    case WriteEnd(p) => p
    case _ => 0
  }

  function WithOpened(pipes: seq<Pipe>, f: Fd): seq<Pipe>
    requires |pipes| == MAX_PIPES && FdOk(f)
  {
    pipes[PipeOf(f) := Opened(pipes[PipeOf(f)], f)]
  }

  function WithClosed(pipes: seq<Pipe>, f: Fd): seq<Pipe>
    requires |pipes| == MAX_PIPES && FdOk(f)
  {
    pipes[PipeOf(f) := Closed(pipes[PipeOf(f)], f)]
  }

  /** Dropping a descriptor and closing its end go together. */
  lemma DropKeeps(pipes: seq<Pipe>, ts: seq<Task>, i: nat, fd: nat)
    requires |pipes| == MAX_PIPES && i < |ts| && fd < |ts[i].fds| && FdOk(ts[i].fds[fd])
    requires CountsOk(pipes, ts)
    ensures CountsOk(WithClosed(pipes, ts[i].fds[fd]), WithFd(ts, i, fd, NoFd))
    ensures UsedOk(pipes) ==> UsedOk(WithClosed(pipes, ts[i].fds[fd]))
  {
    var f := ts[i].fds[fd];
    var pipes', ts' := WithClosed(pipes, f), WithFd(ts, i, fd, NoFd);
    forall p: nat | p < MAX_PIPES ensures CountsAt(pipes', ts', p) && (UsedOk(pipes) ==> UsedAt(pipes'[p])) {
      assert CountsAt(pipes, ts, p);
      WithFdCount(ts, i, fd, NoFd, ReadEnd(p));
      WithFdCount(ts, i, fd, NoFd, WriteEnd(p));
      assert UsedOk(pipes) ==> UsedAt(pipes[p]);
    }
  }

  /** So do copying a descriptor into an empty slot and opening its end once more; the slot stays
      rightly marked if it was, and if the pipe had an open end. */
  lemma CopyKeeps(pipes: seq<Pipe>, ts: seq<Task>, i: nat, fd: nat, f: Fd)
    requires |pipes| == MAX_PIPES && i < |ts| && fd < |ts[i].fds| && FdOk(f) && ts[i].fds[fd] == NoFd
    requires CountsOk(pipes, ts)
    ensures CountsOk(WithOpened(pipes, f), WithFd(ts, i, fd, f))
    ensures UsedOk(pipes) && (f.ReadEnd? || f.WriteEnd? ==> pipes[PipeOf(f)].used) ==> UsedOk(WithOpened(pipes, f))
  {
    var pipes', ts' := WithOpened(pipes, f), WithFd(ts, i, fd, f);
    forall p: nat | p < MAX_PIPES
      ensures CountsAt(pipes', ts', p)
      ensures UsedOk(pipes) && (f.ReadEnd? || f.WriteEnd? ==> pipes[PipeOf(f)].used) ==> UsedAt(pipes'[p])
    {
      assert CountsAt(pipes, ts, p);
      WithFdCount(ts, i, fd, f, ReadEnd(p));
      WithFdCount(ts, i, fd, f, WriteEnd(p));
      assert UsedOk(pipes) ==> UsedAt(pipes[p]);
    }
  }

  /** Changing a task but not its descriptors changes no count. */
  lemma SameFdsSameCounts(pipes: seq<Pipe>, ts: seq<Task>, i: nat, t: Task)
    requires i < |ts| && CountsOk(pipes, ts) && t.fds == ts[i].fds
    ensures CountsOk(pipes, ts[i := t])
  {
    var ts' := ts[i := t];
    forall p: nat | p < |pipes| ensures CountsAt(pipes, ts', p) {
      assert CountsAt(pipes, ts, p);
      CountAllSet(ts, i, t, ReadEnd(p));
      CountAllSet(ts, i, t, WriteEnd(p));
    }
  }

  /** A pipe just handed out, and the two descriptors for it. */
  lemma NewPipeCounts(pipes: seq<Pipe>, ts: seq<Task>, p: nat, i: nat, r: nat, w: nat)
    requires |pipes| == MAX_PIPES && p < MAX_PIPES && CountsOk(pipes, ts) && UsedOk(pipes) && !pipes[p].used
    requires i < |ts| && r < |ts[i].fds| && w < |ts[i].fds| && r != w && ts[i].fds[r] == NoFd && ts[i].fds[w] == NoFd
    ensures CountsOk(pipes[p := Pipe(1, 1, true)], WithFd(WithFd(ts, i, r, ReadEnd(p)), i, w, WriteEnd(p)))
    ensures UsedOk(pipes[p := Pipe(1, 1, true)])
  {
    var ts1 := WithFd(ts, i, r, ReadEnd(p));
    var pipes', ts' := pipes[p := Pipe(1, 1, true)], WithFd(ts1, i, w, WriteEnd(p));
    forall q: nat | q < MAX_PIPES ensures CountsAt(pipes', ts', q) && UsedAt(pipes'[q]) {
      assert CountsAt(pipes, ts, q) && UsedAt(pipes[q]) && UsedAt(pipes[p]);
      WithFdCount(ts, i, r, ReadEnd(p), ReadEnd(q));
      WithFdCount(ts, i, r, ReadEnd(p), WriteEnd(q));
      WithFdCount(ts1, i, w, WriteEnd(p), ReadEnd(q));
      WithFdCount(ts1, i, w, WriteEnd(p), WriteEnd(q));
    }
  }
}
