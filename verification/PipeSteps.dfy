/** A pipe shared by one writer and one reader that may be preempted between any two accesses to it:
    SYS_WRITE_FD and SYS_READ_FD as a transition system over single loads and stores. */
module PipeSteps {
  import opened Words
  import opened PipeRing

  /** Where the writer is in pipe_write. Its byte is the next one of its input. */
  datatype Writer =
    | WIdle                         // before the load of tail
    | WHasTail(t: nat)              // tail loaded; head is next
    | WHasRoom(t: nat)              // next != head seen; the byte is to be stored
    | WStored(t: nat)               // byte stored; tail is to be advanced

  /** Where the reader is in SYS_READ_FD: `total` of `len` bytes are in its buffer. */
  datatype Reader =
    | RIdle
    | RWait(len: nat, total: nat)             // at the inner loop: is the pipe empty?
    | RSawEmpty(len: nat, total: nat)         // it was: is a write end open?
    | RSawClosed(len: nat, total: nat)        // none was: is it still empty?
    | RSawData(len: nat, total: nat)          // it was not empty: the test after the loop
    | RNext(len: nat, total: nat)             // in pipe_read, before the next byte
    | RHasByte(len: nat, total: nat)          // it is not empty: load the byte
    | RLoaded(len: nat, total: nat, x: Byte)  // byte loaded: store it in the caller's buffer
    | RTaken(len: nat, total: nat)            // head is to be advanced
    | RDone(len: nat, total: nat)             // the call returns total

  /** The pipe and its two users. `sent` counts the stores to tail, `taken` the stores to head. */
  datatype World = World(buf: seq<Byte>, head: nat, tail: nat, open: bool, w: Writer, r: Reader,
                         input: seq<Byte>, sent: nat, taken: nat, received: seq<Byte>)

  datatype Step = WLoadTail | WLoadHead | WStoreByte | WStoreTail | WClose
                | RCall(n: nat) | RTestEmpty | RTestOpen | RTestAgain | RTestByte | RLoadByte
                | RStoreByte | RStoreHead | RReturn

  predicate Init(s: World)
  {
    && |s.buf| == PIPE_BUF && s.head == 0 && s.tail == 0 && s.open && s.w == WIdle && s.r == RIdle
    && s.sent == 0 && s.taken == 0 && s.received == []
  }

  predicate Enabled(s: World, e: Step)
  {
    match e
    case WLoadTail => s.open && s.w.WIdle? && s.sent < |s.input|
    case WLoadHead => s.w.WHasTail?
    case WStoreByte => s.w.WHasRoom? && s.w.t < |s.buf| && s.sent < |s.input|
    case WStoreTail => s.w.WStored?
    case WClose => s.open && s.w.WIdle?
    case RCall(_) => s.r.RIdle?
    case RTestEmpty => s.r.RWait?
    case RTestOpen => s.r.RSawEmpty?
    case RTestAgain => s.r.RSawClosed? || s.r.RSawData?
    case RTestByte => s.r.RNext?
    case RLoadByte => s.r.RHasByte? && s.head < |s.buf|
    case RStoreByte => s.r.RLoaded?
    case RStoreHead => s.r.RTaken?
    case RReturn => s.r.RDone?
  }

  /** One load or store. */
  function Next(s: World, e: Step): World
    requires Enabled(s, e)
  {
    match e
    case WLoadTail => s.(w := WHasTail(s.tail))
    case WLoadHead => s.(w := if (s.w.t + 1) % PIPE_BUF == s.head then WIdle else WHasRoom(s.w.t))
    case WStoreByte => s.(buf := s.buf[s.w.t := s.input[s.sent]], w := WStored(s.w.t))
    case WStoreTail => s.(tail := (s.w.t + 1) % PIPE_BUF, sent := s.sent + 1, w := WIdle)
    case WClose => s.(open := false)
    case RCall(n) => s.(r := if n == 0 then RDone(0, 0) else RWait(n, 0))
    case RTestEmpty => s.(r := if s.head == s.tail then RSawEmpty(s.r.len, s.r.total)
      else RSawData(s.r.len, s.r.total))
    case RTestOpen => s.(r := if s.open then RWait(s.r.len, s.r.total) else RSawClosed(s.r.len, s.r.total))
    case RTestAgain => s.(r := if s.head == s.tail then RDone(s.r.len, s.r.total) else RNext(s.r.len, s.r.total))
    case RTestByte =>
      s.(r := if s.r.total == s.r.len then RDone(s.r.len, s.r.total)
              else if s.head == s.tail then RWait(s.r.len, s.r.total)
              else RHasByte(s.r.len, s.r.total))
    case RLoadByte => s.(r := RLoaded(s.r.len, s.r.total, s.buf[s.head]))
    case RStoreByte => s.(received := s.received + [s.r.x], r := RTaken(s.r.len, s.r.total))
    case RStoreHead => s.(head := (s.head + 1) % PIPE_BUF, taken := s.taken + 1, r := RNext(s.r.len, s.r.total + 1))
    case RReturn => s.(r := RIdle)
  }

  // ----- the invariant

  /** Head and tail are the counts, at most 4095 apart, and the ring holds what is between them. */
  ghost predicate RingOk(s: World)
  {
    && |s.buf| == PIPE_BUF && s.head == Slot(s.taken) && s.tail == Slot(s.sent)
    && s.taken <= s.sent <= |s.input| && s.sent < s.taken + PIPE_BUF
    && forall k: nat :: s.taken <= k < s.sent ==> s.buf[Slot(k)] == s.input[k]
  }

  ghost predicate WriterOk(s: World)
    requires RingOk(s)
  {
    match s.w
    case WIdle => true
    case WHasTail(t) => s.open && t == s.tail && s.sent < |s.input|
    case WHasRoom(t) => s.open && t == s.tail && s.sent < |s.input| && s.sent + 1 < s.taken + PIPE_BUF
    case WStored(t) =>
      && s.open && t == s.tail && s.sent < |s.input| && s.sent + 1 < s.taken + PIPE_BUF
      && s.buf[t] == s.input[s.sent]
  }

  ghost predicate ReaderOk(s: World)
    requires RingOk(s)
  {
    var ahead := if s.r.RTaken? then 1 else 0;
    && |s.received| == s.taken + ahead && |s.received| <= s.sent && s.received == s.input[..|s.received|]
    && match s.r
       case RIdle => true
       case RWait(n, t) => t < n
       case RSawEmpty(n, t) => t < n
       case RSawClosed(n, t) => t < n && !s.open
       case RSawData(n, t) => t < n && s.taken < s.sent
       case RNext(n, t) => t <= n
       case RHasByte(n, t) => t < n && s.taken < s.sent
       case RLoaded(n, t, x) => t < n && s.taken < s.sent && x == s.input[s.taken]
       case RTaken(n, t) => t < n && s.taken < s.sent
       case RDone(n, t) => t <= n && (t < n ==> !s.open && s.taken == s.sent)
  }

  ghost predicate Inv(s: World)
  {
    RingOk(s) && WriterOk(s) && ReaderOk(s)
  }

  lemma InvInit(s: World)
    requires Init(s)
    ensures Inv(s)
  {
  }

  lemma WriterKeeps(s: World, e: Step)
    requires Inv(s) && Enabled(s, e) && (e.WLoadTail? || e.WLoadHead? || e.WStoreByte? || e.WStoreTail? || e.WClose?)
    ensures Inv(Next(s, e))
  {
    SlotNext(s.sent);
    if e.WLoadHead? && (s.w.t + 1) % PIPE_BUF != s.head {
      NotFull(s.taken, s.sent);
    }
    if e.WStoreByte? {
      forall k: nat | s.taken <= k < s.sent ensures Slot(k) != s.w.t {
        SlotsDiffer(k, s.sent);
      }
    }
  }

  lemma ReaderKeeps(s: World, e: Step)
    requires Inv(s) && Enabled(s, e) && !(e.WLoadTail? || e.WLoadHead? || e.WStoreByte? || e.WStoreTail? || e.WClose?)
    ensures Inv(Next(s, e))
  {
    SlotNext(s.taken);
    if s.head == s.tail {
      Empty(s.taken, s.sent);
    }
  }

  lemma InvStep(s: World, e: Step)
    requires Inv(s) && Enabled(s, e)
    ensures Inv(Next(s, e))
  {
    if e.WLoadTail? || e.WLoadHead? || e.WStoreByte? || e.WStoreTail? || e.WClose? {
      WriterKeeps(s, e);
    } else {
      ReaderKeeps(s, e);
    }
  }

  // ----- nobody waits without cause

  /** What a world becomes by a list of steps, if each of them can be taken. */
  ghost function Runs(s: World, steps: seq<Step>): Option<World>
    decreases |steps|
  {
    if steps == [] then Some(s)
    else if Enabled(s, steps[0]) then Runs(Next(s, steps[0]), steps[1..])
    else None
  }

  lemma RunsStep(s: World, e: Step, steps: seq<Step>)
    requires Enabled(s, e)
    ensures Runs(s, [e] + steps) == Runs(Next(s, e), steps)
  {
    assert ([e] + steps)[1..] == steps;
  }

  /** With fewer than 4095 bytes in flight the writer's next four accesses send a byte. */
  lemma WriterSends(s: World)
    requires Inv(s) && s.open && s.w == WIdle && s.sent < |s.input| && s.sent - s.taken < 4095
    ensures var t := Runs(s, [WLoadTail, WLoadHead, WStoreByte, WStoreTail]);
      t.Some? && t.value.sent == s.sent + 1 && t.value.w == WIdle && t.value.r == s.r
  {
    var s1 := Next(s, WLoadTail);
    NextIsFree(s);
    var s2 := Next(s1, WLoadHead);
    var s3 := Next(s2, WStoreByte);
    RunsStep(s, WLoadTail, [WLoadHead, WStoreByte, WStoreTail]);
    RunsStep(s1, WLoadHead, [WStoreByte, WStoreTail]);
    RunsStep(s2, WStoreByte, [WStoreTail]);
    RunsStep(s3, WStoreTail, []);
    assert [WStoreTail] + [] == [WStoreTail];
  }

  lemma NextIsFree(s: World)
    requires RingOk(s) && s.sent - s.taken < 4095
    ensures (s.tail + 1) % PIPE_BUF != s.head
  {
    SlotNext(s.sent);
    if Slot(s.sent + 1) == Slot(s.taken) {
      Full(s.taken, s.sent);
    }
  }

  /** With a byte in the ring and room in its buffer the reader's next four accesses take it. */
  lemma ReaderTakes(s: World)
    requires Inv(s) && s.r.RNext? && s.r.total < s.r.len && s.taken < s.sent
    ensures var t := Runs(s, [RTestByte, RLoadByte, RStoreByte, RStoreHead]);
      && t.Some? && t.value.received == s.received + [s.input[s.taken]] && t.value.taken == s.taken + 1
      && t.value.r == RNext(s.r.len, s.r.total + 1) && t.value.w == s.w
  {
    HasData(s);
    var s1 := Next(s, RTestByte);
    var s2 := Next(s1, RLoadByte);
    var s3 := Next(s2, RStoreByte);
    RunsStep(s, RTestByte, [RLoadByte, RStoreByte, RStoreHead]);
    RunsStep(s1, RLoadByte, [RStoreByte, RStoreHead]);
    RunsStep(s2, RStoreByte, [RStoreHead]);
    RunsStep(s3, RStoreHead, []);
    assert [RStoreHead] + [] == [RStoreHead];
  }

  lemma HasData(s: World)
    requires RingOk(s)
    ensures s.taken < s.sent <==> s.head != s.tail
  {
    if s.head == s.tail {
      Empty(s.taken, s.sent);
    }
  }

  /** A reader that waits goes on when there is a byte, and returns when there is none and no write end. */
  lemma ReaderGoesOn(s: World)
    requires Inv(s) && s.r.RWait?
    ensures s.taken < s.sent ==>
      var t := Runs(s, [RTestEmpty, RTestAgain]);
      t.Some? && t.value == s.(r := RNext(s.r.len, s.r.total))
    ensures s.taken == s.sent && !s.open ==>
      var t := Runs(s, [RTestEmpty, RTestOpen, RTestAgain]);
      t.Some? && t.value == s.(r := RDone(s.r.len, s.r.total))
  {
    HasData(s);
    var s1 := Next(s, RTestEmpty);
    assert [RTestAgain] + [] == [RTestAgain];
    if s.taken < s.sent {
      RunsStep(s, RTestEmpty, [RTestAgain]);
      RunsStep(s1, RTestAgain, []);
    } else if !s.open {
      RunsStep(s, RTestEmpty, [RTestOpen, RTestAgain]);
      RunsStep(s1, RTestOpen, [RTestAgain]);
      RunsStep(Next(s1, RTestOpen), RTestAgain, []);
    }
  }

  // ----- runs

  ghost predicate IsRun(run: seq<World>, steps: seq<Step>)
  {
    && |run| == |steps| + 1 && Init(run[0])
    && forall i :: 0 <= i < |steps| ==> Enabled(run[i], steps[i]) && run[i + 1] == Next(run[i], steps[i])
  }

  lemma {:induction false} InvRun(run: seq<World>, steps: seq<Step>, i: nat)
    requires IsRun(run, steps) && i < |run|
    ensures Inv(run[i]) && run[i].input == run[0].input
  {
    if i == 0 {
      InvInit(run[0]);
    } else {
      InvRun(run, steps, i - 1);
      assert Enabled(run[i - 1], steps[i - 1]) && run[i] == Next(run[i - 1], steps[i - 1]);
      InvStep(run[i - 1], steps[i - 1]);
    }
  }

  /** In every interleaving the bytes received are a prefix of the bytes written, which are a prefix of
      the input; at most 4095 bytes are in flight; and a call that returns fewer bytes than asked for
      does so only when no write end is open and every byte written has been delivered. */
  lemma PipeDelivers(run: seq<World>, steps: seq<Step>, i: nat)
    requires IsRun(run, steps) && i < |run|
    ensures var s := run[i];
      && s.sent <= |run[0].input|
      && s.received <= run[0].input[..s.sent]
      && s.sent - s.taken <= 4095
      && (s.r.RDone? && s.r.total < s.r.len ==> !s.open && s.received == run[0].input[..s.sent])
  {
    InvRun(run, steps, i);
  }

  /** In a call for n bytes that began at i, the count goes along with the bytes delivered since. */
  lemma {:induction false} CountsDelivered(run: seq<World>, steps: seq<Step>, i: nat, n: nat, j: nat)
    requires IsRun(run, steps) && i < j < |run| && steps[i] == RCall(n)
    requires forall k :: i < k < j ==> steps[k] != RReturn
    ensures var s := run[j];
      && !s.r.RIdle? && s.r.len == n && |s.received| >= |run[i].received|
      && s.r.total + (if s.r.RTaken? then 1 else 0) == |s.received| - |run[i].received|
  {
    assert Enabled(run[j - 1], steps[j - 1]) && run[j] == Next(run[j - 1], steps[j - 1]);
    if i < j - 1 {
      CountsDelivered(run, steps, i, n, j - 1);
      hide Enabled, Next;
      CountStep(run[j - 1], steps[j - 1], n, |run[i].received|);
    }
  }

  lemma CountStep(s: World, e: Step, n: nat, before: nat)
    requires Enabled(s, e) && e != RReturn && !s.r.RIdle? && s.r.len == n && |s.received| >= before
    requires s.r.total + (if s.r.RTaken? then 1 else 0) == |s.received| - before
    ensures var t := Next(s, e);
      && !t.r.RIdle? && t.r.len == n && |t.received| >= before
      && t.r.total + (if t.r.RTaken? then 1 else 0) == |t.received| - before
  {
  }

  /** SYS_READ_FD returns the number of bytes it has put into the buffer, all of those it was asked for
      unless every write end is closed and nothing is left. */
  lemma ReadReturns(run: seq<World>, steps: seq<Step>, i: nat, n: nat, j: nat)
    requires IsRun(run, steps) && i < j < |run| && steps[i] == RCall(n) && run[j].r.RDone?
    requires forall k :: i < k < j ==> steps[k] != RReturn
    ensures run[j].r.len == n && run[j].r.total == |run[j].received| - |run[i].received|
    ensures run[j].sent <= |run[0].input|
    ensures run[j].r.total == n
      || (run[j].r.total < n && !run[j].open && run[j].received == run[0].input[..run[j].sent])
    ensures run[i].received <= run[j].received
  {
    CountsDelivered(run, steps, i, n, j);
    PipeDelivers(run, steps, i);
    PipeDelivers(run, steps, j);
    InvRun(run, steps, i);
    InvRun(run, steps, j);
  }

  /** Once no write end is open nothing more is written. */
  lemma {:induction false} ClosedStays(run: seq<World>, steps: seq<Step>, i: nat, j: nat)
    requires IsRun(run, steps) && i <= j < |run| && !run[i].open
    ensures !run[j].open && run[j].sent == run[i].sent
  {
    hide Inv, Next, Enabled, IsRun;
    if i < j {
      RunLength(run, steps);
      ClosedStays(run, steps, i, j - 1);
      InvRun(run, steps, j - 1);
      StepTaken(run, steps, j - 1);
      ClosedStep(run[j - 1], steps[j - 1]);
    }
  }

  lemma RunLength(run: seq<World>, steps: seq<Step>)
    requires IsRun(run, steps)
    ensures |run| == |steps| + 1
  {
  }

  lemma StepTaken(run: seq<World>, steps: seq<Step>, k: nat)
    requires IsRun(run, steps) && k < |steps|
    ensures Enabled(run[k], steps[k]) && run[k + 1] == Next(run[k], steps[k])
  {
    hide Next, Enabled;
  }

  lemma ClosedStep(s: World, e: Step)
    requires Inv(s) && Enabled(s, e) && !s.open
    ensures !Next(s, e).open && Next(s, e).sent == s.sent
  {
  }
}
