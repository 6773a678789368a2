/** The ring buffer of a pipe: pipe_write and pipe_read, each run without interruption. */
module PipeRing {
  import opened Words

  const PIPE_BUF := 4096

  function Slot(k: nat): (s: nat)
    ensures s < PIPE_BUF
  {
    k % PIPE_BUF
  }

  /** Positions less than a ring apart have different slots. */
  lemma SlotsDiffer(i: nat, j: nat)
    requires i < j < i + PIPE_BUF
    ensures Slot(i) != Slot(j)
  {
    var a, b := i / PIPE_BUF, j / PIPE_BUF;
    assert i == PIPE_BUF * a + Slot(i) && j == PIPE_BUF * b + Slot(j);
  }

  lemma SlotNext(k: nat)
    ensures Slot(k + 1) == (Slot(k) + 1) % PIPE_BUF
  {
  }

  class Ring {
    const buf: array<Byte>
    var head: nat
    var tail: nat
    ghost var read: nat             // bytes ever read
    ghost var written: seq<Byte>    // bytes ever written

    ghost predicate Valid()
      reads this, buf
    {
      && buf.Length == PIPE_BUF && head == Slot(read) && tail == Slot(|written|)
      && read <= |written| < read + PIPE_BUF
      && forall k: nat :: read <= k < |written| ==> buf[Slot(k)] == written[k]
    }

    /** The bytes waiting to be read. */
    ghost function Waiting(): seq<Byte>
      requires read <= |written|
      reads this
    {
      written[read..]
    }

    constructor ()
      ensures Valid() && Waiting() == [] && fresh(buf)
    {
      buf := new Byte[PIPE_BUF];
      head, tail, read, written := 0, 0, 0, [];
    }

    /** pipe_write: takes as many bytes as fit, 4095 in all. */
    method Write(src: array<Byte>, off: nat, len: nat) returns (n: nat)
      requires Valid() && off + len <= src.Length && src != buf
      modifies this, buf
      ensures Valid() && read == old(read)
      ensures n == if len <= 4095 - |old(Waiting())| then len else 4095 - |old(Waiting())|
      ensures Waiting() == old(Waiting()) + src[off..off + n]
    {
      hide Slot;
      n := 0;
      var i := 0;
      while i < len
        invariant 0 <= n == i <= len && Valid() && read == old(read)
        invariant written == old(written) + src[off..off + n]
      {
        var next := (tail + 1) % PIPE_BUF;
        SlotNext(|written|);
        if next == head {
          Full(read, |written|);
          break;
        }
        NotFull(read, |written|);
        forall k: nat | read <= k < |written| ensures Slot(k) != tail {
          SlotsDiffer(k, |written|);
        }
        buf[tail] := src[off + i];
        written := written + [src[off + i]];
        tail := next;
        n := n + 1;
        i := i + 1;
      }
      assert written[read..] == old(written)[read..] + src[off..off + n];
    }

    /** pipe_read: delivers the oldest bytes, as many as there are and are asked for. */
    method Read(dst: array<Byte>, off: nat, len: nat) returns (n: nat)
      requires Valid() && off + len <= dst.Length && dst != buf
      modifies this, dst
      ensures Valid() && written == old(written)
      ensures n == if len <= |old(Waiting())| then len else |old(Waiting())|
      ensures dst[..] == old(dst[..off]) + old(Waiting())[..n] + old(dst[off + n..])
      ensures Waiting() == old(Waiting())[n..]
    {
      n := 0;
      var i := 0;
      ghost var w := Waiting();
      while i < len
        invariant 0 <= n == i <= len && Valid() && written == old(written) && read == old(read) + n && n <= |w|
        invariant dst[..] == old(dst[..off]) + w[..n] + old(dst[off + n..])
      {
        if head == tail {
          Empty(read, |written|);
          break;
        }
        assert read < |written|;
        SlotNext(read);
        ghost var before := dst[..];
        dst[off + i] := buf[head];
        assert dst[..] == before[off + i := w[n]];
        OneMoreByte(before, dst[..], old(dst[..off]), w, n, old(dst[..]), off);
        head := (head + 1) % PIPE_BUF;
        read := read + 1;
        n := n + 1;
        i := i + 1;
      }
    }
  }

  lemma OneMoreByte(before: seq<Byte>, after: seq<Byte>, front: seq<Byte>, w: seq<Byte>, n: nat, start: seq<Byte>,
                    off: nat)
    requires n < |w| && |front| == off && off + n < |start| == |before| && after == before[off + n := w[n]]
    requires before == front + w[..n] + start[off + n..]
    ensures after == front + w[..n + 1] + start[off + n + 1..]
  {
  }

  lemma Full(r: nat, w: nat)
    requires r <= w < r + PIPE_BUF && Slot(w + 1) == Slot(r)
    ensures w == r + PIPE_BUF - 1
  {
    if w + 1 < r + PIPE_BUF {
      SlotsDiffer(r, w + 1);
    }
  }

  lemma NotFull(r: nat, w: nat)
    requires r <= w < r + PIPE_BUF && Slot(w + 1) != Slot(r)
    ensures w + 1 < r + PIPE_BUF
  {
    assert Slot(r + PIPE_BUF) == Slot(r);
  }

  lemma Empty(r: nat, w: nat)
    requires r <= w < r + PIPE_BUF && Slot(w) == Slot(r)
    ensures w == r
  {
    if w > r {
      SlotsDiffer(r, w);
    }
  }
}
