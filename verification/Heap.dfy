/** The kernel heap: kmalloc, kfree, heap_free_bytes, and the table of live allocations. */
module Heap {
  import opened HeapBlocks

  const U64 := 0x1_0000_0000_0000_0000
  const LEAK_CAP := 256             // HEAP_LEAK_CAP

  datatype Leak = Leak(ptr: nat, size: nat, caller: nat)

  /** The table names live blocks, each at most once. */
  ghost predicate Tracked(t: seq<Leak>, bs: seq<Block>)
  {
    && (forall i, j :: 0 <= i < j < |t| ==> t[i].ptr != t[j].ptr)
    && (forall i :: 0 <= i < |t| ==> Names(t[i], bs))
  }

  ghost predicate Names(l: Leak, bs: seq<Block>)
  {
    exists k :: 0 <= k < |bs| && !bs[k].free && Pointer(bs[k]) == l.ptr && bs[k].size == l.size
  }

  /** The table names every live pointer. */
  ghost predicate Complete(t: seq<Leak>, live: set<nat>)
  {
    forall p :: p in live ==> Listed(t, p)
  }

  ghost predicate Listed(t: seq<Leak>, p: nat)
  {
    exists i :: 0 <= i < |t| && t[i].ptr == p
  }

  ghost function Pointers(t: seq<Leak>): set<nat>
  {
    set i | 0 <= i < |t| :: t[i].ptr
  }

  lemma {:induction false} PointerCount(t: seq<Leak>)
    requires forall i, j :: 0 <= i < j < |t| ==> t[i].ptr != t[j].ptr
    ensures |Pointers(t)| == |t|
  {
    if t != [] {
      var init, last := t[..|t| - 1], t[|t| - 1].ptr;
      PointerCount(init);
      assert Pointers(t) == Pointers(init) + {last} by {
        forall p | p in Pointers(t) ensures p in Pointers(init) + {last} {
          var i :| 0 <= i < |t| && t[i].ptr == p;
          if i < |t| - 1 {
            assert init[i].ptr == p;
          }
        }
      }
      assert last !in Pointers(init);
    }
  }

  /** A table names at most the live pointers, and as many as there are when it is complete. */
  lemma TrackedCount(t: seq<Leak>, bs: seq<Block>, live: set<nat>)
    requires Tracked(t, bs) && LiveIs(bs, live)
    ensures |t| <= |live|
    ensures Complete(t, live) ==> |t| == |live|
  {
    PointerCount(t);
    forall p | p in Pointers(t) ensures p in live {
      var i :| 0 <= i < |t| && t[i].ptr == p;
      assert Names(t[i], bs);
    }
    SubsetCount(Pointers(t), live);
    if Complete(t, live) {
      forall p | p in live ensures p in Pointers(t) {
        assert Listed(t, p);
      }
      assert Pointers(t) == live;
    }
  }

  lemma {:induction false} SubsetCount(a: set<nat>, b: set<nat>)
    requires a <= b
    ensures |a| <= |b|
  {
    assert b == a + (b - a);
  }

  /** A new entry for a block that has just been taken. */
  lemma TrackTaken(t: seq<Leak>, bs: seq<Block>, i: nat, s: nat, live: set<nat>, caller: nat)
    requires Tiled(bs) && i < |bs| && Takes(bs[i], s) && Tracked(t, bs) && LiveIs(bs, live)
    ensures var cs := Carved(bs, i, s);
      i < |cs| && Tracked(t, cs) && Tracked(t + [Leak(Pointer(cs[i]), cs[i].size, caller)], cs)
    ensures Complete(t, live) ==>
      Complete(t + [Leak(Pointer(bs[i]), Carved(bs, i, s)[i].size, caller)], live + {Pointer(bs[i])})
  {
    var cs := Carved(bs, i, s);
    var l := Leak(Pointer(cs[i]), cs[i].size, caller);
    CarvedLive(bs, i, s, live);
    forall j | 0 <= j < |t| ensures Names(t[j], cs) && t[j].ptr != l.ptr {
      assert Names(t[j], bs);
      var k :| 0 <= k < |bs| && !bs[k].free && Pointer(bs[k]) == t[j].ptr && bs[k].size == t[j].size;
      OthersStay(bs, i, s, k);
      PointersDiffer(bs, k, i);
      assert bs[k] in cs;
    }
    assert Names(l, cs);
    CompleteTaken(t, l, live);
  }

  lemma CompleteTaken(t: seq<Leak>, l: Leak, live: set<nat>)
    ensures Complete(t, live) ==> Complete(t + [l], live + {l.ptr})
  {
    if Complete(t, live) {
      var t' := t + [l];
      forall p | p in live + {l.ptr} ensures Listed(t', p) {
        if p in live {
          assert Listed(t, p);
          var j :| 0 <= j < |t| && t[j].ptr == p;
          assert t'[j].ptr == p;
        } else {
          assert t'[|t|].ptr == p;
        }
      }
    }
  }

  /** The table without the entry for a pointer: the last entry takes its place. */
  ghost function Without(t: seq<Leak>, i: nat): seq<Leak>
    requires i < |t|
  {
    t[i := t[|t| - 1]][..|t| - 1]
  }

  /** u is the table t after leak_del of p. */
  ghost predicate Dropped(t: seq<Leak>, p: nat, u: seq<Leak>)
  {
    if Listed(t, p) then exists j: nat :: j < |t| && t[j].ptr == p && u == Without(t, j) else u == t
  }

  lemma TrackReleased(t: seq<Leak>, bs: seq<Block>, i: nat, u: seq<Leak>)
    requires Tiled(bs) && i < |bs| && !bs[i].free && Tracked(t, bs) && Dropped(t, Pointer(bs[i]), u)
    ensures Tracked(u, Released(bs, i))
  {
    hide Released, Tiled;
    var cs, p := Released(bs, i), Pointer(bs[i]);
    forall j | 0 <= j < |t| && t[j].ptr != p ensures Names(t[j], cs) {
      assert Names(t[j], bs);
      var k :| 0 <= k < |bs| && !bs[k].free && Pointer(bs[k]) == t[j].ptr && bs[k].size == t[j].size;
      OthersStay(bs, i, 0, k);
      assert bs[k] in cs;
    }
    hide Names;
    if Listed(t, p) {
      var j: nat :| j < |t| && t[j].ptr == p && u == Without(t, j);
      forall k | 0 <= k < |u| ensures Names(u[k], cs) {
        assert u[k] == t[if k == j then |t| - 1 else k];
      }
    } else {
      forall k | 0 <= k < |u| ensures Names(u[k], cs) {
        assert t[k].ptr != p;
      }
    }
  }

  lemma CompleteReleased(t: seq<Leak>, p: nat, live: set<nat>, u: seq<Leak>)
    requires Complete(t, live) && Dropped(t, p, u) && p in live
    ensures Complete(u, live - {p})
  {
    assert Listed(t, p);
    var j: nat :| j < |t| && t[j].ptr == p && u == Without(t, j);
    forall q | q in live - {p} ensures Listed(u, q) {
      assert Listed(t, q);
      var k :| 0 <= k < |t| && t[k].ptr == q;
      assert u[if k == |t| - 1 then j else k].ptr == q;
    }
  }

  /** The first block that can take s bytes, |bs| when there is none. */
  function FirstFit(bs: seq<Block>, s: nat, from: nat): (i: nat)
    requires from <= |bs|
    ensures from <= i <= |bs|
    ensures i < |bs| ==> bs[i].free && bs[i].size >= s
    ensures forall k :: from <= k < i ==> !(bs[k].free && bs[k].size >= s)
    decreases |bs| - from
  {
    if from == |bs| || Takes(bs[from], s) then from else FirstFit(bs, s, from + 1)
  }

  /** The request rounded up to a multiple of four, in 64 bits. */
  function Rounded(size: nat): (s: nat)
    ensures s % 4 == 0 && (size < 0xFFFF_FFFF_FFFF_FFFD ==> size <= s < size + 4)
  {
    (size + 3) % U64 / 4 * 4
  }

  /** The region handed out is large enough exactly when rounding does not wrap: the three largest
      requests round to 0 and are answered with a region that is too small. */
  lemma LargeEnough(bs: seq<Block>, i: nat, size: nat)
    requires Tiled(bs) && i < |bs| && 0 < size < U64 && Takes(bs[i], Rounded(size))
    ensures i < |Carved(bs, i, Rounded(size))|
    ensures Carved(bs, i, Rounded(size))[i].size >= size <==> size + 3 < U64
    ensures size + 3 >= U64 ==> Rounded(size) == 0
  {
    Inside(bs, i);
    assert Fits(bs, i);
    assert bs[i].size <= 4 * WORDS;
    if size + 3 < U64 {
      assert (size + 3) % U64 == size + 3;
    } else {
      assert (size + 3) % U64 == size + 3 - U64 < 3;
    }
  }

  datatype Outcome = Done | Panic

  /** A pointer into the heap without a block's magic word where its header would be. */
  predicate Stray(m: seq<nat>, ptr: nat)
  {
    && HEAP_START + HEADER <= ptr && ptr % 4 == 0 && (ptr - HEADER - HEAP_START) / 4 < |m|
    && m[(ptr - HEADER - HEAP_START) / 4] != MAGIC
  }

  class Heap {
    const mem: array<nat>           // the heap, as words
    const leaks: array<Leak>        // g_leaks
    var leakCount: nat              // g_leak_count
    ghost var blocks: seq<Block>
    ghost var live: set<nat>        // the pointers handed out and not freed
    ghost var peak: nat             // the most there ever were

    ghost predicate Valid()
      reads this, mem, leaks
    {
      && mem.Length == WORDS && leaks.Length == LEAK_CAP && leakCount <= LEAK_CAP
      && Tiled(blocks) && Written(mem[..], blocks) && LiveIs(blocks, live)
      && |live| <= peak
      && Tracked(leaks[..leakCount], blocks)
      && (peak <= LEAK_CAP ==> Complete(leaks[..leakCount], live))
    }

    /** heap_init, once the region is mapped. */
    constructor (mem: array<nat>)
      requires mem.Length == WORDS
      modifies mem
      ensures Valid() && this.mem == mem && fresh(leaks)
      ensures blocks == [Block(0, 4 * WORDS - HEADER, true)] && live == {} && peak == 0
    {
      this.mem := mem;
      this.leaks := new Leak[LEAK_CAP](_ => Leak(0, 0, 0));
      this.leakCount := 0;
      this.blocks := [Block(0, 4 * WORDS - HEADER, true)];
      this.live := {};
      this.peak := 0;
      new;
      mem[0] := MAGIC;
      mem[1] := 4 * WORDS - HEADER;
      mem[2] := WithByte(mem[2], 1);
      assert Fits(blocks, 0);
    }

    /** leak_add. */
    method LeakAdd(ptr: nat, size: nat, caller: nat)
      requires leaks.Length == LEAK_CAP && leakCount <= LEAK_CAP
      modifies this`leakCount, leaks
      ensures leakCount <= LEAK_CAP
      ensures leaks[..leakCount] ==
        old(leaks[..leakCount]) + if old(leakCount) < 256 then [Leak(ptr, size, caller)] else []
    {
      if leakCount >= LEAK_CAP {
        return;
      }
      leaks[leakCount] := Leak(ptr, size, caller);
      leakCount := leakCount + 1;
    }

    /** leak_del. */
    method LeakDel(ptr: nat)
      requires leaks.Length == LEAK_CAP && leakCount <= LEAK_CAP
      modifies this`leakCount, leaks
      ensures leakCount <= LEAK_CAP
      ensures Dropped(old(leaks[..leakCount]), ptr, leaks[..leakCount])
    {
      ghost var t := leaks[..leakCount];
      var i := 0;
      while i < leakCount
        invariant 0 <= i <= leakCount && leaks[..leakCount] == t && leakCount == old(leakCount)
        invariant forall k :: 0 <= k < i ==> t[k].ptr != ptr
      {
        assert t[i] == leaks[i];
        if leaks[i].ptr == ptr {
          leakCount := leakCount - 1;
          leaks[i] := leaks[leakCount];
          assert leaks[..leakCount] == Without(t, i);
          return;
        }
        i := i + 1;
      }
    }

    /** The headers of the block at offset b, cut to s bytes if the rest is worth a block of its own. */
    method Cut(b: nat, s: nat, ghost i: nat)
      requires mem.Length == WORDS && Tiled(blocks) && Written(mem[..], blocks) && s % 4 == 0
      requires i < |blocks| && blocks[i].at == b && Takes(blocks[i], s)
      modifies mem
      ensures Written(mem[..], Carved(blocks, i, s))
      ensures forall w :: 0 <= w < WORDS && !InHeader(Carved(blocks, i, s), w) ==> mem[w] == old(mem[w])
    {
      hide Tiled, Written, InHeader, WithByte, Carved;
      ghost var m := mem[..];
      BlockFacts(m, blocks, i);
      if mem[b + 1] - s >= HEADER + MIN_SPLIT {
        var r := b + HEADER / 4 + s / 4;
        mem[r] := MAGIC;
        mem[r + 1] := mem[b + 1] - s - HEADER;
        mem[r + 2] := WithByte(mem[r + 2], 1);
        mem[b + 1] := s;
      }
      mem[b + 2] := WithByte(mem[b + 2], 0);
      assert mem[..] == CarvedMem(m, blocks[i], s);
      CarvedWritten(m, blocks, i, s);
    }

    /** The part of kmalloc that takes the block at offset b. */
    method Take(b: nat, s: nat, caller: nat, ghost i: nat) returns (ptr: nat)
      requires Valid() && i < |blocks| && blocks[i].at == b && Takes(blocks[i], s) && s % 4 == 0
      modifies this, mem, leaks
      ensures Valid() && blocks == Carved(old(blocks), i, s)
      ensures ptr == Pointer(old(blocks)[i]) && ptr !in old(live) && live == old(live) + {ptr}
      ensures peak == if |live| > old(peak) then |live| else old(peak)
      ensures forall w :: 0 <= w < WORDS && !InHeader(blocks, w) ==> mem[w] == old(mem[w])
    {
      hide Tiled, Tracked, Complete, LiveIs, Written, InHeader, Carved, Takes;
      ghost var bs, t := blocks, leaks[..leakCount];
      TakesIs(bs[i], s);
      Cut(b, s, i);
      CarvedTiled(bs, i, s);
      CarvedLive(bs, i, s, live);
      CarvedAt(bs, i, s);
      TrackTaken(t, bs, i, s, live, caller);
      TrackedCount(t, bs, live);
      blocks := Carved(bs, i, s);
      BlockFacts(mem[..], blocks, i);
      ptr := HEAP_START + 4 * b + HEADER;
      live := live + {ptr};
      if |live| > peak {
        peak := |live|;
      }
      LeakAdd(ptr, mem[b + 1], caller);
      assert leaks[..leakCount] == if |t| < LEAK_CAP then t + [Leak(ptr, blocks[i].size, caller)] else t;
    }

    /** kfree: a live block becomes free and is merged with a free block behind it; words outside
        headers keep their contents. A block that is free already stops the machine, and so does a
        pointer with no magic word before it. */
    method Kfree(ptr: nat, ghost i: nat) returns (outcome: Outcome)
      requires Valid() && (ptr == 0 || Stray(mem[..], ptr) || (i < |blocks| && ptr == Pointer(blocks[i])))
      modifies this, mem, leaks
      ensures Valid() && peak == old(peak)
      ensures if ptr == 0 || Stray(old(mem[..]), ptr) || old(blocks)[i].free
        then blocks == old(blocks) && live == old(live) && mem[..] == old(mem[..])
        else ptr in old(live) && blocks == Released(old(blocks), i) && live == old(live) - {ptr}
      ensures outcome.Panic? <==> ptr != 0 && (Stray(old(mem[..]), ptr) || old(blocks)[i].free)
      ensures forall w :: 0 <= w < WORDS && !InHeader(blocks, w) ==> mem[w] == old(mem[w])
    {
      hide Tiled, Tracked, Complete, LiveIs, Written, InHeader, WithByte, Released, ReleasedMem;
      if ptr == 0 {
        return Done;
      }
      ghost var m, bs, t := mem[..], blocks, leaks[..leakCount];
      if !Stray(m, ptr) {
        BlockFacts(m, bs, i);
      }
      var b := (ptr - HEADER - HEAP_START) / 4;
      if mem[b] != MAGIC {
        return Panic;
      }
      if mem[b + 2] % 256 != 0 {
        return Panic;
      }
      mem[b + 2] := WithByte(mem[b + 2], 1);
      LeakDel(ptr);
      Merge(b, i, m);
      FreeKeeps(m, bs, t, leaks[..leakCount], i, live);
      blocks := Released(bs, i);
      live := live - {ptr};
      outcome := Done;
    }

    /** The end of kfree: the block at word b swallows a free block behind it. */
    method Merge(b: nat, ghost i: nat, ghost m: seq<nat>)
      requires mem.Length == WORDS && |m| == WORDS && Tiled(blocks) && Written(m, blocks)
      requires i < |blocks| && b == blocks[i].at && b + 2 < WORDS && mem[..] == m[b + 2 := WithByte(m[b + 2], 1)]
      modifies mem
      ensures mem[..] == ReleasedMem(m, blocks, i)
    {
      hide Tiled, Written, WithByte;
      BlockFacts(m, blocks, i);
      if i + 1 < |blocks| {
        BlockFacts(m, blocks, i + 1);
      }
      var next := b + HEADER / 4 + mem[b + 1] / 4;
      if next < WORDS && mem[next] == MAGIC && mem[next + 2] % 256 != 0 {
        mem[b + 1] := mem[b + 1] + HEADER + mem[next + 1];
      }
    }

    /** heap_free_bytes: the sum is far below 2^32. */
    method HeapFreeBytes() returns (total: nat)
      requires Valid()
      ensures total == FreeBytes(blocks) <= 0x10_0000
    {
      hide Tiled, Tracked, Complete, LiveIs, Written, Total;
      SomeBlock(blocks);
      BlocksFillHeap(blocks);
      FreeAtMostTotal(blocks);
      total := 0;
      var b := 0;
      ghost var i := 0;
      BlockFacts(mem[..], blocks, 0);
      while b < WORDS
        invariant i <= |blocks| && b == (if i < |blocks| then blocks[i].at else WORDS)
        invariant total == FreeBytes(blocks[..i])
        decreases |blocks| - i
      {
        BlockFacts(mem[..], blocks, i);
        if mem[b] != MAGIC {
          assert false;
        }
        assert blocks[..i + 1][..i] == blocks[..i];
        if mem[b + 2] % 256 != 0 {
          total := total + mem[b + 1];
        }
        b := b + HEADER / 4 + mem[b + 1] / 4;
        i := i + 1;
      }
      if i < |blocks| {
        BlockFacts(mem[..], blocks, i);
      }
      assert blocks[..|blocks|] == blocks;
    }

    /** The owner of a live block stores into it: the heap stays in order. */
    method Store(i: nat, w: nat, value: nat)
      requires Valid() && i < |blocks| && !blocks[i].free && InData(blocks, i, w) && w < WORDS
      modifies mem
      ensures Valid() && mem[..] == old(mem[..])[w := value]
    {
      hide Tiled, Tracked, Complete, LiveIs;
      RegionsApart(blocks, i, w);
      ghost var m := mem[..];
      mem[w] := value;
      DataWriteKeeps(m, blocks, w, value);
      assert mem[..] == m[w := value];
    }

    /** kmalloc: the first block that is large enough is taken; words outside headers keep their
        contents. */
    method Kmalloc(size: nat, caller: nat) returns (ptr: nat)
      requires Valid() && size < U64
      modifies this, mem, leaks
      ensures Valid()
      ensures
        var i := FirstFit(old(blocks), Rounded(size), 0);
        if size == 0 || i == |old(blocks)| then
          ptr == 0 && blocks == old(blocks) && live == old(live) && mem[..] == old(mem[..]) && peak == old(peak)
        else
          && ptr == Pointer(old(blocks)[i]) && ptr !in old(live) && live == old(live) + {ptr}
          && blocks == Carved(old(blocks), i, Rounded(size))
          && peak == if |live| > old(peak) then |live| else old(peak)
      ensures forall w :: 0 <= w < WORDS && !InHeader(blocks, w) ==> mem[w] == old(mem[w])
    {
      hide Takes, Carved, Pointer, Tracked, Complete, LiveIs, Written, CarvedMem, InHeader, WithByte;
      if size == 0 {
        return 0;
      }
      var s := (size + 3) % U64 / 4 * 4;
      var b := 0;
      ghost var i := 0;
      BlockFacts(mem[..], blocks, 0);
      while b < WORDS
        invariant i <= |blocks| && b == (if i < |blocks| then blocks[i].at else WORDS)
        invariant FirstFit(blocks, s, 0) == FirstFit(blocks, s, i)
        invariant Valid() && unchanged(this) && unchanged(mem) && unchanged(leaks)
        decreases |blocks| - i
      {
        BlockFacts(mem[..], blocks, i);
        if mem[b] != MAGIC {
          assert false;
        }
        if mem[b + 2] % 256 != 0 && mem[b + 1] >= s {
          TakesIs(blocks[i], s);
          ptr := Take(b, s, caller, i);
          return;
        }
        TakesIs(blocks[i], s);
        b := b + HEADER / 4 + mem[b + 1] / 4;
        i := i + 1;
      }
      if i < |blocks| {
        BlockFacts(mem[..], blocks, i);
      }
      ptr := 0;
    }
  }

  lemma DataWriteKeeps(mem: seq<nat>, bs: seq<Block>, w: nat, value: nat)
    requires |mem| == WORDS && Written(mem, bs) && w < WORDS && !InHeader(bs, w)
    ensures Written(mem[w := value], bs)
  {
    forall i | 0 <= i < |bs| ensures HeaderAt(mem[w := value], bs[i]) {
      assert HeaderAt(mem, bs[i]);
    }
  }

  lemma SomeBlock(bs: seq<Block>)
    requires Tiled(bs)
    ensures bs != []
  {
  }

  lemma CarvedAt(bs: seq<Block>, i: nat, s: nat)
    requires i < |bs| && Takes(bs[i], s)
    ensures i < |Carved(bs, i, s)| && Carved(bs, i, s)[i].at == bs[i].at && !Carved(bs, i, s)[i].free
  {
  }

  lemma TakesIs(b: Block, s: nat)
    ensures Takes(b, s) <==> b.free && b.size >= s
  {
  }

  /** What the words of a header say about its block. */
  lemma BlockFacts(mem: seq<nat>, bs: seq<Block>, i: nat)
    requires |mem| == WORDS && Tiled(bs) && Written(mem, bs) && i < |bs|
    ensures HeaderAt(mem, bs[i]) && Fits(bs, i) && End(bs[i]) <= WORDS && bs[0].at == 0
  {
    Inside(bs, i);
    assert HeaderAt(mem, bs[i]) && Fits(bs, i);
  }

  /** On a new heap a request for 2^64 - 1 bytes is granted, with a region of none. */
  method HugeRequest(mem: array<nat>) returns (h: Heap, ptr: nat)
    requires mem.Length == WORDS
    modifies mem
    ensures h.Valid() && ptr in h.live
    ensures |h.blocks| == 2 && ptr == Pointer(h.blocks[0]) && h.blocks[0].size == 0
  {
    h := new Heap(mem);
    assert Rounded(U64 - 1) == 0;
    ptr := h.Kmalloc(U64 - 1, 0);
  }

  /** Taking a block and giving it back: the blocks are what they were, unless the block was too small to be
      cut and a free one follows, which it then swallows. */
  method TakeAndGiveBack(h: Heap, size: nat) returns (ptr: nat)
    requires h.Valid() && 0 < size < U64
    modifies h, h.mem, h.leaks
    ensures h.Valid() && h.live == old(h.live)
    ensures ptr == 0 <==> forall k :: 0 <= k < |old(h.blocks)| ==>
      !(old(h.blocks)[k].free && old(h.blocks)[k].size >= Rounded(size))
    ensures ptr == 0 ==> h.blocks == old(h.blocks)
    ensures ptr != 0 ==>
      var i := FirstFit(old(h.blocks), Rounded(size), 0);
      && i < |old(h.blocks)|
      && (h.blocks == old(h.blocks) <==>
            old(h.blocks)[i].size - Rounded(size) >= 28 || i + 1 == |old(h.blocks)| || !old(h.blocks)[i + 1].free)
  {
    hide Carved, Released, Heap.Valid;
    ghost var bs, s := h.blocks, Rounded(size);
    ptr := h.Kmalloc(size, 0);
    if ptr != 0 {
      ghost var i := FirstFit(bs, s, 0);
      CarvedBlocks(bs, i, s);
      ReleaseUndoesCarve(bs, i, s);
      NotStray(h, i);
      var outcome := h.Kfree(ptr, i);
    }
  }

  lemma NotStray(h: Heap, i: nat)
    requires h.Valid() && i < |h.blocks|
    ensures !Stray(h.mem[..], Pointer(h.blocks[i]))
  {
    BlockFacts(h.mem[..], h.blocks, i);
  }

  /** On a new heap 100 bytes are taken and given back, and then there are 1048500 in one piece. */
  method WholeAgain(mem: array<nat>) returns (h: Heap, p: nat, q: nat)
    requires mem.Length == WORDS
    modifies mem
    ensures h.Valid() && p == 0x0100_000C && q == 0x0100_000C && h.live == {q}
  {
    h := new Heap(mem);
    p := h.Kmalloc(100, 0);
    CarvedBlocks(h.blocks, 0, 100);
    NotStray(h, 0);
    var outcome := h.Kfree(p, 0);
    q := h.Kmalloc(1048500, 0);
  }

  /** Freeing block i keeps the heap and the leak table in order. */
  lemma FreeKeeps(m: seq<nat>, bs: seq<Block>, t: seq<Leak>, u: seq<Leak>, i: nat, live: set<nat>)
    requires |m| == WORDS && Tiled(bs) && Written(m, bs) && LiveIs(bs, live) && Tracked(t, bs)
    requires i < |bs| && !bs[i].free && bs[i].at + 2 < WORDS && Dropped(t, Pointer(bs[i]), u)
    ensures Pointer(bs[i]) in live && |live - {Pointer(bs[i])}| <= |live|
    ensures Tiled(Released(bs, i)) && Written(ReleasedMem(m, bs, i), Released(bs, i))
    ensures LiveIs(Released(bs, i), live - {Pointer(bs[i])}) && Tracked(u, Released(bs, i))
    ensures Complete(t, live) ==> Complete(u, live - {Pointer(bs[i])})
    ensures forall w :: 0 <= w < WORDS && !InHeader(Released(bs, i), w) ==> ReleasedMem(m, bs, i)[w] == m[w]
  {
    hide Tiled, Written, InHeader, Released, ReleasedMem, Tracked, Complete, LiveIs;
    ReleasedTiled(bs, i);
    ReleasedWritten(m, bs, i);
    ReleasedLive(bs, i, live);
    TrackReleased(t, bs, i, u);
    if Complete(t, live) {
      CompleteReleased(t, Pointer(bs[i]), live, u);
    }
  }
}
