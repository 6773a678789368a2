/** The layout of the kernel heap: blocks that tile it, and what allocating and freeing do to them.
    Offsets count 4-byte words from the start of the heap; sizes are in bytes, as in the headers. */
module HeapBlocks {

  const WORDS := 0x4_0000           // HEAP_INITIAL_SIZE / 4
  const HEADER := 12                // sizeof(heap_block_t)
  const MIN_SPLIT := 16
  const MAGIC := 0xC0FF_EE42

  datatype Block = Block(at: nat, size: nat, free: bool)

  function End(b: Block): nat
  {
    b.at + HEADER / 4 + b.size / 4
  }

  /** Where block i has to end. */
  function Follower(bs: seq<Block>, i: nat): nat
  {
    if i + 1 < |bs| then bs[i + 1].at else WORDS
  }

  /** Block i has an aligned size and ends where the next begins. */
  predicate Fits(bs: seq<Block>, i: nat)
    requires i < |bs|
  {
    bs[i].size % 4 == 0 && End(bs[i]) == Follower(bs, i)
  }

  /** The blocks cover the heap, one right behind the other. */
  ghost predicate Tiled(bs: seq<Block>)
  {
    && bs != [] && bs[0].at == 0
    && forall i :: 0 <= i < |bs| ==> Fits(bs, i)
  }

  lemma {:induction false} InOrder(bs: seq<Block>, i: nat, j: nat)
    requires Tiled(bs) && i < j < |bs|
    ensures End(bs[i]) <= bs[j].at
    decreases j
  {
    assert Fits(bs, j - 1);
    if i + 1 < j {
      InOrder(bs, i, j - 1);
    }
  }

  lemma Inside(bs: seq<Block>, i: nat)
    requires Tiled(bs) && i < |bs|
    ensures End(bs[i]) <= WORDS
    decreases |bs| - i
  {
    assert Fits(bs, i);
    if i + 1 < |bs| {
      Inside(bs, i + 1);
    }
  }

  function Total(bs: seq<Block>): nat
  {
    if bs == [] then 0 else Total(bs[..|bs| - 1]) + bs[|bs| - 1].size + HEADER
  }

  lemma {:induction false} TotalUpTo(bs: seq<Block>, n: nat)
    requires Tiled(bs) && n <= |bs|
    ensures Total(bs[..n]) == 4 * if n == 0 then 0 else End(bs[n - 1])
  {
    if n > 0 {
      TotalUpTo(bs, n - 1);
      assert bs[..n][..n - 1] == bs[..n - 1] && Fits(bs, n - 1);
      if n > 1 {
        assert Fits(bs, n - 2);
      }
    }
  }

  /** Block sizes and headers add up to one megabyte. */
  lemma BlocksFillHeap(bs: seq<Block>)
    requires Tiled(bs)
    ensures Total(bs) == 0x10_0000
  {
    TotalUpTo(bs, |bs|);
    assert bs[..|bs|] == bs;
    assert Fits(bs, |bs| - 1);
  }

  /** Word w belongs to a header. */
  ghost predicate InHeader(bs: seq<Block>, w: nat)
  {
    exists i :: 0 <= i < |bs| && bs[i].at <= w < bs[i].at + HEADER / 4
  }

  /** Word w belongs to the data of block i. */
  predicate InData(bs: seq<Block>, i: nat, w: nat)
    requires i < |bs|
  {
    bs[i].at + HEADER / 4 <= w < End(bs[i])
  }

  /** Data regions overlap no header and no other data region. */
  lemma RegionsApart(bs: seq<Block>, i: nat, w: nat)
    requires Tiled(bs) && i < |bs| && InData(bs, i, w)
    ensures !InHeader(bs, w) && forall j: nat :: j < |bs| && j != i ==> !InData(bs, j, w)
  {
    forall j: nat | j < |bs| && j != i ensures !(bs[j].at <= w < End(bs[j])) {
      if j < i {
        InOrder(bs, j, i);
      } else {
        InOrder(bs, i, j);
      }
    }
  }

  // ----- allocation

  /** Can block b take s bytes? */
  predicate Takes(b: Block, s: nat)
  {
    b.free && b.size >= s
  }

  /** Block i takes s bytes; what is left becomes a free block if it is worth it. */
  function Carved(bs: seq<Block>, i: nat, s: nat): seq<Block>
    requires i < |bs| && s <= bs[i].size
  {
    var b := bs[i];
    if b.size - s >= HEADER + MIN_SPLIT then
      bs[..i] + [Block(b.at, s, false), Block(b.at + HEADER / 4 + s / 4, b.size - s - HEADER, true)] + bs[i + 1..]
    else bs[i := Block(b.at, b.size, false)]
  }

  lemma CarvedTiled(bs: seq<Block>, i: nat, s: nat)
    requires Tiled(bs) && i < |bs| && s <= bs[i].size && s % 4 == 0
    ensures Tiled(Carved(bs, i, s))
  {
    var cs := Carved(bs, i, s);
    if bs[i].size - s >= HEADER + MIN_SPLIT {
      assert cs[i] == Block(bs[i].at, s, false);
      assert cs[i + 1] == Block(bs[i].at + HEADER / 4 + s / 4, bs[i].size - s - HEADER, true);
      assert forall k :: 0 <= k < i ==> cs[k] == bs[k];
      assert forall k :: i + 1 < k < |cs| ==> cs[k] == bs[k - 1];
      forall k | 0 <= k < |cs| ensures Fits(cs, k) {
        assert Fits(bs, if k <= i then k else k - 1);
      }
    } else {
      forall k | 0 <= k < |cs| ensures Fits(cs, k) {
        assert Fits(bs, k);
      }
    }
  }

  // ----- freeing

  /** Block i becomes free and swallows a free block behind it. */
  function Released(bs: seq<Block>, i: nat): seq<Block>
    requires i < |bs|
  {
    if i + 1 < |bs| && bs[i + 1].free then
      bs[..i] + [Block(bs[i].at, bs[i].size + HEADER + bs[i + 1].size, true)] + bs[i + 2..]
    else bs[i := Block(bs[i].at, bs[i].size, true)]
  }

  /** A block with a free one behind it becomes one block with it, twelve bytes for the header included. */
  lemma ReleasedBlocks(bs: seq<Block>, i: nat)
    requires i < |bs|
    ensures var cs := Released(bs, i);
      && |cs| == (if i + 1 < |bs| && bs[i + 1].free then |bs| - 1 else |bs|)
      && cs[i].at == bs[i].at && cs[i].free
      && cs[i].size == bs[i].size + (if i + 1 < |bs| && bs[i + 1].free then 12 + bs[i + 1].size else 0)
      && (forall k :: 0 <= k < i ==> cs[k] == bs[k])
      && forall k :: i < k < |cs| ==> cs[k] == bs[if i + 1 < |bs| && bs[i + 1].free then k + 1 else k]
  {
    var cs := Released(bs, i);
    if i + 1 < |bs| && bs[i + 1].free {
      var x := Block(bs[i].at, bs[i].size + HEADER + bs[i + 1].size, true);
      assert cs == bs[..i] + [x] + bs[i + 2..];
      hide Released;
      forall k | 0 <= k < |cs| && k != i ensures cs[k] == bs[if k < i then k else k + 1] {
        SplicedAt(bs, i, [x], i + 2, k);
      }
      SplicedAt(bs, i, [x], i + 2, i);
    }
  }

  lemma SplicedAt(bs: seq<Block>, i: nat, x: seq<Block>, j: nat, k: nat)
    requires i <= j <= |bs| && k < i + |x| + |bs| - j
    ensures (bs[..i] + x + bs[j..])[k] ==
      if k < i then bs[k] else if k < i + |x| then x[k - i] else bs[k - i - |x| + j]
  {
  }

  /** Taking s bytes of block i: what is left of 28 bytes or more becomes a free block. */
  lemma CarvedBlocks(bs: seq<Block>, i: nat, s: nat)
    requires i < |bs| && s <= bs[i].size
    ensures var cs := Carved(bs, i, s);
      && |cs| == (if bs[i].size - s >= 28 then |bs| + 1 else |bs|)
      && cs[i].at == bs[i].at && !cs[i].free && cs[i].size == (if bs[i].size - s >= 28 then s else bs[i].size)
      && (bs[i].size - s >= 28 ==> cs[i + 1] == Block(bs[i].at + 3 + s / 4, bs[i].size - s - 12, true))
      && (forall k :: 0 <= k < i ==> cs[k] == bs[k])
      && forall k :: i < k < |cs| && (bs[i].size - s >= 28 ==> k != i + 1) ==>
           cs[k] == bs[if bs[i].size - s >= 28 then k - 1 else k]
  {
    var b, cs := bs[i], Carved(bs, i, s);
    if b.size - s >= 28 {
      var x := [Block(b.at, s, false), Block(b.at + HEADER / 4 + s / 4, b.size - s - HEADER, true)];
      assert cs == bs[..i] + x + bs[i + 1..];
      hide Carved;
      forall k | 0 <= k < |cs| && k != i && k != i + 1 ensures cs[k] == bs[if k < i then k else k - 1] {
        SplicedAt(bs, i, x, i + 1, k);
      }
      SplicedAt(bs, i, x, i + 1, i);
      SplicedAt(bs, i, x, i + 1, i + 1);
    }
  }

  /** Freeing what was taken restores the blocks, exactly if something was cut off or no free block follows. */
  lemma ReleaseUndoesCarve(bs: seq<Block>, i: nat, s: nat)
    requires i < |bs| && bs[i].free && s <= bs[i].size
    ensures i < |Carved(bs, i, s)|
    ensures Released(Carved(bs, i, s), i) == bs <==>
      bs[i].size - s >= 28 || i + 1 == |bs| || !bs[i + 1].free
  {
    hide Carved, Released;
    CarvedBlocks(bs, i, s);
    var cs := Carved(bs, i, s);
    var ds := Released(cs, i);
    ReleasedBlocks(cs, i);
    if |ds| == |bs| {
      forall k | 0 <= k < |bs| ensures ds[k] == bs[k] {
        if k > i && bs[i].size - s >= 28 {
          assert ds[k] == cs[k + 1];
        }
      }
      assert ds == bs;
    }
  }

  lemma ReleasedTiled(bs: seq<Block>, i: nat)
    requires Tiled(bs) && i < |bs|
    ensures Tiled(Released(bs, i))
  {
    ReleasedBlocks(bs, i);
    var cs := Released(bs, i);
    hide Released;
    if i + 1 < |bs| && bs[i + 1].free {
      assert Fits(bs, i) && Fits(bs, i + 1);
      forall k | 0 <= k < |cs| ensures Fits(cs, k) {
        if k < i {
          assert Fits(bs, k);
        } else if k > i {
          assert cs[k] == bs[k + 1] && Fits(bs, k + 1);
        }
      }
    } else {
      forall k | 0 <= k < |cs| ensures Fits(cs, k) {
        assert Fits(bs, k);
      }
    }
  }

  // ----- headers in memory

  predicate HeaderAt(mem: seq<nat>, b: Block)
  {
    && b.at + 2 < |mem| && mem[b.at] == MAGIC && mem[b.at + 1] == b.size
    && (mem[b.at + 2] % 256 != 0 <==> b.free)
  }

  ghost predicate Written(mem: seq<nat>, bs: seq<Block>)
  {
    forall i :: 0 <= i < |bs| ==> HeaderAt(mem, bs[i])
  }

  /** A word with its lowest byte replaced: the flag byte of a header. */
  function WithByte(w: nat, b: nat): nat
  {
    w - w % 256 + b % 256
  }

  lemma FlagByte(w: nat, b: nat)
    requires b < 256
    ensures WithByte(w, b) % 256 == b
  {
  }

  /** Memory after block b has been cut to s bytes, or taken whole. */
  function CarvedMem(mem: seq<nat>, b: Block, s: nat): seq<nat>
    requires End(b) <= |mem| && s <= b.size && s % 4 == 0
  {
    if b.size - s >= HEADER + MIN_SPLIT then
      var r := b.at + HEADER / 4 + s / 4;
      mem[r := MAGIC][r + 1 := b.size - s - HEADER][r + 2 := WithByte(mem[r + 2], 1)]
         [b.at + 1 := s][b.at + 2 := WithByte(mem[b.at + 2], 0)]
    else mem[b.at + 2 := WithByte(mem[b.at + 2], 0)]
  }

  lemma CarvedHeaders(mem: seq<nat>, b: Block, s: nat)
    requires HeaderAt(mem, b) && End(b) <= |mem| && s <= b.size && s % 4 == 0 && b.size % 4 == 0
    ensures forall w :: 0 <= w < |mem| && !(b.at <= w < End(b)) ==> CarvedMem(mem, b, s)[w] == mem[w]
    ensures var cs, mem' := Carved([b], 0, s), CarvedMem(mem, b, s);
      && Written(mem', cs) && |mem'| == |mem| && cs[0].at == b.at
      && forall w :: 0 <= w < |mem| && !InHeader(cs, w) ==> mem'[w] == mem[w]
  {
    hide WithByte;
    var cs, mem' := Carved([b], 0, s), CarvedMem(mem, b, s);
    FlagByte(mem[b.at + 2], 0);
    if b.size - s >= HEADER + MIN_SPLIT {
      FlagByte(mem[b.at + HEADER / 4 + s / 4 + 2], 1);
    }
    forall w | 0 <= w < |mem| && mem'[w] != mem[w] ensures InHeader(cs, w) {
      if b.at <= w < b.at + HEADER / 4 {
        assert cs[0].at == b.at;
      } else {
        assert cs[1].at == b.at + HEADER / 4 + s / 4;
      }
    }
  }

  lemma CarvedWritten(mem: seq<nat>, bs: seq<Block>, i: nat, s: nat)
    requires |mem| == WORDS && Tiled(bs) && Written(mem, bs) && i < |bs| && s <= bs[i].size && s % 4 == 0
    ensures End(bs[i]) <= WORDS
    ensures Written(CarvedMem(mem, bs[i], s), Carved(bs, i, s))
    ensures forall w :: 0 <= w < WORDS && !InHeader(Carved(bs, i, s), w) ==> CarvedMem(mem, bs[i], s)[w] == mem[w]
  {
    hide CarvedMem, HeaderAt;
    assert HeaderAt(mem, bs[i]) && Fits(bs, i);
    Inside(bs, i);
    CarvedHeaders(mem, bs[i], s);
    var cs, ds, mem' := Carved(bs, i, s), Carved([bs[i]], 0, s), CarvedMem(mem, bs[i], s);
    assert forall k :: 0 <= k < |ds| ==> cs[i + k] == ds[k];
    forall k | 0 <= k < |bs| && k != i ensures HeaderAt(mem', bs[k]) {
      assert HeaderAt(mem, bs[k]);
      Inside(bs, k);
      if k < i {
        InOrder(bs, k, i);
      } else {
        InOrder(bs, i, k);
      }
      HeaderKept(mem, mem', bs[k], bs[i]);
    }
    forall k | 0 <= k < |cs| ensures HeaderAt(mem', cs[k]) {
      if k < i {
        assert cs[k] == bs[k];
      } else if k < i + |ds| {
        assert cs[k] == ds[k - i];
      } else {
        assert cs[k] == bs[k - |ds| + 1];
      }
    }
    forall w | 0 <= w < WORDS && InHeader(ds, w) ensures InHeader(cs, w) {
      var k :| 0 <= k < |ds| && ds[k].at <= w < ds[k].at + HEADER / 4;
      assert cs[i + k] == ds[k];
    }
  }

  lemma HeaderKept(mem: seq<nat>, mem': seq<nat>, b: Block, other: Block)
    requires HeaderAt(mem, b) && End(b) <= |mem| == |mem'| && (End(b) <= other.at || End(other) <= b.at)
    requires forall w :: 0 <= w < |mem| && !(other.at <= w < End(other)) ==> mem'[w] == mem[w]
    ensures HeaderAt(mem', b)
  {
  }

  function ReleasedMem(mem: seq<nat>, bs: seq<Block>, i: nat): seq<nat>
    requires i < |bs| && bs[i].at + 2 < |mem|
  {
    var mem1 := mem[bs[i].at + 2 := WithByte(mem[bs[i].at + 2], 1)];
    if i + 1 < |bs| && bs[i + 1].free then mem1[bs[i].at + 1 := bs[i].size + HEADER + bs[i + 1].size] else mem1
  }

  lemma ReleasedWritten(mem: seq<nat>, bs: seq<Block>, i: nat)
    requires |mem| == WORDS && Tiled(bs) && Written(mem, bs) && i < |bs|
    ensures bs[i].at + 2 < WORDS
    ensures Written(ReleasedMem(mem, bs, i), Released(bs, i))
    ensures forall w :: 0 <= w < WORDS && !InHeader(Released(bs, i), w) ==> ReleasedMem(mem, bs, i)[w] == mem[w]
  {
    assert HeaderAt(mem, bs[i]);
    var cs, mem' := Released(bs, i), ReleasedMem(mem, bs, i);
    forall k | 0 <= k < |bs| && k != i ensures HeaderAt(mem', bs[k]) {
      if k < i {
        InOrder(bs, k, i);
      } else {
        InOrder(bs, i, k);
      }
      assert HeaderAt(mem, bs[k]);
    }
    assert cs[i].at == bs[i].at;
    if i + 1 < |bs| && bs[i + 1].free {
      forall k | 0 <= k < |cs| ensures HeaderAt(mem', cs[k]) {
        if k > i {
          assert cs[k] == bs[k + 1];
        }
      }
    }
  }

  // ----- used blocks, by the pointers handed out

  const HEAP_START := 0x0100_0000

  /** The pointer to the data of a block. */
  function Pointer(b: Block): nat
  {
    HEAP_START + 4 * b.at + HEADER
  }

  ghost predicate LiveIs(bs: seq<Block>, live: set<nat>)
  {
    && (forall i :: 0 <= i < |bs| && !bs[i].free ==> Pointer(bs[i]) in live)
    && (forall p :: p in live ==> exists i :: 0 <= i < |bs| && !bs[i].free && Pointer(bs[i]) == p)
  }

  lemma PointersDiffer(bs: seq<Block>, i: nat, j: nat)
    requires Tiled(bs) && i < |bs| && j < |bs| && i != j
    ensures Pointer(bs[i]) != Pointer(bs[j])
  {
    if i < j {
      InOrder(bs, i, j);
    } else {
      InOrder(bs, j, i);
    }
  }

  /** Pointers are aligned, and the regions they stand for lie inside the heap and apart. */
  lemma PointersApart(bs: seq<Block>, i: nat, j: nat)
    requires Tiled(bs) && i < j < |bs|
    ensures Pointer(bs[i]) % 4 == 0 && HEAP_START + HEADER <= Pointer(bs[i])
    ensures Pointer(bs[i]) + bs[i].size + HEADER <= Pointer(bs[j])
    ensures Pointer(bs[j]) + bs[j].size <= HEAP_START + 4 * WORDS
  {
    InOrder(bs, i, j);
    Inside(bs, j);
    assert Fits(bs, i) && Fits(bs, j);
  }

  lemma CarvedLive(bs: seq<Block>, i: nat, s: nat, live: set<nat>)
    requires Tiled(bs) && i < |bs| && Takes(bs[i], s) && LiveIs(bs, live)
    ensures LiveIs(Carved(bs, i, s), live + {Pointer(bs[i])}) && Pointer(bs[i]) !in live
  {
    var cs := Carved(bs, i, s);
    forall p | p in live ensures p != Pointer(bs[i]) && exists k ::
      0 <= k < |cs| && !cs[k].free && Pointer(cs[k]) == p {
      var k :| 0 <= k < |bs| && !bs[k].free && Pointer(bs[k]) == p;
      PointersDiffer(bs, k, i);
      if k < i {
        assert cs[k] == bs[k];
      } else {
        assert cs[k + |cs| - |bs|] == bs[k];
      }
    }
    assert !cs[i].free && Pointer(cs[i]) == Pointer(bs[i]);
    forall k | 0 <= k < |cs| && !cs[k].free && k != i ensures Pointer(cs[k]) in live {
      if k < i {
        assert cs[k] == bs[k];
      } else {
        assert cs[k] == bs[k - (|cs| - |bs|)];
      }
    }
  }

  lemma ReleasedLive(bs: seq<Block>, i: nat, live: set<nat>)
    requires Tiled(bs) && i < |bs| && !bs[i].free && LiveIs(bs, live)
    ensures LiveIs(Released(bs, i), live - {Pointer(bs[i])}) && Pointer(bs[i]) in live
  {
    var cs := Released(bs, i);
    var d := |bs| - |cs|;
    forall p | p in live - {Pointer(bs[i])}
      ensures exists k :: 0 <= k < |cs| && !cs[k].free && Pointer(cs[k]) == p
    {
      var k :| 0 <= k < |bs| && !bs[k].free && Pointer(bs[k]) == p;
      if k < i {
        assert cs[k] == bs[k];
      } else {
        assert cs[k - d] == bs[k];
      }
    }
    forall k | 0 <= k < |cs| && !cs[k].free ensures Pointer(cs[k]) in live - {Pointer(bs[i])} {
      assert k != i;
      if k < i {
        assert cs[k] == bs[k];
        PointersDiffer(bs, k, i);
      } else {
        assert cs[k] == bs[k + d];
        PointersDiffer(bs, k + d, i);
      }
    }
  }

  /** Only the block that is taken or released changes hands: every other used block stays as it is. */
  lemma OthersStay(bs: seq<Block>, i: nat, s: nat, k: nat)
    requires i < |bs| && k < |bs| && k != i && !bs[k].free
    ensures Takes(bs[i], s) ==> bs[k] in Carved(bs, i, s)
    ensures !bs[i].free ==> bs[k] in Released(bs, i)
  {
    if Takes(bs[i], s) {
      var cs := Carved(bs, i, s);
      assert bs[k] == cs[if k < i then k else k + |cs| - |bs|];
    }
    if !bs[i].free {
      var cs := Released(bs, i);
      assert bs[k] == cs[if k < i then k else k + |cs| - |bs|];
    }
  }

  /** The free bytes in total. */
  function FreeBytes(bs: seq<Block>): nat
  {
    if bs == [] then 0 else FreeBytes(bs[..|bs| - 1]) + if bs[|bs| - 1].free then bs[|bs| - 1].size else 0
  }

  lemma {:induction false} FreeBytesOf(a: seq<Block>, b: seq<Block>)
    ensures FreeBytes(a + b) == FreeBytes(a) + FreeBytes(b)
  {
    if b == [] {
      assert a + b == a;
    } else {
      FreeBytesOf(a, b[..|b| - 1]);
      assert (a + b)[..|a + b| - 1] == a + b[..|b| - 1];
    }
  }

  lemma FreeBytesAround(bs: seq<Block>, i: nat, n: nat)
    requires i + n <= |bs|
    ensures FreeBytes(bs) == FreeBytes(bs[..i]) + FreeBytes(bs[i..i + n]) + FreeBytes(bs[i + n..])
  {
    assert bs == bs[..i] + (bs[i..i + n] + bs[i + n..]);
    FreeBytesOf(bs[..i], bs[i..i + n] + bs[i + n..]);
    FreeBytesOf(bs[i..i + n], bs[i + n..]);
  }

  lemma FreeBytesFew(a: Block, b: Block)
    ensures FreeBytes([a]) == if a.free then a.size else 0
    ensures FreeBytes([a, b]) == (if a.free then a.size else 0) + if b.free then b.size else 0
  {
    assert [a, b][..1] == [a] && [a][..0] == [];
  }

  /** A freed block adds its size to what is free, and twelve bytes exactly when it swallows the next. */
  lemma FreeingAdds(bs: seq<Block>, i: nat)
    requires i < |bs| && !bs[i].free
    ensures FreeBytes(Released(bs, i)) ==
      FreeBytes(bs) + bs[i].size + if i + 1 < |bs| && bs[i + 1].free then 12 else 0
  {
    hide FreeBytes;
    var cs := Released(bs, i);
    ReleasedBlocks(bs, i);
    var n := if i + 1 < |bs| && bs[i + 1].free then 2 else 1;
    FreeBytesAround(bs, i, n);
    FreeBytesAround(cs, i, 1);
    assert cs[..i] == bs[..i] && cs[i + 1..] == bs[i + n..] && cs[i..i + 1] == [cs[i]];
    FreeBytesFew(cs[i], cs[i]);
    FreeBytesFew(bs[i], if n == 2 then bs[i + 1] else bs[i]);
    assert bs[i..i + n] == if n == 2 then [bs[i], bs[i + 1]] else [bs[i]];
  }

  /** Taking s bytes costs s and a header when something is left, or else all of the block. */
  lemma TakingCosts(bs: seq<Block>, i: nat, s: nat)
    requires i < |bs| && bs[i].free && s <= bs[i].size
    ensures FreeBytes(bs) == FreeBytes(Carved(bs, i, s)) + if bs[i].size - s >= 28 then s + 12 else bs[i].size
  {
    hide FreeBytes;
    var cs := Carved(bs, i, s);
    CarvedBlocks(bs, i, s);
    var n := if bs[i].size - s >= 28 then 2 else 1;
    FreeBytesAround(bs, i, 1);
    FreeBytesAround(cs, i, n);
    assert cs[..i] == bs[..i] && cs[i + n..] == bs[i + 1..] && bs[i..i + 1] == [bs[i]];
    FreeBytesFew(bs[i], bs[i]);
    FreeBytesFew(cs[i], if n == 2 then cs[i + 1] else cs[i]);
    assert cs[i..i + n] == if n == 2 then [cs[i], cs[i + 1]] else [cs[i]];
  }

  lemma {:induction false} FreeAtMostTotal(bs: seq<Block>)
    ensures FreeBytes(bs) <= Total(bs)
  {
    if bs != [] {
      FreeAtMostTotal(bs[..|bs| - 1]);
    }
  }
}
