/** The whole life of an address space: created, filled page by page with fresh frames, and freed. */
module SpaceLives {
  import opened Words
  import opened PageTables
  import opened UserSpaces
  import opened FrameCounts
  import opened Vmm
  import opened ForkSteps
  import opened Fork
  import Pmm

  /** The pages are below 1 GB, and each is listed once. */
  ghost predicate Mappable(pages: seq<nat>)
  {
    && (forall k :: 0 <= k < |pages| ==> pages[k] < PAGES)
    && (forall k, l :: 0 <= k < l < |pages| ==> pages[k] != pages[l])
  }

  ghost function Listed(pages: seq<nat>): set<nat>
  {
    set p | p in pages
  }

  /** The pages at directory slots where the kernel has a 4 KB table. */
  ghost function Intruding(m: Memory, kernelDir: nat, pages: set<nat>): set<nat>
  {
    set p | p in pages && p / 512 in KernelSlots(m, kernelDir)
  }

  /** The frames it takes to map them: the tables of a space with the others, and one for each of these. */
  ghost function FramesToFill(m: Memory, kernelDir: nat, pages: set<nat>): nat
  {
    var into := Intruding(m, kernelDir, pages);
    FramesFor(pages - into) + |into|
  }

  /** b is the memory m0 but for frames that are lost, one for each page in `into`, and the kernel's tables
      that lead to them. */
  ghost predicate LostTo(m0: Memory, b: Memory, free0: set<nat>, base: set<nat>, k: Kernel, into: set<nat>)
  {
    && base <= free0 && |free0 - base| == |into|
    && |b| == |m0| && k.dir < |m0| && b[k.dir] == m0[k.dir]
    && (forall f :: 0 <= f < |m0| && f !in free0 && f !in k.frames ==> b[f] == m0[f])
    && (into == {} ==> b == m0)
  }

  /** Space r is under construction, and exactly the pages in `done` have been mapped. */
  ghost predicate Filling(mach: Machine, m0: Memory, r: nat, spaces0: map<nat, map<nat, Role>>, free0: set<nat>,
                          b: Memory, base: set<nat>, done: set<nat>)
    reads mach, mach.pmm, mach.pmm.bitmap, mach.ram
  {
    && mach.Valid() && Sound(b, spaces0, base, KernelOf(mach))
    && Growing(b, mach.ram[..], r, spaces0, mach.spaces, mach.kernel, base, mach.pmm.free, mach.pdTable)
    && InheritsIn(mach.ram[..], r, KernelSlots(m0, mach.pdTable))
    && Pages(mach.ram[..], r) == done - Intruding(m0, mach.pdTable, done)
    && LostTo(m0, b, free0, base, KernelOf(mach), Intruding(m0, mach.pdTable, done))
  }

  /** A frame just allocated is ready to be mapped at a page that is not mapped yet. */
  lemma FreshReady(b: Memory, m: Memory, r: nat, spaces0: map<nat, map<nat, Role>>, spaces: map<nat, map<nat, Role>>,
                   kernel: set<nat>, base: set<nat>, free: set<nat>, kernelDir: nat, page: nat, dst: nat)
    requires Growing(b, m, r, spaces0, spaces, kernel, base, free, kernelDir)
    requires InheritsIn(m, r, KernelSlots(b, kernelDir)) && page < PAGES
    requires page !in Pages(m, r) && dst in free && Pmm.RESERVED_FRAMES <= dst < Pmm.FRAMES
    ensures r in spaces && Isolated(m, spaces, kernel, free - {dst}) && Loose(dst, spaces, kernel, free - {dst})
    ensures UserEntry(m, DirOf(m, r), page / 512, page % 512) == None
    ensures Inherits(m, r, page / 512) <==> page / 512 in KernelSlots(b, kernelDir)
    ensures page / 512 in KernelSlots(b, kernelDir) ==> IsTable(DirEntry(m, DirOf(m, r), page / 512))
    ensures |m| == |b|
  {
    hide Isolated, UserEntry, Loose;
    LooseAfterAlloc(m, spaces, kernel, free, dst);
  }

  /** Mapped in a table of the space, it makes its page one of the space's. */
  lemma FreshMapped(b: Memory, m: Memory, m': Memory, r: nat, spaces0: map<nat, map<nat, Role>>,
                    spaces: map<nat, map<nat, Role>>, spaces': map<nat, map<nat, Role>>, kernel: set<nat>,
                    base: set<nat>, free: set<nat>, free': set<nat>, kernelDir: nat, page: nat, w: Word)
    requires Growing(b, m, r, spaces0, spaces, kernel, base, free, kernelDir) && page < PAGES && w.frame in free
    requires InheritsIn(m, r, KernelSlots(b, kernelDir)) && page / 512 !in KernelSlots(b, kernelDir)
    requires Isolated(m', spaces', kernel, free')
    requires MappedForUser(m, m', spaces, spaces', kernel, free - {w.frame}, free', r, page / 512, page % 512, w)
    ensures Growing(b, m', r, spaces0, spaces', kernel, base, free', kernelDir)
    ensures InheritsIn(m', r, KernelSlots(b, kernelDir))
    ensures Pages(m', r) == Pages(m, r) + {page}
  {
    hide Space, Isolated, UserEntry, KernelSlots;
    assert Owned(spaces'[r], kernel) == base - free';
    MappedInherits(m, m', r, b, kernelDir, page / 512, page % 512, w);
    forall p: nat | p < PAGES
      ensures UserEntry(m', DirOf(m', r), p / 512, p % 512).Some? <==>
        p == page || UserEntry(m, DirOf(m, r), p / 512, p % 512).Some?
    {
      assert p / 512 == page / 512 && p % 512 == page % 512 ==> p == page;
    }
  }

  /** Mapped in a table of the kernel's, its frame is lost, and the space is what it was. */
  lemma FreshIntruded(m0: Memory, b: Memory, m: Memory, m': Memory, r: nat, spaces0: map<nat, map<nat, Role>>,
                      spaces: map<nat, map<nat, Role>>, k: Kernel, free0: set<nat>, base: set<nat>, free: set<nat>,
                      into: set<nat>, page: nat, w: Word)
    requires Sound(b, spaces0, base, k) && Growing(b, m, r, spaces0, spaces, k.frames, base, free, k.dir)
    requires InheritsIn(m, r, KernelSlots(m0, k.dir)) && LostTo(m0, b, free0, base, k, into)
    requires page < PAGES && page / 512 in KernelSlots(m0, k.dir) && w.frame in free && page !in into
    requires IntoKernelTable(m, m', k.dir, page / 512, page % 512, w) && Sound(m', spaces, free - {w.frame}, k)
    requires w.frame < |m0|
    ensures var b' := Spilt(b, m', k.dir, page / 512, page % 512, w);
      && Sound(b', spaces0, base - {w.frame}, k)
      && Growing(b', m', r, spaces0, spaces, k.frames, base - {w.frame}, free - {w.frame}, k.dir)
      && LostTo(m0, b', free0, base - {w.frame}, k, into + {page})
    ensures InheritsIn(m', r, KernelSlots(m0, k.dir)) && Pages(m', r) == Pages(m, r)
  {
    hide Sound, UserEntry, Spilt, Isolated, InheritsOnly;
    assert KernelSlots(b, k.dir) == KernelSlots(m0, k.dir);
    GrowingSpilt(b, m, m', r, spaces0, spaces, k, base, free, page / 512, page % 512, w);
    assert free0 - (base - {w.frame}) == free0 - base + {w.frame};
  }

  /** A page whose frame, or whose table, cannot be had does not fit. */
  lemma DoesNotFit(m0: Memory, b: Memory, m: Memory, r: nat, spaces0: map<nat, map<nat, Role>>,
                   spaces: map<nat, map<nat, Role>>, k: Kernel, free0: set<nat>, base: set<nat>, free: set<nat>,
                   done: set<nat>, page: nat)
    requires Growing(b, m, r, spaces0, spaces, k.frames, base, free, k.dir)
    requires Pages(m, r) == done - Intruding(m0, k.dir, done)
    requires LostTo(m0, b, free0, base, k, Intruding(m0, k.dir, done)) && page < PAGES && page !in done
    ensures |free0| == |free| + FramesToFill(m0, k.dir, done)
    ensures
      free == {} || (|free| == 1 && page / 512 !in KernelSlots(m0, k.dir)
                       && !IsTable(DirEntry(m, DirOf(m, r), page / 512)))
      ==> |free0| < FramesToFill(m0, k.dir, done + {page})
  {
    hide Growing, FramesFor, KernelSlots, Intruding, UserEntry;
    GrowingCount(b, m, r, spaces0, spaces, k.frames, base, free, k.dir);
    assert free0 == base + (free0 - base);
    FillMore(m0, k.dir, done, page);
    if !IsTable(DirEntry(m, DirOf(m, r), page / 512)) {
      RowsAreTables(m, r, page / 512);
    }
  }

  /** One more page takes one more frame, and another one for the table of its row. */
  lemma FillMore(m: Memory, kernelDir: nat, done: set<nat>, page: nat)
    requires page < PAGES && page !in done
    ensures FramesToFill(m, kernelDir, done) < FramesToFill(m, kernelDir, done + {page})
    ensures page / 512 !in KernelSlots(m, kernelDir) && page / 512 !in Rows(done - Intruding(m, kernelDir, done)) ==>
      FramesToFill(m, kernelDir, done) + 1 < FramesToFill(m, kernelDir, done + {page})
  {
    hide FramesFor, KernelSlots, Rows;
    var into, next := Intruding(m, kernelDir, done), Intruding(m, kernelDir, done + {page});
    if page / 512 in KernelSlots(m, kernelDir) {
      assert next == into + {page} && done + {page} - next == done - into;
    } else {
      assert next == into && done + {page} - next == done - into + {page};
      MorePages(done - into, done - into + {page}, page);
    }
  }

  ghost predicate ReadyAt(m: Memory, r: nat, page: nat, frame: nat, slots: set<nat>, spaces: map<nat, map<nat, Role>>,
                          kernel: set<nat>, free: set<nat>)
  {
    && page < PAGES && Pmm.RESERVED_FRAMES <= frame < |m| && Loose(frame, spaces, kernel, free)
    && UserEntry(m, DirOf(m, r), page / 512, page % 512) == None
    && (Inherits(m, r, page / 512) <==> page / 512 in slots)
  }

  ghost predicate TableAt(m: Memory, r: nat, page: nat)
  {
    page < PAGES && IsTable(DirEntry(m, DirOf(m, r), page / 512))
  }

  /** A frame that is ready to be mapped at the page, if there is one. */
  method TakeFrame(mach: Machine, r: nat, page: nat, ghost m0: Memory, ghost spaces0: map<nat, map<nat, Role>>,
                   ghost free0: set<nat>, ghost b: Memory, ghost base: set<nat>, ghost done: set<nat>)
    returns (frame: nat)
    requires Filling(mach, m0, r, spaces0, free0, b, base, done) && page < PAGES && page !in done
    modifies mach.pmm, mach.pmm.bitmap
    ensures mach.Valid() && r in mach.spaces && mach.ram.Length == |m0|
    ensures frame == 0 ==>
      && Filling(mach, m0, r, spaces0, free0, b, base, done)
      && |free0| < FramesToFill(m0, mach.pdTable, done + {page})
    ensures frame != 0 ==>
      && frame in old(mach.pmm.free) && mach.pmm.free == old(mach.pmm.free) - {frame}
      && ReadyAt(mach.ram[..], r, page, frame, KernelSlots(m0, mach.pdTable), mach.spaces, mach.kernel, mach.pmm.free)
      && (mach.pmm.free == {} && !TableAt(mach.ram[..], r, page) ==>
            |free0| < FramesToFill(m0, mach.pdTable, done + {page}))
  {
    hide Isolated, KernelTables, Sharing, InheritsOnly, UserEntry, Owned, Loose, Inherits, InheritsIn, LostTo,
      FramesToFill;
    hide Pmm.FrameAllocator.Valid, Pmm.LowestFirst, DirEntry, DirOf, IsTable, Pages, Growing, Intruding,
      KernelSlots;
    ghost var k := KernelOf(mach);
    ghost var m1, free1, spaces1 := mach.ram[..], mach.pmm.free, mach.spaces;
    DoesNotFit(m0, b, m1, r, spaces0, spaces1, k, free0, base, free1, done, page);
    SameSlots(m0, b, free0, base, k, Intruding(m0, mach.pdTable, done));
    GrowsFrom(b, m1, r, spaces0, spaces1, mach.kernel, base, free1, mach.pdTable);
    frame := mach.pmm.AllocFrame();
    if frame != 0 {
      FreshReady(b, m1, r, spaces0, spaces1, mach.kernel, base, free1, mach.pdTable, page, frame);
      assert mach.pmm.free == {} ==> free1 == {frame};
    }
  }

  lemma GrowsFrom(b: Memory, m: Memory, r: nat, spaces0: map<nat, map<nat, Role>>, spaces: map<nat, map<nat, Role>>,
                  kernel: set<nat>, base: set<nat>, free: set<nat>, kernelDir: nat)
    requires Growing(b, m, r, spaces0, spaces, kernel, base, free, kernelDir)
    ensures r in spaces && |m| == |b|
  {
  }

  /** Allocates a frame and maps it at the page; when that fails the frame is given back. */
  method MapFresh(mach: Machine, r: nat, page: nat, flags: Flags, ghost m0: Memory,
                  ghost spaces0: map<nat, map<nat, Role>>, ghost free0: set<nat>, ghost b: Memory,
                  ghost base: set<nat>, ghost done: set<nat>)
    returns (ok: bool, ghost b': Memory, ghost base': set<nat>)
    requires Filling(mach, m0, r, spaces0, free0, b, base, done) && page < PAGES && page !in done && flags.user
    modifies mach`spaces, mach.pmm, mach.pmm.bitmap, mach.ram
    ensures Filling(mach, m0, r, spaces0, free0, b', base', if ok then done + {page} else done)
    ensures !ok ==> |free0| < FramesToFill(m0, mach.pdTable, done + {page})
  {
    hide Space, Tree, KernelTables, Sharing, InheritsOnly, UserEntry, OnlySlot, SamePages, TablesTurnUser,
      Isolated, Owned, Loose, MappedForUser, IntoKernelTable, Inherits, InheritsIn, LostTo, FramesToFill;
    hide Pmm.FrameAllocator.Valid, Pmm.LowestFirst, DirEntry, DirOf, IsTable, Pages, Pml4Idx, PdptIdx, PdIdx,
      PtIdx, Growing, Intruding, KernelSlots, Spilt;
    b', base' := b, base;
    ghost var k := KernelOf(mach);
    ghost var m1, free1, spaces1 := mach.ram[..], mach.pmm.free, mach.spaces;
    var frame := TakeFrame(mach, r, page, m0, spaces0, free0, b, base, done);
    if frame == 0 {
      return false, b', base';
    }
    SameSlots(m0, b, free0, base, k, Intruding(m0, mach.pdTable, done));
    SlotAddress(page / 512, page % 512);
    ok := mach.MapUserPage(r, page / 512 * 0x20_0000 + page % 512 * 4096, frame, flags);
    ghost var w := Word(frame, flags.(present := true));
    MoreIntruding(m0, mach.pdTable, done, page);
    if !ok {
      mach.pmm.FreeFrame(frame);
      assert mach.pmm.free == free1;
    } else if page / 512 in KernelSlots(m0, mach.pdTable) {
      FreshIntruded(m0, b, m1, mach.ram[..], r, spaces0, spaces1, k, free0, base, free1,
                    Intruding(m0, mach.pdTable, done), page, w);
      b', base' := Spilt(b, mach.ram[..], mach.pdTable, page / 512, page % 512, w), base - {frame};
    } else {
      FreshMapped(b, m1, mach.ram[..], r, spaces0, spaces1, mach.spaces, mach.kernel, base, free1, mach.pmm.free,
                  mach.pdTable, page, w);
    }
  }

  lemma SameSlots(m0: Memory, b: Memory, free0: set<nat>, base: set<nat>, k: Kernel, into: set<nat>)
    requires LostTo(m0, b, free0, base, k, into)
    ensures KernelSlots(b, k.dir) == KernelSlots(m0, k.dir) && |b| == |m0|
  {
  }

  lemma MoreIntruding(m: Memory, kernelDir: nat, done: set<nat>, page: nat)
    requires page !in done
    ensures var into, next := Intruding(m, kernelDir, done), Intruding(m, kernelDir, done + {page});
      && page !in into
      && (page / 512 in KernelSlots(m, kernelDir) ==> next == into + {page} && done + {page} - next == done - into)
      && (page / 512 !in KernelSlots(m, kernelDir) ==>
            next == into && done + {page} - next == done - into + {page})
  {
    hide KernelSlots;
  }

  lemma NoPagesYet(m: Memory, r: nat)
    requires forall i: Index, j: Index :: UserEntry(m, DirOf(m, r), i, j) == None
    ensures Pages(m, r) == {}
  {
    hide UserEntry;
    forall p: nat | p < PAGES ensures UserEntry(m, DirOf(m, r), p / 512, p % 512) == None {
      var i: Index, j: Index := p / 512, p % 512;
    }
  }

  lemma StartFilling(mach: Machine, r: nat, m0: Memory, spaces0: map<nat, map<nat, Role>>, free0: set<nat>)
    requires mach.Valid() && Sound(m0, spaces0, free0, KernelOf(mach))
    requires JustCreated(m0, mach.ram[..], spaces0, mach.spaces, mach.kernel, free0, mach.pmm.free, mach.pdTable, r)
    ensures Filling(mach, m0, r, spaces0, free0, m0, free0, {})
  {
    hide UserEntry, Space, KernelTables, Sharing;
    KernelDirectory(m0, spaces0, mach.kernel, free0, mach.kernelRoot, mach.kernelRole, mach.pdptTable, mach.pdTable);
    NoPagesYet(mach.ram[..], r);
  }

  /** What the frames and the memory are when the pages in `done` have been mapped. */
  lemma WhatIsTaken(mach: Machine, m0: Memory, r: nat, spaces0: map<nat, map<nat, Role>>, free0: set<nat>, b: Memory,
                    base: set<nat>, done: set<nat>)
    requires Filling(mach, m0, r, spaces0, free0, b, base, done)
    ensures mach.Valid() && r in mach.spaces && mach.spaces - {r} == spaces0 && |mach.ram[..]| == |m0|
    ensures mach.pmm.free + Owned(mach.spaces[r], mach.kernel) == base
    ensures base <= free0 && |free0 - base| == |Intruding(m0, mach.pdTable, done)|
    ensures |free0| >= FramesToFill(m0, mach.pdTable, done)
    ensures forall f :: 0 <= f < mach.ram.Length && f !in free0 && (base == free0 || f !in mach.kernel) ==>
      mach.ram[f] == m0[f]
  {
    hide Isolated, KernelTables, Sharing, InheritsOnly, FramesFor, Pages, Owned, Intruding, InheritsIn,
      Pmm.FrameAllocator.Valid;
    GrowingCount(b, mach.ram[..], r, spaces0, mach.spaces, mach.kernel, base, mach.pmm.free, mach.pdTable);
    assert free0 == base + (free0 - base);
  }

  lemma ListedMore(pages: seq<nat>, k: nat)
    requires k < |pages| && forall i, j :: 0 <= i < j < |pages| ==> pages[i] != pages[j]
    ensures Listed(pages[..k + 1]) == Listed(pages[..k]) + {pages[k]} && pages[k] !in Listed(pages[..k])
  {
    assert pages[..k + 1] == pages[..k] + [pages[k]];
  }

  /** Maps the pages one after the other until one does not fit. */
  method FillPages(mach: Machine, r: nat, pages: seq<nat>, flags: Flags, ghost m0: Memory,
                   ghost spaces0: map<nat, map<nat, Role>>, ghost free0: set<nat>)
    returns (mapped: nat, ghost b: Memory, ghost base: set<nat>)
    requires Filling(mach, m0, r, spaces0, free0, m0, free0, {}) && flags.user && Mappable(pages)
    modifies mach`spaces, mach.pmm, mach.pmm.bitmap, mach.ram
    ensures mapped <= |pages| && Filling(mach, m0, r, spaces0, free0, b, base, Listed(pages[..mapped]))
    ensures mapped < |pages| ==> |free0| < FramesToFill(m0, mach.pdTable, Listed(pages[..mapped + 1]))
  {
    hide FramesToFill, Listed, Filling;
    mapped := 0;
    b, base := m0, free0;
    NothingListed(pages);
    while mapped < |pages|
      invariant 0 <= mapped <= |pages|
      invariant Filling(mach, m0, r, spaces0, free0, b, base, Listed(pages[..mapped]))
    {
      ListedMore(pages, mapped);
      var ok;
      ok, b, base := MapFresh(mach, r, pages[mapped], flags, m0, spaces0, free0, b, base, Listed(pages[..mapped]));
      if !ok {
        break;
      }
      mapped := mapped + 1;
    }
  }

  /** create, map fresh frames at the pages one after the other, free: all pages get mapped exactly when
      there are frames for them and their tables. Afterwards one frame is gone for each page that was
      mapped at a slot where the kernel has a 4 KB table, so the free frames are what they were exactly if
      there was none. */
  method Live(mach: Machine, pages: seq<nat>, flags: Flags) returns (mapped: int)
    requires mach.Valid() && flags.user && Mappable(pages)
    modifies mach`spaces, mach.pmm, mach.pmm.bitmap, mach.ram
    ensures mach.Valid() && mach.spaces == old(mach.spaces) && mach.pmm.free <= old(mach.pmm.free)
    ensures mapped == -1 <==> |old(mach.pmm.free)| < 3
    ensures -1 <= mapped <= |pages|
    ensures mapped == -1 ==> mach.pmm.free == old(mach.pmm.free)
    ensures mapped >= 0 ==>
      var into := Intruding(old(mach.ram[..]), mach.pdTable, Listed(pages[..mapped]));
      |old(mach.pmm.free) - mach.pmm.free| == |into| && (mach.pmm.free == old(mach.pmm.free) <==> into == {})
    ensures forall f ::
      0 <= f < mach.ram.Length && f !in old(mach.pmm.free) && f !in mach.kernel ==> mach.ram[f] == old(mach.ram[f])
    ensures mach.pmm.free == old(mach.pmm.free) ==>
      forall f :: 0 <= f < mach.ram.Length && f !in mach.pmm.free ==> mach.ram[f] == old(mach.ram[f])
    ensures mapped >= 0 ==>
      FramesToFill(old(mach.ram[..]), mach.pdTable, Listed(pages[..mapped])) <= |old(mach.pmm.free)|
    ensures 0 <= mapped < |pages| ==>
      |old(mach.pmm.free)| < FramesToFill(old(mach.ram[..]), mach.pdTable, Listed(pages[..mapped + 1]))
  {
    hide Isolated, Space, Tree, KernelTables, Sharing, UserEntry, Owned, FramesToFill, Listed, Filling,
      Intruding, Pmm.FrameAllocator.Valid, Pmm.LowestFirst;
    ghost var m0, spaces0, free0 := mach.ram[..], mach.spaces, mach.pmm.free;
    KernelDirectory(m0, spaces0, mach.kernel, free0, mach.kernelRoot, mach.kernelRole, mach.pdptTable, mach.pdTable);
    var cr3 := mach.CreateUserPt();
    if cr3 == 0 {
      return -1;
    }
    StartFilling(mach, cr3, m0, spaces0, free0);
    ghost var b, base;
    mapped, b, base := FillPages(mach, cr3, pages, flags, m0, spaces0, free0);
    WhatIsTaken(mach, m0, cr3, spaces0, free0, b, base, Listed(pages[..mapped]));
    LeftOver(free0, base);
    mach.FreeUserPt(cr3);
    assert mach.pmm.free == base;
  }

  lemma NothingListed(pages: seq<nat>)
    ensures Listed(pages[..0]) == {}
  {
  }
}
