/** fork's copy of an address space, made in place: the loops of vmm_clone_user_pt. */
module Fork {
  import opened Words
  import opened PageTables
  import opened UserSpaces
  import opened FrameCounts
  import opened Vmm
  import opened ForkSteps
  import opened Rights
  import Pmm

  ghost function KernelOf(mach: Machine): Kernel
    reads mach
  {
    Kernel(mach.kernel, mach.kernelRoot, mach.kernelRole, mach.pdptTable, mach.pdTable)
  }

  /** The loop stands at page n of the parent. */
  ghost predicate Forking(mach: Machine, m0: Memory, spaces0: map<nat, map<nat, Role>>, free0: set<nat>, b: Memory,
                          base: set<nat>, parent: nat, child: nat, n: nat)
    reads mach, mach.pmm, mach.pmm.bitmap, mach.ram
  {
    && mach.Valid() && Sound(m0, spaces0, free0, KernelOf(mach))
    && Cloning(b, mach.ram[..], parent, child, spaces0, mach.spaces, KernelOf(mach), base, mach.pmm.free)
    && CopiedUpTo(mach.ram[..], parent, child, KernelSlots(m0, mach.pdTable), n)
    && Rebased(m0, b, free0, base, KernelOf(mach), DirOf(m0, parent), n)
    && Pmm.LowestFirst(free0, mach.pmm.free)
  }

  /** A fresh frame with the contents of the page at hand, ready to be mapped. */
  method CopyPage(mach: Machine, child: nat, i: Index, j: Index, src: nat, ghost m0: Memory,
                  ghost spaces0: map<nat, map<nat, Role>>, ghost free0: set<nat>, ghost b: Memory,
                  ghost base: set<nat>, ghost parent: nat)
    returns (dst: nat)
    requires Forking(mach, m0, spaces0, free0, b, base, parent, child, 512 * i + j)
    requires Copies(m0, DirOf(m0, parent), i, j)
    modifies mach.pmm, mach.pmm.bitmap, mach.ram
    ensures mach.Valid() && Pmm.LowestFirst(free0, mach.pmm.free)
    ensures dst == 0 ==>
      && Forking(mach, m0, spaces0, free0, b, base, parent, child, 512 * i + j)
      && |free0| < Taken(m0, DirOf(m0, parent), KernelSlots(m0, mach.pdTable), 512 * i + j + 1)
    ensures dst != 0 ==>
      && dst in old(mach.pmm.free) && mach.pmm.free == old(mach.pmm.free) - {dst} && child in mach.spaces
      && Pmm.RESERVED_FRAMES <= dst < |m0| == mach.ram.Length && CopiedInto(old(mach.ram[..]), mach.ram[..], dst, src)
      && Cloning(b, mach.ram[..], parent, child, spaces0, mach.spaces, KernelOf(mach), base, old(mach.pmm.free))
      && Sound(mach.ram[..], mach.spaces, old(mach.pmm.free), KernelOf(mach))
      && CopiedUpTo(mach.ram[..], parent, child, KernelSlots(m0, mach.pdTable), 512 * i + j)
      && Loose(dst, mach.spaces, mach.kernel, mach.pmm.free)
      && UserEntry(mach.ram[..], DirOf(mach.ram[..], child), i, j) == None
      && (Inherits(mach.ram[..], child, i) <==> i in KernelSlots(m0, mach.pdTable))
      && (mach.pmm.free == {} && !IsTable(DirEntry(mach.ram[..], DirOf(mach.ram[..], child), i)) ==>
            |free0| < Taken(m0, DirOf(m0, parent), KernelSlots(m0, mach.pdTable), 512 * i + j + 1))
  {
    hide Isolated, Space, Tree, KernelTables, Sharing, CopiedUpTo, Cloning, Rebased, Source, KernelSlots,
      Copies;
    hide DirEntry, DirOf, PdptOf, IsTable, Owned, Loose, UserEntry, Inherits;
    hide Taken, FramesFor, Good, Bad, CopiedInto, Pmm.FrameAllocator.Valid, Pmm.LowestFirst;
    ghost var k := KernelOf(mach);
    ghost var m1, free1 := mach.ram[..], mach.pmm.free;
    NoFrameLeft(m0, b, m1, parent, child, spaces0, mach.spaces, k, free0, base, free1, i, j);
    BaseFacts(m0, b, m1, parent, child, spaces0, mach.spaces, k, free0, base, free1, 512 * i + j);
    dst := mach.CopyToFreshFrame(src);
    if dst != 0 {
      Pmm.LowestTwice(free0, free1, mach.pmm.free);
      ReadyToMap(b, m1, mach.ram[..], parent, child, spaces0, mach.spaces, k, base, free1, i, j, dst, src);
      assert mach.pmm.free == {} ==> free1 == {dst};
    }
  }

  /** One page of the copying loop: a fresh frame with its contents, mapped in the child. */
  method ClonePage(mach: Machine, child: nat, i: Index, j: Index, w: Word, ghost m0: Memory,
                   ghost spaces0: map<nat, map<nat, Role>>, ghost free0: set<nat>, ghost b: Memory,
                   ghost base: set<nat>, ghost parent: nat)
    returns (ok: bool, ghost b': Memory, ghost base': set<nat>)
    requires Forking(mach, m0, spaces0, free0, b, base, parent, child, 512 * i + j)
    requires Copies(m0, DirOf(m0, parent), i, j) && w == Source(m0, DirOf(m0, parent), i, j)
    requires w.flags.present && w.flags.user
    modifies mach`spaces, mach.pmm, mach.pmm.bitmap, mach.ram
    ensures Forking(mach, m0, spaces0, free0, b', base', parent, child, if ok then 512 * i + j + 1 else 512 * i + j)
    ensures !ok ==> |free0| < Taken(m0, DirOf(m0, parent), KernelSlots(m0, mach.pdTable), 512 * i + j + 1)
  {
    hide Isolated, Space, Tree, KernelTables, Sharing, CopiedUpTo, Cloning, Rebased, Source, KernelSlots,
      MappedForUser, Copies;
    hide DirEntry, DirOf, PdptOf, IsTable, Owned, Pml4Idx, PdptIdx, PdIdx, PtIdx, Loose, UserEntry, Inherits,
      IntoKernelTable;
    hide Taken, FramesFor, Good, Bad, CopiedInto, Spilt, Pmm.FrameAllocator.Valid, Pmm.LowestFirst;
    b', base' := b, base;
    ghost var k := KernelOf(mach);
    ghost var m1, free1, spaces1 := mach.ram[..], mach.pmm.free, mach.spaces;
    var dst := CopyPage(mach, child, i, j, w.frame, m0, spaces0, free0, b, base, parent);
    if dst == 0 {
      return false, b', base';
    }
    ghost var m2, free2 := mach.ram[..], mach.pmm.free;
    SlotAddress(i, j);
    ok := mach.MapUserPage(child, i * 0x20_0000 + j * 4096, dst, w.flags);
    Pmm.LowestTwice(free0, free2, mach.pmm.free);
    if !ok {
      mach.pmm.FreeFrame(dst);
      assert mach.pmm.free == free1;
    } else if i in KernelSlots(m0, mach.pdTable) {
      var copy := Word(dst, w.flags);
      PageSpilt(m0, b, m2, mach.ram[..], parent, child, spaces0, spaces1, k, free0, base, free1, i, j, copy);
      b', base' := Spilt(b, mach.ram[..], mach.pdTable, i, j, copy), base - {dst};
    } else {
      PageCloned(m0, b, m1, m2, mach.ram[..], parent, child, spaces0, spaces1, mach.spaces, k, free0, base, free1,
                 mach.pmm.free, i, j, Word(dst, w.flags));
    }
  }

  /** The inner loop: the table in slot i of the parent's directory. */
  method CloneTable(mach: Machine, child: nat, i: Index, pt: nat, ghost m0: Memory,
                    ghost spaces0: map<nat, map<nat, Role>>, ghost free0: set<nat>, ghost b: Memory,
                    ghost base: set<nat>, ghost parent: nat)
    returns (ok: bool, ghost b': Memory, ghost base': set<nat>, ghost stop: nat)
    requires Forking(mach, m0, spaces0, free0, b, base, parent, child, 512 * i)
    requires IsTable(DirEntry(m0, DirOf(m0, parent), i)) && DirEntry(m0, DirOf(m0, parent), i).frame == pt
    modifies mach`spaces, mach.pmm, mach.pmm.bitmap, mach.ram
    ensures Forking(mach, m0, spaces0, free0, b', base', parent, child, stop)
    ensures if ok then stop == 512 * (i + 1) else stop < PAGES
    ensures !ok ==> |free0| < Taken(m0, DirOf(m0, parent), KernelSlots(m0, mach.pdTable), stop + 1)
  {
    hide Copies, Source, Taken, KernelSlots, DirOf, DirEntry, IsTable, Forking;
    b', base', stop := b, base, 512 * i;
    var j := 0;
    while j < 512
      invariant 0 <= j <= 512 && stop == 512 * i + j
      invariant Forking(mach, m0, spaces0, free0, b', base', parent, child, stop)
    {
      var present, w := ReadSlot(mach, i, j, pt, m0, spaces0, free0, b', base', parent, child);
      if present {
        ok, b', base' := ClonePage(mach, child, i, j, w, m0, spaces0, free0, b', base', parent);
        if !ok {
          return;
        }
      } else {
        PassedSlot(mach, i, j, m0, spaces0, free0, b', base', parent, child);
      }
      j := j + 1;
      stop := stop + 1;
    }
    ok := true;
  }

  /** Reads entry j of the parent's table: is it to be copied? */
  method ReadSlot(mach: Machine, i: Index, j: Index, pt: nat, ghost m0: Memory,
                  ghost spaces0: map<nat, map<nat, Role>>, ghost free0: set<nat>, ghost b: Memory,
                  ghost base: set<nat>, ghost parent: nat, ghost child: nat)
    returns (present: bool, w: Word)
    requires Forking(mach, m0, spaces0, free0, b, base, parent, child, 512 * i + j)
    requires IsTable(DirEntry(m0, DirOf(m0, parent), i)) && DirEntry(m0, DirOf(m0, parent), i).frame == pt
    ensures w == Source(m0, DirOf(m0, parent), i, j) && (present <==> Copies(m0, DirOf(m0, parent), i, j))
    ensures present <==> w.flags.present && w.flags.user
  {
    hide Cloning, CopiedUpTo, Rebased, Sound, Source;
    NextRead(m0, b, mach.ram[..], parent, child, spaces0, mach.spaces, KernelOf(mach), free0, base,
             mach.pmm.free, i, j);
    w := mach.ram[pt][j];
    present := w.flags.present && w.flags.user;
  }

  lemma PassedSlot(mach: Machine, i: Index, j: Index, m0: Memory, spaces0: map<nat, map<nat, Role>>, free0: set<nat>,
                   b: Memory, base: set<nat>, parent: nat, child: nat)
    requires Forking(mach, m0, spaces0, free0, b, base, parent, child, 512 * i + j)
    requires !Copies(m0, DirOf(m0, parent), i, j)
    ensures Forking(mach, m0, spaces0, free0, b, base, parent, child, 512 * i + j + 1)
  {
    hide Cloning, CopiedUpTo, Rebased, Sound, Copies;
    PassSlot(m0, b, mach.ram[..], parent, child, spaces0, mach.spaces, KernelOf(mach), free0, base,
             mach.pmm.free, i, j);
  }

  lemma PassedRow(mach: Machine, i: Index, m0: Memory, spaces0: map<nat, map<nat, Role>>, free0: set<nat>, b: Memory,
                  base: set<nat>, parent: nat, child: nat)
    requires Forking(mach, m0, spaces0, free0, b, base, parent, child, 512 * i)
    requires !IsTable(DirEntry(m0, DirOf(m0, parent), i))
    ensures Forking(mach, m0, spaces0, free0, b, base, parent, child, 512 * (i + 1))
  {
    hide Cloning, CopiedUpTo, Rebased, Sound;
    PassRow(m0, b, mach.ram[..], parent, child, spaces0, mach.spaces, KernelOf(mach), free0, base,
            mach.pmm.free, i, 0);
  }

  /** The parent's root and PDPT lead to its directory, which is the one of m0. */
  ghost predicate PathInPlace(m: Memory, m0: Memory, parent: nat)
  {
    && parent < |m| && m[parent][0].flags.present && m[parent][0].frame < |m|
    && m[m[parent][0].frame][0].flags.present && m[m[parent][0].frame][0].frame == DirOf(m0, parent) < |m|
    && forall i: Index :: m[DirOf(m0, parent)][i] == DirEntry(m0, DirOf(m0, parent), i)
  }

  lemma ParentPath(mach: Machine, m0: Memory, spaces0: map<nat, map<nat, Role>>, free0: set<nat>, b: Memory,
                   base: set<nat>, parent: nat, child: nat, n: nat)
    requires Forking(mach, m0, spaces0, free0, b, base, parent, child, n)
    ensures PathInPlace(mach.ram[..], m0, parent)
  {
    hide UserEntry, Space, KernelTables, Sharing, SpiltEntry, Bad, InheritsAll, InheritsOnly, CopiedUpTo;
    var k := KernelOf(mach);
    RebasedKeeps(m0, b, spaces0, free0, base, k, DirOf(m0, parent), n, parent);
    ParentKept(b, mach.ram[..], parent, spaces0, k.frames, base);
    SpacePath(mach.ram[..], parent, spaces0[parent], k.frames);
  }

  /** The outer loop, over the parent's directory. */
  method CloneDirectory(mach: Machine, child: nat, parent: nat, ghost m0: Memory,
                        ghost spaces0: map<nat, map<nat, Role>>, ghost free0: set<nat>)
    returns (ok: bool, ghost b: Memory, ghost base: set<nat>, ghost stop: nat)
    requires Forking(mach, m0, spaces0, free0, m0, free0, parent, child, 0)
    modifies mach`spaces, mach.pmm, mach.pmm.bitmap, mach.ram
    ensures Forking(mach, m0, spaces0, free0, b, base, parent, child, stop)
    ensures if ok then stop == PAGES else stop < PAGES
    ensures !ok ==> |free0| < Taken(m0, DirOf(m0, parent), KernelSlots(m0, mach.pdTable), stop + 1)
  {
    hide Taken, KernelSlots, DirOf, DirEntry, Forking;
    b, base, stop := m0, free0, 0;
    ok := true;
    ParentPath(mach, m0, spaces0, free0, b, base, parent, child, 0);
    if mach.ram[parent][0].flags.present {
      var pdpt := mach.ram[parent][0].frame;
      if mach.ram[pdpt][0].flags.present {
        var pd := mach.ram[pdpt][0].frame;
        var i := 0;
        while i < 512
          invariant 0 <= i <= 512 && stop == 512 * i && ok
          invariant Forking(mach, m0, spaces0, free0, b, base, parent, child, stop)
        {
          ParentPath(mach, m0, spaces0, free0, b, base, parent, child, stop);
          if mach.ram[pd][i].flags.present && !mach.ram[pd][i].flags.huge {
            ok, b, base, stop := CloneTable(mach, child, i, mach.ram[pd][i].frame, m0, spaces0, free0, b, base,
                                            parent);
            if !ok {
              return;
            }
          } else {
            PassedRow(mach, i, m0, spaces0, free0, b, base, parent, child);
            stop := stop + 512;
          }
          i := i + 1;
        }
      }
    }
  }

  lemma StartedFork(mach: Machine, m0: Memory, spaces0: map<nat, map<nat, Role>>, free0: set<nat>, parent: nat,
                    child: nat)
    requires mach.Valid() && Sound(m0, spaces0, free0, KernelOf(mach)) && parent in spaces0
    requires JustCreated(m0, mach.ram[..], spaces0, mach.spaces, mach.kernel, free0, mach.pmm.free, mach.pdTable, child)
    requires Pmm.LowestFirst(free0, mach.pmm.free)
    ensures Forking(mach, m0, spaces0, free0, m0, free0, parent, child, 0)
  {
    hide UserEntry, Space, Isolated, Sharing, KernelTables;
    StartCloning(m0, mach.ram[..], parent, child, spaces0, mach.spaces, KernelOf(mach), free0, mach.pmm.free);
  }

  // ----- what a fork comes to

  /** What the frames and the memory are when the loop has stopped at page n. */
  lemma WhereItStands(mach: Machine, m0: Memory, spaces0: map<nat, map<nat, Role>>, free0: set<nat>, b: Memory,
                      base: set<nat>, parent: nat, child: nat, n: nat)
    requires Forking(mach, m0, spaces0, free0, b, base, parent, child, n)
    ensures mach.Valid() && child !in spaces0 && child in mach.spaces
    ensures mach.spaces == spaces0[child := mach.spaces[child]] && mach.spaces - {child} == spaces0
    ensures mach.pmm.free + Owned(mach.spaces[child], mach.kernel) == base <= free0
    ensures |free0| == |mach.pmm.free| + Taken(m0, DirOf(m0, parent), KernelSlots(m0, mach.pdTable), n)
    ensures |free0 - base| == |Bad(m0, DirOf(m0, parent), KernelSlots(m0, mach.pdTable), n)|
    ensures Bad(m0, DirOf(m0, parent), KernelSlots(m0, mach.pdTable), n) == {} <==> base == free0
    ensures |m0| == mach.ram.Length && Pmm.LowestFirst(free0, mach.pmm.free)
    ensures KernelRewritten(m0, mach.ram[..], mach.pdTable, DirOf(m0, parent), free0 - base, n)
    ensures forall f :: 0 <= f < |m0| && f !in free0 && (base == free0 || f !in mach.kernel) ==> mach.ram[f] == m0[f]
  {
    hide UserEntry, Space, Isolated, Sharing, KernelTables, CopiedUpTo, Taken, Good, Bad, InheritsAll,
      InheritsOnly, SpiltEntry, KernelSlots;
    var k := KernelOf(mach);
    CountTaken(m0, b, mach.ram[..], parent, child, spaces0, mach.spaces, k, free0, base, mach.pmm.free, n);
    NothingSpilt(m0, b, spaces0, free0, base, k, DirOf(m0, parent), n);
    forall f | 0 <= f < |m0| && f !in free0 && f !in mach.kernel
      ensures b[f] == m0[f]
    {
      if SkippedTable(m0, k.dir, f) {
        SkippedIsKernel(m0, k, f);
      }
    }
    EntriesLead(m0, b, mach.ram[..], spaces0, free0, base, k, DirOf(m0, parent), n);
  }

  lemma EntriesLead(m0: Memory, b: Memory, m: Memory, spaces0: map<nat, map<nat, Role>>, free0: set<nat>,
                    base: set<nat>, k: Kernel, dir: nat, n: nat)
    requires Sound(m0, spaces0, free0, k) && Rebased(m0, b, free0, base, k, dir, n)
    requires |m| == |m0| && forall f :: 0 <= f < |m| && f !in base ==> m[f] == b[f]
    ensures KernelRewritten(m0, m, k.dir, dir, free0 - base, n)
  {
    hide Copies, Source, Bad, KernelSlots, SpiltEntry;
    KernelDirectory(m0, spaces0, k.frames, free0, k.root, k.role, k.pdpt, k.dir);
    if SkippedTable(m0, k.dir, k.dir) {
      SkippedIsKernel(m0, k, k.dir);
    }
    assert m[k.dir] == m0[k.dir];
    forall i: Index, j: Index | i in KernelSlots(m0, k.dir)
      ensures EntryRewritten(m0, m, k.dir, dir, free0 - base, n, i, j)
    {
      SlotFrame(m0, k, i);
      SpiltToo(m0, b, m, free0 - base, k.dir, dir, n, i, j);
    }
  }

  lemma SpiltToo(m0: Memory, b: Memory, m: Memory, lost: set<nat>, kernelDir: nat, dir: nat, n: nat, i: Index, j: Index)
    requires DirEntry(m0, kernelDir, i).frame < |m0| == |b| == |m|
    requires SpiltEntry(m0, b, lost, kernelDir, dir, n, i, j)
    requires m[DirEntry(m0, kernelDir, i).frame] == b[DirEntry(m0, kernelDir, i).frame]
    ensures SpiltEntry(m0, m, lost, kernelDir, dir, n, i, j)
  {
  }

  lemma NoChange(m: Memory, m': Memory, kernelDir: nat, dir: nat, free: set<nat>, k: Kernel)
    requires KernelTables(m, k.root, k.role, k.frames, k.pdpt, k.dir) && k.frames !! free && k.dir == kernelDir
    requires |m'| == |m| && forall f :: 0 <= f < |m| && f !in free ==> m'[f] == m[f]
    ensures KernelRewritten(m, m', kernelDir, dir, {}, 0)
  {
    hide Copies, Source, KernelSlots;
    forall i: Index, j: Index | i in KernelSlots(m, kernelDir)
      ensures EntryRewritten(m, m', kernelDir, dir, {}, 0, i, j)
    {
      SlotFrame(m, k, i);
    }
  }

  ghost function FramesToFork(m: Memory, kernelDir: nat, parent: nat): nat
  {
    Taken(m, DirOf(m, parent), KernelSlots(m, kernelDir), PAGES)
  }

  /** The child has a copy of the parent's page in slot (c, d), but nothing at a slot of the kernel's. */
  ghost predicate SlotForked(m: Memory, parent: nat, child: nat, skip: set<nat>, c: Index, d: Index)
  {
    var copy := UserEntry(m, DirOf(m, child), c, d);
    if c in skip then copy == None else SameEntry(m, UserEntry(m, DirOf(m, parent), c, d), copy)
  }

  /** The kernel's directory is the same. An entry of its tables for a page below n that the loop copies
      leads to one of the lost frames and has the flags of the page; all other entries are the same. */
  ghost predicate KernelRewritten(m: Memory, m': Memory, kernelDir: nat, dir: nat, lost: set<nat>, n: nat)
  {
    && |m'| == |m| && kernelDir < |m| && m'[kernelDir] == m[kernelDir]
    && forall i: Index, j: Index :: i in KernelSlots(m, kernelDir) ==>
         EntryRewritten(m, m', kernelDir, dir, lost, n, i, j)
  }

  ghost predicate EntryRewritten(m: Memory, m': Memory, kernelDir: nat, dir: nat, lost: set<nat>, n: nat, i: Index,
                                 j: Index)
  {
    && |m'| == |m| && DirEntry(m, kernelDir, i).frame < |m|
    && SpiltEntry(m, m', lost, kernelDir, dir, n, i, j)
  }

  /** With `free` frames the loop stops at page n: for want of a frame, or because that is the end. */
  ghost predicate StopsAt(m: Memory, dir: nat, kernelDir: nat, free: nat, n: nat)
  {
    var skip := KernelSlots(m, kernelDir);
    && n <= PAGES && (n > 0 ==> Taken(m, dir, skip, n) <= free)
    && (n < PAGES ==> free < Taken(m, dir, skip, n + 1))
  }

  /** Ring 3 may in the child what it may in the parent, but nothing at the kernel's slots. */
  ghost predicate ChildRights(m: Memory, parent: nat, child: nat, skip: set<nat>)
  {
    forall v: nat, write: bool :: v < 0x1_0000_0000_0000 ==>
      (UserMay(m, child, v, write) <==> v / 0x20_0000 !in skip && UserMay(m, parent, v, write))
  }

  lemma ForkRights(m0: Memory, m: Memory, spaces0: map<nat, map<nat, Role>>, spaces: map<nat, map<nat, Role>>,
                   kernel: set<nat>, free0: set<nat>, free: set<nat>, parent: nat, child: nat, skip: set<nat>)
    requires Isolated(m0, spaces0, kernel, free0) && Isolated(m, spaces, kernel, free)
    requires parent in spaces0 && parent in spaces && spaces[parent] == spaces0[parent] && child in spaces
    requires |m| == |m0| && forall f :: 0 <= f < |m0| && f !in free0 && f !in kernel ==> m[f] == m0[f]
    requires forall c: Index, d: Index :: SlotForked(m, parent, child, skip, c, d)
    ensures SameRights(m0, parent, m, parent) && ChildRights(m, parent, child, skip)
  {
    hide Space, UserEntry, UserMay, SlotForked, SameRights;
    OwnedNotFree(m0, spaces0, kernel, free0, parent);
    forall f | f in spaces0[parent] && f !in kernel && f < |m0| ensures m[f] == m0[f] {
      assert f in Owned(spaces0[parent], kernel);
    }
    OwnPagesKept(m0, m, parent, spaces0[parent], kernel);
    SamePagesSameRights(m0, m, parent, parent, spaces0[parent], spaces0[parent], kernel);
    forall v: nat, write: bool | v < 0x1_0000_0000_0000
      ensures UserMay(m, child, v, write) <==> v / 0x20_0000 !in skip && UserMay(m, parent, v, write)
    {
      RightsInSpace(m, parent, spaces[parent], kernel, v, write);
      RightsInSpace(m, child, spaces[child], kernel, v, write);
      ForkedPage(m, parent, child, skip, v);
    }
  }

  lemma ForkedPage(m: Memory, parent: nat, child: nat, skip: set<nat>, v: nat)
    requires forall c: Index, d: Index :: SlotForked(m, parent, child, skip, c, d)
    ensures if v / 0x20_0000 in skip || PageAt(m, parent, v) == None then PageAt(m, child, v) == None
      else PageAt(m, child, v).Some? && PageAt(m, child, v).value.flags == PageAt(m, parent, v).value.flags
  {
    hide UserEntry;
    if v < 0x4000_0000 {
      var c: Index, d: Index := v / 0x20_0000 % 512, v / 0x1000 % 512;
      assert SlotForked(m, parent, child, skip, c, d) && c == v / 0x20_0000;
    }
  }

  /** The frames that are free once the child is given up. */
  ghost function FreeAgain(spaces: map<nat, map<nat, Role>>, free: set<nat>, kernel: set<nat>, child: nat): set<nat>
  {
    if child != 0 && child in spaces then free + Owned(spaces[child], kernel) else free
  }

  /** The outcome of a fork that stopped at page `stop`, failed (child is 0) or not. Frames are lost, and
      the kernel's tables changed, exactly when it gets past a page below a slot where the kernel has a
      4 KB table; the entries for these pages then lead to the frames lost. */
  ghost predicate Forked(m: Memory, m': Memory, spaces: map<nat, map<nat, Role>>, spaces': map<nat, map<nat, Role>>,
                         free: set<nat>, free': set<nat>, kernel: set<nat>, kernelDir: nat, parent: nat, child: nat,
                         stop: nat)
  {
    var dir, skip, back := DirOf(m, parent), KernelSlots(m, kernelDir), FreeAgain(spaces', free', kernel, child);
    && |m'| == |m| && (forall f :: 0 <= f < |m| && f !in free && f !in kernel ==> m'[f] == m[f])
    && StopsAt(m, dir, kernelDir, |free|, stop)
    && back <= free && (back == free <==> !Spills(m, dir, kernelDir, |free|))
    && (back == free ==> forall f :: 0 <= f < |m| && f !in free ==> m'[f] == m[f])
    && |free - back| == |Bad(m, dir, skip, stop)| && KernelRewritten(m, m', kernelDir, dir, free - back, stop)
    && (child == 0 ==> spaces' == spaces && stop < PAGES)
    && (child != 0 ==>
          && stop == PAGES && Pmm.LowestFirst(free, free')
          && |free| == |free'| + Taken(m, dir, skip, PAGES)
          && child !in spaces && child in spaces' && spaces' == spaces[child := spaces'[child]]
          && (back == free <==> CloneSafe(m, dir, kernelDir))
          && (CloneSafe(m, dir, kernelDir) ==> CopyOf(m', parent, child))
          && (CopyOf(m', parent, child) <==> NoneBeside(m, parent, kernelDir))
          && InheritsIn(m', child, skip)
          && SameRights(m, parent, m', parent) && ChildRights(m', parent, child, skip)
          && forall c: Index, d: Index :: SlotForked(m', parent, child, skip, c, d))
  }

  lemma TooFewForAny(m: Memory, dir: nat, kernelDir: nat, n: nat)
    requires n < 3
    ensures n < Taken(m, dir, KernelSlots(m, kernelDir), PAGES) && !Spills(m, dir, kernelDir, n)
    ensures StopsAt(m, dir, kernelDir, n, 0) && Bad(m, dir, KernelSlots(m, kernelDir), 0) == {}
  {
    hide Good, Copies, Rows;
  }

  lemma NotCreated(m: Memory, m': Memory, spaces: map<nat, map<nat, Role>>, free: set<nat>, k: Kernel, parent: nat)
    requires KernelTables(m, k.root, k.role, k.frames, k.pdpt, k.dir) && k.frames !! free && |free| < 3
    requires |m'| == |m| && forall f :: 0 <= f < |m| && f !in free ==> m'[f] == m[f]
    ensures Forked(m, m', spaces, spaces, free, free, k.frames, k.dir, parent, 0, 0)
    ensures |free| < FramesToFork(m, k.dir, parent)
  {
    hide KernelTables, KernelSlots, KernelRewritten, Spills, StopsAt, Taken, Bad;
    TooFewForAny(m, DirOf(m, parent), k.dir, |free|);
    NoChange(m, m', k.dir, DirOf(m, parent), free, k);
    assert free - free == {};
  }

  /** vmm_clone_user_pt. The child gets copies of the parent's pages, in frames that were free, with the
      same flags and contents; of a page below a slot where the kernel has a 4 KB table the copy goes
      over the kernel's entry instead, and its frame is lost. It succeeds exactly when the frames suffice. */
  method CloneUserPt(mach: Machine, parent: nat) returns (child: nat, ghost stop: nat)
    requires mach.Valid() && parent in mach.spaces
    modifies mach`spaces, mach.pmm, mach.pmm.bitmap, mach.ram
    ensures mach.Valid()
    ensures child != 0 <==> |old(mach.pmm.free)| >= FramesToFork(old(mach.ram[..]), mach.pdTable, parent)
    ensures Forked(old(mach.ram[..]), mach.ram[..], old(mach.spaces), mach.spaces, old(mach.pmm.free), mach.pmm.free,
                   mach.kernel, mach.pdTable, parent, child, stop)
  {
    hide Isolated, Space, Tree, KernelTables, Sharing, UserEntry, FramesFor, Taken, Spills, Bad, CopyOf,
      CloneSafe, Forking;
    hide KernelSlots, KernelRewritten, NoneBeside, InheritsIn, SameRights, ChildRights, Owned,
      Pmm.FrameAllocator.Valid, Pmm.LowestFirst;
    ghost var m0, spaces0, free0 := mach.ram[..], mach.spaces, mach.pmm.free;
    ghost var dir, skip := DirOf(m0, parent), KernelSlots(m0, mach.pdTable);
    KernelDirectory(m0, spaces0, mach.kernel, free0, mach.kernelRoot, mach.kernelRole, mach.pdptTable, mach.pdTable);
    stop := 0;
    child := mach.CreateUserPt();
    if child == 0 {
      NotCreated(m0, mach.ram[..], spaces0, free0, KernelOf(mach), parent);
      return;
    }
    StartedFork(mach, m0, spaces0, free0, parent, child);
    ghost var b, base;
    var ok;
    ok, b, base, stop := CloneDirectory(mach, child, parent, m0, spaces0, free0);
    WhereItStands(mach, m0, spaces0, free0, b, base, parent, child, stop);
    SpiltIff(m0, dir, mach.pdTable, stop, |free0|);
    if ok {
      FinishedCopy(mach, m0, spaces0, free0, b, base, parent, child);
    } else {
      TakenMonotone(m0, dir, skip, stop + 1, PAGES);
      mach.FreeUserPt(child);
      child := 0;
    }
  }

  lemma FinishedCopy(mach: Machine, m0: Memory, spaces0: map<nat, map<nat, Role>>, free0: set<nat>, b: Memory,
                     base: set<nat>, parent: nat, child: nat)
    requires Forking(mach, m0, spaces0, free0, b, base, parent, child, PAGES)
    ensures CloneSafe(m0, DirOf(m0, parent), mach.pdTable) ==> CopyOf(mach.ram[..], parent, child)
    ensures CopyOf(mach.ram[..], parent, child) <==> NoneBeside(m0, parent, mach.pdTable)
    ensures InheritsIn(mach.ram[..], child, KernelSlots(m0, mach.pdTable))
    ensures SameRights(m0, parent, mach.ram[..], parent)
    ensures ChildRights(mach.ram[..], parent, child, KernelSlots(m0, mach.pdTable))
    ensures CloneSafe(m0, DirOf(m0, parent), mach.pdTable) <==>
      Bad(m0, DirOf(m0, parent), KernelSlots(m0, mach.pdTable), PAGES) == {}
    ensures forall c: Index, d: Index :: SlotForked(mach.ram[..], parent, child, KernelSlots(m0, mach.pdTable), c, d)
  {
    hide UserEntry, Space, Isolated, Sharing, KernelTables, Cloning, Rebased, CopiedUpTo, CloneSafe,
      KernelSlots, Bad, CopyOf, NoneBeside, InheritsIn, SameRights, ChildRights;
    ChildInherits(m0, b, mach.ram[..], parent, child, spaces0, mach.spaces, KernelOf(mach), free0, base,
                  mach.pmm.free, PAGES);
    CopyIff(m0, b, mach.ram[..], parent, child, spaces0, mach.spaces, KernelOf(mach), free0, base, mach.pmm.free);
    SafeIffNoneBad(m0, DirOf(m0, parent), mach.pdTable);
    if CloneSafe(m0, DirOf(m0, parent), mach.pdTable) {
      AllCopied(m0, b, mach.ram[..], parent, child, spaces0, mach.spaces, KernelOf(mach), free0, base, mach.pmm.free);
    }
    forall c: Index, d: Index
      ensures SlotForked(mach.ram[..], parent, child, KernelSlots(m0, mach.pdTable), c, d)
    {
      SlotIsCopied(mach.ram[..], parent, child, KernelSlots(m0, mach.pdTable), c, d);
    }
    WhereItStands(mach, m0, spaces0, free0, b, base, parent, child, PAGES);
    ParentIn(b, mach.ram[..], parent, child, spaces0, mach.spaces, KernelOf(mach), base, mach.pmm.free);
    ForkRights(m0, mach.ram[..], spaces0, mach.spaces, mach.kernel, free0, mach.pmm.free, parent, child,
               KernelSlots(m0, mach.pdTable));
  }

  lemma ParentIn(b: Memory, m: Memory, parent: nat, child: nat, spaces0: map<nat, map<nat, Role>>,
                 spaces: map<nat, map<nat, Role>>, k: Kernel, base: set<nat>, free: set<nat>)
    requires Cloning(b, m, parent, child, spaces0, spaces, k, base, free)
    ensures parent in spaces0 && parent in spaces && spaces[parent] == spaces0[parent] && child in spaces
  {
    hide Sound, Isolated, InheritsAll, InheritsOnly;
  }

  /** fork, the child's run (not modelled), and the parent's waitpid. The free frames are what they were,
      and the kernel's tables too, exactly when nothing was spilt; otherwise frames are lost for good.
      `taken` are the frames handed out by a fork that succeeds: the lowest. */
  method ForkAndReap(mach: Machine, parent: nat) returns (forked: bool, ghost stop: nat, ghost taken: set<nat>)
    requires mach.Valid() && parent in mach.spaces
    modifies mach`spaces, mach.pmm, mach.pmm.bitmap, mach.ram
    ensures mach.Valid() && mach.spaces == old(mach.spaces)
    ensures forked <==> |old(mach.pmm.free)| >= FramesToFork(old(mach.ram[..]), mach.pdTable, parent)
    ensures Reaped(old(mach.ram[..]), mach.ram[..], old(mach.pmm.free), mach.pmm.free, mach.kernel, mach.pdTable,
                   parent, forked, stop)
    ensures forked ==>
      && taken <= old(mach.pmm.free) && old(mach.pmm.free) - mach.pmm.free <= taken
      && |taken| == FramesToFork(old(mach.ram[..]), mach.pdTable, parent)
      && Pmm.LowestFirst(old(mach.pmm.free), old(mach.pmm.free) - taken)
  {
    hide Isolated, Space, Tree, KernelTables, Sharing, UserEntry, Taken, Forked, Reaped;
    hide Owned, FreeAgain, Pmm.FrameAllocator.Valid, Pmm.LowestFirst;
    ghost var m0, spaces0, free0 := mach.ram[..], mach.spaces, mach.pmm.free;
    var child;
    child, stop := CloneUserPt(mach, parent);
    forked, taken := child != 0, free0 - mach.pmm.free;
    GivenUp(m0, mach.ram[..], spaces0, mach.spaces, free0, mach.pmm.free, mach.kernel, mach.pdTable, parent, child,
            stop);
    if forked {
      mach.FreeUserPt(child);
    }
  }

  /** Giving the child up leaves what Reaped says. */
  lemma GivenUp(m: Memory, m': Memory, spaces: map<nat, map<nat, Role>>, spaces': map<nat, map<nat, Role>>,
                free: set<nat>, free': set<nat>, kernel: set<nat>, kernelDir: nat, parent: nat, child: nat, stop: nat)
    requires Forked(m, m', spaces, spaces', free, free', kernel, kernelDir, parent, child, stop)
    ensures Reaped(m, m', free, FreeAgain(spaces', free', kernel, child), kernel, kernelDir, parent, child != 0, stop)
    ensures free' <= FreeAgain(spaces', free', kernel, child) <= free
    ensures child == 0 ==> spaces' == spaces && FreeAgain(spaces', free', kernel, child) == free'
    ensures child != 0 ==> child in spaces' && spaces' - {child} == spaces
    ensures child != 0 ==> FreeAgain(spaces', free', kernel, child) == free' + Owned(spaces'[child], kernel)
    ensures child != 0 ==>
      && |free - free'| == FramesToFork(m, kernelDir, parent)
      && free - (free - free') == free' && Pmm.LowestFirst(free, free')
  {
    hide CopyOf, CloneSafe, Spills, Bad, KernelSlots, Taken, KernelRewritten, StopsAt, NoneBeside, InheritsIn,
      SameRights, ChildRights, SlotForked, Owned, Pmm.LowestFirst;
    LeftOver(free, FreeAgain(spaces', free', kernel, child));
    LeftOver(free, free');
  }

  lemma LeftOver(was: set<nat>, left: set<nat>)
    requires left <= was
    ensures |was| == |left| + |was - left| && was - (was - left) == left
  {
    assert was == left + (was - left);
  }

  /** What is left of it. */
  ghost predicate Reaped(m: Memory, m': Memory, free: set<nat>, free': set<nat>, kernel: set<nat>, kernelDir: nat,
                         parent: nat, forked: bool, stop: nat)
  {
    var dir, skip := DirOf(m, parent), KernelSlots(m, kernelDir);
    && |m'| == |m| && (forall f :: 0 <= f < |m| && f !in free && f !in kernel ==> m'[f] == m[f])
    && StopsAt(m, dir, kernelDir, |free|, stop) && (forked <==> stop == PAGES)
    && KernelRewritten(m, m', kernelDir, dir, free - free', stop)
    && free' <= free && (free' == free <==> !Spills(m, dir, kernelDir, |free|))
    && (free' == free ==> forall f :: 0 <= f < |m| && f !in free ==> m'[f] == m[f])
    && |free| == |free'| + |Bad(m, dir, skip, stop)|
    && (forked ==> (free' == free <==> CloneSafe(m, dir, kernelDir)))
  }
}
