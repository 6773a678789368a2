/** Loading an ELF image into a fresh address space, as elf_exec and SYS_EXEC do it. The program
    headers are given as a list; reading them out of the file is not modelled. */
module Elf {
  import opened Words
  import opened PageTables
  import opened UserSpaces
  import opened FrameCounts
  import opened Vmm
  import opened Rights
  import Pmm

  const PT_LOAD := 1
  const PAGE := 4096
  const STACK_FIRST := 0x6FD  // four pages below 0x701000
  const STACK_END := 0x701
  const LOAD_FLAGS := Flags(true, true, true, 0, false, 0)  // PRESENT | RW | USER

  datatype Segment = Segment(kind: nat, vaddr: nat, offset: nat, filesz: nat, memsz: nat)

  predicate Loads(s: Segment)
  {
    s.kind == PT_LOAD && s.memsz != 0
  }

  function FirstPage(s: Segment): nat { s.vaddr / PAGE }
  function EndPage(s: Segment): nat { (s.vaddr + s.memsz + (PAGE - 1)) / PAGE }

  /** The segment asks for this page. */
  predicate Covers(s: Segment, page: nat)
  {
    Loads(s) && FirstPage(s) <= page < EndPage(s)
  }

  predicate IsStack(page: nat)
  {
    STACK_FIRST <= page < STACK_END
  }

  /** What the linker promises: data inside the file, at most as long as the memory, below 1 GB;
      segments and stack on pages of their own. */
  ghost predicate WellFormed(file: seq<Byte>, segs: seq<Segment>)
  {
    && (forall k :: 0 <= k < |segs| && Loads(segs[k]) ==>
          && segs[k].filesz <= segs[k].memsz && segs[k].offset + segs[k].filesz <= |file|
          && segs[k].vaddr + segs[k].memsz <= 0x4000_0000)
    && (forall k, page :: 0 <= k < |segs| && Covers(segs[k], page) ==> !IsStack(page))
    && (forall k, l, page :: 0 <= k < l < |segs| && Covers(segs[k], page) ==> !Covers(segs[l], page))
  }

  /** The byte one segment puts at address a. */
  function SegmentByte(file: seq<Byte>, s: Segment, a: nat): Byte
  {
    if s.vaddr <= a < s.vaddr + s.filesz && s.offset + (a - s.vaddr) < |file| then file[s.offset + (a - s.vaddr)]
    else 0
  }

  /** The byte of the image at address a: from the segment whose data covers it, else zero. */
  function ImageByte(file: seq<Byte>, segs: seq<Segment>, a: nat): Byte
  {
    if segs == [] then 0
    else if Loads(segs[0]) && segs[0].vaddr <= a < segs[0].vaddr + segs[0].filesz then SegmentByte(file, segs[0], a)
    else ImageByte(file, segs[1..], a)
  }

  /** Data of a segment lies on its pages. */
  lemma DataOnOwnPages(s: Segment, a: nat)
    requires Loads(s) && s.filesz <= s.memsz && s.vaddr <= a < s.vaddr + s.filesz
    ensures Covers(s, a / PAGE)
  {
  }

  /** An address no segment has data for is zero in the image. */
  lemma {:induction false} ZeroElsewhere(file: seq<Byte>, segs: seq<Segment>, a: nat)
    requires forall k :: 0 <= k < |segs| && Loads(segs[k]) ==> !(segs[k].vaddr <= a < segs[k].vaddr + segs[k].filesz)
    ensures ImageByte(file, segs, a) == 0
  {
    if segs != [] {
      ZeroElsewhere(file, segs[1..], a);
    }
  }

  /** On its own pages a segment alone decides the image. */
  lemma {:induction false} OwnPages(file: seq<Byte>, segs: seq<Segment>, k: nat, a: nat)
    requires WellFormed(file, segs) && k < |segs| && Covers(segs[k], a / PAGE)
    ensures ImageByte(file, segs, a) == SegmentByte(file, segs[k], a)
  {
    forall l | 0 <= l < |segs| && l != k && Loads(segs[l])
      ensures !(segs[l].vaddr <= a < segs[l].vaddr + segs[l].filesz)
    {
      if segs[l].vaddr <= a < segs[l].vaddr + segs[l].filesz {
        DataOnOwnPages(segs[l], a);
        assert false;
      }
    }
    OnlySegment(file, segs, k, a);
  }

  lemma {:induction false} OnlySegment(file: seq<Byte>, segs: seq<Segment>, k: nat, a: nat)
    requires k < |segs| && Loads(segs[k])
    requires forall l :: 0 <= l < |segs| && l != k && Loads(segs[l]) ==>
      !(segs[l].vaddr <= a < segs[l].vaddr + segs[l].filesz)
    ensures ImageByte(file, segs, a) == SegmentByte(file, segs[k], a)
  {
    if k == 0 {
      ZeroElsewhere(file, segs[1..], a);
    } else {
      OnlySegment(file, segs[1..], k - 1, a);
    }
  }

  /** The stack pages are zero. */
  lemma StackIsZero(file: seq<Byte>, segs: seq<Segment>, a: nat)
    requires WellFormed(file, segs) && IsStack(a / PAGE)
    ensures ImageByte(file, segs, a) == 0
  {
    forall k | 0 <= k < |segs| && Loads(segs[k])
      ensures !(segs[k].vaddr <= a < segs[k].vaddr + segs[k].filesz)
    {
      if segs[k].vaddr <= a < segs[k].vaddr + segs[k].filesz {
        DataOnOwnPages(segs[k], a);
        assert false;
      }
    }
    ZeroElsewhere(file, segs, a);
  }

  // ----- the pages of a loaded image

  ghost predicate PageHolds(p: Page, file: seq<Byte>, segs: seq<Segment>, page: nat)
  {
    forall k: nat :: k < PAGE ==> ByteAt(p, k) == ImageByte(file, segs, PAGE * page + k)
  }

  /** The user pages of the space are exactly the pages in `done`, and they hold the image. */
  ghost predicate ImageIn(m: Memory, r: nat, done: set<nat>, file: seq<Byte>, segs: seq<Segment>)
  {
    forall i: Index, j: Index ::
      var e := UserEntry(m, DirOf(m, r), i, j);
      if 512 * i + j in done then
        e.Some? && e.value.flags == LOAD_FLAGS && e.value.frame < |m|
          && PageHolds(m[e.value.frame], file, segs, 512 * i + j)
      else e == None
  }

  /** The pages elf_exec maps: those of the segments and the stack. */
  ghost predicate Wanted(segs: seq<Segment>, page: nat)
  {
    IsStack(page) || exists k :: 0 <= k < |segs| && Covers(segs[k], page)
  }

  /** The finished image: exactly the wanted pages, zero except for the segments' file data. */
  ghost predicate Image(m: Memory, r: nat, file: seq<Byte>, segs: seq<Segment>)
  {
    forall i: Index, j: Index ::
      var e := UserEntry(m, DirOf(m, r), i, j);
      if Wanted(segs, 512 * i + j) then
        e.Some? && e.value.flags == LOAD_FLAGS && e.value.frame < |m|
          && PageHolds(m[e.value.frame], file, segs, 512 * i + j)
      else e == None
  }

  ghost predicate SamePage(m: Memory, e: Option<Word>, n: Memory, f: Option<Word>)
  {
    match e
    case None => f == None
    case Some(w) =>
      && f.Some? && f.value.flags == w.flags
      && w.frame < |m| && f.value.frame < |n| && m[w.frame] == n[f.value.frame]
  }

  /** Two loads of the same file give the same user pages with the same bytes. */
  lemma SameImage(m: Memory, r: nat, n: Memory, q: nat, file: seq<Byte>, segs: seq<Segment>)
    requires Image(m, r, file, segs) && Image(n, q, file, segs)
    ensures forall i: Index, j: Index ::
      var e, f := UserEntry(m, DirOf(m, r), i, j), UserEntry(n, DirOf(n, q), i, j);
      SamePage(m, e, n, f)
  {
    forall i: Index, j: Index
      ensures var e, f := UserEntry(m, DirOf(m, r), i, j), UserEntry(n, DirOf(n, q), i, j);
        SamePage(m, e, n, f)
    {
      var e, f := UserEntry(m, DirOf(m, r), i, j), UserEntry(n, DirOf(n, q), i, j);
      if Wanted(segs, 512 * i + j) {
        SamePageBytes(m[e.value.frame], n[f.value.frame]);
      }
    }
  }

  // ----- one page

  /** No wanted page lies where the kernel has a 4 KB table. */
  ghost predicate ClearOfKernelTables(m: Memory, kernelDir: nat, segs: seq<Segment>)
  {
    forall page: nat :: page < 262144 && Wanted(segs, page) ==> !IsTable(DirEntry(m, kernelDir, page / 512))
  }

  /** A fresh frame with the contents of page (i, j) is ready to be mapped. */
  lemma ReadyToLoad(m0: Memory, m: Memory, m': Memory, r: nat, spaces0: map<nat, map<nat, Role>>,
                    spaces: map<nat, map<nat, Role>>, kernel: set<nat>, free0: set<nat>, free: set<nat>,
                    kernelDir: nat, done: set<nat>, file: seq<Byte>, segs: seq<Segment>, i: Index, j: Index, dst: nat)
    requires Growing(m0, m, r, spaces0, spaces, kernel, free0, free, kernelDir)
    requires ImageIn(m, r, done, file, segs) && 512 * i + j !in done
    requires !IsTable(DirEntry(m0, kernelDir, i))
    requires dst in free && Pmm.RESERVED_FRAMES <= dst < Pmm.FRAMES && dst < |m|
    requires |m'| == |m| && forall f :: 0 <= f < |m| && f !in free ==> m'[f] == m[f]
    ensures Isolated(m', spaces, kernel, free - {dst}) && Loose(dst, spaces, kernel, free - {dst})
    ensures ImageIn(m', r, done, file, segs) && InheritsOnly(m', r, m0, kernelDir)
    ensures UserEntry(m', DirOf(m', r), i, j) == None
    ensures IsTable(DirEntry(m', DirOf(m', r), i)) ==> DirEntry(m', DirOf(m', r), i).flags.user
    ensures DirEntry(m', DirOf(m', r), i) == DirEntry(m, DirOf(m, r), i)
  {
    ScribbleOnFree(m, m', spaces, kernel, free);
    LooseAfterAlloc(m', spaces, kernel, free, dst);
    ParentKept(m, m', r, spaces, kernel, free);
    forall c: Index, d: Index
      ensures var e := UserEntry(m', DirOf(m', r), c, d);
        e.Some? && e.value.frame < |m| ==> m'[e.value.frame] == m[e.value.frame]
    {
      var e := UserEntry(m, DirOf(m, r), c, d);
      if e.Some? {
        assert e.value.frame in Owned(spaces[r], kernel);
      }
    }
    assert ImageIn(m', r, done, file, segs);
  }

  /** Mapped, it is part of the image. */
  lemma PageLoaded(m0: Memory, m: Memory, m2: Memory, m3: Memory, r: nat, spaces0: map<nat, map<nat, Role>>,
                   spaces: map<nat, map<nat, Role>>, spaces': map<nat, map<nat, Role>>, kernel: set<nat>,
                   free0: set<nat>, free: set<nat>, free': set<nat>, kernelDir: nat, done: set<nat>, file: seq<Byte>,
                   segs: seq<Segment>, i: Index, j: Index, dst: nat)
    requires Growing(m0, m, r, spaces0, spaces, kernel, free0, free, kernelDir)
    requires ImageIn(m2, r, done, file, segs) && InheritsOnly(m2, r, m0, kernelDir)
    requires dst in free && Pmm.RESERVED_FRAMES <= dst < Pmm.FRAMES && dst < |m|
    requires |m2| == |m| && forall f :: 0 <= f < |m| && f !in free ==> m2[f] == m[f]
    requires PageHolds(m2[dst], file, segs, 512 * i + j)
    requires |m3| == |m| && r in spaces' && spaces' == spaces[r := spaces'[r]]
    requires free' <= free - {dst} && Isolated(m3, spaces', kernel, free')
    requires Owned(spaces'[r], kernel) == Owned(spaces[r], kernel) + {dst} + (free - {dst} - free')
    requires forall f :: 0 <= f < |m| && f !in Owned(spaces'[r], kernel) ==> m3[f] == m2[f]
    requires OnlySlot(m2, m3, r, i, j, Word(dst, LOAD_FLAGS)) && TablesTurnUser(m2, m3, r, i)
    requires SamePages(m2, m3, r) && m3[dst] == m2[dst]
    ensures Growing(m0, m3, r, spaces0, spaces', kernel, free0, free', kernelDir)
    ensures ImageIn(m3, r, done + {512 * i + j}, file, segs)
  {
    hide Space, Isolated, UserEntry, PageHolds;
    assert Owned(spaces'[r], kernel) == free0 - free';
    MappedInherits(m2, m3, r, m0, kernelDir, i, j, Word(dst, LOAD_FLAGS));
    assert ImageIn(m3, r, done + {512 * i + j}, file, segs);
  }

  // ----- the loaders

  ghost predicate BelowGigabyte(done: set<nat>)
  {
    forall p :: p in done ==> p < PAGES
  }

  /** With the pages in `done` loaded out of n free frames, there was no frame for the next page, or
      only its data frame and none for the table of its row. */
  ghost predicate OutAt(why: Outcome, n: nat, done: set<nat>, page: nat)
  {
    match why
    case Done => false
    case NoFrame => n == FramesFor(done)
    case NoTable => n == FramesFor(done) + 1 && page / 512 !in Rows(done)
  }

  /** What is left of the free frames tells how a failing step fails. */
  lemma LoadShort(m0: Memory, m: Memory, r: nat, spaces0: map<nat, map<nat, Role>>, spaces: map<nat, map<nat, Role>>,
                  kernel: set<nat>, free0: set<nat>, free: set<nat>, kernelDir: nat, done: set<nat>, file: seq<Byte>,
                  segs: seq<Segment>, page: nat)
    requires Growing(m0, m, r, spaces0, spaces, kernel, free0, free, kernelDir)
    requires ImageIn(m, r, done, file, segs) && BelowGigabyte(done) && page < PAGES
    ensures free == {} ==> OutAt(NoFrame, |free0|, done, page)
    ensures |free| == 1 && !IsTable(DirEntry(m, DirOf(m, r), page / 512)) ==> OutAt(NoTable, |free0|, done, page)
  {
    hide Growing, FramesFor;
    LoadedPages(m, r, done, file, segs);
    GrowingCount(m0, m, r, spaces0, spaces, kernel, free0, free, kernelDir);
  }

  lemma LoadedPages(m: Memory, r: nat, done: set<nat>, file: seq<Byte>, segs: seq<Segment>)
    requires ImageIn(m, r, done, file, segs) && BelowGigabyte(done)
    ensures Pages(m, r) == done
    ensures forall p :: p in done ==> IsTable(DirEntry(m, DirOf(m, r), p / 512))
  {
    hide UserEntry, ImageIn;
    forall p: nat | p < PAGES
      ensures p in done <==> UserEntry(m, DirOf(m, r), p / 512, p % 512).Some?
      ensures p in done ==> IsTable(DirEntry(m, DirOf(m, r), p / 512))
    {
      LoadedPage(m, r, done, file, segs, p);
    }
  }

  lemma LoadedPage(m: Memory, r: nat, done: set<nat>, file: seq<Byte>, segs: seq<Segment>, p: nat)
    requires ImageIn(m, r, done, file, segs) && p < PAGES
    ensures p in done <==> UserEntry(m, DirOf(m, r), p / 512, p % 512).Some?
    ensures p in done ==> IsTable(DirEntry(m, DirOf(m, r), p / 512))
  {
    hide PageHolds;
    assert 512 * (p / 512) + p % 512 == p;
  }

  /** How a step of a load ends: done, out of frames for its page, or out of frames for a table. */
  datatype Outcome = Done | NoFrame | NoTable

  ghost predicate Loading(mach: Machine, m0: Memory, r: nat, spaces0: map<nat, map<nat, Role>>, free0: set<nat>)
    reads mach, mach.pmm, mach.pmm.bitmap, mach.ram
  {
    mach.Valid()
    && Growing(m0, mach.ram[..], r, spaces0, mach.spaces, mach.kernel, free0, mach.pmm.free, mach.pdTable)
  }

  /** A load that ran out of table frames: one data frame was taken and belongs to nobody. */
  ghost predicate Stranded(mach: Machine, m0: Memory, r: nat, spaces0: map<nat, map<nat, Role>>, free0: set<nat>)
    reads mach, mach.pmm, mach.pmm.bitmap, mach.ram
  {
    && mach.Valid() && r in mach.spaces && mach.spaces == spaces0[r := mach.spaces[r]] && r !in spaces0
    && |mach.ram[..]| == |m0|
    && (forall f :: 0 <= f < mach.ram.Length && f !in free0 ==> mach.ram[f] == m0[f])
    && exists f :: f in free0 && f !in mach.pmm.free && f !in Owned(mach.spaces[r], mach.kernel)
         && free0 - {f} == mach.pmm.free + Owned(mach.spaces[r], mach.kernel)
  }

  lemma StrandedFrame(mach: Machine, m0: Memory, m1: Memory, r: nat, spaces0: map<nat, map<nat, Role>>,
                      free0: set<nat>, free1: set<nat>, frame: nat)
    requires mach.Valid() && Growing(m0, m1, r, spaces0, mach.spaces, mach.kernel, free0, free1, mach.pdTable)
    requires frame in free1 && mach.pmm.free == free1 - {frame} && |m1| == |mach.ram[..]|
    requires forall f :: 0 <= f < |m1| && f != frame ==> mach.ram[f] == m1[f]
    ensures Stranded(mach, m0, r, spaces0, free0)
  {
    hide Isolated, Space, KernelTables, Sharing, InheritsOnly, Owned, Pmm.FrameAllocator.Valid;
    assert free0 - {frame} == mach.pmm.free + Owned(mach.spaces[r], mach.kernel);
  }

  /** The zero-fill loop over a fresh frame. */
  method ZeroFill(mach: Machine, frame: nat)
    requires frame < mach.ram.Length
    modifies mach.ram
    ensures mach.ram[..] == old(mach.ram[..])[frame := mach.ram[frame]]
    ensures forall k: nat :: k < PAGE ==> ByteAt(mach.ram[frame], k) == 0
  {
    var z := 0;
    while z < PAGE
      invariant 0 <= z <= PAGE
      invariant mach.ram[..] == old(mach.ram[..])[frame := mach.ram[frame]]
      invariant forall k: nat :: k < z ==> ByteAt(mach.ram[frame], k) == 0
    {
      ghost var page := mach.ram[frame];
      mach.ram[frame] := SetByte(mach.ram[frame], z, 0);
      forall k: nat | k <= z ensures ByteAt(mach.ram[frame], k) == 0 {
        SetByteSets(page, z, 0, k);
      }
      z := z + 1;
    }
  }

  /** A zeroed page with the segment's bytes in place at addresses from cs up to end. */
  ghost predicate CopiedTo(p: Page, file: seq<Byte>, s: Segment, va: nat, cs: nat, end: nat)
  {
    forall k: nat :: k < PAGE ==> ByteCopied(p, file, s, va, cs, end, k)
  }

  ghost predicate ByteCopied(p: Page, file: seq<Byte>, s: Segment, va: nat, cs: nat, end: nat, k: nat)
    requires k < PAGE
  {
    ByteAt(p, k) == if cs <= va + k < end then SegmentByte(file, s, va + k) else 0
  }

  lemma CopyStep(p: Page, file: seq<Byte>, s: Segment, va: nat, cs: nat, a: nat)
    requires CopiedTo(p, file, s, va, cs, a) && va <= cs <= a < va + PAGE
    ensures CopiedTo(SetByte(p, a - va, SegmentByte(file, s, a)), file, s, va, cs, a + 1)
  {
    hide SetByte, ByteAt, SegmentByte;
    var q, end := SetByte(p, a - va, SegmentByte(file, s, a)), a + 1;
    forall k: nat | k < PAGE
      ensures ByteCopied(q, file, s, va, cs, end, k)
    {
      assert ByteCopied(p, file, s, va, cs, a, k);
      SetByteSets(p, a - va, SegmentByte(file, s, a), k);
    }
  }

  /** The copy loop: the part of the segment's file data that falls into the page at va. */
  method CopyData(mach: Machine, frame: nat, file: seq<Byte>, s: Segment, va: nat)
    requires frame < mach.ram.Length && s.offset + s.filesz <= |file|
    requires forall k: nat :: k < PAGE ==> ByteAt(mach.ram[frame], k) == 0
    modifies mach.ram
    ensures mach.ram[..] == old(mach.ram[..])[frame := mach.ram[frame]]
    ensures forall k: nat :: k < PAGE ==> ByteAt(mach.ram[frame], k) == SegmentByte(file, s, va + k)
  {
    var cs := if va > s.vaddr then va else s.vaddr;
    var ce := if va + PAGE < s.vaddr + s.filesz then va + PAGE else s.vaddr + s.filesz;
    if cs < ce {
      hide ByteAt, SetByte;
      forall k: nat | k < PAGE ensures ByteCopied(mach.ram[frame], file, s, va, cs, cs, k) {
      }
      var b := 0;
      while b < ce - cs
        invariant 0 <= b <= ce - cs
        invariant mach.ram[..] == old(mach.ram[..])[frame := mach.ram[frame]]
        invariant CopiedTo(mach.ram[frame], file, s, va, cs, cs + b)
      {
        CopyStep(mach.ram[frame], file, s, va, cs, cs + b);
        mach.ram[frame] := SetByte(mach.ram[frame], cs - va + b, file[s.offset + (cs - s.vaddr) + b]);
        b := b + 1;
      }
      forall k: nat | k < PAGE ensures ByteAt(mach.ram[frame], k) == SegmentByte(file, s, va + k) {
        assert ByteCopied(mach.ram[frame], file, s, va, cs, ce, k);
      }
    }
  }

  lemma PageAddress(page: nat)
    requires page < 262144
    ensures var v := PAGE * page;
      Pml4Idx(v) == 0 && PdptIdx(v) == 0 && PdIdx(v) == page / 512 && PtIdx(v) == page % 512
  {
    SlotAddress(page / 512, page % 512);
    assert PAGE * page == page / 512 * 0x20_0000 + page % 512 * 4096;
  }

  /** The frame holds its page of the image: map it. `m1` and `free1` are memory and free frames
      before it was allocated. */
  method PlacePage(mach: Machine, r: nat, page: nat, frame: nat, ghost file: seq<Byte>, ghost segs: seq<Segment>,
                   ghost m0: Memory, ghost m1: Memory, ghost spaces0: map<nat, map<nat, Role>>, ghost free0: set<nat>,
                   ghost free1: set<nat>, ghost done: set<nat>)
    returns (result: Outcome)
    requires mach.Mem() && KernelTables(m1, mach.kernelRoot, mach.kernelRole, mach.kernel, mach.pdptTable,
                                        mach.pdTable)
    requires Growing(m0, m1, r, spaces0, mach.spaces, mach.kernel, free0, free1, mach.pdTable)
    requires Sharing(m1, mach.spaces, mach.kernel, mach.kernelRole, mach.pdTable)
    requires ImageIn(m1, r, done, file, segs) && page < 262144 && page !in done
    requires !IsTable(DirEntry(m0, mach.pdTable, page / 512))
    requires frame in free1 && mach.pmm.free == free1 - {frame} && Pmm.RESERVED_FRAMES <= frame < Pmm.FRAMES
    requires |m1| == |mach.ram[..]| && mach.ram[..] == m1[frame := mach.ram[frame]]
    requires PageHolds(mach.ram[frame], file, segs, page)
    requires mach.kernel !! free1 && BelowGigabyte(done)
    modifies mach`spaces, mach.pmm, mach.pmm.bitmap, mach.ram
    ensures result != NoFrame && (result != Done ==> OutAt(result, |free0|, done, page))
    ensures result == Done ==>
      Loading(mach, m0, r, spaces0, free0) && ImageIn(mach.ram[..], r, done + {page}, file, segs)
    ensures result == NoTable ==> Stranded(mach, m0, r, spaces0, free0)
  {
    hide Isolated, Space, Tree, KernelTables, Sharing, ImageIn, InheritsOnly, OnlySlot, SamePages,
      TablesTurnUser, UserEntry, PageHolds, Stranded;
    hide Pmm.FrameAllocator.Valid, Pml4Idx, PdptIdx, PdIdx, PtIdx, DirEntry, DirOf, IsTable, OutAt,
      BelowGigabyte, Owned, Loose, FramesFor, Pages, MappedBelow, SameTranslation, MappedAt;
    LoadShort(m0, m1, r, spaces0, mach.spaces, mach.kernel, free0, free1, mach.pdTable, done, file, segs, page);
    ghost var m2, spaces1 := mach.ram[..], mach.spaces;
    ReadyToLoad(m0, m1, m2, r, spaces0, spaces1, mach.kernel, free0, free1, mach.pdTable, done, file, segs,
                page / 512, page % 512, frame);
    FreeFramesDoNotMatter(m1, m2, spaces1, mach.kernel, free1, mach.kernelRoot, mach.kernelRole, mach.pdptTable,
                          mach.pdTable);
    PageAddress(page);
    var ok := mach.MapUserPage(r, PAGE * page, frame, Flags(false, true, true, 0, false, 0));
    if ok {
      PageLoaded(m0, m1, m2, mach.ram[..], r, spaces0, spaces1, mach.spaces, mach.kernel, free0, free1, mach.pmm.free,
                 mach.pdTable, done, file, segs, page / 512, page % 512, frame);
      result := Done;
    } else {
      assert free1 == {frame};
      StrandedFrame(mach, m0, m1, r, spaces0, free0, free1, frame);
      result := NoTable;
    }
  }

  /** One page of a segment: allocate, zero, copy, map. */
  method LoadPage(mach: Machine, r: nat, page: nat, file: seq<Byte>, ghost segs: seq<Segment>, s: Segment,
                  ghost k: nat, ghost m0: Memory, ghost spaces0: map<nat, map<nat, Role>>, ghost free0: set<nat>,
                  ghost done: set<nat>)
    returns (result: Outcome)
    requires Loading(mach, m0, r, spaces0, free0) && ImageIn(mach.ram[..], r, done, file, segs)
    requires WellFormed(file, segs) && k < |segs| && segs[k] == s && Covers(s, page) && page < 262144 && page !in done
      && BelowGigabyte(done)
    requires !IsTable(DirEntry(m0, mach.pdTable, page / 512))
    modifies mach`spaces, mach.pmm, mach.pmm.bitmap, mach.ram
    ensures result == Done ==>
      Loading(mach, m0, r, spaces0, free0) && ImageIn(mach.ram[..], r, done + {page}, file, segs)
    ensures result == NoFrame ==> Loading(mach, m0, r, spaces0, free0)
    ensures result == NoTable ==> Stranded(mach, m0, r, spaces0, free0)
    ensures result != Done ==> OutAt(result, |free0|, done, page)
  {
    hide Space, Tree, KernelTables, Sharing, ImageIn, InheritsOnly, UserEntry;
    hide Pmm.FrameAllocator.Valid, DirEntry, DirOf, IsTable, OutAt;
    ghost var m1, free1 := mach.ram[..], mach.pmm.free;
    LoadShort(m0, m1, r, spaces0, mach.spaces, mach.kernel, free0, free1, mach.pdTable, done, file, segs, page);
    var frame := mach.pmm.AllocFrame();
    if frame == 0 {
      return NoFrame;
    }
    ZeroFill(mach, frame);
    CopyData(mach, frame, file, s, PAGE * page);
    forall b: nat | b < PAGE
      ensures ByteAt(mach.ram[frame], b) == ImageByte(file, segs, PAGE * page + b)
    {
      assert (PAGE * page + b) / PAGE == page;
      OwnPages(file, segs, k, PAGE * page + b);
    }
    result := PlacePage(mach, r, page, frame, file, segs, m0, m1, spaces0, free0, free1, done);
  }

  /** One page of the stack: allocate, zero, map. */
  method LoadStackPage(mach: Machine, r: nat, page: nat, ghost file: seq<Byte>, ghost segs: seq<Segment>,
                       ghost m0: Memory, ghost spaces0: map<nat, map<nat, Role>>, ghost free0: set<nat>,
                       ghost done: set<nat>)
    returns (result: Outcome)
    requires Loading(mach, m0, r, spaces0, free0) && ImageIn(mach.ram[..], r, done, file, segs)
    requires WellFormed(file, segs) && IsStack(page) && page !in done && BelowGigabyte(done)
    requires !IsTable(DirEntry(m0, mach.pdTable, page / 512))
    modifies mach`spaces, mach.pmm, mach.pmm.bitmap, mach.ram
    ensures result == Done ==>
      Loading(mach, m0, r, spaces0, free0) && ImageIn(mach.ram[..], r, done + {page}, file, segs)
    ensures result == NoFrame ==> Loading(mach, m0, r, spaces0, free0)
    ensures result == NoTable ==> Stranded(mach, m0, r, spaces0, free0)
    ensures result != Done ==> OutAt(result, |free0|, done, page)
  {
    hide Space, Tree, KernelTables, Sharing, ImageIn, InheritsOnly, UserEntry;
    hide Pmm.FrameAllocator.Valid, DirEntry, DirOf, IsTable, OutAt;
    ghost var m1, free1 := mach.ram[..], mach.pmm.free;
    LoadShort(m0, m1, r, spaces0, mach.spaces, mach.kernel, free0, free1, mach.pdTable, done, file, segs, page);
    var frame := mach.pmm.AllocFrame();
    if frame == 0 {
      return NoFrame;
    }
    ZeroFill(mach, frame);
    forall b: nat | b < PAGE
      ensures ByteAt(mach.ram[frame], b) == ImageByte(file, segs, PAGE * page + b)
    {
      assert (PAGE * page + b) / PAGE == page;
      StackIsZero(file, segs, PAGE * page + b);
    }
    result := PlacePage(mach, r, page, frame, file, segs, m0, m1, spaces0, free0, free1, done);
  }

  // ----- whole images

  /** The pages of the first k segments, and those of segment k below `end`. */
  ghost function PagesBefore(segs: seq<Segment>, k: nat, end: nat): set<nat>
  {
    set page: nat | page < 262144 && PageBefore(segs, k, end, page)
  }

  ghost predicate PageBefore(segs: seq<Segment>, k: nat, end: nat, page: nat)
  {
    || (exists l :: 0 <= l < k && l < |segs| && Covers(segs[l], page))
    || (k < |segs| && Covers(segs[k], page) && page < end)
  }

  ghost predicate StackBefore(page: nat, end: nat)
  {
    IsStack(page) && page < end
  }

  ghost function StackPages(end: nat): set<nat>
  {
    set page: nat | page < STACK_END && StackBefore(page, end)
  }

  lemma NextPage(file: seq<Byte>, segs: seq<Segment>, k: nat, page: nat)
    requires WellFormed(file, segs) && k < |segs| && Covers(segs[k], page)
    ensures page < 262144 && page !in PagesBefore(segs, k, page) && Wanted(segs, page)
    ensures BelowGigabyte(PagesBefore(segs, k, page))
    ensures PagesBefore(segs, k, page + 1) == PagesBefore(segs, k, page) + {page}
  {
  }

  lemma NextSegment(segs: seq<Segment>, k: nat, end: nat)
    requires k < |segs| && forall page: nat :: Covers(segs[k], page) ==> page < end
    ensures PagesBefore(segs, k + 1, 0) == PagesBefore(segs, k, end)
  {
    forall page: nat
      ensures PageBefore(segs, k + 1, 0, page) <==> PageBefore(segs, k, end, page)
    {
      if PageBefore(segs, k, end, page) && Covers(segs[k], page) {
        assert PageBefore(segs, k + 1, 0, page);
      }
    }
  }

  lemma FirstPageOf(segs: seq<Segment>, k: nat)
    requires k < |segs|
    ensures PagesBefore(segs, k, FirstPage(segs[k])) == PagesBefore(segs, k, 0)
  {
    forall page: nat
      ensures PageBefore(segs, k, FirstPage(segs[k]), page) <==> PageBefore(segs, k, 0, page)
    {
    }
  }

  lemma NextStackPage(file: seq<Byte>, segs: seq<Segment>, page: nat)
    requires WellFormed(file, segs) && IsStack(page)
    ensures page !in PagesBefore(segs, |segs|, 0) + StackPages(page) && Wanted(segs, page)
    ensures BelowGigabyte(PagesBefore(segs, |segs|, 0) + StackPages(page))
    ensures StackPages(page + 1) == StackPages(page) + {page}
  {
    assert StackBefore(page, page + 1);
    forall p | p in StackPages(page + 1) ensures p in StackPages(page) + {page} {
      assert StackBefore(p, page + 1);
      assert p == page || StackBefore(p, page);
    }
    forall p | p in StackPages(page) ensures p in StackPages(page + 1) {
      assert StackBefore(p, page + 1);
    }
  }

  lemma NothingLoadedYet(segs: seq<Segment>)
    ensures PagesBefore(segs, 0, 0) == {} && StackPages(STACK_FIRST) == {}
  {
  }

  lemma EverythingLoaded(m: Memory, r: nat, file: seq<Byte>, segs: seq<Segment>)
    requires ImageIn(m, r, PagesBefore(segs, |segs|, 0) + StackPages(STACK_END), file, segs)
    ensures Image(m, r, file, segs)
  {
    forall page: nat | page < 262144
      ensures page in PagesBefore(segs, |segs|, 0) + StackPages(STACK_END) <==> Wanted(segs, page)
    {
      assert IsStack(page) <==> StackBefore(page, STACK_END);
      assert (exists k :: 0 <= k < |segs| && Covers(segs[k], page)) <==> PageBefore(segs, |segs|, 0, page);
    }
  }

  ghost function WantedPages(segs: seq<Segment>): set<nat>
  {
    set page: nat | page < PAGES && Wanted(segs, page)
  }

  /** The loaders come to `page` with exactly the pages in `done` loaded. */
  ghost predicate Next(segs: seq<Segment>, done: set<nat>, page: nat)
  {
    || (exists k :: 0 <= k < |segs| && Covers(segs[k], page) && done == PagesBefore(segs, k, page))
    || (IsStack(page) && done == PagesBefore(segs, |segs|, 0) + StackPages(page))
  }

  ghost predicate RunsOut(segs: seq<Segment>, n: nat, why: Outcome)
  {
    exists done, page :: Next(segs, done, page) && OutAt(why, n, done, page)
  }

  lemma NextIsWanted(file: seq<Byte>, segs: seq<Segment>, done: set<nat>, page: nat)
    requires WellFormed(file, segs) && Next(segs, done, page)
    ensures page !in done && done + {page} <= WantedPages(segs)
  {
    if IsStack(page) && done == PagesBefore(segs, |segs|, 0) + StackPages(page) {
      NextStackPage(file, segs, page);
    } else {
      var k :| 0 <= k < |segs| && Covers(segs[k], page) && done == PagesBefore(segs, k, page);
      NextPage(file, segs, k, page);
    }
  }

  /** Pages are loaded one after the other. */
  lemma OneByOne(file: seq<Byte>, segs: seq<Segment>, d: set<nat>, p: nat, e: set<nat>, q: nat)
    requires WellFormed(file, segs) && Next(segs, d, p) && Next(segs, e, q)
    ensures (d == e && p == q) || d + {p} <= e || e + {q} <= d
  {
    hide WellFormed, PagesBefore, StackPages, Covers, IsStack;
    if k :| 0 <= k < |segs| && Covers(segs[k], p) && d == PagesBefore(segs, k, p) {
      NextPage(file, segs, k, p);
      if l :| 0 <= l < |segs| && Covers(segs[l], q) && e == PagesBefore(segs, l, q) {
        NextPage(file, segs, l, q);
        SegmentOrder(segs, k, p, l, q);
        SegmentOrder(segs, l, q, k, p);
      } else {
        SegmentsFirst(segs, k, p);
      }
    } else {
      StackOrder(segs, p, q);
      if l :| 0 <= l < |segs| && Covers(segs[l], q) && e == PagesBefore(segs, l, q) {
        NextPage(file, segs, l, q);
        SegmentsFirst(segs, l, q);
      } else {
        StackOrder(segs, q, p);
      }
    }
  }

  lemma SegmentsFirst(segs: seq<Segment>, k: nat, p: nat)
    requires k < |segs| && Covers(segs[k], p) && p < PAGES
    ensures PagesBefore(segs, k, p) + {p} <= PagesBefore(segs, |segs|, 0)
  {
  }

  lemma StackOrder(segs: seq<Segment>, p: nat, q: nat)
    requires IsStack(p)
    ensures p < q ==> StackPages(p) + {p} <= StackPages(q)
  {
  }

  lemma SegmentOrder(segs: seq<Segment>, k: nat, p: nat, l: nat, q: nat)
    requires k < |segs| && l < |segs| && Covers(segs[k], p) && p < PAGES
    ensures k < l || (k == l && p < q) ==> PagesBefore(segs, k, p) + {p} <= PagesBefore(segs, l, q)
  {
  }

  /** With n free frames a load runs out exactly when its pages and their tables call for more than n;
      a data frame is then lost exactly when some page that starts a row is reached with one frame left. */
  lemma HowItEnds(file: seq<Byte>, segs: seq<Segment>, n: nat, why: Outcome)
    requires WellFormed(file, segs) && RunsOut(segs, n, why)
    ensures why != Done && n < FramesFor(WantedPages(segs))
    ensures RunsOut(segs, n, NoTable) <==> why == NoTable
  {
    hide WellFormed, Next, WantedPages, Rows, FramesFor;
    var d, p :| Next(segs, d, p) && OutAt(why, n, d, p);
    NextIsWanted(file, segs, d, p);
    MorePages(d, WantedPages(segs), p);
    if RunsOut(segs, n, NoTable) {
      var e, q :| Next(segs, e, q) && OutAt(NoTable, n, e, q);
      NextIsWanted(file, segs, e, q);
      OneByOne(file, segs, d, p, e, q);
      if d + {p} <= e {
        MorePages(d, e, p);
      } else if e + {q} <= d {
        MorePages(e, d, q);
      }
    }
  }

  /** With four frames the load of a program without segments loses one: three are the tables of the
      space, and the stack finds a frame for its first page but none for its page table. */
  lemma FourFramesLoseOne()
    ensures RunsOut([], 4, NoTable)
  {
    NothingLoadedYet([]);
    assert Next([], {}, STACK_FIRST);
    assert Rows({}) == {};
    assert OutAt(NoTable, 4, {}, STACK_FIRST);
  }

  lemma HowItStarts(segs: seq<Segment>, n: nat)
    ensures n < 3 ==> n < FramesFor(WantedPages(segs)) && !RunsOut(segs, n, NoTable)
  {
    hide Next, WantedPages, Rows;
  }

  /** With frames enough it never runs out. */
  lemma NeverOut(file: seq<Byte>, segs: seq<Segment>, n: nat)
    requires WellFormed(file, segs) && n >= FramesFor(WantedPages(segs))
    ensures !RunsOut(segs, n, NoTable)
  {
    if RunsOut(segs, n, NoTable) {
      HowItEnds(file, segs, n, NoTable);
      assert false;
    }
  }

  ghost predicate Loaded(mach: Machine, r: nat, file: seq<Byte>, segs: seq<Segment>, m0: Memory,
                         spaces0: map<nat, map<nat, Role>>, free0: set<nat>)
    reads mach, mach.pmm, mach.pmm.bitmap, mach.ram
  {
    Loading(mach, m0, r, spaces0, free0) && Image(mach.ram[..], r, file, segs)
  }

  /** A finished load fits. */
  lemma ItFits(mach: Machine, r: nat, file: seq<Byte>, segs: seq<Segment>, m0: Memory,
               spaces0: map<nat, map<nat, Role>>, free0: set<nat>)
    requires WellFormed(file, segs) && Loaded(mach, r, file, segs, m0, spaces0, free0)
    ensures |free0| >= FramesFor(WantedPages(segs)) && !RunsOut(segs, |free0|, NoTable)
  {
    hide Growing, FramesFor, WellFormed, RunsOut;
    ImagePages(mach.ram[..], r, file, segs);
    GrowingCount(m0, mach.ram[..], r, spaces0, mach.spaces, mach.kernel, free0, mach.pmm.free, mach.pdTable);
    NeverOut(file, segs, |free0|);
  }

  // ----- what the program finds

  /** Address v belongs to a page that the file asks for, or to the stack. */
  ghost predicate InProgram(segs: seq<Segment>, v: nat)
  {
    || 0x6F_D000 <= v < 0x70_1000
    || exists k :: 0 <= k < |segs| && segs[k].kind == 1 && segs[k].memsz > 0
         && segs[k].vaddr / 0x1000 <= v / 0x1000 <= (segs[k].vaddr + segs[k].memsz - 1) / 0x1000
  }

  lemma WantedAddress(segs: seq<Segment>, v: nat)
    ensures Wanted(segs, v / 0x1000) <==> InProgram(segs, v)
  {
    assert IsStack(v / 0x1000) <==> 0x6F_D000 <= v < 0x70_1000;
    forall k | 0 <= k < |segs|
      ensures Covers(segs[k], v / 0x1000) <==>
        && segs[k].kind == 1 && segs[k].memsz > 0
        && segs[k].vaddr / 0x1000 <= v / 0x1000 <= (segs[k].vaddr + segs[k].memsz - 1) / 0x1000
    {
    }
  }

  lemma ImageAt(m: Memory, r: nat, file: seq<Byte>, segs: seq<Segment>, v: nat)
    requires Image(m, r, file, segs) && v < 0x4000_0000
    ensures if InProgram(segs, v)
      then UserByteAt(m, r, v) == Some(ImageByte(file, segs, v)) && PageAt(m, r, v).value.flags.rw
      else PageAt(m, r, v) == None
  {
    hide UserEntry, ImageByte, Wanted, InProgram;
    var i: Index, j: Index := v / 0x20_0000 % 512, v / 0x1000 % 512;
    AddressPage(v);
    WantedAddress(segs, v);
    assert 512 * i + j == v / 0x1000 && 0x1000 * (v / 0x1000) + v % 0x1000 == v;
    if Wanted(segs, 512 * i + j) {
      var e := UserEntry(m, DirOf(m, r), i, j);
      assert PageHolds(m[e.value.frame], file, segs, 512 * i + j);
    }
  }

  /** Ring 3 may load from and store to the pages of the program, and nothing else. */
  lemma LoadedRights(mach: Machine, r: nat, file: seq<Byte>, segs: seq<Segment>, m0: Memory,
                     spaces0: map<nat, map<nat, Role>>, free0: set<nat>, v: nat, write: bool)
    requires Loaded(mach, r, file, segs, m0, spaces0, free0) && WellFormed(file, segs) && v < 0x1_0000_0000_0000
    ensures UserMay(mach.ram[..], r, v, write) <==> InProgram(segs, v)
  {
    hide Space, Image, UserMay, InProgram, KernelTables, Sharing, InheritsOnly;
    RightsInSpace(mach.ram[..], r, mach.spaces[r], mach.kernel, v, write);
    if v < 0x4000_0000 {
      ImageAt(mach.ram[..], r, file, segs, v);
    } else {
      NothingAbove(file, segs, v);
    }
  }

  lemma NothingAbove(file: seq<Byte>, segs: seq<Segment>, v: nat)
    requires WellFormed(file, segs) && v >= 0x4000_0000
    ensures !InProgram(segs, v)
  {
    forall k | 0 <= k < |segs| && segs[k].kind == 1 && segs[k].memsz > 0
      ensures (segs[k].vaddr + segs[k].memsz - 1) / 0x1000 < v / 0x1000
    {
      assert Loads(segs[k]);
    }
  }

  /** Byte x of a segment is byte x of its data in the file, and zero behind the data. */
  lemma LoadedSegment(mach: Machine, r: nat, file: seq<Byte>, segs: seq<Segment>, m0: Memory,
                      spaces0: map<nat, map<nat, Role>>, free0: set<nat>, k: nat, x: nat)
    requires Loaded(mach, r, file, segs, m0, spaces0, free0) && WellFormed(file, segs)
    requires k < |segs| && segs[k].kind == 1 && x < segs[k].memsz
    ensures x < segs[k].filesz ==> segs[k].offset + x < |file|
    ensures UserByteAt(mach.ram[..], r, segs[k].vaddr + x) ==
      Some(if x < segs[k].filesz then file[segs[k].offset + x] else 0)
  {
    hide Loading, Image, UserByteAt, ImageByte, InProgram, Wanted;
    var v := segs[k].vaddr + x;
    assert Loads(segs[k]) && Covers(segs[k], v / 0x1000);
    OwnPages(file, segs, k, v);
    SegmentIsWanted(segs, k, v);
    WantedAddress(segs, v);
    ImageAt(mach.ram[..], r, file, segs, v);
  }

  lemma SegmentIsWanted(segs: seq<Segment>, k: nat, v: nat)
    requires k < |segs| && Covers(segs[k], v / 0x1000)
    ensures Wanted(segs, v / 0x1000)
  {
  }

  /** The stack, from 0x6FD000 to 0x701000, is zero. */
  lemma LoadedStack(mach: Machine, r: nat, file: seq<Byte>, segs: seq<Segment>, m0: Memory,
                    spaces0: map<nat, map<nat, Role>>, free0: set<nat>, v: nat)
    requires Loaded(mach, r, file, segs, m0, spaces0, free0) && WellFormed(file, segs) && 0x6F_D000 <= v < 0x70_1000
    ensures UserByteAt(mach.ram[..], r, v) == Some(0)
  {
    hide Loading, Image, UserByteAt, ImageByte;
    StackIsZero(file, segs, v);
    ImageAt(mach.ram[..], r, file, segs, v);
  }

  lemma ImagePages(m: Memory, r: nat, file: seq<Byte>, segs: seq<Segment>)
    requires Image(m, r, file, segs)
    ensures Pages(m, r) == WantedPages(segs)
  {
    hide UserEntry, PageHolds, Wanted;
    forall p: nat | p < PAGES ensures Wanted(segs, p) <==> UserEntry(m, DirOf(m, r), p / 512, p % 512).Some? {
      assert 512 * (p / 512) + p % 512 == p;
    }
  }

  /** The state after a failed load: as before, except that a data frame is lost when the page
      tables ran out. */
  ghost predicate LoadFailed(mach: Machine, why: Outcome, m0: Memory, spaces0: map<nat, map<nat, Role>>,
                             free0: set<nat>)
    reads mach, mach.pmm, mach.pmm.bitmap, mach.ram
  {
    && mach.Valid() && mach.spaces == spaces0 && |mach.ram[..]| == |m0|
    && (forall f :: 0 <= f < mach.ram.Length && f !in free0 ==> mach.ram[f] == m0[f])
    && match why
       case Done => false
       case NoFrame => mach.pmm.free == free0
       case NoTable => exists f :: f in free0 && mach.pmm.free == free0 - {f}
  }

  /** Tearing a half-loaded space down. */
  method Abandon(mach: Machine, r: nat, ghost why: Outcome, ghost m0: Memory, ghost spaces0: map<nat, map<nat, Role>>,
                 ghost free0: set<nat>)
    requires why == NoFrame ==> Loading(mach, m0, r, spaces0, free0)
    requires why == NoTable ==> Stranded(mach, m0, r, spaces0, free0)
    requires why != Done
    modifies mach`spaces, mach.pmm, mach.pmm.bitmap
    ensures LoadFailed(mach, why, m0, spaces0, free0)
  {
    hide Isolated, Space, Tree, KernelTables, Sharing, InheritsOnly, Owned, Pmm.FrameAllocator.Valid;
    mach.FreeUserPt(r);
    assert mach.spaces == spaces0;
  }

  /** The page loop over segment k. */
  method LoadSegment(mach: Machine, r: nat, file: seq<Byte>, segs: seq<Segment>, k: nat, ghost m0: Memory,
                     ghost spaces0: map<nat, map<nat, Role>>, ghost free0: set<nat>)
    returns (result: Outcome)
    requires Loading(mach, m0, r, spaces0, free0) && ImageIn(mach.ram[..], r, PagesBefore(segs, k, 0), file, segs)
    requires WellFormed(file, segs) && k < |segs| && Loads(segs[k]) && ClearOfKernelTables(m0, mach.pdTable, segs)
    modifies mach`spaces, mach.pmm, mach.pmm.bitmap, mach.ram
    ensures result == Done ==>
      Loading(mach, m0, r, spaces0, free0) && ImageIn(mach.ram[..], r, PagesBefore(segs, k + 1, 0), file, segs)
    ensures result == NoFrame ==> Loading(mach, m0, r, spaces0, free0)
    ensures result == NoTable ==> Stranded(mach, m0, r, spaces0, free0)
    ensures result != Done ==> RunsOut(segs, |free0|, result)
  {
    hide OutAt, Loading, Stranded, ImageIn, PagesBefore, WellFormed;
    result := Done;
    var va := FirstPage(segs[k]) * PAGE;
    var vend := EndPage(segs[k]) * PAGE;
    FirstPageOf(segs, k);
    while va < vend
      invariant result == Done
      invariant va % PAGE == 0 && FirstPage(segs[k]) <= va / PAGE <= EndPage(segs[k])
      invariant Loading(mach, m0, r, spaces0, free0)
      invariant ImageIn(mach.ram[..], r, PagesBefore(segs, k, va / PAGE), file, segs)
    {
      ghost var done := PagesBefore(segs, k, va / PAGE);
      NextPage(file, segs, k, va / PAGE);
      result := LoadPage(mach, r, va / PAGE, file, segs, segs[k], k, m0, spaces0, free0, done);
      if result != Done {
        assert Next(segs, done, va / PAGE);
        return;
      }
      va := va + PAGE;
    }
    NextSegment(segs, k, EndPage(segs[k]));
  }

  /** The stack loop. */
  method LoadStack(mach: Machine, r: nat, ghost file: seq<Byte>, ghost segs: seq<Segment>, ghost m0: Memory,
                   ghost spaces0: map<nat, map<nat, Role>>, ghost free0: set<nat>)
    returns (result: Outcome)
    requires Loading(mach, m0, r, spaces0, free0)
    requires ImageIn(mach.ram[..], r, PagesBefore(segs, |segs|, 0), file, segs)
    requires WellFormed(file, segs) && ClearOfKernelTables(m0, mach.pdTable, segs)
    modifies mach`spaces, mach.pmm, mach.pmm.bitmap, mach.ram
    ensures result == Done ==> Loaded(mach, r, file, segs, m0, spaces0, free0)
    ensures result == NoFrame ==> Loading(mach, m0, r, spaces0, free0)
    ensures result == NoTable ==> Stranded(mach, m0, r, spaces0, free0)
    ensures result != Done ==> RunsOut(segs, |free0|, result)
  {
    hide OutAt, Loading, Stranded, ImageIn, PagesBefore, StackPages, WellFormed;
    result := Done;
    NothingLoadedYet(segs);
    assert PagesBefore(segs, |segs|, 0) + StackPages(STACK_FIRST) == PagesBefore(segs, |segs|, 0);
    var va := STACK_FIRST * PAGE;
    while va < STACK_END * PAGE
      invariant result == Done
      invariant va % PAGE == 0 && STACK_FIRST <= va / PAGE <= STACK_END
      invariant Loading(mach, m0, r, spaces0, free0)
      invariant ImageIn(mach.ram[..], r, PagesBefore(segs, |segs|, 0) + StackPages(va / PAGE), file, segs)
    {
      ghost var done := PagesBefore(segs, |segs|, 0) + StackPages(va / PAGE);
      NextStackPage(file, segs, va / PAGE);
      assert done + {va / PAGE} == PagesBefore(segs, |segs|, 0) + StackPages(va / PAGE + 1);
      result := LoadStackPage(mach, r, va / PAGE, file, segs, m0, spaces0, free0, done);
      if result != Done {
        assert Next(segs, done, va / PAGE);
        return;
      }
      va := va + PAGE;
    }
    EverythingLoaded(mach.ram[..], r, file, segs);
  }

  lemma StartLoading(mach: Machine, r: nat, file: seq<Byte>, segs: seq<Segment>, m0: Memory,
                     spaces0: map<nat, map<nat, Role>>, free0: set<nat>)
    requires mach.Valid() && r !in spaces0 && r in mach.spaces && mach.spaces == spaces0[r := mach.spaces[r]]
    requires mach.pmm.free <= free0 && Owned(mach.spaces[r], mach.kernel) == free0 - mach.pmm.free
    requires |mach.ram[..]| == |m0| && forall f :: 0 <= f < |m0| && f !in free0 ==> mach.ram[f] == m0[f]
    requires mach.pdTable < |m0| && mach.pdTable !in free0
    requires forall i: Index, j: Index :: UserEntry(mach.ram[..], DirOf(mach.ram[..], r), i, j) == None
    requires forall i: Index ::
      DirEntry(mach.ram[..], DirOf(mach.ram[..], r), i) == Supervisor(mach.ram[mach.pdTable][i])
    ensures Loading(mach, m0, r, spaces0, free0)
    ensures ImageIn(mach.ram[..], r, PagesBefore(segs, 0, 0), file, segs)
  {
    NothingLoadedYet(segs);
  }

  /** elf_exec from vmm_create_user_pt to the mapped stack; 0 when it gives up. */
  method ElfExec(mach: Machine, file: seq<Byte>, segs: seq<Segment>) returns (cr3: nat, ghost why: Outcome)
    requires mach.Valid() && WellFormed(file, segs)
    requires ClearOfKernelTables(mach.ram[..], mach.pdTable, segs)
    modifies mach`spaces, mach.pmm, mach.pmm.bitmap, mach.ram
    ensures cr3 != 0 <==> |old(mach.pmm.free)| >= FramesFor(WantedPages(segs))
    ensures cr3 != 0 <==> why == Done
    ensures why == NoTable <==> RunsOut(segs, |old(mach.pmm.free)|, NoTable)
    ensures cr3 != 0 ==> Loaded(mach, cr3, file, segs, old(mach.ram[..]), old(mach.spaces), old(mach.pmm.free))
    ensures cr3 == 0 ==> LoadFailed(mach, why, old(mach.ram[..]), old(mach.spaces), old(mach.pmm.free))
  {
    hide Loading, Stranded, ImageIn, PagesBefore, WellFormed, Image, ClearOfKernelTables, Sharing, RunsOut,
      FramesFor, WantedPages;
    hide Isolated, Space, Tree, KernelTables, Sharing, UserEntry, Pmm.FrameAllocator.Valid, Owned;
    HowItStarts(segs, |mach.pmm.free|);
    ghost var m0, spaces0, free0 := mach.ram[..], mach.spaces, mach.pmm.free;
    KernelDirectory(m0, spaces0, mach.kernel, free0, mach.kernelRoot, mach.kernelRole, mach.pdptTable, mach.pdTable);
    why := NoFrame;
    cr3 := mach.CreateUserPt();
    if cr3 == 0 {
      return;
    }
    StartLoading(mach, cr3, file, segs, m0, spaces0, free0);
    var i := 0;
    while i < |segs|
      invariant 0 <= i <= |segs| && cr3 != 0
      invariant Loading(mach, m0, cr3, spaces0, free0)
      invariant ImageIn(mach.ram[..], cr3, PagesBefore(segs, i, 0), file, segs)
    {
      if Loads(segs[i]) {
        var result := LoadSegment(mach, cr3, file, segs, i, m0, spaces0, free0);
        if result != Done {
          why := result;
          HowItEnds(file, segs, |free0|, why);
          Abandon(mach, cr3, why, m0, spaces0, free0);
          return 0, why;
        }
      } else {
        NextSegment(segs, i, 0);
      }
      i := i + 1;
    }
    var result := LoadStack(mach, cr3, file, segs, m0, spaces0, free0);
    why := result;
    if result != Done {
      HowItEnds(file, segs, |free0|, why);
      Abandon(mach, cr3, why, m0, spaces0, free0);
      cr3 := 0;
    } else {
      ItFits(mach, cr3, file, segs, m0, spaces0, free0);
    }
  }

  /** The loading part of SYS_EXEC: it remembers the failure and tears down at the end. */
  method SysExec(mach: Machine, file: seq<Byte>, segs: seq<Segment>) returns (cr3: nat, ghost why: Outcome)
    requires mach.Valid() && WellFormed(file, segs)
    requires ClearOfKernelTables(mach.ram[..], mach.pdTable, segs)
    modifies mach`spaces, mach.pmm, mach.pmm.bitmap, mach.ram
    ensures cr3 != 0 <==> |old(mach.pmm.free)| >= FramesFor(WantedPages(segs))
    ensures cr3 != 0 <==> why == Done
    ensures why == NoTable <==> RunsOut(segs, |old(mach.pmm.free)|, NoTable)
    ensures cr3 != 0 ==> Loaded(mach, cr3, file, segs, old(mach.ram[..]), old(mach.spaces), old(mach.pmm.free))
    ensures cr3 == 0 ==> LoadFailed(mach, why, old(mach.ram[..]), old(mach.spaces), old(mach.pmm.free))
  {
    hide Loading, Stranded, ImageIn, PagesBefore, WellFormed, Image, ClearOfKernelTables, Sharing, RunsOut,
      FramesFor, WantedPages;
    hide Isolated, Space, Tree, KernelTables, Sharing, UserEntry, Pmm.FrameAllocator.Valid, Owned;
    HowItStarts(segs, |mach.pmm.free|);
    ghost var m0, spaces0, free0 := mach.ram[..], mach.spaces, mach.pmm.free;
    KernelDirectory(m0, spaces0, mach.kernel, free0, mach.kernelRoot, mach.kernelRole, mach.pdptTable, mach.pdTable);
    why := NoFrame;
    cr3 := mach.CreateUserPt();
    if cr3 == 0 {
      return;
    }
    StartLoading(mach, cr3, file, segs, m0, spaces0, free0);
    var si, result := 0, Done;
    while si < |segs| && result == Done
      invariant 0 <= si <= |segs|
      invariant result != NoTable ==> Loading(mach, m0, cr3, spaces0, free0)
      invariant result == Done ==> ImageIn(mach.ram[..], cr3, PagesBefore(segs, si, 0), file, segs)
      invariant result == NoTable ==> Stranded(mach, m0, cr3, spaces0, free0)
      invariant result != Done ==> RunsOut(segs, |free0|, result)
    {
      if Loads(segs[si]) {
        result := LoadSegment(mach, cr3, file, segs, si, m0, spaces0, free0);
      } else {
        NextSegment(segs, si, 0);
      }
      si := si + 1;
    }
    if result == Done {
      result := LoadStack(mach, cr3, file, segs, m0, spaces0, free0);
    }
    why := result;
    if result != Done {
      HowItEnds(file, segs, |free0|, why);
      Abandon(mach, cr3, why, m0, spaces0, free0);
      cr3 := 0;
    } else {
      ItFits(mach, cr3, file, segs, m0, spaces0, free0);
    }
  }

  /** Only frames of this set differ. */
  ghost predicate OnlyFreeChanged(m: Memory, m': Memory, free: set<nat>)
  {
    |m'| == |m| && forall f :: 0 <= f < |m| && f !in free ==> m'[f] == m[f]
  }

  lemma LoadedFrames(mach: Machine, r: nat, file: seq<Byte>, segs: seq<Segment>, m0: Memory,
                     spaces0: map<nat, map<nat, Role>>, free0: set<nat>)
    requires Loaded(mach, r, file, segs, m0, spaces0, free0)
    ensures mach.Valid() && r in mach.spaces && mach.spaces - {r} == spaces0
    ensures mach.pmm.free + Owned(mach.spaces[r], mach.kernel) == free0
    ensures OnlyFreeChanged(m0, mach.ram[..], free0)
  {
    hide Isolated, Image, KernelTables, Sharing, Pmm.FrameAllocator.Valid;
  }

  lemma FailedFrames(mach: Machine, why: Outcome, m0: Memory, spaces0: map<nat, map<nat, Role>>, free0: set<nat>)
    requires LoadFailed(mach, why, m0, spaces0, free0)
    ensures mach.Valid() && mach.spaces == spaces0 && OnlyFreeChanged(m0, mach.ram[..], free0)
    ensures mach.pmm.free == free0 <==> why != NoTable
  {
    hide Isolated, KernelTables, Sharing, Pmm.FrameAllocator.Valid;
  }

  /** A whole process under elf_exec: load, run (not modelled), free. Once loaded, it costs no frame. */
  method RunProcess(mach: Machine, file: seq<Byte>, segs: seq<Segment>) returns (loaded: bool)
    requires mach.Valid() && WellFormed(file, segs)
    requires ClearOfKernelTables(mach.ram[..], mach.pdTable, segs)
    modifies mach`spaces, mach.pmm, mach.pmm.bitmap, mach.ram
    ensures mach.Valid() && mach.spaces == old(mach.spaces)
    ensures loaded <==> |old(mach.pmm.free)| >= FramesFor(WantedPages(segs))
    ensures mach.pmm.free == old(mach.pmm.free) <==> !RunsOut(segs, |old(mach.pmm.free)|, NoTable)
    ensures OnlyFreeChanged(old(mach.ram[..]), mach.ram[..], old(mach.pmm.free))
  {
    ghost var spaces0, free0 := mach.spaces, mach.pmm.free;
    hide Isolated, Space, Tree, KernelTables, Sharing, InheritsOnly, Image, WellFormed,
      Pmm.FrameAllocator.Valid;
    hide Loaded, LoadFailed, Owned, RunsOut, FramesFor, WantedPages, ClearOfKernelTables, Machine.Valid,
      OnlyFreeChanged;
    ghost var m0 := mach.ram[..];
    var cr3, why := ElfExec(mach, file, segs);
    loaded := cr3 != 0;
    if loaded {
      LoadedFrames(mach, cr3, file, segs, m0, spaces0, free0);
      mach.FreeUserPt(cr3);
    } else {
      FailedFrames(mach, why, m0, spaces0, free0);
    }
  }
}
