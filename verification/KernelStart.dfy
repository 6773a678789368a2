/** From the tables of boot.asm through heap_init: the state every process of the kernel starts from. */
module KernelStart {
  import opened Words
  import opened PageTables
  import opened UserSpaces
  import opened FrameCounts
  import opened Vmm
  import opened ForkSteps
  import opened Fork
  import opened Rights
  import opened Boot
  import Pmm

  const HEAP_SLOT := 8       // HEAP_START is 16 MB
  const HEAP_PAGES := 256    // HEAP_INITIAL_SIZE is 1 MB
  const HEAP_FLAGS := Flags(true, true, false, 0, false, 0)   // PRESENT | RW
  const GUARD_FLAGS := Flags(true, false, false, 0, false, 0)  // vmm_map_page sets PRESENT even for a guard
  const SMALL_USER := Flags(true, true, true, 0, false, 0)     // a 2 MB page of the kernel, split

  /** The kernel's entry for page 512 * c + d once some heap pages, and perhaps the guards, are mapped. */
  ghost function HeapEntry(frames: seq<FrameNo>, lower: bool, upper: bool, c: Index, d: Index): Word
  {
    if c == HEAP_SLOT && d < |frames| then Word(frames[d], HEAP_FLAGS)
    else if (c == HEAP_SLOT - 1 && d == 511 && lower) || (c == HEAP_SLOT && d == HEAP_PAGES && upper)
      then Word(0, GUARD_FLAGS)
    else Word(512 * c + d, SMALL_USER)
  }

  /** The first gigabyte is mapped that way, with 4 KB tables just in these slots. */
  ghost predicate HeapMapped(m: Memory, root: nat, pd: nat, frames: seq<FrameNo>, lower: bool, upper: bool)
  {
    && (forall c: Index, d: Index :: Walk(m, root, 0, 0, c, d) == Some(HeapEntry(frames, lower, upper, c, d)))
    && (forall c: Index :: IsTable(DirEntry(m, pd, c)) <==>
          (c == HEAP_SLOT && |frames| > 0) || (c == HEAP_SLOT - 1 && lower))
  }

  lemma BootMapped(m: Memory, pml4: nat, pdpt: nat, pd: nat, high: nat)
    requires Built(m, pml4, pdpt, pd, high)
    ensures HeapMapped(m, pml4, pd, [], false, false)
  {
    forall c: Index, d: Index
      ensures Walk(m, pml4, 0, 0, c, d) == Some(HeapEntry([], false, false, c, d))
    {
      assert m[pd][c] == Word(512 * c, HUGE_USER);
      assert SplitEntry(m[pd][c], d).frame == 512 * c + d;
    }
  }

  lemma NoGigaPage(m: Memory, k: Kernel, v: nat)
    requires KernelTables(m, k.root, k.role, k.frames, k.pdpt, k.dir) && Pml4Idx(v) == 0 && PdptIdx(v) == 0
    ensures k.root < |m| && !GigaPageOver(m, k.root, v)
  {
  }

  /** The next heap page is mapped. */
  lemma HeapPageMapped(m: Memory, m': Memory, root: nat, pd: nat, frames: seq<FrameNo>, free: set<nat>,
                       free': set<nat>, v: nat, w: Word)
    requires HeapMapped(m, root, pd, frames, false, false) && |frames| < HEAP_PAGES && w.flags == HEAP_FLAGS
    requires Pml4Idx(v) == 0 && PdptIdx(v) == 0 && PdIdx(v) == HEAP_SLOT && PtIdx(v) == |frames|
    requires MappedAt(m, m', root, v, w) && SlotEnsured(m, m', pd, PdIdx(v), free, free', true)
    ensures HeapMapped(m', root, pd, frames + [w.frame], false, false)
    ensures |free| == |free'| + if |frames| == 0 then 1 else 0
  {
    var more := frames + [w.frame];
    SlotNowTable(m, m', pd, HEAP_SLOT, free, free');
    forall c: Index, d: Index
      ensures Walk(m', root, 0, 0, c, d) == Some(HeapEntry(more, false, false, c, d))
    {
      PageNowMapped(m, m', root, v, w, c, d);
    }
  }

  lemma PageNowMapped(m: Memory, m': Memory, root: nat, v: nat, w: Word, c: Index, d: Index)
    requires MappedAt(m, m', root, v, w) && Pml4Idx(v) == 0 && PdptIdx(v) == 0
    ensures Walk(m', root, 0, 0, c, d) == if c == PdIdx(v) && d == PtIdx(v) then Some(w)
      else Walk(m, root, 0, 0, c, d)
  {
  }

  lemma SlotNowTable(m: Memory, m': Memory, pd: nat, i: Index, free: set<nat>, free': set<nat>)
    requires SlotEnsured(m, m', pd, i, free, free', true)
    ensures forall c: Index :: IsTable(DirEntry(m', pd, c)) <==> c == i || IsTable(DirEntry(m, pd, c))
    ensures |free| == |free'| + if IsTable(DirEntry(m, pd, i)) then 0 else 1
  {
  }

  /** A guard page is mapped. */
  lemma GuardMapped(m: Memory, m': Memory, root: nat, pd: nat, frames: seq<FrameNo>, lower: bool, upper: bool,
                    free: set<nat>, free': set<nat>, v: nat, w: Word, below: bool)
    requires HeapMapped(m, root, pd, frames, lower, upper) && |frames| == HEAP_PAGES && w == Word(0, GUARD_FLAGS)
    requires Pml4Idx(v) == 0 && PdptIdx(v) == 0 && (below ==> !lower)
    requires if below then PdIdx(v) == HEAP_SLOT - 1 && PtIdx(v) == 511
      else PdIdx(v) == HEAP_SLOT && PtIdx(v) == HEAP_PAGES
    requires MappedAt(m, m', root, v, w) && SlotEnsured(m, m', pd, PdIdx(v), free, free', true)
    ensures HeapMapped(m', root, pd, frames, lower || below, upper || !below)
    ensures |free| == |free'| + if below then 1 else 0
  {
    SlotNowTable(m, m', pd, PdIdx(v), free, free');
    forall c: Index, d: Index
      ensures Walk(m', root, 0, 0, c, d) == Some(HeapEntry(frames, lower || below, upper || !below, c, d))
    {
      PageNowMapped(m, m', root, v, w, c, d);
    }
  }

  lemma SlotWasTable(m: Memory, m': Memory, pd: nat, i: Index, free: set<nat>, free': set<nat>, ok: bool)
    requires SlotEnsured(m, m', pd, i, free, free', ok)
    ensures ok <==> IsTable(DirEntry(m, pd, i)) || free != {}
    ensures !ok ==> |free| == |free'|
  {
  }

  /** One pass of heap_init's loop. */
  method MapHeapPage(mach: Machine, k: nat, ghost frames: seq<FrameNo>)
    returns (ok: bool, ghost frames': seq<FrameNo>)
    requires mach.Valid() && k < HEAP_PAGES && |frames| == k
    requires HeapMapped(mach.ram[..], mach.kernelRoot, mach.pdTable, frames, false, false)
    modifies mach`kernel, mach`kernelRole, mach`spaces, mach.pmm, mach.pmm.bitmap, mach.ram
    ensures mach.Valid() && mach.spaces.Keys == old(mach.spaces.Keys)
    ensures ok <==> |old(mach.pmm.free)| >= if k == 0 then 2 else 1
    ensures ok ==>
      HeapMapped(mach.ram[..], mach.kernelRoot, mach.pdTable, frames', false, false) && |frames'| == k + 1
    ensures ok ==> |old(mach.pmm.free)| == |mach.pmm.free| + if k == 0 then 2 else 1
    ensures ok ==>
      frames' == frames + [frames'[k]] && frames'[k] in old(mach.pmm.free) && frames'[k] !in mach.pmm.free
    ensures mach.pmm.free <= old(mach.pmm.free) && Pmm.LowestFirst(old(mach.pmm.free), mach.pmm.free)
  {
    hide Isolated, Sharing, KernelTables, Walk, MappedAt, SlotEnsured, SpacesKept, TablesStay, HeapMapped,
      Pmm.FrameAllocator.Valid, Pmm.LowestFirst;
    frames' := frames;
    ghost var m, free0 := mach.ram[..], mach.pmm.free;
    var phys := mach.AllocKernelFrame();
    if phys == 0 {
      return false, frames';
    }
    ghost var free1 := mach.pmm.free;
    assert free0 == free1 + {phys};
    SlotAddress(HEAP_SLOT, k);
    var v := HEAP_SLOT * 0x20_0000 + k * 4096;
    NoGigaPage(m, KernelOf(mach), v);
    ok := mach.MapKernelPage(v, 4096 * phys, Flags(true, true, false, 0, false, 0));
    Pmm.LowestTwice(free0, free1, mach.pmm.free);
    SlotWasTable(m, mach.ram[..], mach.pdTable, HEAP_SLOT, free1, mach.pmm.free, ok);
    HeapSlot(m, mach.kernelRoot, mach.pdTable, frames);
    if ok {
      HeapPageMapped(m, mach.ram[..], mach.kernelRoot, mach.pdTable, frames, free1, mach.pmm.free, v,
                     Word(phys, HEAP_FLAGS));
      frames' := frames + [phys];
    }
  }

  lemma HeapSlot(m: Memory, root: nat, pd: nat, frames: seq<FrameNo>)
    requires HeapMapped(m, root, pd, frames, false, false)
    ensures IsTable(DirEntry(m, pd, HEAP_SLOT)) <==> |frames| > 0
  {
  }

  /** heap_init, on the tables of boot.asm: it succeeds exactly with 257 frames free, and the guard below
      the heap takes one more if there is one. */
  method HeapInit(mach: Machine, ghost high: nat) returns (ok: bool, ghost frames: seq<FrameNo>, ghost lower: bool)
    requires mach.Valid() && Built(mach.ram[..], mach.kernelRoot, mach.pdptTable, mach.pdTable, high)
    modifies mach`kernel, mach`kernelRole, mach`spaces, mach.pmm, mach.pmm.bitmap, mach.ram
    ensures mach.Valid() && mach.spaces.Keys == old(mach.spaces.Keys)
    ensures ok <==> |old(mach.pmm.free)| >= HEAP_PAGES + 1
    ensures ok ==>
      HeapMapped(mach.ram[..], mach.kernelRoot, mach.pdTable, frames, lower, true) && |frames| == HEAP_PAGES
    ensures ok ==> forall k :: 0 <= k < HEAP_PAGES ==> frames[k] in old(mach.pmm.free) && frames[k] !in mach.pmm.free
    ensures ok ==> (lower <==> |old(mach.pmm.free)| >= HEAP_PAGES + 2)
    ensures ok ==> |old(mach.pmm.free)| == |mach.pmm.free| + HEAP_PAGES + if lower then 2 else 1
    ensures Pmm.LowestFirst(old(mach.pmm.free), mach.pmm.free)
  {
    hide Isolated, Sharing, KernelTables, Walk, MappedAt, SlotEnsured, SpacesKept, TablesStay, HeapMapped,
      Built, Pmm.FrameAllocator.Valid, Pmm.LowestFirst;
    frames, lower := [], false;
    ghost var free0 := mach.pmm.free;
    Pmm.LowestNone(free0);
    BootMapped(mach.ram[..], mach.kernelRoot, mach.pdptTable, mach.pdTable, high);
    var k := 0;
    while k < HEAP_PAGES
      invariant 0 <= k <= HEAP_PAGES && |frames| == k
      invariant mach.Valid() && mach.spaces.Keys == old(mach.spaces.Keys)
      invariant HeapMapped(mach.ram[..], mach.kernelRoot, mach.pdTable, frames, false, false)
      invariant |free0| == |mach.pmm.free| + k + if k == 0 then 0 else 1
      invariant mach.pmm.free <= free0 && Pmm.LowestFirst(free0, mach.pmm.free)
      invariant forall l :: 0 <= l < k ==> frames[l] in free0 && frames[l] !in mach.pmm.free
    {
      ghost var free1 := mach.pmm.free;
      ok, frames := MapHeapPage(mach, k, frames);
      Pmm.LowestTwice(free0, free1, mach.pmm.free);
      if !ok {
        return;
      }
      k := k + 1;
    }
    ghost var free1 := mach.pmm.free;
    lower := MapGuard(mach, frames, false, true);
    ghost var free2 := mach.pmm.free;
    Pmm.LowestTwice(free0, free1, free2);
    var upper := MapGuard(mach, frames, lower, false);
    Pmm.LowestTwice(free0, free2, mach.pmm.free);
    ok := true;
  }

  /** One of the two guard pages; heap_init ignores the result. */
  method MapGuard(mach: Machine, ghost frames: seq<FrameNo>, ghost lower: bool, below: bool) returns (ok: bool)
    requires mach.Valid() && |frames| == HEAP_PAGES && (below ==> !lower)
    requires HeapMapped(mach.ram[..], mach.kernelRoot, mach.pdTable, frames, lower, false)
    modifies mach`kernel, mach`kernelRole, mach`spaces, mach.pmm, mach.pmm.bitmap, mach.ram
    ensures mach.Valid() && mach.spaces.Keys == old(mach.spaces.Keys)
    ensures ok <==> !below || old(mach.pmm.free) != {}
    ensures HeapMapped(mach.ram[..], mach.kernelRoot, mach.pdTable, frames, lower || (below && ok), !below)
    ensures mach.pmm.free <= old(mach.pmm.free) && Pmm.LowestFirst(old(mach.pmm.free), mach.pmm.free)
    ensures |old(mach.pmm.free)| == |mach.pmm.free| + if below && ok then 1 else 0
  {
    hide Isolated, Sharing, KernelTables, Walk, MappedAt, SlotEnsured, SpacesKept, TablesStay, HeapMapped,
      Pmm.FrameAllocator.Valid;
    ghost var m, free0 := mach.ram[..], mach.pmm.free;
    var i: Index := if below then HEAP_SLOT - 1 else HEAP_SLOT;
    var j: Index := if below then 511 else HEAP_PAGES;
    SlotAddress(i, j);
    var v := i * 0x20_0000 + j * 4096;
    NoGigaPage(m, KernelOf(mach), v);
    ok := mach.MapKernelPage(v, 0, Flags(false, false, false, 0, false, 0));
    SlotWasTable(m, mach.ram[..], mach.pdTable, i, free0, mach.pmm.free, ok);
    GuardSlots(m, mach.kernelRoot, mach.pdTable, frames, lower);
    if ok {
      GuardMapped(m, mach.ram[..], mach.kernelRoot, mach.pdTable, frames, lower, false, free0, mach.pmm.free, v,
                  Word(0, GUARD_FLAGS), below);
    } else {
      GuardFailed(m, mach.ram[..], mach.kernelRoot, mach.pdTable, frames, lower, i, free0, mach.pmm.free);
    }
  }

  lemma GuardSlots(m: Memory, root: nat, pd: nat, frames: seq<FrameNo>, lower: bool)
    requires HeapMapped(m, root, pd, frames, lower, false) && |frames| == HEAP_PAGES
    ensures IsTable(DirEntry(m, pd, HEAP_SLOT)) && (IsTable(DirEntry(m, pd, HEAP_SLOT - 1)) <==> lower)
  {
  }

  /** Without a frame for the table of the guard nothing changes. */
  lemma GuardFailed(m: Memory, m': Memory, root: nat, pd: nat, frames: seq<FrameNo>, lower: bool, i: Index,
                    free: set<nat>, free': set<nat>)
    requires HeapMapped(m, root, pd, frames, lower, false) && SameTranslation(m, m', root)
    requires SlotEnsured(m, m', pd, i, free, free', false) && i == HEAP_SLOT - 1
    ensures HeapMapped(m', root, pd, frames, lower, false)
  {
    forall c: Index ensures DirEntry(m', pd, c) == DirEntry(m, pd, c) {
      if c != i {
        assert m'[pd][c] == m[pd][c];
      }
    }
  }

  /** Where the heap is: address 0x100_0000 + 4096 d is the start of its frame d, and ring 3 may use neither
      the heap nor a guard, which lead to frame 0. */
  lemma HeapAddresses(m: Memory, root: nat, pd: nat, frames: seq<FrameNo>, lower: bool, v: nat)
    requires HeapMapped(m, root, pd, frames, lower, true) && |frames| == HEAP_PAGES && v < 0x4000_0000
    ensures |frames| == 256
    ensures 0x100_0000 <= v < 0x110_0000 ==>
      Physical(m, root, v) == 4096 * frames[(v - 0x100_0000) / 4096] + v % 4096 && !UserMay(m, root, v, false)
    ensures 0x110_0000 <= v < 0x110_1000 || (0xFF_F000 <= v < 0x100_0000 && lower) ==>
      Physical(m, root, v) == v % 4096 && !UserMay(m, root, v, false)
    ensures v < 0xFF_F000 || v >= 0x110_1000 || (v < 0x100_0000 && !lower) ==> Physical(m, root, v) == v
  {
    Indices(v);
    var c: Index, d: Index := v / 0x20_0000 % 512, v / 0x1000 % 512;
    assert v / 4096 == 512 * c + d;
    assert Walk(m, root, 0, 0, c, d) == Some(HeapEntry(frames, lower, true, c, d));
    if !HeapEntry(frames, lower, true, c, d).flags.user {
      NoUserWalk(m, root, v);
    }
  }

  /** A page that is not the user's at its last entry is not the user's. */
  lemma NoUserWalk(m: Memory, root: nat, v: nat)
    requires v < 0x4000_0000
    requires var w := Walk(m, root, 0, 0, PdIdx(v), PtIdx(v)); w.Some? && !w.value.flags.user
    ensures !UserMay(m, root, v, false)
  {
  }

  /** After heap_init an address below 1 GB still translates to itself exactly outside the heap and its
      guards, pages 4095 to 4352, and in a heap page that got the frame of its own number. */
  lemma IdentityAfterStart(m: Memory, root: nat, pd: nat, frames: seq<FrameNo>, lower: bool, v: nat)
    requires HeapMapped(m, root, pd, frames, lower, true) && |frames| == HEAP_PAGES && v < 0x4000_0000
    ensures |frames| == 256
    ensures var page := v / 4096;
      Physical(m, root, v) == v <==>
        if 4096 <= page < 4352 then frames[page - 4096] == page else page != 4352 && (page == 4095 ==> !lower)
  {
    HeapAddresses(m, root, pd, frames, lower, v);
  }
}
