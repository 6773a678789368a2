/** The forks of the booted kernel: what they copy, what they lose, and where the kernel's addresses lead
    afterwards. */
module BootedForks {
  import opened Words
  import opened PageTables
  import opened UserSpaces
  import opened FrameCounts
  import opened Vmm
  import opened ForkSteps
  import opened Fork
  import opened Boot
  import opened KernelStart
  import opened Reach
  import opened Isolation
  import opened Rights
  import Pmm

  /** The slots where the kernel now has 4 KB tables, and the pages in them that are user pages by their
      flags: all of slot 7 but the guard, and in slot 8 what lies above the heap and its guard. */
  predicate LeftUser(c: Index, d: Index)
  {
    (c == HEAP_SLOT - 1 && d != 511) || (c == HEAP_SLOT && d > HEAP_PAGES)
  }

  ghost predicate HeapTables(m: Memory, pd: nat)
  {
    && KernelSlots(m, pd) == {HEAP_SLOT - 1, HEAP_SLOT}
    && forall c: Index, d: Index :: c in KernelSlots(m, pd) ==>
         (Source(m, pd, c, d).flags.present && Source(m, pd, c, d).flags.user <==> LeftUser(c, d))
  }

  lemma HeapTablesBuilt(m: Memory, k: Kernel, frames: seq<FrameNo>)
    requires KernelTables(m, k.root, k.role, k.frames, k.pdpt, k.dir)
    requires HeapMapped(m, k.root, k.dir, frames, true, true) && |frames| == HEAP_PAGES
    ensures HeapTables(m, k.dir)
  {
    forall c: Index, d: Index | c in KernelSlots(m, k.dir)
      ensures Source(m, k.dir, c, d) == HeapEntry(frames, true, true, c, d)
    {
      SlotFrame(m, k, c);
      assert Walk(m, k.root, 0, 0, c, d) == Some(HeapEntry(frames, true, true, c, d));
    }
  }

  /** Space r has nothing but what vmm_create_user_pt gave it. */
  ghost predicate AsCreated(m: Memory, r: nat, pd: nat)
  {
    forall i: Index :: DirEntry(m, DirOf(m, r), i) == Supervisor(DirEntry(m, pd, i))
  }

  ghost function Numbers(lo: nat, hi: nat): set<nat>
  {
    set p: nat | p < hi && AtLeast(lo, p)
  }

  predicate AtLeast(lo: nat, p: nat) { lo <= p }

  lemma {:induction false} NumbersCount(lo: nat, hi: nat)
    requires lo <= hi
    ensures |Numbers(lo, hi)| == hi - lo
    decreases hi - lo
  {
    if lo < hi {
      NumbersCount(lo, hi - 1);
      assert AtLeast(lo, hi - 1);
      assert Numbers(lo, hi) == Numbers(lo, hi - 1) + {hi - 1};
    } else {
      assert Numbers(lo, hi) == {};
    }
  }

  /** A directory with the kernel's tables in these slots. */
  ghost predicate HasHeapTables(m: Memory, dir: nat, pd: nat)
  {
    forall c: Index :: c in KernelSlots(m, pd) ==>
      IsTable(DirEntry(m, dir, c)) && DirEntry(m, dir, c).frame == DirEntry(m, pd, c).frame
  }

  /** Fork's loop copies 766 pages of it over entries of the kernel's. */
  lemma KernelPagesCopied(m: Memory, dir: nat, pd: nat)
    requires HeapTables(m, pd) && HasHeapTables(m, dir, pd)
    ensures |Bad(m, dir, KernelSlots(m, pd), PAGES)| == 766 && !CloneSafe(m, dir, pd)
  {
    hide LeftUser;
    var skip, low, high := KernelSlots(m, pd), Numbers(3584, 4095), Numbers(4353, 4608);
    forall p: nat | p < PAGES
      ensures CopiesPage(m, dir, p) && p / 512 in skip <==> p in low + high
    {
      var c: Index, d: Index := p / 512, p % 512;
      assert c in skip ==> Source(m, dir, c, d) == Source(m, pd, c, d);
      LeftUserNumbers(p);
      assert p in low <==> 3584 <= p < 4095 by { assert AtLeast(3584, p) <==> 3584 <= p; }
      assert p in high <==> 4353 <= p < 4608 by { assert AtLeast(4353, p) <==> 4353 <= p; }
    }
    NumbersCount(3584, 4095);
    NumbersCount(4353, 4608);
    assert Bad(m, dir, skip, PAGES) == low + high && low !! high;
    SafeIffNoneBad(m, dir, pd);
  }

  lemma LeftUserNumbers(p: nat)
    requires p < PAGES
    ensures p / 512 in {HEAP_SLOT - 1, HEAP_SLOT} && LeftUser(p / 512, p % 512) <==>
      3584 <= p < 4095 || 4353 <= p < 4608
  {
  }

  /** Whatever a space made after heap_init has mapped since, a fork of it loses 766 frames. */
  lemma InheritorsUnsafe(m: Memory, spaces: map<nat, map<nat, Role>>, free: set<nat>, k: Kernel, r: nat)
    requires Sound(m, spaces, free, k) && HeapTables(m, k.dir) && r in spaces
    requires Inherits(m, r, HEAP_SLOT - 1) && Inherits(m, r, HEAP_SLOT)
    ensures |Bad(m, DirOf(m, r), KernelSlots(m, k.dir), PAGES)| == 766 && !CloneSafe(m, DirOf(m, r), k.dir)
  {
    hide Isolated, KernelTables, LeftUser, Bad, CloneSafe;
    assert SharesKernel(m, r, spaces[r], k.frames, k.role, k.dir);
    KernelPagesCopied(m, DirOf(m, r), k.dir);
  }

  /** Of a space just created it copies nothing else. */
  lemma CopiesOfKernel(m: Memory, r: nat, pd: nat)
    requires HeapTables(m, pd) && AsCreated(m, r, pd)
    ensures var dir, skip := DirOf(m, r), KernelSlots(m, pd);
      && Good(m, dir, skip, PAGES) == {} && |Bad(m, dir, skip, PAGES)| == 766
      && Taken(m, dir, skip, PAGES) == 769 && !CloneSafe(m, dir, pd)
  {
    hide LeftUser, Bad, CloneSafe;
    var dir, skip := DirOf(m, r), KernelSlots(m, pd);
    assert forall c: Index :: DirEntry(m, dir, c) == Supervisor(DirEntry(m, pd, c));
    KernelPagesCopied(m, dir, pd);
    assert Good(m, dir, skip, PAGES) == {};
    assert Rows({}) == {};
  }

  /** A fork leaves the flags of the kernel's tables as they are, so the next one finds the same. */
  lemma NextForkAlike(m: Memory, m': Memory, spaces: map<nat, map<nat, Role>>, free: set<nat>, k: Kernel, r: nat,
                      lost: set<nat>, n: nat)
    requires Sound(m, spaces, free, k) && r in spaces && HeapTables(m, k.dir) && AsCreated(m, r, k.dir)
    requires |m'| == |m| && forall f :: 0 <= f < |m| && f !in free && f !in k.frames ==> m'[f] == m[f]
    requires KernelRewritten(m, m', k.dir, DirOf(m, r), lost, n)
    ensures HeapTables(m', k.dir) && AsCreated(m', r, k.dir)
  {
    hide UserEntry, Sharing, HeapTables, KernelRewritten, KernelTables;
    forall f | f in spaces[r] && f !in k.frames && f < |m| ensures m'[f] == m[f] {
      assert f in Owned(spaces[r], k.frames);
    }
    OwnPagesKept(m, m', r, spaces[r], k.frames);
    HeapTablesStay(m, m', k.dir, DirOf(m, r), lost, n);
  }

  lemma HeapTablesStay(m: Memory, m': Memory, pd: nat, dir: nat, lost: set<nat>, n: nat)
    requires HeapTables(m, pd) && KernelRewritten(m, m', pd, dir, lost, n)
    requires forall i: Index :: DirEntry(m, dir, i) == Supervisor(DirEntry(m, pd, i))
    ensures HeapTables(m', pd) && forall i: Index :: DirEntry(m', pd, i) == DirEntry(m, pd, i)
  {
    hide LeftUser;
    assert forall c: Index :: DirEntry(m', pd, c) == DirEntry(m, pd, c);
    assert KernelSlots(m', pd) == KernelSlots(m, pd);
    forall c: Index, d: Index | c in KernelSlots(m, pd)
      ensures Source(m', pd, c, d).flags == Source(m, pd, c, d).flags
    {
      assert EntryRewritten(m, m', pd, dir, lost, n, c, d);
      assert DirEntry(m, dir, c) == Supervisor(DirEntry(m, pd, c));
    }
  }

  // ----- the mapping through which the kernel reaches frames

  const LOW := 3584        // first page of directory slot 7
  const BEHIND := 4608     // first page behind slot 8

  ghost function LowOf(s: set<nat>): set<nat>
  {
    set f | f in s && f < LOW
  }

  /** Pages lo to hi - 1 lead to frames below LOW; every other page of the first gigabyte to the frame of
      its own number. */
  ghost predicate Straying(m: Memory, root: nat, lo: nat, hi: nat)
  {
    forall p :: 0 <= p < PAGES ==>
      if lo <= p < hi then KernelPage(m, root, p).Some? && KernelPage(m, root, p).value.frame < LOW
      else Reached(m, root, p)
  }

  /** After heap_init the pages of the heap and its guards do. */
  lemma HeapStrays(m: Memory, k: Kernel, frames: seq<FrameNo>)
    requires HeapMapped(m, k.root, k.dir, frames, true, true) && |frames| == HEAP_PAGES
    requires forall d :: 0 <= d < HEAP_PAGES ==> frames[d] < LOW
    ensures Straying(m, k.root, 512 * HEAP_SLOT - 1, 512 * HEAP_SLOT + HEAP_PAGES + 1)
  {
    hide Walk;
    forall p | 0 <= p < PAGES
      ensures KernelPage(m, k.root, p) == Some(HeapEntry(frames, true, true, p / 512, p % 512))
    {
      var c: Index, d: Index := p / 512, p % 512;
      assert Walk(m, k.root, 0, 0, c, d) == Some(HeapEntry(frames, true, true, c, d));
    }
  }

  /** Which pages a fork copies over the kernel's entries. */
  lemma WhichOverwritten(m: Memory, k: Kernel, dir: nat, n: nat, p: nat)
    requires HeapTables(m, k.dir) && HasHeapTables(m, dir, k.dir) && p < PAGES
    ensures Overwritten(m, k, dir, n, p) <==> p < n && (LOW <= p < 4095 || 4353 <= p < BEHIND)
  {
    hide LeftUser;
    var c: Index, d: Index := p / 512, p % 512;
    assert c in KernelSlots(m, k.dir) ==> Source(m, dir, c, d) == Source(m, k.dir, c, d);
    LeftUserNumbers(p);
  }

  /** The counterpart of IdentityAfterStart: after a fork that stopped at page n, or in the midst of it, the
      addresses of the pages copied by then lead to frames lost in it, so to themselves only where the
      frame of the same number was lost; all others lead where they did. */
  lemma IdentityAfterFork(m: Memory, m': Memory, k: Kernel, dir: nat, lost: set<nat>, n: nat, v: nat)
    requires KernelTables(m, k.root, k.role, k.frames, k.pdpt, k.dir)
    requires KernelTables(m', k.root, k.role, k.frames, k.pdpt, k.dir)
    requires HeapTables(m, k.dir) && HasHeapTables(m, dir, k.dir)
    requires KernelRewritten(m, m', k.dir, dir, lost, n) && 0 < v < 0x4000_0000
    ensures var p, page := v / 4096, KernelPage(m', k.root, v / 4096);
      if p < n && (LOW <= p < 4095 || 4353 <= p < BEHIND)
        then page.Some? && page.value.frame in lost && (Physical(m', k.root, v) == v <==> page.value.frame == p)
        else Physical(m', k.root, v) == v <==> Physical(m, k.root, v) == v
  {
    hide KernelTables, KernelRewritten, Overwritten, KernelPage, HeapTables, HasHeapTables, Physical;
    WhichOverwritten(m, k, dir, n, v / 4096);
    RewrittenWalk(m, m', k, dir, lost, n, v / 4096);
    ReachedThere(m, k.root, v);
    ReachedThere(m', k.root, v);
  }

  /** With low frames lost, all of slots 7 and 8 leads to low frames once a fork has run. */
  lemma ForkStrays(m: Memory, m': Memory, k: Kernel, dir: nat, lost: set<nat>, lo: nat, hi: nat)
    requires KernelTables(m, k.root, k.role, k.frames, k.pdpt, k.dir)
    requires KernelTables(m', k.root, k.role, k.frames, k.pdpt, k.dir)
    requires HeapTables(m, k.dir) && HasHeapTables(m, dir, k.dir)
    requires KernelRewritten(m, m', k.dir, dir, lost, PAGES) && forall f :: f in lost ==> f < LOW
    requires Straying(m, k.root, lo, hi) && LOW <= lo <= 4095 && 4353 <= hi <= BEHIND
    ensures Straying(m', k.root, LOW, BEHIND)
  {
    hide KernelTables, KernelRewritten, Overwritten, KernelPage, HeapTables, HasHeapTables;
    forall p | 0 <= p < PAGES
      ensures if LOW <= p < BEHIND
        then KernelPage(m', k.root, p).Some? && KernelPage(m', k.root, p).value.frame < LOW
        else Reached(m', k.root, p)
    {
      WhichOverwritten(m, k, dir, PAGES, p);
      RewrittenWalk(m, m', k, dir, lost, PAGES, p);
      assert Reached(m, k.root, p) ==> KernelPage(m, k.root, p).Some? && KernelPage(m, k.root, p).value.frame == p;
    }
  }

  /** Whatever is handed out in the order of the numbers is low as long as the low frames suffice. */
  lemma LowTaken(was: set<nat>, left: set<nat>)
    requires Pmm.LowestFirst(was, left) && |was - left| <= |LowOf(was)|
    ensures forall f :: f in was - left ==> f < LOW
    ensures |LowOf(left)| == |LowOf(was)| - |was - left|
  {
    if f :| f in was - left && f >= LOW {
      assert LowOf(was) + {f} <= was - left;
      CountIn(LowOf(was) + {f}, was - left);
    }
    assert LowOf(was) == LowOf(left) + (was - left);
  }

  lemma CountIn(s: set<nat>, t: set<nat>)
    requires s <= t
    ensures |s| <= |t|
  {
    assert t == s + (t - s);
  }

  /** In such a state every page that a fork reads is where the kernel looks for it, and so is every low
      frame that it writes, at whatever page it stands. */
  lemma ForkReaches(mach: Machine, m0: Memory, spaces0: map<nat, map<nat, Role>>, free0: set<nat>, b: Memory,
                    base: set<nat>, parent: nat, child: nat, i: Index, j: Index, lo: nat, hi: nat, f: nat)
    requires Forking(mach, m0, spaces0, free0, b, base, parent, child, 512 * i + j)
    requires HeapTables(m0, mach.pdTable) && HasHeapTables(m0, DirOf(m0, parent), mach.pdTable)
    requires Straying(m0, mach.kernelRoot, lo, hi) && LOW <= lo <= hi <= BEHIND
    requires Copies(m0, DirOf(m0, parent), i, j)
    requires f < LOW || (i in KernelSlots(m0, mach.pdTable) && f == Source(m0, DirOf(m0, parent), i, j).frame)
    ensures Reached(mach.ram[..], mach.kernelRoot, f)
  {
    hide Cloning, CopiedUpTo, Rebased, Isolated, Sharing, HeapTables, HasHeapTables, Overwritten, KernelTables,
      Copies, Source;
    var n, k, dir := 512 * i + j, KernelOf(mach), DirOf(m0, parent);
    if f >= LOW {
      SourceIsMapped(m0, k, dir, i, j);
      assert f == n;
    }
    assert Reached(m0, k.root, f);
    WhichOverwritten(m0, k, dir, n, f);
    CopyReached(mach, m0, spaces0, free0, b, base, parent, child, n, f);
  }

  /** Below a table of the kernel the loop finds the frame that the kernel has at this page. */
  lemma SourceIsMapped(m: Memory, k: Kernel, dir: nat, c: Index, d: Index)
    requires KernelTables(m, k.root, k.role, k.frames, k.pdpt, k.dir) && HasHeapTables(m, dir, k.dir)
    requires c in KernelSlots(m, k.dir) && Copies(m, dir, c, d)
    ensures KernelPage(m, k.root, 512 * c + d) == Some(Source(m, dir, c, d))
  {
    hide KernelTables, Walk;
    KernelWalk(m, k, c, d);
    SlotFrame(m, k, c);
    assert (512 * c + d) / 512 == c && (512 * c + d) % 512 == d;
  }

  // ----- a run

  /** Start the kernel, create a space, and fork and reap it `times` times, with low frames enough. Every
      round loses 766 frames for good; all frames handed out are low, where the kernel reaches them all
      the time; and in the end it reaches all frames but those numbered like the pages of slots 7 and 8. */
  method ForkAfterStart(mach: Machine, times: nat, ghost high: nat) returns (ghost handed: set<nat>)
    requires mach.Valid() && Built(mach.ram[..], mach.kernelRoot, mach.pdptTable, mach.pdTable, high)
    requires |LowOf(mach.pmm.free)| >= 264 + 766 * times
    modifies mach`kernel, mach`kernelRole, mach`spaces, mach.pmm, mach.pmm.bitmap, mach.ram
    ensures mach.Valid() && |old(mach.pmm.free)| == |mach.pmm.free| + 261 + 766 * times
    ensures old(mach.pmm.free) - mach.pmm.free <= handed <= LowOf(old(mach.pmm.free))
    ensures Straying(mach.ram[..], mach.kernelRoot, StrayFrom(times), StrayTo(times))
  {
    hide Isolated, Sharing, KernelTables, Walk, HeapMapped, Built, HeapTables, AsCreated, Reaped, UserEntry,
      Source;
    hide Taken, Good, Bad, Space, Owned, Pmm.FrameAllocator.Valid, Pmm.LowestFirst, LowOf, Straying,
      KernelRewritten;
    ghost var free0 := mach.pmm.free;
    LowCount(free0);
    var ok;
    ghost var frames, lower;
    ok, frames, lower := HeapInit(mach, high);
    HeapTablesBuilt(mach.ram[..], KernelOf(mach), frames);
    ghost var m, free1, spaces1 := mach.ram[..], mach.pmm.free, mach.spaces;
    OnlyLow(free0, free0, free1);
    forall d | 0 <= d < HEAP_PAGES ensures frames[d] < LOW {
      assert frames[d] in free0 - free1;
    }
    HeapStrays(m, KernelOf(mach), frames);
    KernelDirectory(m, spaces1, mach.kernel, free1, mach.kernelRoot, mach.kernelRole, mach.pdptTable, mach.pdTable);
    var r := mach.CreateUserPt();
    CreatedAlike(m, mach.ram[..], r, mach.spaces, free1, KernelOf(mach));
    CreationTakes(mach.ram[..], r, mach.spaces, free1, mach.pmm.free, KernelOf(mach));
    StrayingKept(m, mach.ram[..], KernelOf(mach), 4095, 4353);
    OnlyLow(free0, free1, mach.pmm.free);
    handed := free0 - mach.pmm.free;
    var k := 0;
    while k < times
      invariant 0 <= k <= times && mach.Valid() && r in mach.spaces
      invariant HeapTables(mach.ram[..], mach.pdTable) && AsCreated(mach.ram[..], r, mach.pdTable)
      invariant Straying(mach.ram[..], mach.kernelRoot, StrayFrom(k), StrayTo(k))
      invariant |free0| == |mach.pmm.free| + 261 + 766 * k && |LowOf(mach.pmm.free)| >= 3 + 766 * (times - k)
      invariant free0 - mach.pmm.free <= handed <= LowOf(free0) && mach.pmm.free <= free0
    {
      ghost var stop, taken := 0, {};
      ghost var m1, free2 := mach.ram[..], mach.pmm.free;
      CopiesOfKernel(m1, r, mach.pdTable);
      LowCount(free2);
      var forked;
      forked, stop, taken := ForkAndReap(mach, r);
      ReapedFacts(m1, mach.ram[..], free2, mach.pmm.free, mach.kernel, mach.pdTable, r, forked, stop);
      LowTwice(free0, free2, taken, mach.pmm.free);
      CreatedHasTables(m1, r, mach.pdTable);
      ForkStrays(m1, mach.ram[..], KernelOf(mach), DirOf(m1, r), free2 - mach.pmm.free, StrayFrom(k), StrayTo(k));
      NextForkAlike(m1, mach.ram[..], mach.spaces, free2, KernelOf(mach), r, free2 - mach.pmm.free, stop);
      handed := handed + taken;
      k := k + 1;
    }
  }

  function StrayFrom(forks: nat): nat { if forks == 0 then 4095 else LOW }
  function StrayTo(forks: nat): nat { if forks == 0 then 4353 else BEHIND }

  lemma LowCount(s: set<nat>)
    ensures |LowOf(s)| <= |s|
  {
    CountIn(LowOf(s), s);
  }

  /** Taking the lowest frames first, with low frames enough. */
  lemma OnlyLow(free0: set<nat>, was: set<nat>, left: set<nat>)
    requires Pmm.LowestFirst(was, left) && |was| - |left| <= |LowOf(was)|
    requires was <= free0 && free0 - was <= LowOf(free0)
    ensures left <= was && |LowOf(left)| == |LowOf(was)| - (|was| - |left|)
    ensures (forall f :: f in was - left ==> f < LOW) && free0 - left <= LowOf(free0)
  {
    LeftOver(was, left);
    LowTaken(was, left);
  }

  /** A fork that took low frames only and gave some of them back. */
  lemma LowTwice(free0: set<nat>, was: set<nat>, taken: set<nat>, left: set<nat>)
    requires taken <= was <= free0 && was - left <= taken && left <= was && |taken| <= |LowOf(was)|
    requires Pmm.LowestFirst(was, was - taken)
    ensures taken <= LowOf(free0) && |LowOf(left)| == |LowOf(was)| - (|was| - |left|)
    ensures forall f :: f in was - left ==> f < LOW
  {
    assert was - (was - taken) == taken;
    LowTaken(was, was - taken);
    LeftOver(was, left);
    assert LowOf(was) == LowOf(left) + (was - left);
  }

  lemma StrayingKept(m: Memory, m': Memory, k: Kernel, lo: nat, hi: nat)
    requires KernelTables(m, k.root, k.role, k.frames, k.pdpt, k.dir)
    requires KernelTables(m', k.root, k.role, k.frames, k.pdpt, k.dir)
    requires |m'| == |m| && forall f :: 0 <= f < |m| && f in k.frames ==> m'[f] == m[f]
    requires Straying(m, k.root, lo, hi)
    ensures Straying(m', k.root, lo, hi)
  {
    hide KernelTables, KernelPage;
    forall p | 0 <= p < PAGES ensures KernelPage(m', k.root, p) == KernelPage(m, k.root, p) {
      KernelPageKept(m, m', k, p);
    }
  }

  lemma CreatedHasTables(m: Memory, r: nat, pd: nat)
    requires AsCreated(m, r, pd)
    ensures HasHeapTables(m, DirOf(m, r), pd)
  {
  }

  lemma ReapedFacts(m: Memory, m': Memory, free: set<nat>, free': set<nat>, kernel: set<nat>, kernelDir: nat,
                    parent: nat, forked: bool, stop: nat)
    requires Reaped(m, m', free, free', kernel, kernelDir, parent, forked, stop)
    ensures |m'| == |m| && (forall f :: 0 <= f < |m| && f !in free && f !in kernel ==> m'[f] == m[f])
    ensures KernelRewritten(m, m', kernelDir, DirOf(m, parent), free - free', stop)
    ensures free' <= free && |free| == |free'| + |Bad(m, DirOf(m, parent), KernelSlots(m, kernelDir), stop)|
    ensures forked <==> stop == PAGES
  {
    hide Bad, KernelRewritten, Spills, CloneSafe, StopsAt;
  }

  lemma CreatedAlike(m: Memory, m': Memory, r: nat, spaces: map<nat, map<nat, Role>>, free: set<nat>, k: Kernel)
    requires HeapTables(m, k.dir) && k.frames !! free && KernelTables(m, k.root, k.role, k.frames, k.pdpt, k.dir)
    requires |m'| == |m| && forall f :: 0 <= f < |m| && f !in free ==> m'[f] == m[f]
    requires forall i: Index :: DirEntry(m', DirOf(m', r), i) == Supervisor(m'[k.dir][i])
    ensures HeapTables(m', k.dir) && AsCreated(m', r, k.dir)
  {
    hide LeftUser;
    assert m'[k.dir] == m[k.dir];
    assert forall c: Index :: DirEntry(m', k.dir, c) == DirEntry(m, k.dir, c);
    assert KernelSlots(m', k.dir) == KernelSlots(m, k.dir);
    forall c: Index, d: Index | c in KernelSlots(m, k.dir)
      ensures Source(m', k.dir, c, d) == Source(m, k.dir, c, d)
    {
      SlotFrame(m, k, c);
    }
  }

  /** A space just created took three frames. */
  lemma CreationTakes(m: Memory, r: nat, spaces: map<nat, map<nat, Role>>, free: set<nat>, free': set<nat>, k: Kernel)
    requires Isolated(m, spaces, k.frames, free') && r in spaces && free' <= free
    requires Owned(spaces[r], k.frames) == free - free'
    requires forall i: Index, j: Index :: UserEntry(m, DirOf(m, r), i, j) == None
    requires forall i: Index :: DirEntry(m, DirOf(m, r), i).flags.user ==> !IsTable(DirEntry(m, DirOf(m, r), i))
    ensures |free| == |free'| + 3
  {
    hide UserEntry, Space;
    assert Pages(m, r) == {};
    assert NoIdleTable(m, r);
    OwnedCount(m, r, spaces[r], k.frames);
    assert Rows({}) == {};
    assert free == free' + (free - free');
  }

  /** Low frames suffice for four rounds at most. */
  lemma FewRounds(free: set<nat>, times: nat)
    requires (forall f :: f in free ==> Pmm.RESERVED_FRAMES <= f) && |LowOf(free)| >= 264 + 766 * times
    ensures times <= 4
  {
    var all := Numbers(Pmm.RESERVED_FRAMES, LOW);
    forall f | f in LowOf(free) ensures f in all {
      assert AtLeast(Pmm.RESERVED_FRAMES, f);
    }
    CountIn(LowOf(free), all);
    NumbersCount(Pmm.RESERVED_FRAMES, LOW);
  }

  // ----- what parent and child see

  /** Every space has inherited every 4 KB table of the kernel. */
  ghost predicate AllInherit(m: Memory, spaces: map<nat, map<nat, Role>>, kernelDir: nat)
  {
    forall r :: r in spaces ==> InheritsIn(m, r, KernelSlots(m, kernelDir))
  }

  /** A space just created has ... */
  lemma CreatedInherits(m: Memory, m': Memory, spaces: map<nat, map<nat, Role>>, spaces': map<nat, map<nat, Role>>,
                        free: set<nat>, k: Kernel, r: nat)
    requires Sound(m, spaces, free, k) && AllInherit(m, spaces, k.dir) && r !in spaces
    requires r in spaces' && spaces' == spaces[r := spaces'[r]] && AsCreated(m', r, k.dir)
    requires |m'| == |m| && forall f :: 0 <= f < |m| && f !in free ==> m'[f] == m[f]
    ensures AllInherit(m', spaces', k.dir)
  {
    hide UserEntry, Space, KernelTables, Sharing;
    KernelDirectory(m, spaces, k.frames, free, k.root, k.role, k.pdpt, k.dir);
    assert m'[k.dir] == m[k.dir] && KernelSlots(m', k.dir) == KernelSlots(m, k.dir);
    forall q | q in spaces ensures InheritsIn(m', q, KernelSlots(m', k.dir)) {
      SameDirectory(m, m', q, spaces, k.frames, free);
    }
  }

  lemma SameDirectory(m: Memory, m': Memory, q: nat, spaces: map<nat, map<nat, Role>>, kernel: set<nat>,
                      free: set<nat>)
    requires Isolated(m, spaces, kernel, free) && q in spaces
    requires |m'| == |m| && forall f :: 0 <= f < |m| && f !in free && f !in kernel ==> m'[f] == m[f]
    ensures DirOf(m', q) == DirOf(m, q)
    ensures forall c: Index :: DirEntry(m', DirOf(m', q), c) == DirEntry(m, DirOf(m, q), c)
    ensures forall c: Index, d: Index :: UserEntry(m', DirOf(m', q), c, d) == UserEntry(m, DirOf(m, q), c, d)
  {
    hide UserEntry;
    OwnedNotFree(m, spaces, kernel, free, q);
    forall f | f in spaces[q] && f !in kernel && f < |m| ensures m'[f] == m[f] {
      assert f in Owned(spaces[q], kernel);
    }
    OwnPagesKept(m, m', q, spaces[q], kernel);
  }

  /** ... and so has the child of a fork, while its parent and the others keep what they have. */
  lemma ForkedInherits(m: Memory, m': Memory, spaces: map<nat, map<nat, Role>>, spaces': map<nat, map<nat, Role>>,
                       free: set<nat>, free': set<nat>, k: Kernel, parent: nat, child: nat, stop: nat)
    requires Sound(m, spaces, free, k) && AllInherit(m, spaces, k.dir) && child != 0
    requires Forked(m, m', spaces, spaces', free, free', k.frames, k.dir, parent, child, stop)
    ensures AllInherit(m', spaces', k.dir)
  {
    hide UserEntry, Space, Isolated, KernelTables, Sharing, Spills, StopsAt, CloneSafe, CopyOf, NoneBeside,
      Taken, Bad, SlotForked, EntryRewritten, Owned, Pmm.LowestFirst;
    assert KernelSlots(m', k.dir) == KernelSlots(m, k.dir);
    forall q | q in spaces ensures InheritsIn(m', q, KernelSlots(m', k.dir)) {
      SameDirectory(m, m', q, spaces, k.frames, free);
    }
  }

  /** Mapping a user page turns no inherited table into one of the space's own. */
  lemma MappedStillInherits(m: Memory, m': Memory, spaces: map<nat, map<nat, Role>>,
                            spaces': map<nat, map<nat, Role>>, free: set<nat>, free': set<nat>, k: Kernel, r: nat,
                            i: Index, j: Index, w: Word)
    requires Sound(m, spaces, free, k) && AllInherit(m, spaces, k.dir) && w.frame !in k.frames
    requires (forall q :: q in spaces && q != r ==> w.frame !in Owned(spaces[q], k.frames)) && !Inherits(m, r, i)
    requires MappedForUser(m, m', spaces, spaces', k.frames, free, free', r, i, j, w)
    ensures AllInherit(m', spaces', k.dir)
  {
    hide UserEntry, Space, KernelTables, Sharing, OnlySlot, SamePages;
    KernelDirectory(m, spaces, k.frames, free, k.root, k.role, k.pdpt, k.dir);
    assert k.dir !in Owned(spaces'[r], k.frames) && m'[k.dir] == m[k.dir];
    assert KernelSlots(m', k.dir) == KernelSlots(m, k.dir) && i !in KernelSlots(m, k.dir);
    forall q | q in spaces && q != r ensures InheritsIn(m', q, KernelSlots(m', k.dir)) {
      forall f | f in spaces[q] && f !in k.frames && f < |m| ensures m'[f] == m[f] {
        assert f in Owned(spaces[q], k.frames) && f !in Owned(spaces[r], k.frames);
      }
      OwnPagesKept(m, m', q, spaces[q], k.frames);
    }
  }

  /** Nor does one that goes into the kernel's table. */
  lemma IntrudedStillInherits(m: Memory, m': Memory, spaces: map<nat, map<nat, Role>>, free: set<nat>, k: Kernel,
                              i: Index, j: Index, w: Word)
    requires Sound(m, spaces, free, k) && AllInherit(m, spaces, k.dir) && i in KernelSlots(m, k.dir)
    requires IntoKernelTable(m, m', k.dir, i, j, w)
    ensures AllInherit(m', spaces, k.dir)
  {
    hide UserEntry, Space, Isolated, Sharing;
    SlotFrame(m, k, i);
    assert m'[k.dir] == m[k.dir] && KernelSlots(m', k.dir) == KernelSlots(m, k.dir);
    forall q | q in spaces ensures InheritsIn(m', q, KernelSlots(m', k.dir)) {
      SameDirectory(m, m', q, spaces, k.frames, free);
    }
  }

  lemma CopyRights(m: Memory, spaces: map<nat, map<nat, Role>>, kernel: set<nat>, free: set<nat>, parent: nat,
                   child: nat)
    requires Isolated(m, spaces, kernel, free) && parent in spaces && child in spaces && CopyOf(m, parent, child)
    ensures SameRights(m, parent, m, child)
  {
    hide Space, UserEntry, SameRights;
    SamePagesSameRights(m, m, parent, child, spaces[parent], spaces[child], kernel);
  }

  /** So every process forked after heap_init is an exact copy, and from then on parent and child see what
      they store themselves, and nothing else. */
  lemma BootedViews(m: Memory, m': Memory, spaces: map<nat, map<nat, Role>>, spaces': map<nat, map<nat, Role>>,
                    free: set<nat>, free': set<nat>, k: Kernel, parent: nat, child: nat, stop: nat,
                    stores: seq<Store>, i: Index, j: Index, o: nat)
    requires AllInherit(m, spaces, k.dir) && parent in spaces && child != 0 && o < 4096
    requires Forked(m, m', spaces, spaces', free, free', k.frames, k.dir, parent, child, stop)
    requires Isolated(m', spaces', k.frames, free') && forall s :: s in stores ==> s.root in spaces'
    ensures CopyOf(m', parent, child) && SameRights(m', parent, m', child)
    ensures UserByte(m', parent, i, j, o) == UserByte(m', child, i, j, o)
    ensures UserByte(Run(m', stores), parent, i, j, o) == UserByte(Run(m', Of(stores, parent)), parent, i, j, o)
    ensures UserByte(Run(m', stores), child, i, j, o) == UserByte(Run(m', Of(stores, child)), child, i, j, o)
  {
    hide Isolated, CopyOf, NoneBeside, KernelSlots, CloneSafe, Spills, StopsAt, Taken, Bad, SlotForked,
      InheritsIn, SameRights, KernelRewritten;
    NoneBesideInherited(m, parent, k.dir);
    CopyRights(m', spaces', k.frames, free', parent, child);
    ForkedViews(m', spaces', k.frames, free', parent, child, stores, i, j, o);
  }
}
