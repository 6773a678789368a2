/** How the code reaches physical memory: frame f at address 4096 * f, through the kernel's own mapping.
    Fork changes that mapping while it runs, and heap_init before. */
module Reach {
  import opened Words
  import opened PageTables
  import opened UserSpaces
  import opened FrameCounts
  import opened Vmm
  import opened ForkSteps
  import opened Fork
  import opened Boot

  /** The kernel's mapping of page p. */
  ghost function KernelPage(m: Memory, root: nat, p: nat): Option<Word>
  {
    Walk(m, root, 0, 0, p / 512 % 512, p % 512)
  }

  ghost predicate LeadsTo(m: Memory, root: nat, p: nat, f: nat)
  {
    KernelPage(m, root, p).Some? && KernelPage(m, root, p).value.frame == f
  }

  /** At its own address the kernel finds frame f. */
  ghost predicate Reached(m: Memory, root: nat, f: nat)
  {
    LeadsTo(m, root, f, f)
  }

  /** An address is its own translation exactly when the frame of its number is reached. */
  lemma ReachedThere(m: Memory, root: nat, v: nat)
    requires v < 0x4000_0000
    ensures Reached(m, root, v / 4096) ==> Physical(m, root, v) == v
    ensures v > 0 && Physical(m, root, v) == v ==> Reached(m, root, v / 4096)
  {
    hide Walk;
    Indices(v);
    assert v / 4096 == 512 * PdIdx(v) + PtIdx(v);
  }

  /** Below 1 GB the kernel's mapping is decided by its directory. */
  lemma KernelWalk(m: Memory, k: Kernel, c: Index, d: Index)
    requires KernelTables(m, k.root, k.role, k.frames, k.pdpt, k.dir)
    ensures k.dir < |m| && Walk(m, k.root, 0, 0, c, d) == WalkDirEntry(m, m[k.dir][c], d)
  {
  }

  /** The loop has copied page p over the kernel's entry for it when it stands at page n. */
  ghost predicate Overwritten(m: Memory, k: Kernel, dir: nat, n: nat, p: nat)
  {
    p < n && p / 512 in KernelSlots(m, k.dir) && CopiesPage(m, dir, p)
  }

  /** Then the kernel finds a lost frame there; everywhere else it finds what it found before. */
  lemma RewrittenWalk(m: Memory, m': Memory, k: Kernel, dir: nat, lost: set<nat>, n: nat, p: nat)
    requires KernelTables(m, k.root, k.role, k.frames, k.pdpt, k.dir)
    requires KernelTables(m', k.root, k.role, k.frames, k.pdpt, k.dir)
    requires KernelRewritten(m, m', k.dir, dir, lost, n) && p < PAGES
    ensures if Overwritten(m, k, dir, n, p)
      then KernelPage(m', k.root, p).Some? && KernelPage(m', k.root, p).value.frame in lost
      else KernelPage(m', k.root, p) == KernelPage(m, k.root, p)
  {
    hide KernelTables, Walk, KernelSlots;
    var c: Index, d: Index := p / 512, p % 512;
    KernelWalk(m, k, c, d);
    KernelWalk(m', k, c, d);
    InSlots(m, k.dir, c);
    if c in KernelSlots(m, k.dir) {
      SlotFrame(m, k, c);
      assert EntryRewritten(m, m', k.dir, dir, lost, n, c, d);
    }
  }

  lemma InSlots(m: Memory, kernelDir: nat, c: Index)
    ensures c in KernelSlots(m, kernelDir) <==> IsTable(DirEntry(m, kernelDir, c))
  {
  }

  /** Frames of the kernel that have not changed map what they mapped. */
  lemma KernelPageKept(m: Memory, m': Memory, k: Kernel, p: nat)
    requires KernelTables(m, k.root, k.role, k.frames, k.pdpt, k.dir) && p < PAGES
    requires KernelTables(m', k.root, k.role, k.frames, k.pdpt, k.dir)
    requires |m'| == |m| && forall f :: 0 <= f < |m| && f in k.frames ==> m'[f] == m[f]
    ensures KernelPage(m', k.root, p) == KernelPage(m, k.root, p)
  {
    hide Walk;
    var c: Index, d: Index := p / 512, p % 512;
    KernelWalk(m, k, c, d);
    KernelWalk(m', k, c, d);
    InSlots(m, k.dir, c);
    if c in KernelSlots(m, k.dir) {
      SlotFrame(m, k, c);
    }
  }

  /** While fork runs, the kernel reaches what it reached before, until a page has been copied over the
      entry: then it finds a lost frame there. */
  lemma ReachedWhileForking(mach: Machine, m0: Memory, spaces0: map<nat, map<nat, Role>>, free0: set<nat>, b: Memory,
                            base: set<nat>, parent: nat, child: nat, n: nat, p: nat)
    requires Forking(mach, m0, spaces0, free0, b, base, parent, child, n) && p < PAGES
    ensures if Overwritten(m0, KernelOf(mach), DirOf(m0, parent), n, p)
      then exists f :: f in free0 - base && LeadsTo(mach.ram[..], mach.kernelRoot, p, f)
      else KernelPage(mach.ram[..], mach.kernelRoot, p) == KernelPage(m0, mach.kernelRoot, p)
  {
    hide KernelTables, KernelRewritten, Overwritten, KernelPage, Cloning, CopiedUpTo, Rebased, Isolated,
      Sharing;
    WhereItStands(mach, m0, spaces0, free0, b, base, parent, child, n);
    RewrittenWalk(m0, mach.ram[..], KernelOf(mach), DirOf(m0, parent), free0 - base, n, p);
  }

  /** So a page is read from the frame it is in, if that was reached and is not the number of a page copied
      before; and it is copied into the frame handed out, if that frame meets the same. */
  lemma CopyReached(mach: Machine, m0: Memory, spaces0: map<nat, map<nat, Role>>, free0: set<nat>, b: Memory,
                    base: set<nat>, parent: nat, child: nat, n: nat, f: nat)
    requires Forking(mach, m0, spaces0, free0, b, base, parent, child, n) && f < PAGES
    requires Reached(m0, mach.kernelRoot, f) && !Overwritten(m0, KernelOf(mach), DirOf(m0, parent), n, f)
    ensures Reached(mach.ram[..], mach.kernelRoot, f)
  {
    hide Forking, Overwritten, KernelPage;
    ReachedWhileForking(mach, m0, spaces0, free0, b, base, parent, child, n, f);
  }
}
