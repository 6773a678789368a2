/** vmm_clone_user_pt as steps over memories: what the copying loop has done when it stands at page n,
    also to the kernel's tables, and how many frames that took. */
module ForkSteps {
  import opened Words
  import opened PageTables
  import opened UserSpaces
  import opened FrameCounts
  import opened Vmm
  import Pmm

  /** The kernel's side of the memory: its frames and the tree of its tables. */
  datatype Kernel = Kernel(frames: set<nat>, root: nat, role: map<nat, Role>, pdpt: nat, dir: nat)

  ghost predicate Sound(m: Memory, spaces: map<nat, map<nat, Role>>, free: set<nat>, k: Kernel)
  {
    && KernelTables(m, k.root, k.role, k.frames, k.pdpt, k.dir)
    && Isolated(m, spaces, k.frames, free)
    && Sharing(m, spaces, k.frames, k.role, k.dir)
  }

  // ----- what the loop copies

  /** The entry in slot j of the table in directory slot i. */
  function Source(m: Memory, dir: nat, i: Index, j: Index): Word
  {
    var e := DirEntry(m, dir, i);
    if IsTable(e) && e.frame < |m| then m[e.frame][j] else ZERO
  }

  /** The loop copies this slot: it tests the USER bit of the page, not that of the directory entry. */
  predicate Copies(m: Memory, dir: nat, i: Index, j: Index)
  {
    Source(m, dir, i, j).flags.present && Source(m, dir, i, j).flags.user
  }

  predicate CopiesPage(m: Memory, dir: nat, p: nat)
  {
    p < PAGES && Copies(m, dir, p / 512, p % 512)
  }

  /** The directory slots where the kernel has a 4 KB table. */
  ghost function KernelSlots(m: Memory, kernelDir: nat): set<nat>
  {
    set i: nat | i < 512 && IsTable(DirEntry(m, kernelDir, i))
  }

  /** The pages below n that are copied into tables of the child's own. */
  ghost function Good(m: Memory, dir: nat, skip: set<nat>, n: nat): set<nat>
  {
    set p: nat | p < n && CopiesPage(m, dir, p) && p / 512 !in skip
  }

  /** The pages below n that are copied over entries of the kernel's tables. */
  ghost function Bad(m: Memory, dir: nat, skip: set<nat>, n: nat): set<nat>
  {
    set p: nat | p < n && CopiesPage(m, dir, p) && p / 512 in skip
  }

  /** The frames a fork has taken when it stands at page n. */
  ghost function Taken(m: Memory, dir: nat, skip: set<nat>, n: nat): nat
  {
    FramesFor(Good(m, dir, skip, n)) + |Bad(m, dir, skip, n)|
  }

  /** No page the loop copies lies below a directory slot where the kernel has a 4 KB table. */
  ghost predicate CloneSafe(m: Memory, dir: nat, kernelDir: nat)
  {
    forall i: Index, j: Index :: Copies(m, dir, i, j) ==> !IsTable(DirEntry(m, kernelDir, i))
  }

  /** With n free frames the loop gets past a page that it copies over an entry of the kernel's. */
  ghost predicate Spills(m: Memory, dir: nat, kernelDir: nat, n: nat)
  {
    var skip := KernelSlots(m, kernelDir);
    exists p :: p in Bad(m, dir, skip, PAGES) && Taken(m, dir, skip, p + 1) <= n
  }

  lemma SafeIffNoneBad(m: Memory, dir: nat, kernelDir: nat)
    ensures CloneSafe(m, dir, kernelDir) <==> Bad(m, dir, KernelSlots(m, kernelDir), PAGES) == {}
  {
    hide Copies, IsTable;
    forall i: Index, j: Index | Copies(m, dir, i, j) && IsTable(DirEntry(m, kernelDir, i))
      ensures 512 * i + j in Bad(m, dir, KernelSlots(m, kernelDir), PAGES)
    {
      assert (512 * i + j) / 512 == i && (512 * i + j) % 512 == j;
    }
  }

  // ----- counting

  lemma GoodGrows(m: Memory, dir: nat, skip: set<nat>, i: Index, j: Index)
    ensures var n := 512 * i + j;
      && Good(m, dir, skip, n + 1) == Good(m, dir, skip, n) + (if Copies(m, dir, i, j) && i !in skip then {n} else {})
      && Bad(m, dir, skip, n + 1) == Bad(m, dir, skip, n) + (if Copies(m, dir, i, j) && i in skip then {n} else {})
      && n !in Good(m, dir, skip, n) && n !in Bad(m, dir, skip, n) && n / 512 == i && n % 512 == j
  {
    hide Copies;
    var n := 512 * i + j;
    assert n / 512 == i && n % 512 == j && n < PAGES;
  }

  lemma TakenMonotone(m: Memory, dir: nat, skip: set<nat>, n: nat, n': nat)
    requires n <= n'
    ensures Taken(m, dir, skip, n) <= Taken(m, dir, skip, n')
  {
    hide CopiesPage;
    SubsetSize(Good(m, dir, skip, n), Good(m, dir, skip, n'));
    SubsetSize(Rows(Good(m, dir, skip, n)), Rows(Good(m, dir, skip, n')));
    SubsetSize(Bad(m, dir, skip, n), Bad(m, dir, skip, n'));
  }

  /** Copying one more page takes one more frame, two when it starts a row of the child's own. */
  lemma TakenGrows(m: Memory, dir: nat, skip: set<nat>, i: Index, j: Index)
    requires Copies(m, dir, i, j)
    ensures var n := 512 * i + j;
      && Taken(m, dir, skip, n) < Taken(m, dir, skip, n + 1)
      && (i !in skip && i !in Rows(Good(m, dir, skip, n)) ==> Taken(m, dir, skip, n) + 1 < Taken(m, dir, skip, n + 1))
  {
    hide FramesFor, Rows, Good, Bad, Copies;
    GoodGrows(m, dir, skip, i, j);
    var n := 512 * i + j;
    if i !in skip {
      MorePages(Good(m, dir, skip, n), Good(m, dir, skip, n + 1), n);
    }
  }

  /** Where the loop stops decides whether it has spilt: at page q for want of frames, or at the end. */
  lemma SpiltIff(m: Memory, dir: nat, kernelDir: nat, q: nat, n: nat)
    requires q <= PAGES && Taken(m, dir, KernelSlots(m, kernelDir), q) <= n
    requires q < PAGES ==> n < Taken(m, dir, KernelSlots(m, kernelDir), q + 1)
    ensures Bad(m, dir, KernelSlots(m, kernelDir), q) != {} <==> Spills(m, dir, kernelDir, n)
  {
    hide Taken, CopiesPage;
    var skip := KernelSlots(m, kernelDir);
    if p :| p in Bad(m, dir, skip, q) {
      TakenMonotone(m, dir, skip, p + 1, q);
      assert p in Bad(m, dir, skip, PAGES);
    }
    if Spills(m, dir, kernelDir, n) {
      var p :| p in Bad(m, dir, skip, PAGES) && Taken(m, dir, skip, p + 1) <= n;
      if q <= p {
        TakenMonotone(m, dir, skip, q + 1, p + 1);
      }
      assert p in Bad(m, dir, skip, q);
    }
  }

  // ----- the copy so far

  /** A copied page: same flags, same contents. */
  ghost predicate SameEntry(m: Memory, e: Option<Word>, copy: Option<Word>)
  {
    match e
    case None => copy == None
    case Some(w) =>
      && copy.Some? && copy.value.flags == w.flags
      && w.frame < |m| && copy.value.frame < |m| && m[copy.value.frame] == m[w.frame]
  }

  /** The child has exactly the parent's user pages: same slots, flags and contents. */
  ghost predicate CopyOf(m: Memory, parent: nat, child: nat)
  {
    forall c: Index, d: Index ::
      SameEntry(m, UserEntry(m, DirOf(m, parent), c, d), UserEntry(m, DirOf(m, child), c, d))
  }

  /** The child has copies of the parent's pages below n, but none under the slots of skip, and nothing
      else. */
  ghost predicate CopiedUpTo(m: Memory, parent: nat, child: nat, skip: set<nat>, n: nat)
  {
    forall c: Index, d: Index :: CopiedSlot(m, parent, child, skip, n, c, d)
  }

  ghost predicate CopiedSlot(m: Memory, parent: nat, child: nat, skip: set<nat>, n: nat, c: Index, d: Index)
  {
    if 512 * c + d < n && c !in skip then
      SameEntry(m, UserEntry(m, DirOf(m, parent), c, d), UserEntry(m, DirOf(m, child), c, d))
    else UserEntry(m, DirOf(m, child), c, d) == None
  }

  /** Where the kernel has a table the child has inherited it. */
  ghost predicate InheritsAll(m: Memory, child: nat, b: Memory, kernelDir: nat)
  {
    forall c: Index :: IsTable(DirEntry(b, kernelDir, c)) ==>
      DirEntry(m, DirOf(m, child), c) == Supervisor(DirEntry(b, kernelDir, c))
  }

  /** A fork in progress, as seen from the memory b and the free frames base: the child grows out of
      them. */
  ghost predicate Cloning(b: Memory, m: Memory, parent: nat, child: nat, spaces0: map<nat, map<nat, Role>>,
                          spaces: map<nat, map<nat, Role>>, k: Kernel, base: set<nat>, free: set<nat>)
  {
    && Sound(b, spaces0, base, k) && parent in spaces0
    && Growing(b, m, child, spaces0, spaces, k.frames, base, free, k.dir)
    && InheritsAll(m, child, b, k.dir)
  }

  /** b is the memory m0 before the fork but for what the loop has spilt below page n: frames no longer
      free, to which entries of the kernel's tables now lead. */
  ghost predicate Rebased(m0: Memory, b: Memory, free0: set<nat>, base: set<nat>, k: Kernel, dir: nat, n: nat)
  {
    var skip := KernelSlots(m0, k.dir);
    && base <= free0 && |b| == |m0| && |free0 - base| == |Bad(m0, dir, skip, n)|
    && (forall f :: 0 <= f < |m0| && f !in free0 && !SkippedTable(m0, k.dir, f) ==> b[f] == m0[f])
    && (forall i: Index, j: Index :: i in skip && DirEntry(m0, k.dir, i).frame < |m0| ==>
          SpiltEntry(m0, b, free0 - base, k.dir, dir, n, i, j))
  }

  ghost predicate SkippedTable(m: Memory, kernelDir: nat, f: nat)
  {
    exists i: Index :: i in KernelSlots(m, kernelDir) && DirEntry(m, kernelDir, i).frame == f
  }

  ghost predicate SpiltEntry(m0: Memory, b: Memory, lost: set<nat>, kernelDir: nat, dir: nat, n: nat, i: Index,
                             j: Index)
    requires DirEntry(m0, kernelDir, i).frame < |m0| == |b|
  {
    var t := DirEntry(m0, kernelDir, i).frame;
    if 512 * i + j < n && Copies(m0, dir, i, j)
      then b[t][j].frame in lost && b[t][j].flags == Source(m0, dir, i, j).flags
    else b[t][j] == m0[t][j]
  }

  // ----- the start

  /** What vmm_create_user_pt has made. */
  ghost predicate JustCreated(m0: Memory, m: Memory, spaces0: map<nat, map<nat, Role>>,
                              spaces: map<nat, map<nat, Role>>, kernel: set<nat>, free0: set<nat>, free: set<nat>,
                              kernelDir: nat, child: nat)
  {
    && child !in spaces0 && child in spaces && spaces == spaces0[child := spaces[child]]
    && free <= free0 && Owned(spaces[child], kernel) == free0 - free
    && |m| == |m0| && (forall f :: 0 <= f < |m| && f !in free0 ==> m[f] == m0[f])
    && (forall i: Index, j: Index :: UserEntry(m, DirOf(m, child), i, j) == None)
    && kernelDir < |m| && forall i: Index :: DirEntry(m, DirOf(m, child), i) == Supervisor(m[kernelDir][i])
  }

  lemma StartCloning(m0: Memory, m: Memory, parent: nat, child: nat, spaces0: map<nat, map<nat, Role>>,
                     spaces: map<nat, map<nat, Role>>, k: Kernel, free0: set<nat>, free: set<nat>)
    requires Sound(m0, spaces0, free0, k) && Isolated(m, spaces, k.frames, free) && parent in spaces0
    requires JustCreated(m0, m, spaces0, spaces, k.frames, free0, free, k.dir, child)
    ensures Cloning(m0, m, parent, child, spaces0, spaces, k, free0, free)
    ensures CopiedUpTo(m, parent, child, KernelSlots(m0, k.dir), 0)
    ensures Rebased(m0, m0, free0, free0, k, DirOf(m0, parent), 0)
  {
    hide UserEntry, Space;
    assert k.dir !in free0 by {
      KernelDirectory(m0, spaces0, k.frames, free0, k.root, k.role, k.pdpt, k.dir);
    }
    assert m[k.dir] == m0[k.dir];
  }

  // ----- what the parent looks like meanwhile

  lemma SlotFrame(m: Memory, k: Kernel, i: Index)
    requires KernelTables(m, k.root, k.role, k.frames, k.pdpt, k.dir) && i in KernelSlots(m, k.dir)
    ensures var t := DirEntry(m, k.dir, i).frame;
      t < |m| && t in k.frames && t in k.role && k.role[t] == Table(0, 0, i) && k.dir < |m|
  {
    assert Descends(k.role[k.dir], m[k.dir][i]);
  }

  lemma SkippedIsKernel(m: Memory, k: Kernel, f: nat)
    requires KernelTables(m, k.root, k.role, k.frames, k.pdpt, k.dir) && SkippedTable(m, k.dir, f)
    ensures f in k.frames && f in k.role && k.role[f].Table? && f < |m|
  {
    var i: Index :| i in KernelSlots(m, k.dir) && DirEntry(m, k.dir, i).frame == f;
    SlotFrame(m, k, i);
  }

  lemma OwnedNotFree(m: Memory, spaces: map<nat, map<nat, Role>>, kernel: set<nat>, free: set<nat>, r: nat)
    requires Isolated(m, spaces, kernel, free) && r in spaces
    ensures Space(m, r, spaces[r], kernel) && Owned(spaces[r], kernel) !! free
  {
  }

  /** The kernel's directory has not changed, nor have the frames of its own of any space. */
  lemma RebasedKeeps(m0: Memory, b: Memory, spaces0: map<nat, map<nat, Role>>, free0: set<nat>, base: set<nat>,
                     k: Kernel, dir: nat, n: nat, r: nat)
    requires Sound(m0, spaces0, free0, k) && Rebased(m0, b, free0, base, k, dir, n) && r in spaces0
    ensures DirOf(b, r) == DirOf(m0, r) && DirOf(m0, r) < |m0| && b[DirOf(m0, r)] == m0[DirOf(m0, r)]
    ensures forall c: Index, d: Index :: UserEntry(b, DirOf(b, r), c, d) == UserEntry(m0, DirOf(m0, r), c, d)
    ensures forall f :: f in Owned(spaces0[r], k.frames) && f < |m0| ==> b[f] == m0[f]
    ensures k.dir < |m0| && b[k.dir] == m0[k.dir] && KernelSlots(b, k.dir) == KernelSlots(m0, k.dir)
  {
    hide UserEntry, SpiltEntry, Bad, SkippedTable, Sharing, Space, Isolated;
    OwnedNotFree(m0, spaces0, k.frames, free0, r);
    forall f | f in Owned(spaces0[r], k.frames) && f < |m0|
      ensures b[f] == m0[f]
    {
      if SkippedTable(m0, k.dir, f) {
        SkippedIsKernel(m0, k, f);
      }
    }
    KernelDirectory(m0, spaces0, k.frames, free0, k.root, k.role, k.pdpt, k.dir);
    if SkippedTable(m0, k.dir, k.dir) {
      SkippedIsKernel(m0, k, k.dir);
    }
    OwnPagesKept(m0, b, r, spaces0[r], k.frames);
    SpacePath(m0, r, spaces0[r], k.frames);
  }

  /** In m too, the table in slot i has the entry in slot j that it had in m0. */
  ghost predicate ReadsSource(m0: Memory, m: Memory, dir: nat, i: Index, j: Index)
  {
    var t := DirEntry(m0, dir, i).frame;
    t < |m| && |m| == |m0| && m[t][j] == Source(m0, dir, i, j)
  }

  /** The loop reads what was there before the fork. */
  lemma NextRead(m0: Memory, b: Memory, m: Memory, parent: nat, child: nat, spaces0: map<nat, map<nat, Role>>,
                 spaces: map<nat, map<nat, Role>>, k: Kernel, free0: set<nat>, base: set<nat>, free: set<nat>,
                 i: Index, j: Index)
    requires Sound(m0, spaces0, free0, k) && Cloning(b, m, parent, child, spaces0, spaces, k, base, free)
    requires Rebased(m0, b, free0, base, k, DirOf(m0, parent), 512 * i + j)
    requires IsTable(DirEntry(m0, DirOf(m0, parent), i))
    ensures ReadsSource(m0, m, DirOf(m0, parent), i, j)
  {
    hide UserEntry, Space;
    var t := DirEntry(m0, DirOf(m0, parent), i).frame;
    ParentKept(m0, m0, parent, spaces0, k.frames, free0);
    RebasedKeeps(m0, b, spaces0, free0, base, k, DirOf(m0, parent), 512 * i + j, parent);
    ParentKept(b, m, parent, spaces0, k.frames, base);
    if SkippedTable(m0, k.dir, t) {
      SkippedIsKernel(m0, k, t);
      KernelTableOfParent(m0, parent, spaces0, free0, k, i);
      assert SpiltEntry(m0, b, free0 - base, k.dir, DirOf(m0, parent), 512 * i + j, i, j);
    }
  }

  /** A kernel frame in slot i of the parent's directory is the kernel's table of that slot. */
  lemma KernelTableOfParent(m0: Memory, parent: nat, spaces0: map<nat, map<nat, Role>>, free0: set<nat>, k: Kernel,
                            i: Index)
    requires Sound(m0, spaces0, free0, k) && parent in spaces0 && IsTable(DirEntry(m0, DirOf(m0, parent), i))
    requires DirEntry(m0, DirOf(m0, parent), i).frame in k.frames
    ensures i in KernelSlots(m0, k.dir) && DirEntry(m0, k.dir, i).frame == DirEntry(m0, DirOf(m0, parent), i).frame
  {
    TablesOwned(m0, parent, spaces0[parent], k.frames);
    assert Inherits(m0, parent, i);
  }

  /** Away from the kernel's slots the loop copies exactly the user pages of the parent. */
  lemma CopiesUserPages(m0: Memory, parent: nat, spaces0: map<nat, map<nat, Role>>, free0: set<nat>, k: Kernel,
                        i: Index, j: Index)
    requires Sound(m0, spaces0, free0, k) && parent in spaces0
    ensures var dir := DirOf(m0, parent);
      && (UserEntry(m0, dir, i, j).Some? ==> Copies(m0, dir, i, j))
      && (i !in KernelSlots(m0, k.dir) ==>
            UserEntry(m0, dir, i, j) == if Copies(m0, dir, i, j) then Some(Source(m0, dir, i, j)) else None)
  {
    assert i !in KernelSlots(m0, k.dir) ==> !Inherits(m0, parent, i);
  }

  /** The base has the kernel's slots and the parent's pages of m0, and its free frames are free. */
  lemma BaseFacts(m0: Memory, b: Memory, m: Memory, parent: nat, child: nat, spaces0: map<nat, map<nat, Role>>,
                  spaces: map<nat, map<nat, Role>>, k: Kernel, free0: set<nat>, base: set<nat>, free: set<nat>,
                  n: nat)
    requires Sound(m0, spaces0, free0, k) && Cloning(b, m, parent, child, spaces0, spaces, k, base, free)
    requires Rebased(m0, b, free0, base, k, DirOf(m0, parent), n)
    ensures child in spaces && free <= base && |b| == |m| == |m0| && KernelSlots(b, k.dir) == KernelSlots(m0, k.dir)
    ensures forall c: Index :: DirEntry(b, k.dir, c) == DirEntry(m0, k.dir, c)
    ensures forall c: Index, d: Index :: c !in KernelSlots(m0, k.dir) ==>
      UserEntry(b, DirOf(b, parent), c, d) ==
      if Copies(m0, DirOf(m0, parent), c, d) then Some(Source(m0, DirOf(m0, parent), c, d)) else None
  {
    hide UserEntry, Space, Copies, Source, Bad, Sharing, Isolated, KernelTables, SpiltEntry, InheritsAll,
      InheritsOnly, KernelSlots;
    RebasedKeeps(m0, b, spaces0, free0, base, k, DirOf(m0, parent), n, parent);
    forall c: Index, d: Index | c !in KernelSlots(m0, k.dir)
      ensures UserEntry(b, DirOf(b, parent), c, d) ==
        if Copies(m0, DirOf(m0, parent), c, d) then Some(Source(m0, DirOf(m0, parent), c, d)) else None
    {
      CopiesUserPages(m0, parent, spaces0, free0, k, c, d);
    }
  }

  // ----- slots with nothing to copy

  lemma PassSlot(m0: Memory, b: Memory, m: Memory, parent: nat, child: nat, spaces0: map<nat, map<nat, Role>>,
                 spaces: map<nat, map<nat, Role>>, k: Kernel, free0: set<nat>, base: set<nat>, free: set<nat>,
                 i: Index, j: Index)
    requires Sound(m0, spaces0, free0, k) && Cloning(b, m, parent, child, spaces0, spaces, k, base, free)
    requires Rebased(m0, b, free0, base, k, DirOf(m0, parent), 512 * i + j)
    requires CopiedUpTo(m, parent, child, KernelSlots(m0, k.dir), 512 * i + j)
    requires !Copies(m0, DirOf(m0, parent), i, j)
    ensures Rebased(m0, b, free0, base, k, DirOf(m0, parent), 512 * i + j + 1)
    ensures CopiedUpTo(m, parent, child, KernelSlots(m0, k.dir), 512 * i + j + 1)
  {
    hide UserEntry, Space, Copies, Good, Bad, InheritsAll, InheritsOnly, Sharing, KernelTables, Isolated,
      Rebased, KernelSlots;
    var n, next, skip := 512 * i + j, 512 * i + j + 1, KernelSlots(m0, k.dir);
    CopiesUserPages(m0, parent, spaces0, free0, k, i, j);
    RebasedKeeps(m0, b, spaces0, free0, base, k, DirOf(m0, parent), n, parent);
    ParentKept(b, m, parent, spaces0, k.frames, base);
    forall c: Index, d: Index
      ensures CopiedSlot(m, parent, child, skip, next, c, d)
    {
      assert CopiedSlot(m, parent, child, skip, n, c, d);
    }
    RebasedOn(m0, b, free0, base, k, DirOf(m0, parent), i, j);
  }

  lemma RebasedOn(m0: Memory, b: Memory, free0: set<nat>, base: set<nat>, k: Kernel, dir: nat, i: Index, j: Index)
    requires Rebased(m0, b, free0, base, k, dir, 512 * i + j)
    requires !Copies(m0, dir, i, j) || i !in KernelSlots(m0, k.dir)
    ensures Rebased(m0, b, free0, base, k, dir, 512 * i + j + 1)
  {
    hide Copies, Bad;
    var n, next, skip := 512 * i + j, 512 * i + j + 1, KernelSlots(m0, k.dir);
    GoodGrows(m0, dir, skip, i, j);
    forall c: Index, d: Index | c in skip && DirEntry(m0, k.dir, c).frame < |m0|
      ensures SpiltEntry(m0, b, free0 - base, k.dir, dir, next, c, d)
    {
      assert SpiltEntry(m0, b, free0 - base, k.dir, dir, n, c, d);
    }
  }

  // ----- one page

  /** With the page's copy in a fresh frame, the child is ready to have it mapped: in a table of its own
      or, at a slot where the kernel has one, in the kernel's. */
  lemma ReadyToMap(b: Memory, m: Memory, m': Memory, parent: nat, child: nat, spaces0: map<nat, map<nat, Role>>,
                   spaces: map<nat, map<nat, Role>>, k: Kernel, base: set<nat>, free: set<nat>, i: Index, j: Index,
                   dst: nat, src: nat)
    requires Cloning(b, m, parent, child, spaces0, spaces, k, base, free) && Sound(m, spaces, free, k)
    requires CopiedUpTo(m, parent, child, KernelSlots(b, k.dir), 512 * i + j)
    requires dst in free && Pmm.RESERVED_FRAMES <= dst < Pmm.FRAMES && dst < |m|
    requires |m'| == |m| && (forall f :: 0 <= f < |m| && f != dst ==> m'[f] == m[f])
      && (src < |m| ==> m'[dst] == m[src])
    ensures Cloning(b, m', parent, child, spaces0, spaces, k, base, free) && Sound(m', spaces, free - {dst}, k)
    ensures CopiedInto(m, m', dst, src)
    ensures CopiedUpTo(m', parent, child, KernelSlots(b, k.dir), 512 * i + j)
    ensures Loose(dst, spaces, k.frames, free - {dst}) && UserEntry(m', DirOf(m', child), i, j) == None
    ensures Inherits(m', child, i) <==> i in KernelSlots(b, k.dir)
    ensures DirEntry(m', DirOf(m', child), i) == DirEntry(m, DirOf(m, child), i) && Sound(m', spaces, free, k)
  {
    hide UserEntry, Space, KernelTables, Sharing, Isolated, Loose, CopiedUpTo;
    FreeFramesDoNotMatter(m, m', spaces, k.frames, free, k.root, k.role, k.pdpt, k.dir);
    LooseAfterAlloc(m', spaces, k.frames, free, dst);
    ParentKept(m, m', child, spaces, k.frames, free);
    SameInherits(m, m', child, b, k.dir);
    CopiedKept(b, m, m', parent, child, spaces0, spaces, k, base, free, KernelSlots(b, k.dir), 512 * i + j);
    NotCopiedYet(m', parent, child, KernelSlots(b, k.dir), i, j);
  }

  lemma NotCopiedYet(m: Memory, parent: nat, child: nat, skip: set<nat>, i: Index, j: Index)
    requires CopiedUpTo(m, parent, child, skip, 512 * i + j)
    ensures UserEntry(m, DirOf(m, child), i, j) == None
  {
    assert CopiedSlot(m, parent, child, skip, 512 * i + j, i, j);
  }

  /** Writing to frames that are still free does not disturb what has been copied. */
  lemma CopiedKept(b: Memory, m: Memory, m': Memory, parent: nat, child: nat, spaces0: map<nat, map<nat, Role>>,
                   spaces: map<nat, map<nat, Role>>, k: Kernel, base: set<nat>, free: set<nat>, skip: set<nat>,
                   n: nat)
    requires Cloning(b, m, parent, child, spaces0, spaces, k, base, free) && CopiedUpTo(m, parent, child, skip, n)
    requires |m'| == |m| && forall f :: 0 <= f < |m| && f !in free ==> m'[f] == m[f]
    ensures CopiedUpTo(m', parent, child, skip, n)
  {
    hide UserEntry, Skeleton, InUse, Sharing, KernelTables, InheritsAll, InheritsOnly;
    ParentKept(b, m, parent, spaces0, k.frames, base);
    ParentKept(b, m', parent, spaces0, k.frames, base);
    ParentKept(m, m', child, spaces, k.frames, free);
    forall c: Index, d: Index
      ensures CopiedSlot(m', parent, child, skip, n, c, d)
    {
      assert CopiedSlot(m, parent, child, skip, n, c, d);
      UserFrame(b, parent, spaces0, k.frames, base, c, d);
      UserFrame(m, child, spaces, k.frames, free, c, d);
    }
  }

  lemma UserFrame(m: Memory, r: nat, spaces: map<nat, map<nat, Role>>, kernel: set<nat>, free: set<nat>, i: Index,
                  j: Index)
    requires Isolated(m, spaces, kernel, free) && r in spaces
    ensures UserEntry(m, DirOf(m, r), i, j).Some? ==>
      var f := UserEntry(m, DirOf(m, r), i, j).value.frame;
      f in Owned(spaces[r], kernel) && f !in free && f !in kernel && f < |m|
  {
    hide UserEntry, InUse;
  }

  ghost predicate CopiedInto(m: Memory, m': Memory, dst: nat, src: nat)
  {
    dst < |m| && |m'| == |m| && (src < |m| ==> m'[dst] == m[src])
  }

  /** The page went into a table of the child's own: the copy has come one page further. */
  lemma SlotCloned(b: Memory, m: Memory, m2: Memory, m3: Memory, parent: nat, child: nat,
                   spaces0: map<nat, map<nat, Role>>, spaces: map<nat, map<nat, Role>>,
                   spaces': map<nat, map<nat, Role>>, k: Kernel, base: set<nat>, free: set<nat>, free': set<nat>,
                   i: Index, j: Index, w: Word, copy: Word)
    requires Cloning(b, m, parent, child, spaces0, spaces, k, base, free)
      && Cloning(b, m2, parent, child, spaces0, spaces, k, base, free)
    requires CopiedUpTo(m2, parent, child, KernelSlots(b, k.dir), 512 * i + j) && i !in KernelSlots(b, k.dir)
    requires UserEntry(b, DirOf(b, parent), i, j) == Some(w) && copy.flags == w.flags && copy.frame in free
    requires CopiedInto(m, m2, copy.frame, w.frame)
    requires MappedForUser(m2, m3, spaces, spaces', k.frames, free - {copy.frame}, free', child, i, j, copy)
    requires Isolated(m3, spaces', k.frames, free')
    ensures Cloning(b, m3, parent, child, spaces0, spaces', k, base, free')
    ensures CopiedUpTo(m3, parent, child, KernelSlots(b, k.dir), 512 * i + j + 1)
  {
    hide UserEntry, Space, Sharing, KernelTables, Isolated, OnlySlot, SamePages, TablesTurnUser, InheritsAll,
      CopiedUpTo;
    UserFrame(b, parent, spaces0, k.frames, base, i, j);
    MappedInherits(m2, m3, child, b, k.dir, i, j, copy);
    assert Owned(spaces'[child], k.frames) == base - free';
    assert Growing(b, m3, child, spaces0, spaces', k.frames, base, free', k.dir);
    InheritsAllKept(m2, m3, child, b, k.dir, i);
    NextCopied(b, m2, m3, parent, child, spaces0, spaces, k, base, free, i, j, w, copy);
  }

  lemma InheritsAllKept(m: Memory, m': Memory, child: nat, b: Memory, kernelDir: nat, i: Index)
    requires InheritsAll(m, child, b, kernelDir) && TablesTurnUser(m, m', child, i) && i !in KernelSlots(b, kernelDir)
    ensures InheritsAll(m', child, b, kernelDir)
  {
  }

  lemma NextCopied(b: Memory, m2: Memory, m3: Memory, parent: nat, child: nat, spaces0: map<nat, map<nat, Role>>,
                   spaces: map<nat, map<nat, Role>>, k: Kernel, base: set<nat>, free: set<nat>, i: Index, j: Index,
                   w: Word, copy: Word)
    requires Cloning(b, m2, parent, child, spaces0, spaces, k, base, free) && i !in KernelSlots(b, k.dir)
    requires CopiedUpTo(m2, parent, child, KernelSlots(b, k.dir), 512 * i + j)
    requires UserEntry(b, DirOf(b, parent), i, j) == Some(w) && copy.flags == w.flags
    requires |m3| == |b| && forall f :: 0 <= f < |b| && f !in base ==> m3[f] == b[f]
    requires OnlySlot(m2, m3, child, i, j, copy) && SamePages(m2, m3, child)
    requires CopiedInto(b, m3, copy.frame, w.frame)
    ensures CopiedUpTo(m3, parent, child, KernelSlots(b, k.dir), 512 * i + j + 1)
  {
    hide UserEntry, Space, Sharing, KernelTables, InheritsAll, InheritsOnly, Isolated, KernelSlots;
    var skip, n, next := KernelSlots(b, k.dir), 512 * i + j, 512 * i + j + 1;
    ParentKept(b, m2, parent, spaces0, k.frames, base);
    ParentKept(b, m3, parent, spaces0, k.frames, base);
    forall c: Index, d: Index
      ensures CopiedSlot(m3, parent, child, skip, next, c, d)
    {
      assert CopiedSlot(m2, parent, child, skip, n, c, d);
      UserFrame(b, parent, spaces0, k.frames, base, c, d);
    }
  }

  /** The memory b as if the kernel's entry (i, j) had always been w, and its frame what it is in m. */
  ghost function Spilt(b: Memory, m: Memory, kernelDir: nat, i: Index, j: Index, w: Word): Memory
  {
    var t := DirEntry(b, kernelDir, i).frame;
    if w.frame < |b| && w.frame < |m| && t < |b| then b[w.frame := m[w.frame]][t := b[t][j := w]] else b
  }

  /** The page went over an entry of the kernel's table: its frame is spilt, and the fork goes on as if
      neither had ever been otherwise. */
  lemma SlotSpilt(b: Memory, m2: Memory, m3: Memory, parent: nat, child: nat, spaces0: map<nat, map<nat, Role>>,
                  spaces: map<nat, map<nat, Role>>, k: Kernel, base: set<nat>, free: set<nat>, i: Index, j: Index,
                  w: Word)
    requires Cloning(b, m2, parent, child, spaces0, spaces, k, base, free) && Sound(m3, spaces, free - {w.frame}, k)
    requires CopiedUpTo(m2, parent, child, KernelSlots(b, k.dir), 512 * i + j) && i in KernelSlots(b, k.dir)
    requires w.frame in free && w.frame < |b|
    requires IntoKernelTable(m2, m3, k.dir, i, j, w)
    ensures var b' := Spilt(b, m3, k.dir, i, j, w);
      && Cloning(b', m3, parent, child, spaces0, spaces, k, base - {w.frame}, free - {w.frame})
      && CopiedUpTo(m3, parent, child, KernelSlots(b, k.dir), 512 * i + j + 1)
  {
    hide UserEntry, Space, Sharing, KernelTables, Isolated, InheritsAll, InheritsOnly, CopiedUpTo, Spilt;
    SlotFrame(b, k, i);
    GrowingSpilt(b, m2, m3, child, spaces0, spaces, k, base, free, i, j, w);
    InheritsElsewhere(m2, m3, child, b, Spilt(b, m3, k.dir, i, j, w), k.dir);
    SpiltCopied(b, m2, m3, parent, child, spaces0, spaces, k, base, free, i, j, DirEntry(b, k.dir, i).frame, w);
  }

  /** A space that grows goes on growing out of such a memory. */
  lemma GrowingSpilt(b: Memory, m2: Memory, m3: Memory, child: nat, spaces0: map<nat, map<nat, Role>>,
                     spaces: map<nat, map<nat, Role>>, k: Kernel, base: set<nat>, free: set<nat>, i: Index, j: Index,
                     w: Word)
    requires Sound(b, spaces0, base, k) && Sound(m3, spaces, free - {w.frame}, k)
    requires Growing(b, m2, child, spaces0, spaces, k.frames, base, free, k.dir) && i in KernelSlots(b, k.dir)
    requires w.frame in free && w.frame < |b| && IntoKernelTable(m2, m3, k.dir, i, j, w)
    ensures var b', t := Spilt(b, m3, k.dir, i, j, w), DirEntry(b, k.dir, i).frame;
      && Sound(b', spaces0, base - {w.frame}, k) && |b'| == |b| && k.dir < |b| && b'[k.dir] == b[k.dir]
      && Growing(b', m3, child, spaces0, spaces, k.frames, base - {w.frame}, free - {w.frame}, k.dir)
      && t < |m2| && m3 == m2[t := m2[t][j := w]] && t in k.frames
    ensures forall f :: 0 <= f < |b| && f != w.frame && f !in k.frames ==> Spilt(b, m3, k.dir, i, j, w)[f] == b[f]
    ensures DirOf(m3, child) == DirOf(m2, child)
    ensures forall c: Index :: DirEntry(m3, DirOf(m3, child), c) == DirEntry(m2, DirOf(m2, child), c)
    ensures forall c: Index, d: Index ::
      UserEntry(m3, DirOf(m3, child), c, d) == UserEntry(m2, DirOf(m2, child), c, d)
  {
    hide UserEntry, Space, Sharing, KernelTables, Isolated, InheritsOnly;
    SlotFrame(b, k, i);
    var t := DirEntry(b, k.dir, i).frame;
    KernelDirectory(b, spaces0, k.frames, base, k.root, k.role, k.pdpt, k.dir);
    assert m2[k.dir] == b[k.dir] && m2[t] == b[t];
    var b1 := b[w.frame := m3[w.frame]];
    FreeFramesDoNotMatter(b, b1, spaces0, k.frames, base, k.root, k.role, k.pdpt, k.dir);
    FewerFree(b1, spaces0, k.frames, base, w.frame);
    KernelTableWritten(b1, spaces0, k.frames, base - {w.frame}, k.root, k.role, k.pdpt, k.dir, t, j, w);
    var b' := b1[t := b1[t][j := w]];
    assert b1[t] == b[t] && b' == Spilt(b, m3, k.dir, i, j, w);
    assert b'[k.dir] == b[k.dir];
    ChildUnspilt(b, m2, m3, child, spaces, k, t, j, w, free);
    assert Owned(spaces[child], k.frames) == base - {w.frame} - (free - {w.frame});
    SameInherits(m2, m3, child, b, k.dir);
    SameInheritsOnly(m3, child, b, b', k.dir);
  }

  lemma SameInheritsOnly(m: Memory, child: nat, b: Memory, b': Memory, kernelDir: nat)
    requires InheritsOnly(m, child, b, kernelDir) && |b'| == |b| && (kernelDir < |b| ==> b'[kernelDir] == b[kernelDir])
    ensures InheritsOnly(m, child, b', kernelDir)
  {
  }

  lemma FewerFree(m: Memory, spaces: map<nat, map<nat, Role>>, kernel: set<nat>, free: set<nat>, f: nat)
    requires Isolated(m, spaces, kernel, free)
    ensures Isolated(m, spaces, kernel, free - {f})
  {
    hide Space;
  }

  /** The child has the same directory and the same pages before and after. */
  lemma ChildUnspilt(b: Memory, m2: Memory, m3: Memory, child: nat, spaces: map<nat, map<nat, Role>>, k: Kernel,
                     t: nat, j: Index, w: Word, free: set<nat>)
    requires Isolated(m2, spaces, k.frames, free) && child in spaces && t in k.frames && t < |m2|
    requires m3 == m2[t := m2[t][j := w]]
    ensures DirOf(m3, child) == DirOf(m2, child)
    ensures forall c: Index :: DirEntry(m3, DirOf(m3, child), c) == DirEntry(m2, DirOf(m2, child), c)
    ensures forall c: Index, d: Index ::
      UserEntry(m3, DirOf(m3, child), c, d) == UserEntry(m2, DirOf(m2, child), c, d)
  {
    hide UserEntry;
    OwnPagesKept(m2, m3, child, spaces[child], k.frames);
  }

  lemma InheritsElsewhere(m: Memory, m': Memory, child: nat, b: Memory, b': Memory, kernelDir: nat)
    requires InheritsAll(m, child, b, kernelDir)
    requires forall c: Index :: DirEntry(m', DirOf(m', child), c) == DirEntry(m, DirOf(m, child), c)
    requires |b'| == |b| && (kernelDir < |b| ==> b'[kernelDir] == b[kernelDir])
    ensures InheritsAll(m', child, b', kernelDir)
  {
  }

  lemma SpiltCopied(b: Memory, m2: Memory, m3: Memory, parent: nat, child: nat, spaces0: map<nat, map<nat, Role>>,
                    spaces: map<nat, map<nat, Role>>, k: Kernel, base: set<nat>, free: set<nat>, i: Index, j: Index,
                    t: nat, w: Word)
    requires Cloning(b, m2, parent, child, spaces0, spaces, k, base, free) && i in KernelSlots(b, k.dir)
    requires CopiedUpTo(m2, parent, child, KernelSlots(b, k.dir), 512 * i + j)
    requires t in k.frames && t < |m2| && m3 == m2[t := m2[t][j := w]]
    ensures CopiedUpTo(m3, parent, child, KernelSlots(b, k.dir), 512 * i + j + 1)
  {
    hide UserEntry, Space, Sharing, KernelTables, InheritsAll, InheritsOnly, KernelSlots;
    var skip, n, next := KernelSlots(b, k.dir), 512 * i + j, 512 * i + j + 1;
    ParentKept(b, m2, parent, spaces0, k.frames, base);
    OwnPagesKept(m2, m3, parent, spaces0[parent], k.frames);
    ChildUnspilt(b, m2, m3, child, spaces, k, t, j, w, free);
    forall c: Index, d: Index
      ensures CopiedSlot(m3, parent, child, skip, next, c, d)
    {
      assert CopiedSlot(m2, parent, child, skip, n, c, d);
      UserFrame(b, parent, spaces0, k.frames, base, c, d);
      UserFrame(m2, child, spaces, k.frames, free, c, d);
    }
  }

  lemma RebasedSpilt(m0: Memory, b: Memory, m: Memory, spaces0: map<nat, map<nat, Role>>, free0: set<nat>,
                     base: set<nat>, k: Kernel, dir: nat, i: Index, j: Index, w: Word)
    requires Sound(m0, spaces0, free0, k) && Rebased(m0, b, free0, base, k, dir, 512 * i + j)
    requires i in KernelSlots(m0, k.dir) && Copies(m0, dir, i, j)
    requires w.frame in base && w.frame < |b| && w.flags == Source(m0, dir, i, j).flags
    requires |m| == |b| && DirEntry(b, k.dir, i) == DirEntry(m0, k.dir, i)
    ensures Rebased(m0, Spilt(b, m, k.dir, i, j, w), free0, base - {w.frame}, k, dir, 512 * i + j + 1)
  {
    hide Copies, Source, Bad, Isolated, Sharing, KernelTables, SpiltEntry, SkippedTable;
    var n, next, skip, t := 512 * i + j, 512 * i + j + 1, KernelSlots(m0, k.dir), DirEntry(m0, k.dir, i).frame;
    var b' := Spilt(b, m, k.dir, i, j, w);
    SlotFrame(m0, k, i);
    KernelDirectory(m0, spaces0, k.frames, free0, k.root, k.role, k.pdpt, k.dir);
    var lost, lost' := free0 - base, free0 - (base - {w.frame});
    OneMoreLost(m0, free0, base, w.frame, dir, skip, i, j);
    SlotIsSkipped(m0, k.dir, i);
    SpiltElsewhere(m0, b, b', free0, k.dir, t, w.frame);
    forall c: Index, d: Index | c in skip && DirEntry(m0, k.dir, c).frame < |m0|
      ensures SpiltEntry(m0, b', lost', k.dir, dir, next, c, d)
    {
      assert SpiltEntry(m0, b, lost, k.dir, dir, n, c, d);
      SlotFrame(m0, k, c);
      EntrySpilt(m0, b, b', lost, lost', k.dir, dir, i, j, w, c, d);
    }
  }

  lemma OneMoreLost(m0: Memory, free0: set<nat>, base: set<nat>, f: nat, dir: nat, skip: set<nat>, i: Index, j: Index)
    requires f in base && base <= free0 && Copies(m0, dir, i, j) && i in skip
    requires |free0 - base| == |Bad(m0, dir, skip, 512 * i + j)|
    ensures free0 - (base - {f}) == free0 - base + {f}
    ensures |free0 - (base - {f})| == |Bad(m0, dir, skip, 512 * i + j + 1)|
  {
    hide Copies, Bad, Good;
    GoodGrows(m0, dir, skip, i, j);
    assert free0 - (base - {f}) == free0 - base + {f};
  }

  lemma SpiltElsewhere(m0: Memory, b: Memory, b': Memory, free0: set<nat>, kernelDir: nat, t: nat, frame: nat)
    requires |b| == |b'| == |m0| && frame in free0 && SkippedTable(m0, kernelDir, t)
    requires forall f :: 0 <= f < |m0| && f != t && f != frame ==> b'[f] == b[f]
    requires forall f :: 0 <= f < |m0| && f !in free0 && !SkippedTable(m0, kernelDir, f) ==> b[f] == m0[f]
    ensures forall f :: 0 <= f < |m0| && f !in free0 && !SkippedTable(m0, kernelDir, f) ==> b'[f] == m0[f]
  {
    hide SkippedTable;
  }

  lemma SlotIsSkipped(m: Memory, kernelDir: nat, i: Index)
    requires i in KernelSlots(m, kernelDir)
    ensures SkippedTable(m, kernelDir, DirEntry(m, kernelDir, i).frame)
  {
  }

  /** One entry of the kernel's tables, when entry (i, j) has become w. */
  lemma EntrySpilt(m0: Memory, b: Memory, b': Memory, lost: set<nat>, lost': set<nat>, kernelDir: nat, dir: nat,
                   i: Index, j: Index, w: Word, c: Index, d: Index)
    requires |m0| == |b| == |b'| && lost <= lost' && w.frame in lost' && w.flags == Source(m0, dir, i, j).flags
    requires Copies(m0, dir, i, j)
    requires DirEntry(m0, kernelDir, c).frame < |m0| && DirEntry(m0, kernelDir, i).frame < |m0|
    requires c == i || DirEntry(m0, kernelDir, c).frame != DirEntry(m0, kernelDir, i).frame
    requires b'[DirEntry(m0, kernelDir, i).frame] == b[DirEntry(m0, kernelDir, i).frame][j := w]
    requires c != i ==> b'[DirEntry(m0, kernelDir, c).frame] == b[DirEntry(m0, kernelDir, c).frame]
    requires SpiltEntry(m0, b, lost, kernelDir, dir, 512 * i + j, c, d)
    ensures SpiltEntry(m0, b', lost', kernelDir, dir, 512 * i + j + 1, c, d)
  {
    hide Copies, Source;
    assert 512 * c + d == 512 * i + j ==> c == i && d == j;
  }

  /** A page copied over the kernel's entry, all told. */
  lemma PageSpilt(m0: Memory, b: Memory, m2: Memory, m3: Memory, parent: nat, child: nat,
                  spaces0: map<nat, map<nat, Role>>, spaces: map<nat, map<nat, Role>>, k: Kernel, free0: set<nat>,
                  base: set<nat>, free: set<nat>, i: Index, j: Index, w: Word)
    requires Sound(m0, spaces0, free0, k) && Cloning(b, m2, parent, child, spaces0, spaces, k, base, free)
    requires CopiedUpTo(m2, parent, child, KernelSlots(m0, k.dir), 512 * i + j)
    requires Rebased(m0, b, free0, base, k, DirOf(m0, parent), 512 * i + j)
    requires i in KernelSlots(m0, k.dir) && Copies(m0, DirOf(m0, parent), i, j)
    requires w.frame in free && w.flags == Source(m0, DirOf(m0, parent), i, j).flags && w.frame < |m0|
    requires IntoKernelTable(m2, m3, k.dir, i, j, w) && Sound(m3, spaces, free - {w.frame}, k)
    ensures var b' := Spilt(b, m3, k.dir, i, j, w);
      && Cloning(b', m3, parent, child, spaces0, spaces, k, base - {w.frame}, free - {w.frame})
      && CopiedUpTo(m3, parent, child, KernelSlots(m0, k.dir), 512 * i + j + 1)
      && Rebased(m0, b', free0, base - {w.frame}, k, DirOf(m0, parent), 512 * i + j + 1)
  {
    hide Cloning, CopiedUpTo, Rebased, Copies, Source, KernelSlots, Sound, Spilt, DirEntry;
    BaseFacts(m0, b, m2, parent, child, spaces0, spaces, k, free0, base, free, 512 * i + j);
    SlotSpilt(b, m2, m3, parent, child, spaces0, spaces, k, base, free, i, j, w);
    RebasedSpilt(m0, b, m3, spaces0, free0, base, k, DirOf(m0, parent), i, j, w);
  }

  /** A page copied into the child. */
  lemma PageCloned(m0: Memory, b: Memory, m: Memory, m2: Memory, m3: Memory, parent: nat, child: nat,
                   spaces0: map<nat, map<nat, Role>>, spaces: map<nat, map<nat, Role>>,
                   spaces': map<nat, map<nat, Role>>, k: Kernel, free0: set<nat>, base: set<nat>, free: set<nat>,
                   free': set<nat>, i: Index, j: Index, copy: Word)
    requires Sound(m0, spaces0, free0, k) && Cloning(b, m, parent, child, spaces0, spaces, k, base, free)
    requires Cloning(b, m2, parent, child, spaces0, spaces, k, base, free)
    requires CopiedUpTo(m2, parent, child, KernelSlots(m0, k.dir), 512 * i + j)
    requires Rebased(m0, b, free0, base, k, DirOf(m0, parent), 512 * i + j)
    requires i !in KernelSlots(m0, k.dir) && Copies(m0, DirOf(m0, parent), i, j)
    requires copy.frame in free && copy.flags == Source(m0, DirOf(m0, parent), i, j).flags
    requires CopiedInto(m, m2, copy.frame, Source(m0, DirOf(m0, parent), i, j).frame)
    requires MappedForUser(m2, m3, spaces, spaces', k.frames, free - {copy.frame}, free', child, i, j, copy)
    requires Isolated(m3, spaces', k.frames, free')
    ensures Cloning(b, m3, parent, child, spaces0, spaces', k, base, free')
    ensures CopiedUpTo(m3, parent, child, KernelSlots(m0, k.dir), 512 * i + j + 1)
    ensures Rebased(m0, b, free0, base, k, DirOf(m0, parent), 512 * i + j + 1)
  {
    hide Cloning, CopiedUpTo, Rebased, Copies, Source, KernelSlots, Sound, DirEntry, MappedForUser, Isolated,
      CopiedInto;
    BaseFacts(m0, b, m2, parent, child, spaces0, spaces, k, free0, base, free, 512 * i + j);
    SlotCloned(b, m, m2, m3, parent, child, spaces0, spaces, spaces', k, base, free, free', i, j,
               Source(m0, DirOf(m0, parent), i, j), copy);
    RebasedOn(m0, b, free0, base, k, DirOf(m0, parent), i, j);
  }

  // ----- rows without a table

  lemma {:induction false} PassRow(m0: Memory, b: Memory, m: Memory, parent: nat, child: nat,
                                   spaces0: map<nat, map<nat, Role>>, spaces: map<nat, map<nat, Role>>, k: Kernel,
                                   free0: set<nat>, base: set<nat>, free: set<nat>, i: Index, j: nat)
    requires Sound(m0, spaces0, free0, k) && Cloning(b, m, parent, child, spaces0, spaces, k, base, free)
    requires j <= 512 && Rebased(m0, b, free0, base, k, DirOf(m0, parent), 512 * i + j)
    requires CopiedUpTo(m, parent, child, KernelSlots(m0, k.dir), 512 * i + j)
    requires !IsTable(DirEntry(m0, DirOf(m0, parent), i))
    ensures Rebased(m0, b, free0, base, k, DirOf(m0, parent), 512 * (i + 1))
    ensures CopiedUpTo(m, parent, child, KernelSlots(m0, k.dir), 512 * (i + 1))
    decreases 512 - j
  {
    hide Sound, Cloning, Rebased, CopiedUpTo;
    if j < 512 {
      PassSlot(m0, b, m, parent, child, spaces0, spaces, k, free0, base, free, i, j);
      PassRow(m0, b, m, parent, child, spaces0, spaces, k, free0, base, free, i, j + 1);
    }
  }

  // ----- how many frames it took

  lemma CopiedPages(m0: Memory, b: Memory, m: Memory, parent: nat, child: nat, spaces0: map<nat, map<nat, Role>>,
                    spaces: map<nat, map<nat, Role>>, k: Kernel, free0: set<nat>, base: set<nat>, free: set<nat>,
                    n: nat)
    requires Sound(m0, spaces0, free0, k) && Cloning(b, m, parent, child, spaces0, spaces, k, base, free)
    requires Rebased(m0, b, free0, base, k, DirOf(m0, parent), n)
    requires CopiedUpTo(m, parent, child, KernelSlots(m0, k.dir), n)
    ensures Pages(m, child) == Good(m0, DirOf(m0, parent), KernelSlots(m0, k.dir), n)
  {
    hide UserEntry, Space, Copies, Bad, Sharing, Isolated, KernelTables, SpiltEntry, InheritsAll, InheritsOnly,
      KernelSlots, CopiedUpTo, Rebased;
    RebasedKeeps(m0, b, spaces0, free0, base, k, DirOf(m0, parent), n, parent);
    ParentKept(b, m, parent, spaces0, k.frames, base);
    forall p: nat | p < PAGES
      ensures UserEntry(m, DirOf(m, child), p / 512, p % 512).Some? <==>
        p < n && Copies(m0, DirOf(m0, parent), p / 512, p % 512) && p / 512 !in KernelSlots(m0, k.dir)
    {
      CopiedAt(m, parent, child, KernelSlots(m0, k.dir), n, p / 512, p % 512);
      CopiesUserPages(m0, parent, spaces0, free0, k, p / 512, p % 512);
    }
  }

  lemma CopiedAt(m: Memory, parent: nat, child: nat, skip: set<nat>, n: nat, c: Index, d: Index)
    requires CopiedUpTo(m, parent, child, skip, n)
    ensures UserEntry(m, DirOf(m, child), c, d).Some? <==>
      512 * c + d < n && c !in skip && UserEntry(m, DirOf(m, parent), c, d).Some?
  {
    assert CopiedSlot(m, parent, child, skip, n, c, d);
  }

  /** Every frame that is gone went into the child or was spilt. */
  lemma CountTaken(m0: Memory, b: Memory, m: Memory, parent: nat, child: nat, spaces0: map<nat, map<nat, Role>>,
                   spaces: map<nat, map<nat, Role>>, k: Kernel, free0: set<nat>, base: set<nat>, free: set<nat>,
                   n: nat)
    requires Sound(m0, spaces0, free0, k) && Cloning(b, m, parent, child, spaces0, spaces, k, base, free)
    requires Rebased(m0, b, free0, base, k, DirOf(m0, parent), n)
    requires CopiedUpTo(m, parent, child, KernelSlots(m0, k.dir), n)
    ensures |free0| == |free| + Taken(m0, DirOf(m0, parent), KernelSlots(m0, k.dir), n)
  {
    hide CopiedUpTo, Sound, FramesFor, Good, Bad, SpiltEntry, Growing, InheritsAll;
    CopiedPages(m0, b, m, parent, child, spaces0, spaces, k, free0, base, free, n);
    GrowingCount(b, m, child, spaces0, spaces, k.frames, base, free, k.dir);
    assert free0 == base + (free0 - base);
  }

  /** A page that finds no frame, or none for the table of its row, cannot be copied by a fork that starts
      with these frames. */
  lemma NoFrameLeft(m0: Memory, b: Memory, m: Memory, parent: nat, child: nat, spaces0: map<nat, map<nat, Role>>,
                    spaces: map<nat, map<nat, Role>>, k: Kernel, free0: set<nat>, base: set<nat>, free: set<nat>,
                    i: Index, j: Index)
    requires Sound(m0, spaces0, free0, k) && Cloning(b, m, parent, child, spaces0, spaces, k, base, free)
    requires Rebased(m0, b, free0, base, k, DirOf(m0, parent), 512 * i + j)
    requires CopiedUpTo(m, parent, child, KernelSlots(m0, k.dir), 512 * i + j)
    requires Copies(m0, DirOf(m0, parent), i, j)
    ensures free == {} || (|free| == 1 && !IsTable(DirEntry(m, DirOf(m, child), i))) ==>
      |free0| < Taken(m0, DirOf(m0, parent), KernelSlots(m0, k.dir), 512 * i + j + 1)
  {
    hide CopiedUpTo, Sound, Rebased, Growing, Taken, Good, Copies;
    var n, dir, skip := 512 * i + j, DirOf(m0, parent), KernelSlots(m0, k.dir);
    CountTaken(m0, b, m, parent, child, spaces0, spaces, k, free0, base, free, n);
    CopiedPages(m0, b, m, parent, child, spaces0, spaces, k, free0, base, free, n);
    TakenGrows(m0, dir, skip, i, j);
    if !IsTable(DirEntry(m, DirOf(m, child), i)) {
      RowsAreTables(m, child, i);
      SkippedInherited(m0, b, m, parent, child, spaces0, spaces, k, free0, base, free, n, i);
    }
  }

  lemma RowsAreTables(m: Memory, child: nat, i: Index)
    requires !IsTable(DirEntry(m, DirOf(m, child), i))
    ensures i !in Rows(Pages(m, child))
  {
  }

  lemma SkippedInherited(m0: Memory, b: Memory, m: Memory, parent: nat, child: nat, spaces0: map<nat, map<nat, Role>>,
                         spaces: map<nat, map<nat, Role>>, k: Kernel, free0: set<nat>, base: set<nat>, free: set<nat>,
                         n: nat, i: Index)
    requires Sound(m0, spaces0, free0, k) && Cloning(b, m, parent, child, spaces0, spaces, k, base, free)
    requires Rebased(m0, b, free0, base, k, DirOf(m0, parent), n)
    ensures i in KernelSlots(m0, k.dir) ==> IsTable(DirEntry(m, DirOf(m, child), i))
  {
    hide UserEntry, Space, SpiltEntry, Bad;
    RebasedKeeps(m0, b, spaces0, free0, base, k, DirOf(m0, parent), n, parent);
  }

  // ----- the end

  /** Without a page spilt, the fork has changed nothing but frames that were free. */
  lemma NothingSpilt(m0: Memory, b: Memory, spaces0: map<nat, map<nat, Role>>, free0: set<nat>, base: set<nat>,
                     k: Kernel, dir: nat, n: nat)
    requires Sound(m0, spaces0, free0, k) && Rebased(m0, b, free0, base, k, dir, n)
    ensures Bad(m0, dir, KernelSlots(m0, k.dir), n) == {} <==> base == free0
    ensures base == free0 ==> forall f :: 0 <= f < |m0| && f !in free0 ==> b[f] == m0[f]
  {
    hide Copies, Isolated, Sharing, KernelTables, KernelSlots;
    if base == free0 {
      forall f | 0 <= f < |m0| && f !in free0
        ensures b[f] == m0[f]
      {
        if SkippedTable(m0, k.dir, f) {
          var i: Index :| i in KernelSlots(m0, k.dir) && DirEntry(m0, k.dir, i).frame == f;
          forall j: Index ensures b[f][j] == m0[f][j] {
            SpiltAt(m0, b, free0, base, k, dir, n, i, j);
          }
        }
      }
    } else {
      assert free0 - base != {};
    }
  }

  lemma SpiltAt(m0: Memory, b: Memory, free0: set<nat>, base: set<nat>, k: Kernel, dir: nat, n: nat, i: Index,
                j: Index)
    requires Rebased(m0, b, free0, base, k, dir, n) && base == free0 && i in KernelSlots(m0, k.dir)
    requires DirEntry(m0, k.dir, i).frame < |m0|
    ensures b[DirEntry(m0, k.dir, i).frame][j] == m0[DirEntry(m0, k.dir, i).frame][j]
  {
    assert SpiltEntry(m0, b, free0 - base, k.dir, dir, n, i, j);
  }

  /** The parent has no page in a table of its own where the kernel has one. */
  ghost predicate NoneBeside(m: Memory, parent: nat, kernelDir: nat)
  {
    forall c: Index, d: Index :: c in KernelSlots(m, kernelDir) ==> UserEntry(m, DirOf(m, parent), c, d) == None
  }

  /** Space r has inherited the kernel's table in each of these slots. */
  ghost predicate InheritsIn(m: Memory, r: nat, slots: set<nat>)
  {
    forall c: Index :: c in slots ==> Inherits(m, r, c)
  }

  lemma ChildInherits(m0: Memory, b: Memory, m: Memory, parent: nat, child: nat, spaces0: map<nat, map<nat, Role>>,
                      spaces: map<nat, map<nat, Role>>, k: Kernel, free0: set<nat>, base: set<nat>, free: set<nat>,
                      n: nat)
    requires Sound(m0, spaces0, free0, k) && Cloning(b, m, parent, child, spaces0, spaces, k, base, free)
    requires Rebased(m0, b, free0, base, k, DirOf(m0, parent), n)
    ensures InheritsIn(m, child, KernelSlots(m0, k.dir))
  {
    hide UserEntry, Space, SpiltEntry, Bad;
    RebasedKeeps(m0, b, spaces0, free0, base, k, DirOf(m0, parent), n, parent);
  }

  lemma NoneBesideInherited(m: Memory, parent: nat, kernelDir: nat)
    requires InheritsIn(m, parent, KernelSlots(m, kernelDir))
    ensures NoneBeside(m, parent, kernelDir)
  {
  }

  /** A finished copy is complete exactly when the parent has no page beside a table of the kernel's. */
  lemma CopyIff(m0: Memory, b: Memory, m: Memory, parent: nat, child: nat, spaces0: map<nat, map<nat, Role>>,
                spaces: map<nat, map<nat, Role>>, k: Kernel, free0: set<nat>, base: set<nat>, free: set<nat>)
    requires Sound(m0, spaces0, free0, k) && Cloning(b, m, parent, child, spaces0, spaces, k, base, free)
    requires Rebased(m0, b, free0, base, k, DirOf(m0, parent), PAGES)
    requires CopiedUpTo(m, parent, child, KernelSlots(m0, k.dir), PAGES)
    ensures CopyOf(m, parent, child) <==> NoneBeside(m0, parent, k.dir)
  {
    hide UserEntry, Space, Copies, Bad, Sharing, Isolated, KernelTables, SpiltEntry, InheritsAll, InheritsOnly,
      CopiedUpTo, Rebased;
    RebasedKeeps(m0, b, spaces0, free0, base, k, DirOf(m0, parent), PAGES, parent);
    ParentKept(b, m, parent, spaces0, k.frames, base);
    forall c: Index, d: Index
      ensures UserEntry(m, DirOf(m, parent), c, d) == UserEntry(m0, DirOf(m0, parent), c, d)
      ensures SameEntry(m, UserEntry(m, DirOf(m, parent), c, d), UserEntry(m, DirOf(m, child), c, d)) <==>
        c !in KernelSlots(m0, k.dir) || UserEntry(m0, DirOf(m0, parent), c, d) == None
    {
      SlotIsCopied(m, parent, child, KernelSlots(m0, k.dir), c, d);
    }
  }

  /** In particular when it has no page at all that the loop copies at the kernel's slots. */
  lemma AllCopied(m0: Memory, b: Memory, m: Memory, parent: nat, child: nat, spaces0: map<nat, map<nat, Role>>,
                  spaces: map<nat, map<nat, Role>>, k: Kernel, free0: set<nat>, base: set<nat>, free: set<nat>)
    requires Sound(m0, spaces0, free0, k) && Cloning(b, m, parent, child, spaces0, spaces, k, base, free)
    requires Rebased(m0, b, free0, base, k, DirOf(m0, parent), PAGES)
    requires CopiedUpTo(m, parent, child, KernelSlots(m0, k.dir), PAGES) && CloneSafe(m0, DirOf(m0, parent), k.dir)
    ensures CopyOf(m, parent, child)
  {
    hide UserEntry, Copies, Bad, Growing, Sound, InheritsAll, CopiedUpTo, Rebased, CopyOf;
    CopyIff(m0, b, m, parent, child, spaces0, spaces, k, free0, base, free);
    forall c: Index, d: Index | c in KernelSlots(m0, k.dir)
      ensures UserEntry(m0, DirOf(m0, parent), c, d) == None
    {
      CopiesUserPages(m0, parent, spaces0, free0, k, c, d);
    }
  }

  lemma SlotIsCopied(m: Memory, parent: nat, child: nat, skip: set<nat>, c: Index, d: Index)
    requires CopiedUpTo(m, parent, child, skip, PAGES)
    ensures if c in skip then UserEntry(m, DirOf(m, child), c, d) == None
            else SameEntry(m, UserEntry(m, DirOf(m, parent), c, d), UserEntry(m, DirOf(m, child), c, d))
  {
    assert CopiedSlot(m, parent, child, skip, PAGES, c, d);
  }
}
