/** The part of an address space that belongs to a process: the frames it owns, the pages it can
    reach below 1 GB, and what mapping one page does to them. */
module UserSpaces {
  import opened Words
  import opened PageTables
  import Pmm

  predicate IsTable(e: Word)
  {
    e.flags.present && !e.flags.huge
  }

  function PdptOf(m: Memory, r: nat): nat
  {
    if r < |m| then m[r][0].frame else 0
  }

  /** The page directory of the first gigabyte. */
  function DirOf(m: Memory, r: nat): nat
  {
    if PdptOf(m, r) < |m| then m[PdptOf(m, r)][0].frame else 0
  }

  function DirEntry(m: Memory, dir: nat, i: Index): Word
  {
    if dir < |m| then m[dir][i] else ZERO
  }

  /** The user page in slot j of the table in directory slot i. */
  function UserEntry(m: Memory, dir: nat, i: Index, j: Index): Option<Word>
  {
    var e := DirEntry(m, dir, i);
    if IsTable(e) && e.flags.user && e.frame < |m| then
      var w := m[e.frame][j];
      if w.flags.present && w.flags.user then Some(w) else None
    else None
  }

  /** Ring 3 is let through this entry, to read and to write. */
  predicate Open(e: Word)
  {
    e.flags.user && e.flags.rw
  }

  /** Root, PDPT and directory are in place; directory entries are kernel huge pages, tables
      inherited from the kernel (USER stripped) or tables of our own. The way to these is open for
      ring 3, and no other way is. */
  ghost predicate Skeleton(m: Memory, r: nat, role: map<nat, Role>, kernel: set<nat>)
  {
    && Tree(m, r, role) && r !in kernel
    && m[r][0].flags.present && PdptOf(m, r) !in kernel
    && PdptOf(m, r) < |m| && IsTable(m[PdptOf(m, r)][0]) && DirOf(m, r) !in kernel
    && (forall i: Index :: DirEntry(m, DirOf(m, r), i).flags.present ==>
          if DirEntry(m, DirOf(m, r), i).flags.huge then !DirEntry(m, DirOf(m, r), i).flags.user
          else (DirEntry(m, DirOf(m, r), i).flags.user <==> DirEntry(m, DirOf(m, r), i).frame !in kernel))
    && Ways(m, r)
  }

  ghost predicate Ways(m: Memory, r: nat)
  {
    && r < |m| && Open(m[r][0]) && PdptOf(m, r) < |m| && Open(m[PdptOf(m, r)][0])
    && (forall i: Index :: i != 0 ==> !m[r][i].flags.user && !m[PdptOf(m, r)][i].flags.user)
    && (forall i: Index :: DirEntry(m, DirOf(m, r), i).flags.user ==> DirEntry(m, DirOf(m, r), i).flags.rw)
  }

  /** A frame of the space that is not the kernel's is used for exactly what its role says. */
  ghost predicate InUse(m: Memory, r: nat, f: nat, role: Role)
  {
    && Pmm.RESERVED_FRAMES <= f < Pmm.FRAMES
    && match role
       case Root => f == r
       case Pdpt(a) => a == 0 && f == PdptOf(m, r)
       case Dir(a, b) => a == 0 && b == 0 && f == DirOf(m, r)
       case Table(a, b, c) =>
         && a == 0 && b == 0 && DirOf(m, r) < |m|
         && IsTable(DirEntry(m, DirOf(m, r), c)) && DirEntry(m, DirOf(m, r), c).flags.user
         && DirEntry(m, DirOf(m, r), c).frame == f
       case Leaf(a, b, c, d) =>
         && a == 0 && b == 0
         && UserEntry(m, DirOf(m, r), c, d).Some? && UserEntry(m, DirOf(m, r), c, d).value.frame == f
  }

  /** A well-formed user address space: every user page has a frame of its own, and the frames
      listed in `role` outside the kernel are exactly the ones in use. */
  ghost predicate Space(m: Memory, r: nat, role: map<nat, Role>, kernel: set<nat>)
  {
    && Skeleton(m, r, role, kernel)
    && (forall i: Index, j: Index :: UserEntry(m, DirOf(m, r), i, j).Some? ==>
          && UserEntry(m, DirOf(m, r), i, j).value.frame in role
          && role[UserEntry(m, DirOf(m, r), i, j).value.frame] == Leaf(0, 0, i, j)
          && UserEntry(m, DirOf(m, r), i, j).value.frame !in kernel)
    && (forall f :: f in role && f !in kernel ==> InUse(m, r, f, role[f]))
  }

  ghost function Owned(role: map<nat, Role>, kernel: set<nat>): set<nat>
  {
    role.Keys - kernel
  }

  /** Frames outside `role` do not matter to the space. */
  lemma SpaceFrame(m: Memory, m': Memory, r: nat, role: map<nat, Role>, kernel: set<nat>)
    requires Space(m, r, role, kernel) && |m'| == |m|
    requires forall f :: f in role ==> m'[f] == m[f]
    ensures Space(m', r, role, kernel)
    ensures forall i: Index, j: Index :: UserEntry(m', DirOf(m', r), i, j) == UserEntry(m, DirOf(m, r), i, j)
  {
    SkeletonPath(m, r, role, kernel);
    assert forall i: Index :: DirEntry(m', DirOf(m', r), i) == DirEntry(m, DirOf(m, r), i);
    assert forall i: Index, j: Index :: UserEntry(m', DirOf(m', r), i, j) == UserEntry(m, DirOf(m, r), i, j);
  }

  /** Without its own frames changing, a space keeps its directory and its pages. */
  lemma OwnPagesKept(m: Memory, m': Memory, q: nat, role: map<nat, Role>, kernel: set<nat>)
    requires Space(m, q, role, kernel) && |m'| == |m|
    requires forall f :: f in role && f !in kernel && f < |m| ==> m'[f] == m[f]
    ensures DirOf(m', q) == DirOf(m, q)
    ensures forall c: Index :: DirEntry(m', DirOf(m', q), c) == DirEntry(m, DirOf(m, q), c)
    ensures forall c: Index, d: Index :: UserEntry(m', DirOf(m', q), c, d) == UserEntry(m, DirOf(m, q), c, d)
  {
    SkeletonPath(m, q, role, kernel);
  }

  lemma SkeletonPath(m: Memory, r: nat, role: map<nat, Role>, kernel: set<nat>)
    requires Skeleton(m, r, role, kernel)
    ensures PdptOf(m, r) in role && role[PdptOf(m, r)] == Pdpt(0)
    ensures DirOf(m, r) in role && role[DirOf(m, r)] == Dir(0, 0)
    ensures forall i: Index :: IsTable(DirEntry(m, DirOf(m, r), i)) ==>
      DirEntry(m, DirOf(m, r), i).frame in role && role[DirEntry(m, DirOf(m, r), i).frame] == Table(0, 0, i)
  {
    assert Descends(role[r], m[r][0]);
    assert Descends(role[PdptOf(m, r)], m[PdptOf(m, r)][0]);
    forall i: Index | IsTable(DirEntry(m, DirOf(m, r), i))
      ensures DirEntry(m, DirOf(m, r), i).frame in role && role[DirEntry(m, DirOf(m, r), i).frame] == Table(0, 0, i)
    {
      assert Descends(role[DirOf(m, r)], DirEntry(m, DirOf(m, r), i));
    }
  }

  lemma SpacePath(m: Memory, r: nat, role: map<nat, Role>, kernel: set<nat>)
    requires Space(m, r, role, kernel)
    ensures PdptOf(m, r) in Owned(role, kernel) && DirOf(m, r) in Owned(role, kernel) && r in Owned(role, kernel)
    ensures r < |m| && m[r][0].flags.present && PdptOf(m, r) < |m| && IsTable(m[PdptOf(m, r)][0]) && DirOf(m, r) < |m|
    ensures forall i: Index :: IsTable(m[DirOf(m, r)][i]) ==>
      && m[DirOf(m, r)][i].frame < |m|
      && (m[DirOf(m, r)][i].flags.user ==> m[DirOf(m, r)][i].frame in Owned(role, kernel))
  {
    SkeletonPath(m, r, role, kernel);
  }

  // ----- mapping one page

  function WithLeaf(role: map<nat, Role>, f: nat, i: Index, j: Index): map<nat, Role>
  {
    role[f := Leaf(0, 0, i, j)]
  }

  /** The table that takes the place of directory entry e when a page below it is mapped. */
  ghost predicate Replaces(e: Word, table: Page)
  {
    forall j: Index :: table[j] == if e.flags.huge then SplitEntry(e, j) else ZERO
  }

  /** Mapping w in slot j below directory slot i, when the entry there already is a table. */
  ghost predicate MappedInTable(m: Memory, m': Memory, dir: nat, i: Index, j: Index, w: Word)
    requires dir < |m|
  {
    && IsTable(m[dir][i]) && m[dir][i].frame < |m|
    && m' == m[m[dir][i].frame := m[m[dir][i].frame][j := w]]
  }

  /** The same when it is not: table p, new, takes its place. */
  ghost predicate MappedInNewTable(m: Memory, m': Memory, dir: nat, i: Index, j: Index, w: Word, p: nat)
    requires dir < |m|
  {
    && !IsTable(m[dir][i]) && p < |m| && p < Pmm.FRAMES && |m'| == |m|
    && m'[dir] == m[dir][i := Word(p, TABLE_FLAGS)]
    && (exists table: Page :: Replaces(m[dir][i], table) && m'[p] == table[j := w])
    && (forall f :: 0 <= f < |m| && f != dir && f != p ==> m'[f] == m[f])
  }

  /** Only slot (i, j) of the user pages differs, and it holds w. */
  ghost predicate OnlySlot(m: Memory, m': Memory, r: nat, i: Index, j: Index, w: Word)
  {
    forall c: Index, d: Index :: UserEntry(m', DirOf(m', r), c, d) ==
      if c == i && d == j then Some(w) else UserEntry(m, DirOf(m, r), c, d)
  }

  /** The contents of the user pages of r are the same in m'. */
  ghost predicate SamePages(m: Memory, m': Memory, r: nat)
    requires |m'| == |m|
  {
    forall c: Index, d: Index :: UserEntry(m, DirOf(m, r), c, d).Some? ==>
      var f := UserEntry(m, DirOf(m, r), c, d).value.frame;
      f < |m| ==> m'[f] == m[f]
  }

  /** Directory entries stay as they are, but entry i may become a table of our own. */
  ghost predicate TablesTurnUser(m: Memory, m': Memory, r: nat, i: Index)
  {
    forall c: Index ::
      DirEntry(m', DirOf(m', r), c) == DirEntry(m, DirOf(m, r), c)
        || (c == i && DirEntry(m', DirOf(m', r), c).flags.user)
  }

  /** Mapping a fresh frame as a user page in a table of our own. */
  lemma MapInTableKeepsSpace(m: Memory, m': Memory, r: nat, role: map<nat, Role>, kernel: set<nat>, i: Index,
                             j: Index, w: Word)
    requires Space(m, r, role, kernel)
    requires UserEntry(m, DirOf(m, r), i, j) == None
    requires DirEntry(m, DirOf(m, r), i).flags.user
    requires w.flags.present && w.flags.user
    requires w.frame !in role && w.frame !in kernel && Pmm.RESERVED_FRAMES <= w.frame < Pmm.FRAMES && w.frame < |m|
    requires MappedInTable(m, m', DirOf(m, r), i, j, w)
    ensures Space(m', r, WithLeaf(role, w.frame, i, j), kernel)
    ensures OnlySlot(m, m', r, i, j, w)
    ensures SamePages(m, m', r) && m'[w.frame] == m[w.frame]
    ensures DirOf(m', r) == DirOf(m, r) && m'[DirOf(m, r)] == m[DirOf(m, r)]
  {
    SkeletonPath(m, r, role, kernel);
    var t := DirEntry(m, DirOf(m, r), i).frame;
    assert role[t] == Table(0, 0, i);
    assert OneEntry(m, m', role, t, j);
    LeafKeepsTree(m, m', r, role, t, j);
    assert DirOf(m', r) == DirOf(m, r) && m'[DirOf(m, r)] == m[DirOf(m, r)];
    assert forall c: Index :: DirEntry(m', DirOf(m', r), c) == DirEntry(m, DirOf(m, r), c);
    assert OnlySlot(m, m', r, i, j, w);
  }

  /** Mapping it below a directory entry that is empty or a kernel huge page. */
  lemma MapInNewTableKeepsSpace(m: Memory, m': Memory, r: nat, role: map<nat, Role>, kernel: set<nat>, i: Index,
                                j: Index, w: Word, p: nat)
    requires Space(m, r, role, kernel)
    requires w.flags.present && w.flags.user
    requires w.frame !in role && w.frame !in kernel && Pmm.RESERVED_FRAMES <= w.frame < Pmm.FRAMES && w.frame < |m|
    requires p !in role && p !in kernel && Pmm.RESERVED_FRAMES <= p && p != w.frame
    requires MappedInNewTable(m, m', DirOf(m, r), i, j, w, p)
    ensures Space(m', r, WithLeaf(role[p := Table(0, 0, i)], w.frame, i, j), kernel)
    ensures OnlySlot(m, m', r, i, j, w)
    ensures SamePages(m, m', r) && m'[w.frame] == m[w.frame]
    ensures DirOf(m', r) == DirOf(m, r)
  {
    SkeletonPath(m, r, role, kernel);
    var dir := DirOf(m, r);
    assert OneEntry(m, m', role, dir, i);
    LinkKeepsTree(m, m', r, role, dir, i, p);
    NewTablePages(m, m', r, role, kernel, i, j, w, p);
  }

  /** ... what that does to the user pages. */
  lemma NewTablePages(m: Memory, m': Memory, r: nat, role: map<nat, Role>, kernel: set<nat>, i: Index, j: Index,
                      w: Word, p: nat)
    requires Space(m, r, role, kernel) && w.flags.present && w.flags.user
    requires w.frame !in role && w.frame != p && w.frame < |m| && p !in role
    requires MappedInNewTable(m, m', DirOf(m, r), i, j, w, p)
    ensures DirOf(m', r) == DirOf(m, r)
    ensures forall c: Index ::
      DirEntry(m', DirOf(m, r), c) == if c == i then Word(p, TABLE_FLAGS) else DirEntry(m, DirOf(m, r), c)
    ensures OnlySlot(m, m', r, i, j, w)
    ensures SamePages(m, m', r) && m'[w.frame] == m[w.frame]
  {
    SkeletonPath(m, r, role, kernel);
    var dir := DirOf(m, r);
    assert DirOf(m', r) == dir;
    assert forall c: Index :: DirEntry(m', dir, c) == if c == i then Word(p, TABLE_FLAGS) else DirEntry(m, dir, c);
  }

  // ----- all address spaces together

  /** Every registered space is well formed, and no frame is owned twice, free and owned, or free
      and the kernel's. */
  ghost predicate Isolated(m: Memory, spaces: map<nat, map<nat, Role>>, kernel: set<nat>, free: set<nat>)
  {
    && kernel !! free
    && (forall r :: r in spaces ==> Space(m, r, spaces[r], kernel) && Owned(spaces[r], kernel) !! free)
    && (forall r, q :: r in spaces && q in spaces && r != q ==> Owned(spaces[r], kernel) !! Owned(spaces[q], kernel))
  }

  /** A frame that is allocated but not yet part of any space. */
  ghost predicate Loose(f: nat, spaces: map<nat, map<nat, Role>>, kernel: set<nat>, free: set<nat>)
  {
    && Pmm.RESERVED_FRAMES <= f < Pmm.FRAMES && f !in free && f !in kernel
    && (forall r :: r in spaces ==> f !in spaces[r])
  }

  /** Changing or adding one space, using only its own frames and frames nobody else has. */
  lemma UpdateSpace(m: Memory, m': Memory, spaces: map<nat, map<nat, Role>>, kernel: set<nat>, free: set<nat>,
                    free': set<nat>, r: nat, role': map<nat, Role>)
    requires Isolated(m, spaces, kernel, free) && |m'| == |m| && free' <= free
    requires Space(m', r, role', kernel) && Owned(role', kernel) !! free'
    requires forall q :: q in spaces && q != r ==> Owned(role', kernel) !! Owned(spaces[q], kernel)
    requires forall f :: 0 <= f < |m| && f !in Owned(role', kernel) + free ==> m'[f] == m[f]
    ensures Isolated(m', spaces[r := role'], kernel, free')
  {
    forall q | q in spaces && q != r
      ensures Space(m', q, spaces[q], kernel)
    {
      forall f | f in spaces[q] ensures m'[f] == m[f] {
        assert f in kernel || f in Owned(spaces[q], kernel);
      }
      SpaceFrame(m, m', q, spaces[q], kernel);
    }
    Together(m', spaces, kernel, free', r, role');
  }

  lemma Together(m: Memory, spaces: map<nat, map<nat, Role>>, kernel: set<nat>, free: set<nat>, r: nat,
                 role: map<nat, Role>)
    requires kernel !! free && Space(m, r, role, kernel) && Owned(role, kernel) !! free
    requires forall q :: q in spaces && q != r ==> Space(m, q, spaces[q], kernel) && Owned(spaces[q], kernel) !! free
    requires forall q :: q in spaces && q != r ==> Owned(role, kernel) !! Owned(spaces[q], kernel)
    requires forall p, q :: p in spaces && q in spaces && p != q ==>
      Owned(spaces[p], kernel) !! Owned(spaces[q], kernel)
    ensures Isolated(m, spaces[r := role], kernel, free)
  {
    hide Space, Owned;
  }

  /** Mapping a loose frame at a free slot of a table of the process. */
  lemma MapLooseInTable(m: Memory, m': Memory, spaces: map<nat, map<nat, Role>>, kernel: set<nat>, free: set<nat>,
                        r: nat, i: Index, j: Index, w: Word)
    requires Isolated(m, spaces, kernel, free) && r in spaces
    requires w.flags.present && w.flags.user && w.frame < |m| && Loose(w.frame, spaces, kernel, free)
    requires UserEntry(m, DirOf(m, r), i, j) == None && DirOf(m, r) < |m|
    requires DirEntry(m, DirOf(m, r), i).flags.user && MappedInTable(m, m', DirOf(m, r), i, j, w)
    ensures Isolated(m', spaces[r := WithLeaf(spaces[r], w.frame, i, j)], kernel, free)
    ensures forall f :: 0 <= f < |m| && f !in Owned(spaces[r], kernel) ==> m'[f] == m[f]
    ensures Owned(WithLeaf(spaces[r], w.frame, i, j), kernel) == Owned(spaces[r], kernel) + {w.frame}
    ensures OnlySlot(m, m', r, i, j, w)
    ensures TablesTurnUser(m, m', r, i)
    ensures |m'| == |m| && SamePages(m, m', r) && m'[w.frame] == m[w.frame]
  {
    var role := spaces[r];
    SpacePath(m, r, role, kernel);
    MapInTableKeepsSpace(m, m', r, role, kernel, i, j, w);
    UpdateSpace(m, m', spaces, kernel, free, free, r, WithLeaf(role, w.frame, i, j));
  }

  /** Mapping it where a new table has to be hung into the directory. */
  lemma MapLooseInNewTable(m: Memory, m': Memory, spaces: map<nat, map<nat, Role>>, kernel: set<nat>, free: set<nat>,
                           r: nat, i: Index, j: Index, w: Word, p: nat)
    requires Isolated(m, spaces, kernel, free) && r in spaces
    requires w.flags.present && w.flags.user && w.frame < |m| && Loose(w.frame, spaces, kernel, free)
    requires UserEntry(m, DirOf(m, r), i, j) == None && DirOf(m, r) < |m|
    requires p in free && Pmm.RESERVED_FRAMES <= p && MappedInNewTable(m, m', DirOf(m, r), i, j, w, p)
    ensures Isolated(m', spaces[r := WithLeaf(spaces[r][p := Table(0, 0, i)], w.frame, i, j)], kernel, free - {p})
    ensures forall f :: 0 <= f < |m| && f !in Owned(spaces[r], kernel) && f != p ==> m'[f] == m[f]
    ensures Owned(WithLeaf(spaces[r][p := Table(0, 0, i)], w.frame, i, j), kernel) ==
            Owned(spaces[r], kernel) + {w.frame} + {p}
    ensures OnlySlot(m, m', r, i, j, w)
    ensures TablesTurnUser(m, m', r, i)
    ensures |m'| == |m| && SamePages(m, m', r) && m'[w.frame] == m[w.frame]
  {
    hide UserEntry, Skeleton, InUse;
    var role := spaces[r];
    SpacePath(m, r, role, kernel);
    assert p !in role by {
      assert Owned(role, kernel) !! free;
    }
    MapInNewTableKeepsSpace(m, m', r, role, kernel, i, j, w, p);
    UpdateSpace(m, m', spaces, kernel, free, free - {p}, r, WithLeaf(role[p := Table(0, 0, i)], w.frame, i, j));
  }

  // ----- a space under construction

  /** What holds while a new space is being filled: only frames that were free change, those taken
      are the new space's, and its inherited tables are the kernel's. */
  ghost predicate Growing(m0: Memory, m: Memory, r: nat, spaces0: map<nat, map<nat, Role>>,
                          spaces: map<nat, map<nat, Role>>, kernel: set<nat>, free0: set<nat>, free: set<nat>,
                          kernelDir: nat)
  {
    && Isolated(m, spaces, kernel, free)
    && r !in spaces0 && r in spaces && spaces == spaces0[r := spaces[r]]
    && free <= free0 && Owned(spaces[r], kernel) == free0 - free
    && |m| == |m0| && (forall f :: 0 <= f < |m| && f !in free0 ==> m[f] == m0[f])
    && InheritsOnly(m, r, m0, kernelDir)
  }

  /** Tables in the directory of r are its own, each with a page in it, or sit where the kernel has one. */
  ghost predicate InheritsOnly(m: Memory, r: nat, m0: Memory, kernelDir: nat)
  {
    forall c: Index :: IsTable(DirEntry(m, DirOf(m, r), c)) ==>
      if DirEntry(m, DirOf(m, r), c).flags.user then HasPage(m, r, c) else IsTable(DirEntry(m0, kernelDir, c))
  }

  ghost predicate HasPage(m: Memory, r: nat, c: Index)
  {
    exists d: Index :: UserEntry(m, DirOf(m, r), c, d).Some?
  }

  /** Mapping one page adds no table without a page. */
  lemma MappedInherits(m: Memory, m': Memory, r: nat, m0: Memory, kernelDir: nat, i: Index, j: Index, w: Word)
    requires InheritsOnly(m, r, m0, kernelDir) && OnlySlot(m, m', r, i, j, w) && TablesTurnUser(m, m', r, i)
    ensures InheritsOnly(m', r, m0, kernelDir)
  {
    hide UserEntry;
    forall c: Index | IsTable(DirEntry(m', DirOf(m', r), c)) && DirEntry(m', DirOf(m', r), c).flags.user
      ensures HasPage(m', r, c)
    {
      if c == i {
        assert UserEntry(m', DirOf(m', r), i, j) == Some(w);
      } else {
        var d: Index :| UserEntry(m, DirOf(m, r), c, d).Some?;
        assert UserEntry(m', DirOf(m', r), c, d).Some?;
      }
    }
  }

  /** Tables are as they were: so is what they inherit. */
  lemma SameInherits(m: Memory, m': Memory, r: nat, m0: Memory, kernelDir: nat)
    requires InheritsOnly(m, r, m0, kernelDir)
    requires forall c: Index :: DirEntry(m', DirOf(m', r), c) == DirEntry(m, DirOf(m, r), c)
    requires forall c: Index, d: Index :: UserEntry(m', DirOf(m', r), c, d) == UserEntry(m, DirOf(m, r), c, d)
    ensures InheritsOnly(m', r, m0, kernelDir)
  {
    hide UserEntry;
    forall c: Index | HasPage(m, r, c) ensures HasPage(m', r, c) {
      var d: Index :| UserEntry(m, DirOf(m, r), c, d).Some?;
      assert UserEntry(m', DirOf(m', r), c, d).Some?;
    }
  }

  /** The parent is what it was. */
  lemma ParentKept(m0: Memory, m: Memory, parent: nat, spaces0: map<nat, map<nat, Role>>, kernel: set<nat>,
                   free0: set<nat>)
    requires Isolated(m0, spaces0, kernel, free0) && parent in spaces0
    requires |m| == |m0| && forall f :: 0 <= f < |m| && f !in free0 ==> m[f] == m0[f]
    ensures Space(m, parent, spaces0[parent], kernel)
    ensures DirOf(m, parent) == DirOf(m0, parent) && m[DirOf(m0, parent)] == m0[DirOf(m0, parent)]
    ensures DirOf(m0, parent) !in free0
    ensures forall c: Index, d: Index ::
      UserEntry(m, DirOf(m, parent), c, d) == UserEntry(m0, DirOf(m0, parent), c, d)
    ensures forall c: Index :: IsTable(DirEntry(m0, DirOf(m0, parent), c)) ==>
      DirEntry(m0, DirOf(m0, parent), c).frame < |m| && DirEntry(m0, DirOf(m0, parent), c).frame !in free0
  {
    var role := spaces0[parent];
    SkeletonPath(m0, parent, role, kernel);
    forall f | f in role ensures f !in free0 {
      assert f in kernel || f in Owned(role, kernel);
    }
    SpaceFrame(m0, m, parent, role, kernel);
  }

  lemma LooseAfterAlloc(m: Memory, spaces: map<nat, map<nat, Role>>, kernel: set<nat>, free: set<nat>, f: nat)
    requires Isolated(m, spaces, kernel, free) && f in free && Pmm.RESERVED_FRAMES <= f < Pmm.FRAMES
    ensures Loose(f, spaces, kernel, free - {f}) && Isolated(m, spaces, kernel, free - {f})
  {
    forall r | r in spaces ensures f !in spaces[r] {
      assert Owned(spaces[r], kernel) !! free;
    }
  }

  lemma TablesOwned(m: Memory, r: nat, role: map<nat, Role>, kernel: set<nat>)
    requires Space(m, r, role, kernel)
    ensures forall c: Index :: IsTable(DirEntry(m, DirOf(m, r), c)) ==>
      (DirEntry(m, DirOf(m, r), c).flags.user <==> DirEntry(m, DirOf(m, r), c).frame !in kernel)
  {
  }

  lemma ScribbleOnFree(m: Memory, m': Memory, spaces: map<nat, map<nat, Role>>, kernel: set<nat>, free: set<nat>)
    requires Isolated(m, spaces, kernel, free)
    requires |m'| == |m| && forall f :: 0 <= f < |m| && f !in free ==> m'[f] == m[f]
    ensures Isolated(m', spaces, kernel, free)
  {
    forall q | q in spaces
      ensures Space(m', q, spaces[q], kernel)
    {
      ParentKept(m, m', q, spaces, kernel, free);
    }
  }

  // ----- what spaces share with the kernel

  /** The kernel tables every user space shares: below PDPT slot 3, and 4 KB tables in the first
      gigabyte. */
  predicate Shared(role: Role)
  {
    match role
    case Root => false
    case Pdpt(_) => false
    case Dir(a, b) => a == 0 && b == 3
    case Table(a, b, _) => a == 0 && (b == 0 || b == 3)
    case Leaf(_, _, _, _) => false
  }

  /** Directory slot i of space r holds a 4 KB table of the kernel. */
  ghost predicate Inherits(m: Memory, r: nat, i: Index)
  {
    IsTable(DirEntry(m, DirOf(m, r), i)) && !DirEntry(m, DirOf(m, r), i).flags.user
  }

  /** What space r has of the kernel it has in the same place as the kernel. */
  ghost predicate SharesKernel(m: Memory, r: nat, role: map<nat, Role>, kernel: set<nat>, kernelRole: map<nat, Role>,
                               kernelDir: nat)
  {
    && (forall f :: f in role && f in kernel ==> f in kernelRole && kernelRole[f] == role[f] && Shared(role[f]))
    && (forall i: Index :: Inherits(m, r, i) ==>
          IsTable(DirEntry(m, kernelDir, i)) && DirEntry(m, kernelDir, i).frame == DirEntry(m, DirOf(m, r), i).frame)
  }

  ghost predicate Sharing(m: Memory, spaces: map<nat, map<nat, Role>>, kernel: set<nat>, kernelRole: map<nat, Role>,
                          kernelDir: nat)
  {
    forall r :: r in spaces ==> SharesKernel(m, r, spaces[r], kernel, kernelRole, kernelDir)
  }

  /** The contents of free frames do not matter to it. */
  lemma SharingOnFree(m: Memory, m': Memory, spaces: map<nat, map<nat, Role>>, kernel: set<nat>, free: set<nat>,
                      kernelRole: map<nat, Role>, kernelDir: nat)
    requires Isolated(m, spaces, kernel, free) && Sharing(m, spaces, kernel, kernelRole, kernelDir)
    requires kernelDir in kernel && |m'| == |m| && forall f :: 0 <= f < |m| && f !in free ==> m'[f] == m[f]
    ensures Sharing(m', spaces, kernel, kernelRole, kernelDir)
  {
    hide Isolated, UserEntry;
    assert kernel !! free by {
      IsolatedKernel(m, spaces, kernel, free);
    }
    forall r | r in spaces
      ensures SharesKernel(m', r, spaces[r], kernel, kernelRole, kernelDir)
    {
      ParentKept(m, m', r, spaces, kernel, free);
      assert forall i: Index :: DirEntry(m', DirOf(m', r), i) == DirEntry(m, DirOf(m, r), i);
      assert forall i: Index :: DirEntry(m', kernelDir, i) == DirEntry(m, kernelDir, i);
    }
  }

  lemma IsolatedKernel(m: Memory, spaces: map<nat, map<nat, Role>>, kernel: set<nat>, free: set<nat>)
    requires Isolated(m, spaces, kernel, free)
    ensures kernel !! free
  {
  }

  /** Changing or adding space r, by writing only frames that were its own or free. */
  lemma SharingUpdated(m: Memory, m': Memory, spaces: map<nat, map<nat, Role>>, kernel: set<nat>, free: set<nat>,
                       kernelRole: map<nat, Role>, kernelDir: nat, r: nat, role': map<nat, Role>)
    requires Isolated(m, spaces, kernel, free) && Sharing(m, spaces, kernel, kernelRole, kernelDir)
    requires kernelDir in kernel && |m'| == |m|
    requires forall q :: q in spaces && q != r ==> Owned(role', kernel) !! Owned(spaces[q], kernel)
    requires forall f :: 0 <= f < |m| && f !in Owned(role', kernel) + free ==> m'[f] == m[f]
    requires SharesKernel(m', r, role', kernel, kernelRole, kernelDir)
    ensures Sharing(m', spaces[r := role'], kernel, kernelRole, kernelDir)
  {
    hide UserEntry, Space;
    forall q | q in spaces && q != r
      ensures SharesKernel(m', q, spaces[q], kernel, kernelRole, kernelDir)
    {
      assert forall f :: f in spaces[q] && f !in kernel ==> f in Owned(spaces[q], kernel);
      OwnPagesKept(m, m', q, spaces[q], kernel);
      assert forall i: Index :: DirEntry(m', kernelDir, i) == DirEntry(m, kernelDir, i);
    }
  }

  lemma SharingDropped(m: Memory, spaces: map<nat, map<nat, Role>>, kernel: set<nat>, kernelRole: map<nat, Role>,
                       kernelDir: nat, r: nat)
    requires Sharing(m, spaces, kernel, kernelRole, kernelDir)
    ensures Sharing(m, spaces - {r}, kernel, kernelRole, kernelDir)
  {
  }

  // ----- tearing a space down, slot by slot

  /** Has the frame with this role been given back once the loops stand at slot (i, j)? */
  predicate Freed(role: Role, i: nat, j: nat)
  {
    match role
    case Root => false
    case Pdpt(_) => false
    case Dir(_, _) => false
    case Table(_, _, c) => c < i
    case Leaf(_, _, c, d) => c < i || (c == i && d < j)
  }

  ghost function FreedBefore(role: map<nat, Role>, kernel: set<nat>, i: nat, j: nat): set<nat>
  {
    set f | f in role && f !in kernel && Freed(role[f], i, j)
  }

  lemma NothingFreedYet(role: map<nat, Role>, kernel: set<nat>)
    ensures FreedBefore(role, kernel, 0, 0) == {}
  {
  }

  /** Slot (i, j): its user page if it has one. */
  lemma FreedNextSlot(m: Memory, r: nat, role: map<nat, Role>, kernel: set<nat>, i: Index, j: Index)
    requires Space(m, r, role, kernel)
    ensures var e := UserEntry(m, DirOf(m, r), i, j);
      && FreedBefore(role, kernel, i, j + 1) ==
         FreedBefore(role, kernel, i, j) + (if e.Some? then {e.value.frame} else {})
      && (e.Some? ==>
            && e.value.frame !in FreedBefore(role, kernel, i, j)
            && e.value.frame in Owned(role, kernel) && Pmm.RESERVED_FRAMES <= e.value.frame < Pmm.FRAMES)
  {
    forall f | f in FreedBefore(role, kernel, i, j + 1) && f !in FreedBefore(role, kernel, i, j)
      ensures UserEntry(m, DirOf(m, r), i, j).Some? && UserEntry(m, DirOf(m, r), i, j).value.frame == f
    {
      assert role[f] == Leaf(0, 0, i, j);
    }
  }

  /** What freeing the page of slot (i, j), if there is one, does to the free frames. */
  lemma FreeSlot(m: Memory, r: nat, role: map<nat, Role>, kernel: set<nat>, i: Index, j: Index, pt: nat,
                 free0: set<nat>, free: set<nat>)
    requires Space(m, r, role, kernel) && DirOf(m, r) < |m| && pt < |m|
    requires IsTable(m[DirOf(m, r)][i]) && m[DirOf(m, r)][i].flags.user && m[DirOf(m, r)][i].frame == pt
    requires Owned(role, kernel) - FreedBefore(role, kernel, i, 0) !! free0
      && FreedBefore(role, kernel, i, 0) <= free0
    requires free == free0 + FreedBefore(role, kernel, i, j)
    ensures var e := m[pt][j];
      if e.flags.present && e.flags.user then
        && Pmm.RESERVED_FRAMES <= e.frame < Pmm.FRAMES && e.frame !in free
        && free + {e.frame} == free0 + FreedBefore(role, kernel, i, j + 1)
      else free == free0 + FreedBefore(role, kernel, i, j + 1)
  {
    hide Space, Owned, FreedBefore;
    FreedNextSlot(m, r, role, kernel, i, j);
    FreedGrows(role, kernel, i, j);
    assert UserEntry(m, DirOf(m, r), i, j) == if m[pt][j].flags.present && m[pt][j].flags.user then Some(m[pt][j])
      else None;
  }

  lemma FreedGrows(role: map<nat, Role>, kernel: set<nat>, i: Index, j: Index)
    ensures FreedBefore(role, kernel, i, 0) <= FreedBefore(role, kernel, i, j)
  {
  }

  /** The end of slot i of the directory: its table, if it is one of ours. */
  lemma FreedNextTable(m: Memory, r: nat, role: map<nat, Role>, kernel: set<nat>, i: Index)
    requires Space(m, r, role, kernel)
    ensures FreedBefore(role, kernel, i, 0) <= FreedBefore(role, kernel, i, 512)
    ensures var e := DirEntry(m, DirOf(m, r), i);
      if IsTable(e) && e.flags.user then
        && FreedBefore(role, kernel, i + 1, 0) == FreedBefore(role, kernel, i, 512) + {e.frame}
        && e.frame !in FreedBefore(role, kernel, i, 512)
        && e.frame in Owned(role, kernel) && Pmm.RESERVED_FRAMES <= e.frame < Pmm.FRAMES
      else
        FreedBefore(role, kernel, i + 1, 0) == FreedBefore(role, kernel, i, 0)
  {
    SkeletonPath(m, r, role, kernel);
    var dir := DirOf(m, r);
    var e := m[dir][i];
    forall f | f in FreedBefore(role, kernel, i + 1, 0) && f !in FreedBefore(role, kernel, i, 512)
      ensures IsTable(e) && e.flags.user && e.frame == f
    {
      assert InUse(m, r, f, role[f]);
    }
    if !(IsTable(e) && e.flags.user) {
      forall f | f in FreedBefore(role, kernel, i + 1, 0)
        ensures f in FreedBefore(role, kernel, i, 0)
      {
        assert InUse(m, r, f, role[f]);
      }
    }
  }

  lemma FreedOwned(role: map<nat, Role>, kernel: set<nat>, i: nat)
    ensures forall j: nat :: FreedBefore(role, kernel, i, j) <= Owned(role, kernel)
  {
  }

  /** After the loops only root, PDPT and directory are left. */
  lemma FreedAllTables(m: Memory, r: nat, role: map<nat, Role>, kernel: set<nat>)
    requires Space(m, r, role, kernel)
    ensures FreedBefore(role, kernel, 512, 0) + {DirOf(m, r)} + {PdptOf(m, r)} + {r} == Owned(role, kernel)
    ensures {DirOf(m, r), PdptOf(m, r), r} !! FreedBefore(role, kernel, 512, 0)
    ensures DirOf(m, r) != PdptOf(m, r) && DirOf(m, r) != r && PdptOf(m, r) != r
    ensures forall f :: f in Owned(role, kernel) ==> Pmm.RESERVED_FRAMES <= f < Pmm.FRAMES
    ensures FreedBefore(role, kernel, 512, 0) <= Owned(role, kernel)
  {
    SkeletonPath(m, r, role, kernel);
    forall f | f in Owned(role, kernel) && f !in FreedBefore(role, kernel, 512, 0)
      ensures f == DirOf(m, r) || f == PdptOf(m, r) || f == r
    {
      assert InUse(m, r, f, role[f]);
    }
  }

  lemma DropSpace(m: Memory, spaces: map<nat, map<nat, Role>>, kernel: set<nat>, free: set<nat>, r: nat)
    requires Isolated(m, spaces, kernel, free) && r in spaces
    ensures Isolated(m, spaces - {r}, kernel, free + Owned(spaces[r], kernel))
  {
  }
}
