/** The paging code over physical memory: every table is a frame of `ram`, written in place.
    Addresses are numbers below 2^64; a table is named by its frame number. */
module Vmm {
  import opened Words
  import opened PageTables
  import opened UserSpaces
  import opened FrameCounts
  import opened Rights
  import Pmm

  function Pml4Idx(v: nat): Index { v / 0x80_0000_0000 % 512 }
  function PdptIdx(v: nat): Index { v / 0x4000_0000 % 512 }
  function PdIdx(v: nat): Index { v / 0x20_0000 % 512 }
  function PtIdx(v: nat): Index { v / 4096 % 512 }

  /** The mapping of the page that holds address v. */
  ghost function PageOf(m: Memory, r: nat, v: nat): Option<Word>
  {
    Walk(m, r, Pml4Idx(v), PdptIdx(v), PdIdx(v), PtIdx(v))
  }

  /** The physical address v translates to, 0 when it is not mapped. */
  ghost function Physical(m: Memory, r: nat, v: nat): nat
  {
    match PageOf(m, r, v)
    case None => 0
    case Some(w) => 4096 * w.frame + v % 4096
  }

  predicate SamePage(v: nat, u: nat)
  {
    Pml4Idx(v) == Pml4Idx(u) && PdptIdx(v) == PdptIdx(u) && PdIdx(v) == PdIdx(u) && PtIdx(v) == PtIdx(u)
  }

  /** A 1 GB page of this space covers v. */
  ghost predicate GigaPageOver(m: Memory, r: nat, v: nat)
    requires r < |m|
  {
    var e := m[r][Pml4Idx(v)];
    e.flags.present && e.frame < |m| && m[e.frame][PdptIdx(v)].flags.present && m[e.frame][PdptIdx(v)].flags.huge
  }

  /** role' is role and the fresh frames taken from the free set on the way. */
  ghost predicate Grown(role: map<nat, Role>, role': map<nat, Role>, free: set<nat>, free': set<nat>)
  {
    && (forall f :: f in role ==> f in role' && role'[f] == role[f])
    && free' <= free && Pmm.LowestFirst(free, free')
    && role'.Keys - role.Keys == free - free'
  }

  lemma GrownTwice(role: map<nat, Role>, role1: map<nat, Role>, role2: map<nat, Role>, free: set<nat>,
                   free1: set<nat>, free2: set<nat>)
    requires Grown(role, role1, free, free1) && Grown(role1, role2, free1, free2)
    requires role.Keys !! free && role1.Keys !! free1
    ensures Grown(role, role2, free, free2)
  {
    forall f
      ensures f in role2.Keys - role.Keys <==> f in free - free2
    {
      assert f in role1.Keys - role.Keys <==> f in free - free1;
      assert f in role2.Keys - role1.Keys <==> f in free1 - free2;
    }
  }

  lemma SameAtOnce(m: Memory, r: nat)
    ensures SameTranslation(m, m, r)
  {
  }

  lemma SameTwice(m: Memory, m1: Memory, m2: Memory, r: nat)
    requires SameTranslation(m, m1, r) && SameTranslation(m1, m2, r)
    ensures SameTranslation(m, m2, r)
  {
  }

  lemma SameThenMapped(m: Memory, m1: Memory, m2: Memory, r: nat, v: nat, w: Word)
    requires SameTranslation(m, m1, r) && MappedAt(m1, m2, r, v, w)
    ensures MappedAt(m, m2, r, v, w)
  {
  }

  ghost predicate UnchangedOutside(m: Memory, m': Memory, role: map<nat, Role>)
  {
    |m'| == |m| && forall f :: 0 <= f < |m| && f !in role ==> m'[f] == m[f]
  }

  lemma UnchangedTwice(m: Memory, m1: Memory, m2: Memory, role1: map<nat, Role>, role2: map<nat, Role>)
    requires UnchangedOutside(m, m1, role1) && UnchangedOutside(m1, m2, role2) && role1.Keys <= role2.Keys
    ensures UnchangedOutside(m, m2, role2)
  {
  }

  /** v's page translates to w, every other page as before. */
  ghost predicate MappedAt(m: Memory, m': Memory, r: nat, v: nat, w: Word)
  {
    Remapped(m, m', r, Pml4Idx(v), PdptIdx(v), PdIdx(v), PtIdx(v), w)
  }

  ghost predicate DirectoryInPlace(m: Memory, r: nat, v: nat)
  {
    r < |m| && m[r][Pml4Idx(v)].flags.present && m[r][Pml4Idx(v)].frame < |m|
    && IsTable(m[m[r][Pml4Idx(v)].frame][PdptIdx(v)]) && DirectoryFrame(m, r, v) < |m|
  }

  ghost function DirectoryFrame(m: Memory, r: nat, v: nat): nat
    requires r < |m| && m[r][Pml4Idx(v)].frame < |m|
  {
    m[m[r][Pml4Idx(v)].frame][PdptIdx(v)].frame
  }

  ghost predicate DirectoryOver(m: Memory, r: nat, v: nat, role: map<nat, Role>, pd: nat)
  {
    DirectoryInPlace(m, r, v) && DirectoryFrame(m, r, v) == pd
    && pd in role && role[pd] == Dir(Pml4Idx(v), PdptIdx(v))
  }

  /** Writing the entry of v leaves the way to its table alone. */
  lemma PutKeepsDirectory(m: Memory, r: nat, v: nat, role: map<nat, Role>, pd: nat, w: Word)
    requires Tree(m, r, role) && DirectoryOver(m, r, v, role, pd) && IsTable(m[pd][PdIdx(v)])
    ensures
      var pt := m[pd][PdIdx(v)].frame;
      pt < |m| && pt != pd && DirectoryOver(m[pt := m[pt][PtIdx(v) := w]], r, v, role, pd)
  {
    assert Descends(role[pd], m[pd][PdIdx(v)]);
    assert Descends(role[r], m[r][Pml4Idx(v)]);
  }

  lemma DirectoryKept(m: Memory, m': Memory, r: nat, v: nat, role: map<nat, Role>, role': map<nat, Role>, pd: nat,
                      p: nat)
    requires DirectoryOver(m, r, v, role, pd) && Tree(m, r, role)
    requires |m'| == |m| && forall f :: 0 <= f < |m| && f != p && f != pd ==> m'[f] == m[f]
    requires p !in role && pd in role' && role'[pd] == role[pd]
    ensures DirectoryOver(m', r, v, role', pd)
  {
    assert Descends(role[r], m[r][Pml4Idx(v)]);
  }

  /** How mapping w at v changes memory when the directory over v is in place. */
  ghost predicate MappedBelow(m: Memory, m': Memory, dir: nat, v: nat, w: Word, role: map<nat, Role>,
                              role': map<nat, Role>, free: set<nat>, free': set<nat>, ok: bool)
    requires dir < |m|
  {
    if !ok then m' == m && role' == role && free' == free
    else if IsTable(m[dir][PdIdx(v)]) then
      MappedInTable(m, m', dir, PdIdx(v), PtIdx(v), w) && role' == role && free' == free
    else
      var p := if |m'| == |m| then m'[dir][PdIdx(v)].frame else 0;
      p in free && free' == free - {p}
        && role' == role[p := Table(Pml4Idx(v), PdptIdx(v), PdIdx(v))]
        && MappedInNewTable(m, m', dir, PdIdx(v), PtIdx(v), w, p)
  }

  lemma NewTableThenPut(m: Memory, dir: nat, i: Index, j: Index, w: Word, p: nat, table: Page)
    requires dir < |m| && p < |m| && p < Pmm.FRAMES && dir != p
    requires !IsTable(m[dir][i]) && Replaces(m[dir][i], table)
    ensures var m1 := m[p := table][dir := m[dir][i := Word(p, TABLE_FLAGS)]];
      MappedInNewTable(m, m1[p := m1[p][j := w]], dir, i, j, w, p)
  {
  }

  /** How ensuring a table under entry i of directory f changes memory. */
  ghost predicate TableEnsured(m: Memory, m': Memory, f: nat, i: Index, role: map<nat, Role>, role': map<nat, Role>,
                               free: set<nat>, free': set<nat>, ok: bool)
  {
    && f < |m| && |m'| == |m| && f in role
    && if !ok || IsTable(m[f][i]) then m' == m && role' == role && free' == free && (IsTable(m[f][i]) ==> ok)
       else
         var p := m'[f][i].frame;
         && p in free && free' == free - {p} && p < |m| && f != p && IsTable(m'[f][i]) && !role[f].Leaf?
         && m' == m[p := m'[p]][f := m[f][i := Word(p, TABLE_FLAGS)]]
         && role' == role[p := Child(role[f], i)]
         && Replaces(m[f][i], m'[p])
  }

  /** Directory slot i holds a table now, a new one if it did not before; the other slots are as before. */
  ghost predicate SlotEnsured(m: Memory, m': Memory, dir: nat, i: Index, free: set<nat>, free': set<nat>, ok: bool)
  {
    && dir < |m| && |m'| == |m| && free' <= free
    && (ok <==> IsTable(m[dir][i]) || free != {})
    && |free| == |free'| + (if IsTable(m[dir][i]) || !ok then 0 else 1)
    && (if ok then IsTable(m'[dir][i]) else m'[dir][i] == m[dir][i])
    && forall c: Index :: c != i ==> m'[dir][c] == m[dir][c]
  }

  lemma SlotStaysEnsured(m: Memory, m1: Memory, m2: Memory, dir: nat, i: Index, free: set<nat>, free': set<nat>)
    requires dir < |m| && |m| == |m1| == |m2| && m2[dir] == m1[dir]
    ensures SlotEnsured(m, m1, dir, i, free, free', true) ==> SlotEnsured(m, m2, dir, i, free, free', true)
  {
  }

  lemma PutBelow(m: Memory, m1: Memory, m2: Memory, dir: nat, v: nat, w: Word, role: map<nat, Role>,
                 role': map<nat, Role>, free: set<nat>, free': set<nat>)
    requires TableEnsured(m, m1, dir, PdIdx(v), role, role', free, free', true)
    requires role[dir] == Dir(Pml4Idx(v), PdptIdx(v)) && |m| == Pmm.FRAMES
    requires m1[dir][PdIdx(v)].frame < |m|
    requires m2 == m1[m1[dir][PdIdx(v)].frame := m1[m1[dir][PdIdx(v)].frame][PtIdx(v) := w]]
    requires m1[dir][PdIdx(v)].frame != dir
    ensures MappedBelow(m, m2, dir, v, w, role, role', free, free', true)
  {
    if !IsTable(m[dir][PdIdx(v)]) {
      var p := m1[dir][PdIdx(v)].frame;
      NewTableThenPut(m, dir, PdIdx(v), PtIdx(v), w, p, m1[p]);
    }
  }

  /** The kernel's own tables: a tree of kernel frames with a first PDPT and a first directory. */
  ghost predicate KernelTables(m: Memory, r: nat, role: map<nat, Role>, kernel: set<nat>, pdpt: nat, pd: nat)
  {
    && Tree(m, r, role) && role.Keys <= kernel
    && pdpt in role && role[pdpt] == Pdpt(0) && m[r][0].flags.present && m[r][0].frame == pdpt
    && pd in role && role[pd] == Dir(0, 0) && IsTable(m[pdpt][0]) && m[pdpt][0].frame == pd
  }

  /** Scribbling over free frames disturbs neither the kernel's tables nor any space. */
  lemma FreeFramesDoNotMatter(m: Memory, m': Memory, spaces: map<nat, map<nat, Role>>, kernel: set<nat>,
                              free: set<nat>, r: nat, role: map<nat, Role>, pdpt: nat, pd: nat)
    requires KernelTables(m, r, role, kernel, pdpt, pd) && Isolated(m, spaces, kernel, free)
    requires Sharing(m, spaces, kernel, role, pd)
    requires |m'| == |m| && forall f :: 0 <= f < |m| && f !in free ==> m'[f] == m[f]
    ensures KernelTables(m', r, role, kernel, pdpt, pd) && Isolated(m', spaces, kernel, free)
    ensures Sharing(m', spaces, kernel, role, pd)
  {
    KernelTablesKept(m, m', r, role, kernel, pdpt, pd);
    ScribbleOnFree(m, m', spaces, kernel, free);
    SharingOnFree(m, m', spaces, kernel, free, role, pd);
  }

  lemma KernelTablesKept(m: Memory, m': Memory, r: nat, role: map<nat, Role>, kernel: set<nat>, pdpt: nat, pd: nat)
    requires KernelTables(m, r, role, kernel, pdpt, pd) && |m'| == |m|
    requires forall f :: 0 <= f < |m| && f in kernel ==> m'[f] == m[f]
    ensures KernelTables(m', r, role, kernel, pdpt, pd)
  {
    forall f, i: Index | f in role && Descends(role[f], m'[f][i])
      ensures m'[f][i].frame in role && role[m'[f][i].frame] == Child(role[f], i)
    {
      assert m'[f] == m[f];
    }
  }

  lemma KernelDirectory(m: Memory, spaces: map<nat, map<nat, Role>>, kernel: set<nat>, free: set<nat>, r: nat,
                        role: map<nat, Role>, pdpt: nat, pd: nat)
    requires KernelTables(m, r, role, kernel, pdpt, pd) && Isolated(m, spaces, kernel, free)
    ensures pd < |m| && pd !in free && pd in kernel && pdpt < |m| && pdpt !in free && kernel !! free
    ensures forall q :: q in spaces ==> Owned(spaces[q], kernel) !! free
  {
  }

  ghost function SharedRoles(role: map<nat, Role>): map<nat, Role>
  {
    map f | f in role && Shared(role[f]) :: role[f]
  }

  ghost function NewSpaceRole(kernelRole: map<nat, Role>, pml4: nat, pdpt: nat, pd: nat): map<nat, Role>
  {
    SharedRoles(kernelRole)[pml4 := Root][pdpt := Pdpt(0)][pd := Dir(0, 0)]
  }

  function Supervisor(e: Word): Word
  {
    Word(e.frame, e.flags.(user := false))
  }

  /** The three tables vmm_create_user_pt builds form a user space without user pages. */
  lemma NewSpace(m: Memory, m': Memory, kernelRoot: nat, kernelRole: map<nat, Role>, kernel: set<nat>, kpdpt: nat,
                 kpd: nat, pml4: nat, pdpt: nat, pd: nat)
    requires KernelTables(m, kernelRoot, kernelRole, kernel, kpdpt, kpd) && |m| == |m'| == Pmm.FRAMES
    requires forall f :: 0 <= f < |m| && f in kernel ==> m'[f] == m[f]
    requires pml4 != pdpt && pdpt != pd && pml4 != pd
    requires Pmm.RESERVED_FRAMES <= pml4 < Pmm.FRAMES && pml4 !in kernel
    requires Pmm.RESERVED_FRAMES <= pdpt < Pmm.FRAMES && pdpt !in kernel
    requires Pmm.RESERVED_FRAMES <= pd < Pmm.FRAMES && pd !in kernel
    requires m'[pml4] == ZERO_PAGE[0 := Word(pdpt, TABLE_FLAGS)]
    requires m'[pdpt] == ZERO_PAGE[0 := Word(pd, TABLE_FLAGS)][3 := Supervisor(m[kpdpt][3])]
    requires forall i: Index :: m'[pd][i] == Supervisor(m[kpd][i])
    ensures Space(m', pml4, NewSpaceRole(kernelRole, pml4, pdpt, pd), kernel)
    ensures Owned(NewSpaceRole(kernelRole, pml4, pdpt, pd), kernel) == {pml4, pdpt, pd}
    ensures DirOf(m', pml4) == pd
    ensures forall i: Index, j: Index :: UserEntry(m', pd, i, j) == None
    ensures SharesKernel(m', pml4, NewSpaceRole(kernelRole, pml4, pdpt, pd), kernel, kernelRole, kpd)
  {
    var role := NewSpaceRole(kernelRole, pml4, pdpt, pd);
    forall f, i: Index | f in role && Descends(role[f], m'[f][i])
      ensures m'[f][i].frame in role && role[m'[f][i].frame] == Child(role[f], i)
    {
      if f == pml4 {
        assert i == 0;
      } else if f == pdpt {
        assert i == 0 || i == 3;
        if i == 3 {
          assert Descends(kernelRole[kpdpt], m[kpdpt][i]);
        }
      } else if f == pd {
        assert Descends(kernelRole[kpd], m[kpd][i]);
      } else {
        assert m'[f] == m[f] && Descends(kernelRole[f], m[f][i]);
      }
    }
    forall i: Index | m'[pd][i].flags.present && !m'[pd][i].flags.huge
      ensures m'[pd][i].frame in kernel
    {
      assert Descends(kernelRole[kpd], m[kpd][i]);
    }
  }

  /** The kernel finds there what it finds in its own space, at the same addresses and with the same flags but
      for USER: the first gigabyte of space r is that of the space rooted at k. */
  ghost predicate SeesKernel(m: Memory, r: nat, k: nat)
  {
    forall c: Index, d: Index :: SameButUser(Walk(m, k, 0, 0, c, d), Walk(m, r, 0, 0, c, d))
  }

  predicate SameButUser(e: Option<Word>, e': Option<Word>)
  {
    match e
    case None => e' == None
    case Some(w) =>
      && e'.Some? && e'.value.frame == w.frame && e'.value.flags.(user := true) == w.flags.(user := true)
  }

  lemma NewSpaceSees(m: Memory, r: nat, role: map<nat, Role>, kernel: set<nat>, k: nat, kernelRole: map<nat, Role>,
                     pdpt: nat, pd: nat)
    requires KernelTables(m, k, kernelRole, kernel, pdpt, pd) && Space(m, r, role, kernel)
    requires forall i: Index :: pd < |m| && DirEntry(m, DirOf(m, r), i) == Supervisor(m[pd][i])
    ensures SeesKernel(m, r, k)
  {
    hide UserEntry;
    SpacePath(m, r, role, kernel);
    forall c: Index, d: Index ensures SameButUser(Walk(m, k, 0, 0, c, d), Walk(m, r, 0, 0, c, d)) {
      assert Walk(m, k, 0, 0, c, d) == WalkDirEntry(m, m[pd][c], d);
      assert Walk(m, r, 0, 0, c, d) == WalkDirEntry(m, Supervisor(m[pd][c]), d);
    }
  }

  /** A frame taken out of a set can be put back. */
  lemma TakenOut(free: set<nat>, f: nat)
    ensures f in free ==> |free - {f}| == |free| - 1 && free - {f} + {f} == free
    ensures free == {} <==> |free| == 0
  {
  }

  lemma FreshRoot(m: Memory, spaces: map<nat, map<nat, Role>>, kernel: set<nat>, free: set<nat>, r: nat)
    requires Isolated(m, spaces, kernel, free) && r in free
    ensures r !in spaces
  {
    assert r in spaces ==> r in Owned(spaces[r], kernel);
  }

  /** A space is ready for vmm_map_page_in below 1 GB. */
  lemma UserTree(m: Memory, spaces: map<nat, map<nat, Role>>, kernel: set<nat>, free: set<nat>, r: nat, v: nat)
    requires Isolated(m, spaces, kernel, free) && r in spaces && Pml4Idx(v) == 0 && PdptIdx(v) == 0
    ensures Tree(m, r, spaces[r]) && spaces[r].Keys !! free
    ensures DirectoryInPlace(m, r, v) && DirectoryFrame(m, r, v) == DirOf(m, r)
  {
    SpacePath(m, r, spaces[r], kernel);
    forall f | f in spaces[r] ensures f !in free {
      assert f in kernel || f in Owned(spaces[r], kernel);
    }
  }

  /** What vmm_map_page_in did, in terms of all spaces. */
  lemma UserPageMapped(m: Memory, m': Memory, spaces: map<nat, map<nat, Role>>, kernel: set<nat>, free: set<nat>,
                       free': set<nat>, r: nat, role': map<nat, Role>, v: nat, w: Word, ok: bool)
    requires Isolated(m, spaces, kernel, free) && r in spaces && Pml4Idx(v) == 0 && PdptIdx(v) == 0
    requires forall f :: f in free ==> Pmm.RESERVED_FRAMES <= f
    requires w.flags.present && w.flags.user && w.frame < |m| && Loose(w.frame, spaces, kernel, free)
    requires UserEntry(m, DirOf(m, r), PdIdx(v), PtIdx(v)) == None && DirOf(m, r) < |m|
    requires !Inherits(m, r, PdIdx(v)) && MappedBelow(m, m', DirOf(m, r), v, w, spaces[r], role', free, free', ok)
    ensures !ok ==> m' == m && free' == free
    ensures ok ==>
      && |m'| == |m| && free' <= free
      && Isolated(m', spaces[r := WithLeaf(role', w.frame, PdIdx(v), PtIdx(v))], kernel, free')
      && (forall f :: 0 <= f < |m| && f !in Owned(WithLeaf(role', w.frame, PdIdx(v), PtIdx(v)), kernel) ==>
        m'[f] == m[f])
      && (forall f :: 0 <= f < |m| && f in kernel ==> m'[f] == m[f])
      && Owned(WithLeaf(role', w.frame, PdIdx(v), PtIdx(v)), kernel) ==
         Owned(spaces[r], kernel) + {w.frame} + (free - free')
      && OnlySlot(m, m', r, PdIdx(v), PtIdx(v), w) && TablesTurnUser(m, m', r, PdIdx(v))
      && SamePages(m, m', r) && m'[w.frame] == m[w.frame]
  {
    if ok {
      if IsTable(DirEntry(m, DirOf(m, r), PdIdx(v))) {
        MapLooseInTable(m, m', spaces, kernel, free, r, PdIdx(v), PtIdx(v), w);
      } else {
        var p := m'[DirOf(m, r)][PdIdx(v)].frame;
        MapLooseInNewTable(m, m', spaces, kernel, free, r, PdIdx(v), PtIdx(v), w, p);
        assert free - free' == {p};
      }
    }
  }

  /** Space r gains the page w at slot (i, j) and, if free' is not free, a table for it; its other pages,
      the other spaces and the kernel stay as they are. */
  ghost predicate MappedForUser(m: Memory, m': Memory, spaces: map<nat, map<nat, Role>>,
                                spaces': map<nat, map<nat, Role>>, kernel: set<nat>, free: set<nat>, free': set<nat>,
                                r: nat, i: Index, j: Index, w: Word)
  {
    && |m'| == |m| && free' <= free
    && r in spaces && r in spaces' && spaces' == spaces[r := spaces'[r]]
    && OnlySlot(m, m', r, i, j, w) && TablesTurnUser(m, m', r, i) && SamePages(m, m', r)
    && Owned(spaces'[r], kernel) == Owned(spaces[r], kernel) + {w.frame} + (free - free')
    && (w.frame < |m| ==> m'[w.frame] == m[w.frame])
    && (forall f :: 0 <= f < |m| && f !in Owned(spaces'[r], kernel) ==> m'[f] == m[f])
    && GainsPage(m, m', r, 512 * i + j, w.flags.rw)
  }

  /** What vmm_map_page_in did elsewhere below 1 GB. */
  lemma UserPageAdded(m: Memory, m': Memory, spaces: map<nat, map<nat, Role>>, kernel: set<nat>, free: set<nat>,
                      free': set<nat>, kernelRoot: nat, kernelRole: map<nat, Role>, pdpt: nat, pd: nat, r: nat,
                      role': map<nat, Role>, v: nat, w: Word, ok: bool)
    requires KernelTables(m, kernelRoot, kernelRole, kernel, pdpt, pd) && Isolated(m, spaces, kernel, free)
    requires Sharing(m, spaces, kernel, kernelRole, pd) && r in spaces && !Inherits(m, r, PdIdx(v))
      && DirOf(m, r) < |m|
    requires Pml4Idx(v) == 0 && PdptIdx(v) == 0 && forall f :: f in free ==> Pmm.RESERVED_FRAMES <= f
    requires w.flags.present && w.flags.user && w.frame < |m| && Loose(w.frame, spaces, kernel, free)
    requires UserEntry(m, DirOf(m, r), PdIdx(v), PtIdx(v)) == None
    requires MappedBelow(m, m', DirOf(m, r), v, w, spaces[r], role', free, free', ok)
    ensures !ok ==> m' == m && free' == free
    ensures ok ==>
      var spaces' := spaces[r := WithLeaf(role', w.frame, PdIdx(v), PtIdx(v))];
      && MappedForUser(m, m', spaces, spaces', kernel, free, free', r, PdIdx(v), PtIdx(v), w)
      && KernelTables(m', kernelRoot, kernelRole, kernel, pdpt, pd) && Isolated(m', spaces', kernel, free')
      && Sharing(m', spaces', kernel, kernelRole, pd)
  {
    hide Isolated, KernelTables, Sharing, UserEntry, OnlySlot, SamePages, TablesTurnUser, MappedBelow, Loose,
      GainsPage;
    UserPageMapped(m, m', spaces, kernel, free, free', r, role', v, w, ok);
    if ok {
      MappedRights(m, m', spaces, spaces[r := WithLeaf(role', w.frame, PdIdx(v), PtIdx(v))], kernel, free, free', r,
                   PdIdx(v), PtIdx(v), w);
      KernelDirectory(m, spaces, kernel, free, kernelRoot, kernelRole, pdpt, pd);
      KernelTablesKept(m, m', kernelRoot, kernelRole, kernel, pdpt, pd);
      UserPageShares(m, m', spaces, kernel, kernelRole, pd, free, free', r, role', v, w);
    }
  }

  /** The space still shares with the kernel what it shared. */
  lemma UserPageShares(m: Memory, m': Memory, spaces: map<nat, map<nat, Role>>, kernel: set<nat>,
                       kernelRole: map<nat, Role>, kernelDir: nat, free: set<nat>, free': set<nat>, r: nat,
                       role': map<nat, Role>, v: nat, w: Word)
    requires Isolated(m, spaces, kernel, free) && r in spaces && DirOf(m, r) < |m|
    requires Sharing(m, spaces, kernel, kernelRole, kernelDir) && kernelDir in kernel
    requires Loose(w.frame, spaces, kernel, free)
      && MappedBelow(m, m', DirOf(m, r), v, w, spaces[r], role', free, free', true)
    requires |m'| == |m| && Isolated(m', spaces[r := WithLeaf(role', w.frame, PdIdx(v), PtIdx(v))], kernel, free')
    requires TablesTurnUser(m, m', r, PdIdx(v))
    requires forall f :: 0 <= f < |m| && f !in Owned(WithLeaf(role', w.frame, PdIdx(v), PtIdx(v)), kernel) ==>
      m'[f] == m[f]
    ensures Sharing(m', spaces[r := WithLeaf(role', w.frame, PdIdx(v), PtIdx(v))], kernel, kernelRole, kernelDir)
  {
    hide UserEntry, Space;
    var role := WithLeaf(role', w.frame, PdIdx(v), PtIdx(v));
    assert SharesKernel(m, r, spaces[r], kernel, kernelRole, kernelDir);
    assert forall f :: f in role && f in kernel ==> f in spaces[r] && spaces[r][f] == role[f];
    assert forall i: Index :: DirEntry(m', kernelDir, i) == DirEntry(m, kernelDir, i);
    assert forall i: Index :: Inherits(m', r, i) ==> DirEntry(m', DirOf(m', r), i) == DirEntry(m, DirOf(m, r), i);
    assert SharesKernel(m', r, role, kernel, kernelRole, kernelDir);
    NoOwnerTwice(spaces, spaces[r := role], kernel, m', free', r);
    SharingUpdated(m, m', spaces, kernel, free, kernelRole, kernelDir, r, role);
  }

  lemma NoOwnerTwice(spaces: map<nat, map<nat, Role>>, spaces': map<nat, map<nat, Role>>, kernel: set<nat>, m: Memory,
                     free: set<nat>, r: nat)
    requires Isolated(m, spaces', kernel, free) && r in spaces' && spaces' == spaces[r := spaces'[r]]
    ensures forall q :: q in spaces && q != r ==> Owned(spaces'[r], kernel) !! Owned(spaces[q], kernel)
  {
    forall q | q in spaces && q != r
      ensures Owned(spaces'[r], kernel) !! Owned(spaces[q], kernel)
    {
      assert q in spaces' && spaces'[q] == spaces[q];
    }
  }

  /** Writing an entry of a kernel table of the lowest level disturbs no tree, no space and no sharing. */
  lemma KernelTableWritten(m: Memory, spaces: map<nat, map<nat, Role>>, kernel: set<nat>, free: set<nat>, r: nat,
                           role: map<nat, Role>, pdpt: nat, pd: nat, t: nat, j: Index, w: Word)
    requires KernelTables(m, r, role, kernel, pdpt, pd) && Isolated(m, spaces, kernel, free)
    requires Sharing(m, spaces, kernel, role, pd) && t in role && role[t].Table?
    ensures t < |m| && t in kernel && t != pd
    ensures var m' := m[t := m[t][j := w]];
      && KernelTables(m', r, role, kernel, pdpt, pd) && Isolated(m', spaces, kernel, free)
      && Sharing(m', spaces, kernel, role, pd)
      && forall q, c: Index, d: Index :: q in spaces ==>
           && DirOf(m', q) == DirOf(m, q) && DirEntry(m', DirOf(m', q), c) == DirEntry(m, DirOf(m, q), c)
           && UserEntry(m', DirOf(m', q), c, d) == UserEntry(m, DirOf(m, q), c, d)
  {
    var m' := m[t := m[t][j := w]];
    forall q | q in spaces
      ensures Space(m', q, spaces[q], kernel) && SharesKernel(m', q, spaces[q], kernel, role, pd)
      ensures DirOf(m', q) == DirOf(m, q)
      ensures forall c: Index :: DirEntry(m', DirOf(m', q), c) == DirEntry(m, DirOf(m, q), c)
      ensures forall c: Index, d: Index :: UserEntry(m', DirOf(m', q), c, d) == UserEntry(m, DirOf(m, q), c, d)
    {
      SharedTableWritten(m, q, spaces[q], kernel, role, pd, t, j, w);
    }
  }

  lemma SharedTableWritten(m: Memory, q: nat, role: map<nat, Role>, kernel: set<nat>, kernelRole: map<nat, Role>,
                           pd: nat, t: nat, j: Index, w: Word)
    requires Space(m, q, role, kernel) && SharesKernel(m, q, role, kernel, kernelRole, pd)
    requires t in kernel && t < |m| && t in kernelRole && kernelRole[t].Table? && t != pd
    ensures var m' := m[t := m[t][j := w]];
      && Space(m', q, role, kernel) && SharesKernel(m', q, role, kernel, kernelRole, pd)
      && DirOf(m', q) == DirOf(m, q)
      && (forall c: Index :: DirEntry(m', DirOf(m', q), c) == DirEntry(m, DirOf(m, q), c))
      && forall c: Index, d: Index :: UserEntry(m', DirOf(m', q), c, d) == UserEntry(m, DirOf(m, q), c, d)
  {
    var m' := m[t := m[t][j := w]];
    SkeletonPath(m, q, role, kernel);
    forall f, i: Index | f in role && Descends(role[f], m'[f][i])
      ensures m'[f][i].frame in role && role[m'[f][i].frame] == Child(role[f], i)
    {
      assert m'[f] == m[f];
    }
    assert DirOf(m', q) == DirOf(m, q);
    assert forall c: Index :: DirEntry(m', DirOf(m', q), c) == DirEntry(m, DirOf(m, q), c);
    assert forall c: Index :: DirEntry(m', pd, c) == DirEntry(m, pd, c);
    assert forall c: Index, d: Index :: UserEntry(m', DirOf(m', q), c, d) == UserEntry(m, DirOf(m, q), c, d);
  }

  /** Entry j of the kernel's table in slot i of its directory becomes w, and nothing else changes. */
  ghost predicate IntoKernelTable(m: Memory, m': Memory, kernelDir: nat, i: Index, j: Index, w: Word)
  {
    var t := DirEntry(m, kernelDir, i).frame;
    t < |m| && m' == m[t := m[t][j := w]]
  }

  /** What vmm_map_page_in did below a directory entry inherited from the kernel. */
  lemma UserPageIntruded(m: Memory, m': Memory, spaces: map<nat, map<nat, Role>>, kernel: set<nat>, free: set<nat>,
                         free': set<nat>, kernelRoot: nat, kernelRole: map<nat, Role>, pdpt: nat, pd: nat, r: nat,
                         role': map<nat, Role>, v: nat, w: Word, ok: bool)
    requires KernelTables(m, kernelRoot, kernelRole, kernel, pdpt, pd) && Isolated(m, spaces, kernel, free)
    requires Sharing(m, spaces, kernel, kernelRole, pd) && r in spaces && Inherits(m, r, PdIdx(v))
      && DirOf(m, r) < |m|
    requires MappedBelow(m, m', DirOf(m, r), v, w, spaces[r], role', free, free', ok)
    requires ok <==> IsTable(DirEntry(m, DirOf(m, r), PdIdx(v))) || free != {}
    ensures ok && free' == free && IntoKernelTable(m, m', pd, PdIdx(v), PtIdx(v), w)
    ensures KernelTables(m', kernelRoot, kernelRole, kernel, pdpt, pd) && Isolated(m', spaces, kernel, free)
    ensures Sharing(m', spaces, kernel, kernelRole, pd) && SameRights(m, r, m', r)
  {
    hide Isolated, KernelTables, Sharing, UserEntry, SameRights;
    InheritedTable(m, spaces, kernel, free, kernelRoot, kernelRole, pdpt, pd, r, PdIdx(v));
    KernelTableWritten(m, spaces, kernel, free, kernelRoot, kernelRole, pdpt, pd, DirEntry(m, pd, PdIdx(v)).frame,
                       PtIdx(v), w);
    IntrudedRights(m, m', spaces, kernel, free, free, kernelRoot, kernelRole, pdpt, pd, r, PdIdx(v), PtIdx(v), w);
  }

  function WithUserPage(spaces: map<nat, map<nat, Role>>, r: nat, role: map<nat, Role>, frame: nat, i: Index,
                        j: Index): map<nat, map<nat, Role>>
  {
    spaces[r := WithLeaf(role, frame, i, j)]
  }

  /** Both together. */
  lemma UserPageOutcome(m: Memory, m': Memory, spaces: map<nat, map<nat, Role>>, kernel: set<nat>, free: set<nat>,
                        free': set<nat>, kernelRoot: nat, kernelRole: map<nat, Role>, pdpt: nat, pd: nat, r: nat,
                        role': map<nat, Role>, v: nat, w: Word, ok: bool)
    requires KernelTables(m, kernelRoot, kernelRole, kernel, pdpt, pd) && Isolated(m, spaces, kernel, free)
    requires Sharing(m, spaces, kernel, kernelRole, pd) && r in spaces && DirOf(m, r) < |m|
    requires Pml4Idx(v) == 0 && PdptIdx(v) == 0 && forall f :: f in free ==> Pmm.RESERVED_FRAMES <= f
    requires w.flags.present && w.flags.user && w.frame < |m| && Loose(w.frame, spaces, kernel, free)
    requires UserEntry(m, DirOf(m, r), PdIdx(v), PtIdx(v)) == None
    requires MappedBelow(m, m', DirOf(m, r), v, w, spaces[r], role', free, free', ok)
    requires ok <==> IsTable(DirEntry(m, DirOf(m, r), PdIdx(v))) || free != {}
    ensures !ok ==> m' == m && free' == free
    ensures Inherits(m, r, PdIdx(v)) ==>
      ok && free' == free && IntoKernelTable(m, m', pd, PdIdx(v), PtIdx(v), w) && SameRights(m, r, m', r)
    ensures var spaces' :=
        if ok && !Inherits(m, r, PdIdx(v)) then WithUserPage(spaces, r, role', w.frame, PdIdx(v), PtIdx(v)) else spaces;
      && KernelTables(m', kernelRoot, kernelRole, kernel, pdpt, pd) && Isolated(m', spaces', kernel, free')
      && Sharing(m', spaces', kernel, kernelRole, pd)
      && (ok && !Inherits(m, r, PdIdx(v)) ==>
            MappedForUser(m, m', spaces, spaces', kernel, free, free', r, PdIdx(v), PtIdx(v), w))
  {
    hide Isolated, KernelTables, Sharing, UserEntry, MappedBelow, Loose, MappedForUser, Inherits, SameRights,
      IntoKernelTable, DirEntry, DirOf, IsTable;
    if Inherits(m, r, PdIdx(v)) {
      UserPageIntruded(m, m', spaces, kernel, free, free', kernelRoot, kernelRole, pdpt, pd, r, role', v, w, ok);
    } else {
      UserPageAdded(m, m', spaces, kernel, free, free', kernelRoot, kernelRole, pdpt, pd, r, role', v, w, ok);
    }
  }

  /** What ring 3 may do after that ... */
  lemma MappedRights(m: Memory, m': Memory, spaces: map<nat, map<nat, Role>>, spaces': map<nat, map<nat, Role>>,
                     kernel: set<nat>, free: set<nat>, free': set<nat>, r: nat, i: Index, j: Index, w: Word)
    requires Isolated(m, spaces, kernel, free) && Isolated(m', spaces', kernel, free')
    requires r in spaces && r in spaces' && OnlySlot(m, m', r, i, j, w)
    ensures GainsPage(m, m', r, 512 * i + j, w.flags.rw)
  {
    hide Space, OnlySlot, GainsPage;
    OnePageMore(m, m', r, spaces[r], spaces'[r], kernel, i, j, w);
  }

  /** ... and after a page has gone into a kernel table. */
  lemma IntrudedRights(m: Memory, m': Memory, spaces: map<nat, map<nat, Role>>, kernel: set<nat>, free: set<nat>,
                       free': set<nat>, kernelRoot: nat, kernelRole: map<nat, Role>, pdpt: nat, pd: nat, r: nat,
                       i: Index, j: Index, w: Word)
    requires KernelTables(m, kernelRoot, kernelRole, kernel, pdpt, pd) && Isolated(m, spaces, kernel, free)
    requires Sharing(m, spaces, kernel, kernelRole, pd) && r in spaces && Inherits(m, r, i)
    requires IntoKernelTable(m, m', pd, i, j, w) && Isolated(m', spaces, kernel, free')
    ensures SameRights(m, r, m', r)
  {
    hide Space, UserEntry, KernelTables, SameRights, Sharing;
    InheritedTable(m, spaces, kernel, free, kernelRoot, kernelRole, pdpt, pd, r, i);
    InKernel(kernelRoot, kernelRole, m, kernel, pdpt, pd, DirEntry(m, pd, i).frame);
    OwnPagesKept(m, m', r, spaces[r], kernel);
    SamePagesSameRights(m, m', r, r, spaces[r], spaces[r], kernel);
  }

  lemma InKernel(r: nat, role: map<nat, Role>, m: Memory, kernel: set<nat>, pdpt: nat, pd: nat, f: nat)
    requires KernelTables(m, r, role, kernel, pdpt, pd) && f in role
    ensures f in kernel
  {
  }

  /** The table under an inherited directory entry is the kernel's. */
  lemma InheritedTable(m: Memory, spaces: map<nat, map<nat, Role>>, kernel: set<nat>, free: set<nat>, kernelRoot: nat,
                       role: map<nat, Role>, pdpt: nat, pd: nat, r: nat, i: Index)
    requires KernelTables(m, kernelRoot, role, kernel, pdpt, pd) && Isolated(m, spaces, kernel, free)
    requires Sharing(m, spaces, kernel, role, pd) && r in spaces && Inherits(m, r, i)
    ensures var t := DirEntry(m, DirOf(m, r), i).frame;
      t in role && role[t] == Table(0, 0, i) && t < |m| && DirEntry(m, pd, i).frame == t
        && IsTable(DirEntry(m, pd, i))
  {
    assert Descends(role[pd], m[pd][i]);
  }

  // ----- the kernel maps a page of its own

  /** Every space shares what there is to share of a kernel with these tables. */
  ghost function Reshared(spaces: map<nat, map<nat, Role>>, kernelRole: map<nat, Role>): map<nat, map<nat, Role>>
  {
    map r | r in spaces :: spaces[r] + SharedRoles(kernelRole)
  }

  /** The kernel's tables grew: what that means for one space. */
  lemma SpaceReshared(m: Memory, m': Memory, q: nat, role: map<nat, Role>, kernel: set<nat>,
                      kernelRole: map<nat, Role>, kernelRole': map<nat, Role>, kernelRoot: nat, pd: nat,
                      free: set<nat>, free': set<nat>)
    requires Space(m, q, role, kernel) && SharesKernel(m, q, role, kernel, kernelRole, pd)
    requires Tree(m, kernelRoot, kernelRole) && Tree(m', kernelRoot, kernelRole') && kernelRole.Keys <= kernel
    requires Grown(kernelRole, kernelRole', free, free') && kernel !! free && Owned(role, kernel) !! free
    requires UnchangedOutside(m, m', kernelRole') && TablesStay(m, m', kernelRole)
    requires pd in kernelRole && kernelRole[pd] == Dir(0, 0)
    ensures var role', kernel' := role + SharedRoles(kernelRole'), kernel + (free - free');
      && Space(m', q, role', kernel') && SharesKernel(m', q, role', kernel', kernelRole', pd)
      && Owned(role', kernel') == Owned(role, kernel)
    ensures DirOf(m', q) == DirOf(m, q)
    ensures forall i: Index, j: Index :: UserEntry(m', DirOf(m', q), i, j) == UserEntry(m, DirOf(m, q), i, j)
  {
    hide UserEntry, InUse;
    var role', kernel' := role + SharedRoles(kernelRole'), kernel + (free - free');
    SkeletonPath(m, q, role, kernel);
    assert forall f :: f in kernelRole' ==> f in kernel';
    assert forall f :: f in role && f !in kernel ==> f !in kernelRole' && m'[f] == m[f];
    assert Owned(role', kernel') == Owned(role, kernel);
    assert forall f :: f in role ==> role'[f] == role[f];
    ResharedTree(m, m', q, role, kernel, kernelRole', kernelRoot);
    OwnPagesKept(m, m', q, role, kernel);
    MoreKernelSameSpace(m, m', q, role, role', kernel, kernel');
    StillInherits(m, m', q, kernelRole, pd);
  }

  /** A space stays one when the kernel's part of its roles, and of memory, grows. */
  lemma MoreKernelSameSpace(m: Memory, m': Memory, q: nat, role: map<nat, Role>, role': map<nat, Role>,
                            kernel: set<nat>, kernel': set<nat>)
    requires Space(m, q, role, kernel) && |m'| == |m| && Tree(m', q, role')
    requires forall f :: f in role ==> f in role' && role'[f] == role[f] && (f in kernel' <==> f in kernel)
    requires forall f :: f in role' && f !in role ==> f in kernel'
    requires forall f :: f in role && f !in kernel && f < |m| ==> m'[f] == m[f]
    ensures Space(m', q, role', kernel')
  {
    SkeletonPath(m, q, role, kernel);
    OwnPagesKept(m, m', q, role, kernel);
    assert PdptOf(m', q) == PdptOf(m, q);
  }

  /** Where the space had the kernel's table it still has. */
  lemma StillInherits(m: Memory, m': Memory, q: nat, kernelRole: map<nat, Role>, pd: nat)
    requires TablesStay(m, m', kernelRole) && pd in kernelRole && kernelRole[pd] == Dir(0, 0)
    requires forall i: Index :: DirEntry(m', DirOf(m', q), i) == DirEntry(m, DirOf(m, q), i)
    requires forall i: Index :: Inherits(m, q, i) ==>
      IsTable(DirEntry(m, pd, i)) && DirEntry(m, pd, i).frame == DirEntry(m, DirOf(m, q), i).frame
    ensures forall i: Index :: Inherits(m', q, i) ==>
      IsTable(DirEntry(m', pd, i)) && DirEntry(m', pd, i).frame == DirEntry(m', DirOf(m', q), i).frame
  {
    forall i: Index | Inherits(m', q, i)
      ensures IsTable(DirEntry(m', pd, i)) && DirEntry(m', pd, i).frame == DirEntry(m', DirOf(m', q), i).frame
    {
      assert Inherits(m, q, i);
      assert pd < |m| ==> Descends(kernelRole[pd], m[pd][i]);
    }
  }

  lemma ResharedTree(m: Memory, m': Memory, q: nat, role: map<nat, Role>, kernel: set<nat>,
                     kernelRole': map<nat, Role>, kernelRoot: nat)
    requires Tree(m, q, role) && Tree(m', kernelRoot, kernelRole') && |m'| == |m|
    requires forall f :: f in role && f !in kernel ==> f !in kernelRole' && m'[f] == m[f]
    requires forall f :: f in role && f in kernel ==> f in kernelRole' && kernelRole'[f] == role[f] && Shared(role[f])
    ensures Tree(m', q, role + SharedRoles(kernelRole')) || q in kernel
  {
    var role' := role + SharedRoles(kernelRole');
    forall f, i: Index | f in role' && Descends(role'[f], m'[f][i])
      ensures m'[f][i].frame in role' && role'[m'[f][i].frame] == Child(role'[f], i)
    {
      if f in role && f !in kernel {
        assert m'[f] == m[f];
      } else {
        assert kernelRole'[f] == role'[f] && Shared(role'[f]);
        assert m'[f][i].frame in kernelRole' && kernelRole'[m'[f][i].frame] == Child(role'[f], i);
      }
    }
  }

  /** ... and for all together. */
  lemma KernelGrew(m: Memory, m': Memory, spaces: map<nat, map<nat, Role>>, kernel: set<nat>, free: set<nat>,
                   free': set<nat>, kernelRoot: nat, role: map<nat, Role>, role': map<nat, Role>, pdpt: nat, pd: nat)
    requires KernelTables(m, kernelRoot, role, kernel, pdpt, pd) && Isolated(m, spaces, kernel, free)
    requires Sharing(m, spaces, kernel, role, pd) && Tree(m', kernelRoot, role') && Grown(role, role', free, free')
    requires UnchangedOutside(m, m', role') && TablesStay(m, m', role)
    ensures var spaces', kernel' := Reshared(spaces, role'), kernel + (free - free');
      && KernelTables(m', kernelRoot, role', kernel', pdpt, pd) && Isolated(m', spaces', kernel', free')
      && Sharing(m', spaces', kernel', role', pd)
      && SpacesKept(m, m', spaces, kernel, spaces', kernel')
  {
    hide UserEntry, Space, SharesKernel, Owned, UnchangedOutside;
    var spaces', kernel' := Reshared(spaces, role'), kernel + (free - free');
    forall q | q in spaces
      ensures Space(m', q, spaces'[q], kernel') && SharesKernel(m', q, spaces'[q], kernel', role', pd)
      ensures Owned(spaces'[q], kernel') == Owned(spaces[q], kernel)
      ensures SpaceKept(m, m', q, spaces[q], kernel, spaces'[q], kernel')
    {
      SpaceReshared(m, m', q, spaces[q], kernel, role, role', kernelRoot, pd, free, free');
      OwnedUnchanged(m, m', q, spaces[q], kernel, role', free);
    }
    assert Descends(role[kernelRoot], m[kernelRoot][0]);
    assert Descends(role[pdpt], m[pdpt][0]);
  }

  /** The space has the same frames of its own, with the same contents, and the same user pages. */
  ghost predicate SpaceKept(m: Memory, m': Memory, q: nat, role: map<nat, Role>, kernel: set<nat>,
                            role': map<nat, Role>, kernel': set<nat>)
  {
    && Owned(role', kernel') == Owned(role, kernel) && DirOf(m', q) == DirOf(m, q)
    && (forall i: Index, j: Index :: UserEntry(m', DirOf(m', q), i, j) == UserEntry(m, DirOf(m, q), i, j))
    && |m'| == |m| && forall f :: f in Owned(role, kernel) && f < |m| ==> m'[f] == m[f]
  }

  ghost predicate SpacesKept(m: Memory, m': Memory, spaces: map<nat, map<nat, Role>>, kernel: set<nat>,
                             spaces': map<nat, map<nat, Role>>, kernel': set<nat>)
  {
    && spaces'.Keys == spaces.Keys
    && forall q :: q in spaces && q in spaces' ==> SpaceKept(m, m', q, spaces[q], kernel, spaces'[q], kernel')
  }

  /** The page at v is mapped to w, unless a 1 GB page covers it or the frames ran out: then nothing
      translates differently. */
  ghost predicate MappedUnlessGiga(m: Memory, m': Memory, r: nat, v: nat, w: Word, ok: bool)
  {
    && r < |m| && |m'| == |m|
    && if !ok then SameTranslation(m, m', r)
       else if GigaPageOver(m, r, v) then m' == m
       else MappedAt(m, m', r, v, w)
  }

  lemma OwnedUnchanged(m: Memory, m': Memory, q: nat, role: map<nat, Role>, kernel: set<nat>,
                       kernelRole': map<nat, Role>, free: set<nat>)
    requires UnchangedOutside(m, m', kernelRole') && kernelRole'.Keys <= kernel + free && Owned(role, kernel) !! free
    ensures |m'| == |m| && forall f :: f in Owned(role, kernel) && f < |m| ==> m'[f] == m[f]
  {
  }

  /** A frame of nobody may be the kernel's. */
  lemma KernelClaims(m: Memory, spaces: map<nat, map<nat, Role>>, kernel: set<nat>, free: set<nat>, kernelRoot: nat,
                     role: map<nat, Role>, pdpt: nat, pd: nat, f: nat)
    requires KernelTables(m, kernelRoot, role, kernel, pdpt, pd) && Isolated(m, spaces, kernel, free)
    requires Sharing(m, spaces, kernel, role, pd) && Loose(f, spaces, kernel, free)
    ensures KernelTables(m, kernelRoot, role, kernel + {f}, pdpt, pd) && Isolated(m, spaces, kernel + {f}, free)
    ensures Sharing(m, spaces, kernel + {f}, role, pd)
  {
    hide UserEntry;
    forall q | q in spaces
      ensures Space(m, q, spaces[q], kernel + {f}) && Owned(spaces[q], kernel + {f}) == Owned(spaces[q], kernel)
      ensures SharesKernel(m, q, spaces[q], kernel + {f}, role, pd)
    {
      SkeletonPath(m, q, spaces[q], kernel);
      assert Owned(spaces[q], kernel + {f}) == Owned(spaces[q], kernel);
    }
  }

  /** Exactly when a successful vmm_map_page_in below 1 GB leaves the kernel's frames alone: the
      directory entry over the page is not a 4 KB table inherited from the kernel, or the entry was
      there already. (After heap_init the kernel has two such tables, and fork runs into them.) */
  lemma KernelUntouchedIff(m: Memory, m': Memory, spaces: map<nat, map<nat, Role>>, kernel: set<nat>, free: set<nat>,
                           free': set<nat>, r: nat, role': map<nat, Role>, v: nat, w: Word)
    requires Isolated(m, spaces, kernel, free) && r in spaces && DirOf(m, r) < |m|
    requires MappedBelow(m, m', DirOf(m, r), v, w, spaces[r], role', free, free', true)
    ensures
      var e := DirEntry(m, DirOf(m, r), PdIdx(v));
      |m'| == |m| &&
      ((forall f :: 0 <= f < |m| && f in kernel ==> m'[f] == m[f]) <==>
       (IsTable(e) && !e.flags.user ==> e.frame < |m| && m[e.frame][PtIdx(v)] == w))
  {
    SpacePath(m, r, spaces[r], kernel);
    var e := DirEntry(m, DirOf(m, r), PdIdx(v));
    if IsTable(e) {
      var t := e.frame;
      assert e.flags.user <==> t !in kernel;
      assert m'[t][PtIdx(v)] == w;
      if m[t][PtIdx(v)] == w {
        assert m[t][PtIdx(v) := w] == m[t];
      }
    }
  }

  lemma SlotAddress(i: Index, j: Index)
    ensures var v := i * 0x20_0000 + j * 4096;
      Pml4Idx(v) == 0 && PdptIdx(v) == 0 && PdIdx(v) == i && PtIdx(v) == j
  {
    var v := i * 0x20_0000 + j * 4096;
    assert v / 0x20_0000 == i && v / 4096 == 512 * i + j;
  }

  class Machine {
    const pmm: Pmm.FrameAllocator
    const ram: array<Page>
    const pdptTable: nat  // frames of the page tables boot.asm built
    const pdTable: nat

    const kernelRoot: nat
    ghost var kernel: set<nat>               // frames of the kernel image, its tables included
    ghost var kernelRole: map<nat, Role>     // the tree of the kernel's tables
    ghost var spaces: map<nat, map<nat, Role>>  // the user address spaces, by root

    constructor (pmm: Pmm.FrameAllocator, ram: array<Page>, kernelRoot: nat, pdptTable: nat, pdTable: nat,
                 ghost kernel: set<nat>, ghost kernelRole: map<nat, Role>)
      requires pmm.Valid() && ram.Length == Pmm.FRAMES && kernel !! pmm.free
      requires KernelTables(ram[..], kernelRoot, kernelRole, kernel, pdptTable, pdTable)
      ensures Valid() && this.pmm == pmm && this.ram == ram && spaces == map[]
    {
      this.pmm := pmm;
      this.ram := ram;
      this.kernelRoot := kernelRoot;
      this.pdptTable := pdptTable;
      this.pdTable := pdTable;
      this.kernel := kernel;
      this.kernelRole := kernelRole;
      this.spaces := map[];
    }

    ghost predicate Valid()
      reads this, pmm, pmm.bitmap, ram
    {
      && Mem()
      && KernelTables(ram[..], kernelRoot, kernelRole, kernel, pdptTable, pdTable)
      && Isolated(ram[..], spaces, kernel, pmm.free)
      && Sharing(ram[..], spaces, kernel, kernelRole, pdTable)
    }

    ghost predicate Mem()
      reads this, pmm, pmm.bitmap
    {
      pmm.Valid() && ram.Length == Pmm.FRAMES && pmm.bitmap.Length == Pmm.BITMAP_BYTES
    }

    method ZeroFrame(p: nat)
      requires p < ram.Length
      modifies ram
      ensures ram[..] == old(ram[..])[p := ZERO_PAGE]
    {
      var i := 0;
      while i < 512
        invariant 0 <= i <= 512
        invariant ram[..] == old(ram[..])[p := ram[p]]
        invariant forall k :: 0 <= k < i ==> ram[p][k] == ZERO
      {
        ram[p] := ram[p][i := ZERO];
        i := i + 1;
      }
      assert ram[p] == ZERO_PAGE;
    }

    /** Fills table p with the 512 entries that stand for the 2 MB entry e. */
    method SplitInto(p: nat, e: Word)
      requires p < ram.Length
      modifies ram
      ensures ram[..] == old(ram[..])[p := ram[p]]
      ensures forall k: Index :: ram[p][k] == SplitEntry(e, k)
    {
      var i := 0;
      while i < 512
        invariant 0 <= i <= 512
        invariant ram[..] == old(ram[..])[p := ram[p]]
        invariant forall k: Index :: k < i ==> ram[p][k] == SplitEntry(e, k)
      {
        ram[p] := ram[p][i := Word(e.frame / 512 * 512 + i, e.flags.(huge := false))];
        i := i + 1;
      }
    }

    /** Makes entry i of table f present, hanging a fresh zeroed table there if it is not. */
    method EnsureEntry(f: nat, i: Index, ghost r: nat, ghost role: map<nat, Role>)
      returns (ok: bool, ghost role': map<nat, Role>)
      requires Mem() && Tree(ram[..], r, role) && role.Keys !! pmm.free
      requires f in role && !role[f].Table? && !role[f].Leaf?
      modifies pmm, pmm.bitmap, ram
      ensures Mem() && Tree(ram[..], r, role') && role'.Keys !! pmm.free
      ensures SameTranslation(old(ram[..]), ram[..], r)
      ensures TablesStay(old(ram[..]), ram[..], role)
      ensures UnchangedOutside(old(ram[..]), ram[..], role')
      ensures Grown(role, role', old(pmm.free), pmm.free)
      ensures ok ==> ram[f][i].flags.present && (ram[f][i].flags.huge ==> old(ram[f][i].flags.present))
      ensures ok <==> old(ram[f][i].flags.present) || old(pmm.free) != {}
      ensures !ok || old(ram[f][i].flags.present) ==>
        ram[..] == old(ram[..]) && role' == role && pmm.free == old(pmm.free)
      ensures ok && !old(ram[f][i].flags.present) ==>
        var p := ram[f][i].frame;
        && p in old(pmm.free) && pmm.free == old(pmm.free) - {p}
        && ram[..] == old(ram[..])[p := ZERO_PAGE][f := old(ram[f])[i := Word(p, TABLE_FLAGS)]]
        && role' == role[p := Child(role[f], i)]
    {
      hide SameTranslation, Pmm.FrameAllocator.Valid;
      role' := role;
      ok := true;
      SameAtOnce(ram[..], r);
      if !ram[f][i].flags.present {
        var p := pmm.AllocFrame();
        if p == 0 {
          ok := false;
          return;
        }
        ghost var m := ram[..];
        ZeroFrame(p);
        ram[f] := ram[f][i := Word(p, TABLE_FLAGS)];
        assert ram[..] == m[p := ZERO_PAGE][f := m[f][i := Word(p, TABLE_FLAGS)]];
        role' := role[p := Child(role[f], i)];
        LinkZeroed(m, r, role, f, i, p);
      }
    }

    /** Replaces the 2 MB entry i of directory f by a fresh table of the same 512 small pages. */
    method SplitHuge(f: nat, i: Index, ghost r: nat, ghost role: map<nat, Role>)
      returns (ok: bool, ghost role': map<nat, Role>)
      requires Mem() && Tree(ram[..], r, role) && role.Keys !! pmm.free
      requires f in role && role[f].Dir? && ram[f][i].flags.huge
      modifies pmm, pmm.bitmap, ram
      ensures Mem() && Tree(ram[..], r, role') && role'.Keys !! pmm.free
      ensures SameTranslation(old(ram[..]), ram[..], r)
      ensures TablesStay(old(ram[..]), ram[..], role)
      ensures UnchangedOutside(old(ram[..]), ram[..], role')
      ensures Grown(role, role', old(pmm.free), pmm.free)
      ensures ok <==> old(pmm.free) != {}
      ensures !ok ==> ram[..] == old(ram[..]) && role' == role && pmm.free == old(pmm.free)
      ensures ok ==>
        var p := ram[f][i].frame;
        && p in old(pmm.free) && pmm.free == old(pmm.free) - {p} && IsTable(ram[f][i])
        && ram[..] == old(ram[..])[p := ram[p]][f := old(ram[f])[i := Word(p, TABLE_FLAGS)]]
        && (forall k: Index :: ram[p][k] == SplitEntry(old(ram[f][i]), k))
        && role' == role[p := Child(role[f], i)]
    {
      hide SameTranslation, Pmm.FrameAllocator.Valid;
      role' := role;
      SameAtOnce(ram[..], r);
      var e := ram[f][i];
      var p := pmm.AllocFrame();
      if p == 0 {
        ok := false;
        return;
      }
      ok := true;
      ghost var m := ram[..];
      SplitInto(p, e);
      ghost var table := ram[p];
      ram[f] := ram[f][i := Word(p, TABLE_FLAGS)];
      assert ram[..] == m[p := table][f := m[f][i := Word(p, TABLE_FLAGS)]];
      role' := role[p := Child(role[f], i)];
      LinkSplit(m, r, role, f, i, p, table);
    }

    /** Writes the 4 KB entry of v, whose three upper tables are in place. */
    method PutEntry(pd: nat, v: nat, w: Word, ghost r: nat, ghost role: map<nat, Role>)
      requires Mem() && Tree(ram[..], r, role) && w.flags.present
      requires DirectoryOver(ram[..], r, v, role, pd) && IsTable(ram[pd][PdIdx(v)])
      modifies ram
      ensures Tree(ram[..], r, role) && MappedAt(old(ram[..]), ram[..], r, v, w)
      ensures TablesStay(old(ram[..]), ram[..], role)
      ensures
        var pt := old(ram[pd][PdIdx(v)].frame);
        && pt in role && role[pt] == Table(Pml4Idx(v), PdptIdx(v), PdIdx(v))
        && pt < ram.Length && ram[..] == old(ram[..])[pt := old(ram[pt])[PtIdx(v) := w]]
    {
      ghost var m := ram[..];
      assert Descends(role[pd], m[pd][PdIdx(v)]);
      var pt := ram[pd][PdIdx(v)].frame;
      PutLeaf(m, r, role, Pml4Idx(v), PdptIdx(v), PdIdx(v), PtIdx(v), pt, w);
      ram[pt] := ram[pt][PtIdx(v) := w];
      assert ram[..] == m[pt := m[pt][PtIdx(v) := w]];
    }

    /** The PML4 and PDPT steps shared by both mapping routines: on success the directory over v,
        unless a 1 GB page covers v. */
    method EnsureDirectory(r: nat, v: nat, ghost role: map<nat, Role>)
      returns (ok: bool, giga: bool, pd: nat, ghost role': map<nat, Role>)
      requires Mem() && Tree(ram[..], r, role) && role.Keys !! pmm.free
      modifies pmm, pmm.bitmap, ram
      ensures Mem() && Tree(ram[..], r, role') && role'.Keys !! pmm.free
      ensures SameTranslation(old(ram[..]), ram[..], r)
      ensures Grown(role, role', old(pmm.free), pmm.free)
      ensures TablesStay(old(ram[..]), ram[..], role)
      ensures UnchangedOutside(old(ram[..]), ram[..], role')
      ensures !ok ==> pmm.free == {}
      ensures ok ==> (giga <==> GigaPageOver(old(ram[..]), r, v)) && (giga ==> ram[..] == old(ram[..]))
      ensures ok && !giga ==> DirectoryOver(ram[..], r, v, role', pd)
      ensures DirectoryInPlace(old(ram[..]), r, v) ==>
        ok && !giga && ram[..] == old(ram[..]) && role' == role && pmm.free == old(pmm.free)
    {
      hide Pmm.FrameAllocator.Valid;
      giga, pd := false, 0;
      ok, role' := EnsureEntry(r, Pml4Idx(v), r, role);
      if !ok {
        return;
      }
      var pdpt := ram[r][Pml4Idx(v)].frame;
      assert Descends(role'[r], ram[r][Pml4Idx(v)]);
      ghost var role1, free1 := role', pmm.free;
      ghost var m1 := ram[..];
      ok, role' := EnsureEntry(pdpt, PdptIdx(v), r, role1);
      GrownTwice(role, role1, role', old(pmm.free), free1, pmm.free);
      SameTwice(old(ram[..]), m1, ram[..], r);
      UnchangedTwice(old(ram[..]), m1, ram[..], role1, role');
      TablesStayTwice(old(ram[..]), m1, ram[..], role, role1);
      if !ok {
        return;
      }
      if ram[pdpt][PdptIdx(v)].flags.huge {
        assert ram[..] == m1;
        assert m1 == old(ram[..]);
        giga := true;
        return;
      }
      pd := ram[pdpt][PdptIdx(v)].frame;
      assert Descends(role'[pdpt], ram[pdpt][PdptIdx(v)]);
    }

    /** The directory step of vmm_map_page_in: a huge entry is split, an absent one gets a fresh table. */
    method EnsureTable(f: nat, i: Index, ghost r: nat, ghost role: map<nat, Role>)
      returns (ok: bool, ghost role': map<nat, Role>)
      requires Mem() && Tree(ram[..], r, role) && role.Keys !! pmm.free
      requires f in role && role[f].Dir?
      modifies pmm, pmm.bitmap, ram
      ensures Mem() && Tree(ram[..], r, role') && role'.Keys !! pmm.free
      ensures SameTranslation(old(ram[..]), ram[..], r)
      ensures Grown(role, role', old(pmm.free), pmm.free)
      ensures UnchangedOutside(old(ram[..]), ram[..], role')
      ensures ok <==> IsTable(old(ram[f][i])) || old(pmm.free) != {}
      ensures TableEnsured(old(ram[..]), ram[..], f, i, role, role', old(pmm.free), pmm.free, ok)
    {
      if ram[f][i].flags.huge {
        ok, role' := SplitHuge(f, i, r, role);
      } else {
        ok, role' := EnsureEntry(f, i, r, role);
      }
    }

    /** The last two steps of vmm_map_page_in, once the directory over v is known. */
    method MapInDirectory(pd: nat, v: nat, w: Word, ghost r: nat, ghost role: map<nat, Role>)
      returns (ok: bool, ghost role': map<nat, Role>)
      requires Mem() && Tree(ram[..], r, role) && role.Keys !! pmm.free && w.flags.present
      requires DirectoryOver(ram[..], r, v, role, pd)
      modifies pmm, pmm.bitmap, ram
      ensures Mem() && Tree(ram[..], r, role') && role'.Keys !! pmm.free
      ensures Grown(role, role', old(pmm.free), pmm.free)
      ensures UnchangedOutside(old(ram[..]), ram[..], role')
      ensures ok <==> IsTable(old(ram[pd][PdIdx(v)])) || old(pmm.free) != {}
      ensures if ok then MappedAt(old(ram[..]), ram[..], r, v, w) else SameTranslation(old(ram[..]), ram[..], r)
      ensures MappedBelow(old(ram[..]), ram[..], pd, v, w, role, role', old(pmm.free), pmm.free, ok)
    {
      ok, role' := EnsureTable(pd, PdIdx(v), r, role);
      if !ok {
        return;
      }
      ghost var m1 := ram[..];
      PutEntry(pd, v, w, r, role');
      SameThenMapped(old(ram[..]), m1, ram[..], r, v, w);
      PutBelow(old(ram[..]), m1, ram[..], pd, v, w, role, role', old(pmm.free), pmm.free);
    }

    /** vmm_map_page_in: maps one 4 KB page into the space rooted at cr3. */
    method MapPageIn(cr3: nat, v: nat, phys: nat, flags: Flags, ghost role: map<nat, Role>)
      returns (ok: bool, ghost role': map<nat, Role>)
      requires Mem() && Tree(ram[..], cr3, role) && role.Keys !! pmm.free && phys < U64
      modifies pmm, pmm.bitmap, ram
      ensures Mem() && Tree(ram[..], cr3, role') && role'.Keys !! pmm.free
      ensures Grown(role, role', old(pmm.free), pmm.free)
      ensures UnchangedOutside(old(ram[..]), ram[..], role')
      ensures !ok ==> SameTranslation(old(ram[..]), ram[..], cr3) && pmm.free == {}
      ensures ok ==>
        if GigaPageOver(old(ram[..]), cr3, v) then ram[..] == old(ram[..])
        else MappedAt(old(ram[..]), ram[..], cr3, v, Word(phys / 4096, flags.(present := true)))
      ensures DirectoryInPlace(old(ram[..]), cr3, v) ==>
        (ok <==>
           IsTable(DirEntry(old(ram[..]), DirectoryFrame(old(ram[..]), cr3, v), PdIdx(v))) || old(pmm.free) != {})
      ensures DirectoryInPlace(old(ram[..]), cr3, v) ==>
        MappedBelow(old(ram[..]), ram[..], DirectoryFrame(old(ram[..]), cr3, v), v,
                    Word(phys / 4096, flags.(present := true)), role, role', old(pmm.free), pmm.free, ok)
    {
      var giga, pd;
      ok, giga, pd, role' := EnsureDirectory(cr3, v, role);
      if !ok || giga {
        return;
      }
      var w := Word(phys / 4096, flags.(present := true));
      ghost var m1, role1, free1 := ram[..], role', pmm.free;
      ok, role' := MapInDirectory(pd, v, w, cr3, role1);
      GrownTwice(role, role1, role', old(pmm.free), free1, pmm.free);
      if ok {
        SameThenMapped(old(ram[..]), m1, ram[..], cr3, v, w);
      } else {
        SameTwice(old(ram[..]), m1, ram[..], cr3);
      }
    }

    /** The directory step of vmm_map_page: an absent entry gets a fresh table first, then an entry
        that is huge is split. */
    method FillThenSplit(pd: nat, v: nat, ghost r: nat, ghost role: map<nat, Role>)
      returns (ok: bool, ghost role': map<nat, Role>)
      requires Mem() && Tree(ram[..], r, role) && role.Keys !! pmm.free
      requires DirectoryOver(ram[..], r, v, role, pd)
      modifies pmm, pmm.bitmap, ram
      ensures Mem() && Tree(ram[..], r, role') && role'.Keys !! pmm.free
      ensures SameTranslation(old(ram[..]), ram[..], r)
      ensures Grown(role, role', old(pmm.free), pmm.free)
      ensures TablesStay(old(ram[..]), ram[..], role)
      ensures UnchangedOutside(old(ram[..]), ram[..], role')
      ensures SlotEnsured(old(ram[..]), ram[..], pd, PdIdx(v), old(pmm.free), pmm.free, ok)
      ensures !ok ==> pmm.free == {}
      ensures ok ==> DirectoryOver(ram[..], r, v, role', pd) && IsTable(ram[pd][PdIdx(v)])
    {
      hide SameTranslation, Pmm.FrameAllocator.Valid;
      ok, role' := EnsureEntry(pd, PdIdx(v), r, role);
      if !ok || !ram[pd][PdIdx(v)].flags.huge {
        return;
      }
      ghost var m1, role1, free1 := ram[..], role', pmm.free;
      assert m1 == old(ram[..]) && role1 == role;
      ok, role' := SplitHuge(pd, PdIdx(v), r, role1);
      if ok {
        DirectoryKept(m1, ram[..], r, v, role1, role', pd, ram[pd][PdIdx(v)].frame);
      }
      GrownTwice(role, role1, role', old(pmm.free), free1, pmm.free);
      SameTwice(old(ram[..]), m1, ram[..], r);
      UnchangedTwice(old(ram[..]), m1, ram[..], role1, role');
      TablesStayTwice(old(ram[..]), m1, ram[..], role, role1);
    }

    /** vmm_map_page: maps one 4 KB page into the space in CR3. */
    method MapPage(cr3: nat, v: nat, phys: nat, flags: Flags, ghost role: map<nat, Role>)
      returns (ok: bool, ghost role': map<nat, Role>)
      requires Mem() && Tree(ram[..], cr3, role) && role.Keys !! pmm.free && phys < U64
      modifies pmm, pmm.bitmap, ram
      ensures Mem() && Tree(ram[..], cr3, role') && role'.Keys !! pmm.free
      ensures Grown(role, role', old(pmm.free), pmm.free)
      ensures TablesStay(old(ram[..]), ram[..], role)
      ensures ok && !GigaPageOver(old(ram[..]), cr3, v) ==>
        DirectoryInPlace(ram[..], cr3, v) && IsTable(ram[DirectoryFrame(ram[..], cr3, v)][PdIdx(v)])
      ensures DirectoryInPlace(old(ram[..]), cr3, v) ==>
        SlotEnsured(old(ram[..]), ram[..], DirectoryFrame(old(ram[..]), cr3, v), PdIdx(v), old(pmm.free), pmm.free,
                    ok)
      ensures UnchangedOutside(old(ram[..]), ram[..], role')
      ensures !ok ==> SameTranslation(old(ram[..]), ram[..], cr3) && pmm.free == {}
      ensures ok ==>
        if GigaPageOver(old(ram[..]), cr3, v) then ram[..] == old(ram[..])
        else MappedAt(old(ram[..]), ram[..], cr3, v, Word(phys / 4096, flags.(present := true)))
    {
      hide MappedAt, SlotEnsured, Pmm.FrameAllocator.Valid;
      var giga, pd;
      ok, giga, pd, role' := EnsureDirectory(cr3, v, role);
      if !ok || giga {
        return;
      }
      ghost var m1, role1, free1 := ram[..], role', pmm.free;
      ok, role' := FillThenSplit(pd, v, cr3, role1);
      GrownTwice(role, role1, role', old(pmm.free), free1, pmm.free);
      SameTwice(old(ram[..]), m1, ram[..], cr3);
      if ok {
        var w := Word(phys / 4096, flags.(present := true));
        ghost var m2 := ram[..];
        PutKeepsDirectory(m2, cr3, v, role', pd, w);
        PutEntry(pd, v, w, cr3, role');
        SameThenMapped(old(ram[..]), m2, ram[..], cr3, v, w);
        SlotStaysEnsured(old(ram[..]), m2, ram[..], pd, PdIdx(v), old(pmm.free), pmm.free);
      }
    }

    /** vmm_map_page as the kernel calls it, in its own tables: the page is mapped, the frames taken for
        tables become the kernel's, and no space loses or gains anything. */
    method MapKernelPage(v: nat, phys: nat, flags: Flags) returns (ok: bool)
      requires Valid() && phys < U64
      modifies this`kernel, this`kernelRole, this`spaces, pmm, pmm.bitmap, ram
      ensures Valid() && spaces.Keys == old(spaces.Keys)
      ensures pmm.free <= old(pmm.free) && kernel == old(kernel) + (old(pmm.free) - pmm.free)
      ensures Pmm.LowestFirst(old(pmm.free), pmm.free)
      ensures SpacesKept(old(ram[..]), ram[..], old(spaces), old(kernel), spaces, kernel)
      ensures forall f :: 0 <= f < ram.Length && f !in kernel ==> ram[f] == old(ram[f])
      ensures TablesStay(old(ram[..]), ram[..], old(kernelRole))
      ensures !ok ==> pmm.free == {}
      ensures MappedUnlessGiga(old(ram[..]), ram[..], kernelRoot, v, Word(phys / 4096, flags.(present := true)), ok)
      ensures Pml4Idx(v) == 0 && PdptIdx(v) == 0 ==>
        SlotEnsured(old(ram[..]), ram[..], pdTable, PdIdx(v), old(pmm.free), pmm.free, ok)
    {
      hide Isolated, Sharing, MappedAt, SameTranslation, SlotEnsured, SpacesKept, Pmm.FrameAllocator.Valid;
      ghost var m, free0, role0 := ram[..], pmm.free, kernelRole;
      KernelDirectory(m, spaces, kernel, free0, kernelRoot, kernelRole, pdptTable, pdTable);
      ghost var role;
      ok, role := MapPage(kernelRoot, v, phys, flags, role0);
      KernelGrew(m, ram[..], spaces, kernel, free0, pmm.free, kernelRoot, role0, role, pdptTable, pdTable);
      spaces := Reshared(spaces, role);
      kernel := kernel + (free0 - pmm.free);
      kernelRole := role;
    }

    /** pmm_alloc_frame for a page of the kernel's own. */
    method AllocKernelFrame() returns (frame: nat)
      requires Valid()
      modifies this`kernel, pmm, pmm.bitmap
      ensures Valid()
      ensures frame == 0 <==> old(pmm.free) == {}
      ensures frame == 0 ==> pmm.free == old(pmm.free) && kernel == old(kernel)
      ensures Pmm.LowestFirst(old(pmm.free), pmm.free)
      ensures frame != 0 ==> frame in old(pmm.free) && frame < Pmm.FRAMES
      ensures frame != 0 ==> pmm.free == old(pmm.free) - {frame} && kernel == old(kernel) + {frame}
    {
      hide Isolated, Sharing, KernelTables, Loose, Pmm.FrameAllocator.Valid;
      ghost var free0 := pmm.free;
      frame := pmm.AllocFrame();
      if frame != 0 {
        LooseAfterAlloc(ram[..], spaces, kernel, free0, frame);
        KernelClaims(ram[..], spaces, kernel, pmm.free, kernelRoot, kernelRole, pdptTable, pdTable, frame);
        kernel := kernel + {frame};
      }
    }

    /** The walk of vmm_get_physical: 0 when v is not mapped. */
    method GetPhysical(cr3: nat, v: nat, ghost role: map<nat, Role>) returns (phys: nat)
      requires Mem() && Tree(ram[..], cr3, role)
      ensures phys == Physical(ram[..], cr3, v)
    {
      hide SplitEntry, SplitGiga, Pmm.FrameAllocator.Valid;
      var e4 := ram[cr3][Pml4Idx(v)];
      if !e4.flags.present {
        return 0;
      }
      assert Descends(role[cr3], ram[cr3][Pml4Idx(v)]);
      var e3 := ram[e4.frame][PdptIdx(v)];
      if !e3.flags.present {
        return 0;
      }
      if e3.flags.huge {
        GigaPhysical(e3, v);
        return 4096 * (e3.frame / 262144 * 262144) + v % 0x4000_0000;
      }
      assert Descends(role[e4.frame], ram[e4.frame][PdptIdx(v)]);
      var e2 := ram[e3.frame][PdIdx(v)];
      if !e2.flags.present {
        return 0;
      }
      if e2.flags.huge {
        MegaPhysical(e2, v);
        return 4096 * (e2.frame / 512 * 512) + v % 0x20_0000;
      }
      assert Descends(role[e3.frame], ram[e3.frame][PdIdx(v)]);
      var e1 := ram[e2.frame][PtIdx(v)];
      if !e1.flags.present {
        return 0;
      }
      return 4096 * e1.frame + v % 4096;
    }

    method AllocZeroed() returns (p: nat)
      requires Mem()
      modifies pmm, pmm.bitmap, ram
      ensures Mem()
      ensures p == 0 <==> old(pmm.free) == {}
      ensures p == 0 ==> pmm.free == old(pmm.free)
      ensures Pmm.LowestFirst(old(pmm.free), pmm.free)
      ensures p != 0 ==> Pmm.RESERVED_FRAMES <= p < Pmm.FRAMES
      ensures p != 0 ==> p in old(pmm.free) && pmm.free == old(pmm.free) - {p} && ram[p] == ZERO_PAGE
      ensures forall f :: 0 <= f < ram.Length && (p == 0 || f != p) ==> ram[f] == old(ram[f])
    {
      hide Pmm.FrameAllocator.Valid;
      p := pmm.AllocFrame();
      if p != 0 {
        ZeroFrame(p);
      }
    }

    /** The three allocations of vmm_create_user_pt, undone when one of them fails. */
    method AllocTables() returns (pml4: nat, pdpt: nat, pd: nat)
      requires Mem()
      modifies pmm, pmm.bitmap, ram
      ensures Mem()
      ensures pml4 == 0 <==> |old(pmm.free)| < 3
      ensures pml4 == 0 ==> pmm.free == old(pmm.free)
      ensures Pmm.LowestFirst(old(pmm.free), pmm.free)
      ensures pml4 == 0 ==> forall f :: 0 <= f < ram.Length && f !in old(pmm.free) ==> ram[f] == old(ram[f])
      ensures pml4 != 0 ==>
        && pml4 != pdpt && pdpt != pd && pml4 != pd
        && Pmm.RESERVED_FRAMES <= pml4 < Pmm.FRAMES && Pmm.RESERVED_FRAMES <= pdpt < Pmm.FRAMES
        && Pmm.RESERVED_FRAMES <= pd < Pmm.FRAMES
        && pml4 in old(pmm.free) && pdpt in old(pmm.free) && pd in old(pmm.free)
        && pmm.free == old(pmm.free) - {pml4} - {pdpt} - {pd}
        && ram[pml4] == ZERO_PAGE && ram[pdpt] == ZERO_PAGE
        && (forall f :: 0 <= f < ram.Length && f != pml4 && f != pdpt ==> ram[f] == old(ram[f]))
    {
      hide Pmm.FrameAllocator.Valid, Pmm.LowestFirst;
      pdpt, pd := 0, 0;
      ghost var free0 := pmm.free;
      Pmm.LowestNone(free0);
      pml4 := AllocZeroed();
      TakenOut(free0, pml4);
      if pml4 == 0 {
        return;
      }
      ghost var free1 := pmm.free;
      pdpt := AllocZeroed();
      TakenOut(free1, pdpt);
      if pdpt == 0 {
        pmm.FreeFrame(pml4);
        pml4 := 0;
        return;
      }
      ghost var free2 := pmm.free;
      Pmm.LowestTwice(free0, free1, free2);
      pd := pmm.AllocFrame();
      TakenOut(free2, pd);
      Pmm.LowestTwice(free0, free2, pmm.free);
      if pd == 0 {
        pmm.FreeFrame(pdpt);
        pmm.FreeFrame(pml4);
        pml4 := 0;
      }
    }

    /** vmm_create_user_pt: a fresh space with the kernel's directory copied supervisor-only; 0, and
        no frame taken, exactly when fewer than three frames are free. */
    method CreateUserPt() returns (root: nat)
      requires Valid()
      modifies this`spaces, pmm, pmm.bitmap, ram
      ensures Valid()
      ensures root == 0 <==> |old(pmm.free)| < 3
      ensures root == 0 ==> spaces == old(spaces) && pmm.free == old(pmm.free)
      ensures Pmm.LowestFirst(old(pmm.free), pmm.free)
      ensures forall f :: 0 <= f < ram.Length && f !in old(pmm.free) ==> ram[f] == old(ram[f])
      ensures root != 0 ==>
        && root !in old(spaces) && root in spaces && spaces == old(spaces)[root := spaces[root]]
        && pmm.free <= old(pmm.free) && Owned(spaces[root], kernel) == old(pmm.free) - pmm.free
        && (forall i: Index, j: Index :: UserEntry(ram[..], DirOf(ram[..], root), i, j) == None)
        && (forall i: Index :: DirEntry(ram[..], DirOf(ram[..], root), i) == Supervisor(ram[pdTable][i]))
      ensures root != 0 ==> NoRights(ram[..], root) && SeesKernel(ram[..], root, kernelRoot)
    {
      hide Space, Tree, Isolated, KernelTables, Sharing, SharesKernel, UserEntry, NewSpaceRole, NoRights,
        SeesKernel, Pmm.FrameAllocator.Valid;
      ghost var m0, free0 := ram[..], pmm.free;
      KernelDirectory(m0, spaces, kernel, free0, kernelRoot, kernelRole, pdptTable, pdTable);
      var pml4, pdpt, pd := AllocTables();
      if pml4 == 0 {
        FreeFramesDoNotMatter(m0, ram[..], spaces, kernel, free0, kernelRoot, kernelRole, pdptTable, pdTable);
        return 0;
      }
      WireUp(pml4, pdpt, pd);
      root := pml4;
      ghost var m1 := ram[..];
      NewSpace(m0, m1, kernelRoot, kernelRole, kernel, pdptTable, pdTable, pml4, pdpt, pd);
      KernelTablesKept(m0, m1, kernelRoot, kernelRole, kernel, pdptTable, pdTable);
      ghost var role := NewSpaceRole(kernelRole, pml4, pdpt, pd);
      NoPageNoRights(m1, root, role, kernel);
      NewSpaceSees(m1, root, role, kernel, kernelRoot, kernelRole, pdptTable, pdTable);
      FreshRoot(m0, spaces, kernel, free0, root);
      UpdateSpace(m0, m1, spaces, kernel, free0, pmm.free, root, role);
      SharingUpdated(m0, m1, spaces, kernel, free0, kernelRole, pdTable, root, role);
      spaces := spaces[root := role];
    }

    /** vmm_map_page_in as fork and the loaders call it: a user page below 1 GB, at a slot without one,
        for a frame just allocated. Under a directory entry inherited from the kernel the page goes
        into the kernel's own table, and the space does not change. */
    method MapUserPage(cr3: nat, v: nat, frame: nat, flags: Flags) returns (ok: bool)
      requires Valid() && cr3 in spaces && Pml4Idx(v) == 0 && PdptIdx(v) == 0
      requires flags.user && Loose(frame, spaces, kernel, pmm.free)
      requires UserEntry(ram[..], DirOf(ram[..], cr3), PdIdx(v), PtIdx(v)) == None
      modifies this`spaces, pmm, pmm.bitmap, ram
      ensures Valid()
      ensures ok <==> IsTable(DirEntry(old(ram[..]), DirOf(old(ram[..]), cr3), PdIdx(v))) || old(pmm.free) != {}
      ensures !ok ==> ram[..] == old(ram[..]) && spaces == old(spaces) && pmm.free == old(pmm.free)
      ensures Pmm.LowestFirst(old(pmm.free), pmm.free)
      ensures old(Inherits(ram[..], cr3, PdIdx(v))) ==>
        && spaces == old(spaces) && pmm.free == old(pmm.free)
        && IntoKernelTable(old(ram[..]), ram[..], pdTable, PdIdx(v), PtIdx(v), Word(frame, flags.(present := true)))
      ensures ok && !old(Inherits(ram[..], cr3, PdIdx(v))) ==>
        MappedForUser(old(ram[..]), ram[..], old(spaces), spaces, kernel, old(pmm.free), pmm.free, cr3,
                      PdIdx(v), PtIdx(v), Word(frame, flags.(present := true)))
      ensures old(Inherits(ram[..], cr3, PdIdx(v))) ==> SameRights(old(ram[..]), cr3, ram[..], cr3)
    {
      hide Isolated, Space, Tree, KernelTables, Sharing, MappedBelow, UserEntry, MappedForUser, Inherits,
        IntoKernelTable, SameRights, WithUserPage;
      hide IsTable, DirEntry, DirOf, PdptOf, Pml4Idx, PdptIdx, PdIdx, PtIdx;
      ghost var m, free0, role0, w := ram[..], pmm.free, spaces[cr3], Word(frame, flags.(present := true));
      UserTree(m, spaces, kernel, free0, cr3, v);
      ghost var role;
      ok, role := MapPageIn(cr3, v, 4096 * frame, flags, role0);
      UserPageOutcome(m, ram[..], spaces, kernel, free0, pmm.free, kernelRoot, kernelRole, pdptTable, pdTable, cr3,
                      role, v, w, ok);
      if ok && !Inherits(m, cr3, PdIdx(v)) {
        spaces := WithUserPage(spaces, cr3, role, frame, PdIdx(v), PtIdx(v));
      }
    }

    /** The byte-by-byte copy of one page. */
    method CopyFrame(dst: nat, src: nat)
      requires dst < ram.Length && src < ram.Length
      modifies ram
      ensures ram[..] == old(ram[..])[dst := old(ram[src])]
    {
      ghost var from := ram[src];
      var k := 0;
      while k < 4096
        invariant 0 <= k <= 4096
        invariant ram[..] == old(ram[..])[dst := ram[dst]]
        invariant forall i: nat :: i < 4096 && (i < k || dst == src) ==> ByteAt(ram[dst], i) == ByteAt(from, i)
      {
        ghost var page := ram[dst];
        var b := ByteAt(ram[src], k);
        ram[dst] := SetByte(ram[dst], k, b);
        forall i: nat | i < 4096 && (i <= k || dst == src) ensures ByteAt(ram[dst], i) == ByteAt(from, i) {
          SetByteSets(page, k, b, i);
        }
        k := k + 1;
      }
      SamePageBytes(ram[dst], from);
    }

    /** A fresh frame with the contents of frame src. Outside RAM the bytes read are a device's, and
        could be any. */
    method CopyToFreshFrame(src: nat) returns (dst: nat)
      requires Mem()
      modifies pmm, pmm.bitmap, ram
      ensures Mem()
      ensures dst == 0 <==> old(pmm.free) == {}
      ensures dst == 0 ==> pmm.free == old(pmm.free) && ram[..] == old(ram[..])
      ensures Pmm.LowestFirst(old(pmm.free), pmm.free)
      ensures dst != 0 ==>
        && Pmm.RESERVED_FRAMES <= dst < Pmm.FRAMES && dst in old(pmm.free) && pmm.free == old(pmm.free) - {dst}
        && ram[..] == old(ram[..])[dst := ram[dst]] && (src < ram.Length ==> ram[dst] == old(ram[src]))
    {
      hide Pmm.FrameAllocator.Valid;
      dst := pmm.AllocFrame();
      if dst != 0 {
        if src < ram.Length {
          CopyFrame(dst, src);
        } else {
          ram[dst] := *;
        }
      }
    }

    /** vmm_free_user_pt: gives back every frame of the space, each exactly once. */
    method FreeUserPt(cr3: nat)
      requires Valid() && cr3 in spaces
      modifies this`spaces, pmm, pmm.bitmap
      ensures Valid() && spaces == old(spaces) - {cr3}
      ensures pmm.free == old(pmm.free) + Owned(old(spaces)[cr3], kernel)
    {
      hide Space, Tree, KernelTables, Sharing, Pmm.FrameAllocator.Valid;
      ghost var free0 := pmm.free;
      FreeFrames(cr3, spaces[cr3]);
      DropSpace(ram[..], spaces, kernel, free0, cr3);
      SharingDropped(ram[..], spaces, kernel, kernelRole, pdTable, cr3);
      spaces := spaces - {cr3};
    }

    method FreeFrames(cr3: nat, ghost role: map<nat, Role>)
      requires Mem() && Space(ram[..], cr3, role, kernel) && Owned(role, kernel) !! pmm.free
      modifies pmm, pmm.bitmap
      ensures Mem() && pmm.free == old(pmm.free) + Owned(role, kernel)
    {
      hide Space, Owned, FreedBefore, Pmm.FrameAllocator.Valid;
      ghost var m := ram[..];
      SpacePath(m, cr3, role, kernel);
      FreedAllTables(m, cr3, role, kernel);
      if ram[cr3][0].flags.present {
        var pdpt := ram[cr3][0].frame;
        if ram[pdpt][0].flags.present {
          var pd := ram[pdpt][0].frame;
          FreeTables(pd, cr3, role);
          pmm.FreeFrame(pd);
        }
        pmm.FreeFrame(pdpt);
      }
      pmm.FreeFrame(cr3);
    }

    /** The two loops: the user pages and tables below the directory. */
    method FreeTables(pd: nat, ghost r: nat, ghost role: map<nat, Role>)
      requires Mem() && Space(ram[..], r, role, kernel) && Owned(role, kernel) !! pmm.free
      requires pd == DirOf(ram[..], r)
      modifies pmm, pmm.bitmap
      ensures Mem() && pmm.free == old(pmm.free) + FreedBefore(role, kernel, 512, 0)
    {
      hide Space, FreedBefore, Owned, UserEntry, Pmm.FrameAllocator.Valid;
      ghost var m := ram[..];
      NothingFreedYet(role, kernel);
      SpacePath(m, r, role, kernel);
      var i := 0;
      while i < 512
        invariant 0 <= i <= 512
        invariant Mem() && pmm.free == old(pmm.free) + FreedBefore(role, kernel, i, 0)
      {
        FreedNextTable(m, r, role, kernel, i);
        FreedOwned(role, kernel, i);
        if ram[pd][i].flags.present && !ram[pd][i].flags.huge && ram[pd][i].flags.user {
          var pt := ram[pd][i].frame;
          FreePages(pt, i, r, role);
          pmm.FreeFrame(pt);
        }
        i := i + 1;
      }
    }

    method FreePages(pt: nat, i: Index, ghost r: nat, ghost role: map<nat, Role>)
      requires Mem() && Space(ram[..], r, role, kernel)
      requires Owned(role, kernel) - FreedBefore(role, kernel, i, 0) !! pmm.free
      requires FreedBefore(role, kernel, i, 0) <= pmm.free
      requires pt < ram.Length && DirOf(ram[..], r) < ram.Length
      requires IsTable(ram[DirOf(ram[..], r)][i]) && ram[DirOf(ram[..], r)][i].flags.user
      requires ram[DirOf(ram[..], r)][i].frame == pt
      modifies pmm, pmm.bitmap
      ensures Mem() && pmm.free == old(pmm.free) + FreedBefore(role, kernel, i, 512)
    {
      ghost var m := ram[..];
      hide Space, FreedBefore, Owned, UserEntry, Pmm.FrameAllocator.Valid;
      var j := 0;
      assert pmm.free == pmm.free + FreedBefore(role, kernel, i, 0);
      while j < 512
        invariant 0 <= j <= 512
        invariant Mem() && pmm.free == old(pmm.free) + FreedBefore(role, kernel, i, j)
      {
        FreeSlot(m, r, role, kernel, i, j, pt, old(pmm.free), pmm.free);
        if ram[pt][j].flags.present && ram[pt][j].flags.user {
          pmm.FreeFrame(ram[pt][j].frame);
        }
        j := j + 1;
      }
    }

    method WireUp(pml4: nat, pdpt: nat, pd: nat)
      requires Mem() && pml4 < ram.Length && pdpt < ram.Length && pd < ram.Length
      requires pml4 != pdpt && pdpt != pd && pml4 != pd
      requires pdTable < ram.Length && pdptTable < ram.Length
      requires pdTable !in {pml4, pdpt, pd} && pdptTable !in {pml4, pdpt, pd}
      requires ram[pml4] == ZERO_PAGE && ram[pdpt] == ZERO_PAGE
      modifies ram
      ensures forall f :: 0 <= f < ram.Length && f != pml4 && f != pdpt && f != pd ==> ram[f] == old(ram[f])
      ensures ram[pml4] == ZERO_PAGE[0 := Word(pdpt, TABLE_FLAGS)]
      ensures ram[pdpt] == ZERO_PAGE[0 := Word(pd, TABLE_FLAGS)][3 := Supervisor(ram[pdptTable][3])]
      ensures forall i: Index :: ram[pd][i] == Supervisor(ram[pdTable][i])
    {
      CopySupervisor(pd, pdTable);
      ram[pml4] := ram[pml4][0 := Word(pdpt, TABLE_FLAGS)];
      ram[pdpt] := ram[pdpt][0 := Word(pd, TABLE_FLAGS)];
      ram[pdpt] := ram[pdpt][3 := Supervisor(ram[pdptTable][3])];
    }

    method CopySupervisor(pd: nat, from: nat)
      requires pd < ram.Length && from < ram.Length && pd != from
      modifies ram
      ensures ram[..] == old(ram[..])[pd := ram[pd]]
      ensures forall i: Index :: ram[pd][i] == Supervisor(ram[from][i])
    {
      var i := 0;
      while i < 512
        invariant 0 <= i <= 512
        invariant ram[..] == old(ram[..])[pd := ram[pd]]
        invariant forall k: Index :: k < i ==> ram[pd][k] == Supervisor(ram[from][k])
      {
        ram[pd] := ram[pd][i := Supervisor(ram[from][i])];
        i := i + 1;
      }
    }
  }

  lemma MegaOffset(v: nat)
    ensures v % 0x20_0000 == 4096 * PtIdx(v) + v % 4096
  {
  }

  lemma GigaOffset(v: nat)
    ensures v % 0x4000_0000 == 4096 * (512 * PdIdx(v) + PtIdx(v)) + v % 4096
  {
    MegaOffset(v);
    assert v % 0x4000_0000 / 0x20_0000 == PdIdx(v);
  }

  /** The address in a 2 MB page, computed with the 21-bit offset. */
  lemma MegaPhysical(e: Word, v: nat)
    ensures 4096 * SplitEntry(e, PtIdx(v)).frame + v % 4096 == 4096 * (e.frame / 512 * 512) + v % 0x20_0000
  {
    MegaOffset(v);
  }

  /** The address in a 1 GB page, computed with the 30-bit offset. */
  lemma GigaPhysical(e: Word, v: nat)
    ensures 4096 * SplitEntry(SplitGiga(e, PdIdx(v)), PtIdx(v)).frame + v % 4096
         == 4096 * (e.frame / 262144 * 262144) + v % 0x4000_0000
  {
    GigaOffset(v);
    var k := 512 * (e.frame / 262144) + PdIdx(v);
    assert SplitGiga(e, PdIdx(v)).frame == 512 * k;
    assert 512 * k / 512 == k;
  }

  lemma SameIndices(v: nat, u: nat)
    requires v % 4096 == 0 && v <= u < v + 4096
    ensures SamePage(v, u) && u % 4096 == u - v
  {
    assert u / 4096 == v / 4096;
    assert u / 0x20_0000 == u / 4096 / 512 && v / 0x20_0000 == v / 4096 / 512;
    assert u / 0x4000_0000 == u / 0x20_0000 / 512 && v / 0x4000_0000 == v / 0x20_0000 / 512;
    assert u / 0x80_0000_0000 == u / 0x4000_0000 / 512 && v / 0x80_0000_0000 == v / 0x4000_0000 / 512;
  }

  /** A successful mapping of the 4 KB page at v: all of its addresses translate into the new frame,
      and no address outside it translates differently, split huge pages included. */
  lemma MappedAddresses(m: Memory, m': Memory, r: nat, v: nat, phys: nat, flags: Flags)
    requires v % 4096 == 0 && phys % 4096 == 0 && phys < U64
    requires MappedAt(m, m', r, v, Word(phys / 4096, flags.(present := true)))
    ensures forall u: nat :: v <= u < v + 4096 ==> Physical(m', r, u) == phys + (u - v)
    ensures forall u: nat :: !SamePage(u, v) ==> Physical(m', r, u) == Physical(m, r, u)
  {
    forall u: nat | v <= u < v + 4096 ensures Physical(m', r, u) == phys + (u - v) {
      SameIndices(v, u);
    }
  }
}
