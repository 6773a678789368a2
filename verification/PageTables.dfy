/** Four-level page tables as values: what an address translates to, the tree invariant of the
    tables reachable from a root, and how one entry update affects both. */
module PageTables {
  import opened Words

  type Memory = seq<Page>
  type Index = i: nat | i < 512

  const ZERO_PAGE: Page := seq(512, _ => ZERO)

  /** What a frame is used for in one address space: the path of indices that leads to it. */
  datatype Role =
    | Root
    | Pdpt(a: Index)
    | Dir(a: Index, b: Index)
    | Table(a: Index, b: Index, c: Index)
    | Leaf(a: Index, b: Index, c: Index, d: Index)

  /** Does the walk go on through this entry of a table with this role? */
  predicate Descends(role: Role, e: Word)
  {
    match role
    case Root => e.flags.present
    case Pdpt(_) => e.flags.present && !e.flags.huge
    case Dir(_, _) => e.flags.present && !e.flags.huge
    case Table(_, _, _) => false
    case Leaf(_, _, _, _) => false
  }

  function Child(role: Role, i: Index): Role
    requires !role.Leaf?
  {
    match role
    case Root => Pdpt(i)
    case Pdpt(a) => Dir(a, i)
    case Dir(a, b) => Table(a, b, i)
    case Table(a, b, c) => Leaf(a, b, c, i)
  }

  /** The tables form a tree: each frame a walk can reach is listed under the path that reaches
      it, so no frame is reached along two paths. */
  ghost predicate Tree(m: Memory, r: nat, role: map<nat, Role>)
  {
    && r in role && role[r] == Root
    && (forall f :: f in role ==> f < |m|)
    && (forall f, i: Index :: f in role && Descends(role[f], m[f][i]) ==>
          m[f][i].frame in role && role[m[f][i].frame] == Child(role[f], i))
  }

  /** The entries by which the tree hangs together are the same in m'. */
  ghost predicate TablesStay(m: Memory, m': Memory, role: map<nat, Role>)
  {
    |m'| == |m| && forall f, i: Index :: f in role && f < |m| && Descends(role[f], m[f][i]) ==> m'[f][i] == m[f][i]
  }

  lemma TablesStayTwice(m: Memory, m1: Memory, m2: Memory, role: map<nat, Role>, role1: map<nat, Role>)
    requires TablesStay(m, m1, role) && TablesStay(m1, m2, role1)
    requires forall f :: f in role ==> f in role1 && role1[f] == role[f]
    ensures TablesStay(m, m2, role)
  {
  }

  // ----- translation

  /** The 4 KB entry that stands for page d of a 2 MB page. */
  function SplitEntry(e: Word, d: Index): Word
  {
    Word(e.frame / 512 * 512 + d, e.flags.(huge := false))
  }

  /** The 2 MB entry that stands for part c of a 1 GB page. */
  function SplitGiga(e: Word, c: Index): Word
  {
    Word(e.frame / 262144 * 262144 + 512 * c, e.flags)
  }

  function WalkTable(m: Memory, f: nat, d: Index): Option<Word>
  {
    if f < |m| && m[f][d].flags.present then Some(m[f][d]) else None
  }

  function WalkDirEntry(m: Memory, e: Word, d: Index): Option<Word>
  {
    if !e.flags.present then None
    else if e.flags.huge then Some(SplitEntry(e, d))
    else WalkTable(m, e.frame, d)
  }

  function WalkPdptEntry(m: Memory, e: Word, c: Index, d: Index): Option<Word>
  {
    if !e.flags.present then None
    else if e.flags.huge then Some(SplitEntry(SplitGiga(e, c), d))
    else if e.frame < |m| then WalkDirEntry(m, m[e.frame][c], d)
    else None
  }

  function WalkRootEntry(m: Memory, e: Word, b: Index, c: Index, d: Index): Option<Word>
  {
    if e.flags.present && e.frame < |m| then WalkPdptEntry(m, m[e.frame][b], c, d) else None
  }

  /** The 4 KB mapping of the page with indices a, b, c, d under root r. */
  function Walk(m: Memory, r: nat, a: Index, b: Index, c: Index, d: Index): Option<Word>
  {
    if r < |m| then WalkRootEntry(m, m[r][a], b, c, d) else None
  }

  /** Does the walk along a, b, c, d read entry i of the table with this role? */
  predicate Through(role: Role, i: Index, a: Index, b: Index, c: Index, d: Index)
  {
    match role
    case Root => a == i
    case Pdpt(a0) => a == a0 && b == i
    case Dir(a0, b0) => a == a0 && b == b0 && c == i
    case Table(a0, b0, c0) => a == a0 && b == b0 && c == c0 && d == i
    case Leaf(_, _, _, _) => false
  }

  /** m' is m with entry i of table f changed, as far as the tables of the space go. */
  ghost predicate OneEntry(m: Memory, m': Memory, role: map<nat, Role>, f: nat, i: Index)
  {
    && |m'| == |m|
    && f in role && f < |m|
    && (forall x :: x in role && x != f && x < |m| ==> m'[x] == m[x])
    && (forall k: Index :: k != i ==> m'[f][k] == m[f][k])
  }

  /** Changing one entry of one table leaves every walk that does not read it as it was. */
  lemma WalkElsewhere(m: Memory, m': Memory, r: nat, role: map<nat, Role>, f: nat, i: Index, a: Index, b: Index,
                      c: Index, d: Index)
    requires Tree(m, r, role) && OneEntry(m, m', role, f, i)
    requires !Through(role[f], i, a, b, c, d)
    ensures Walk(m', r, a, b, c, d) == Walk(m, r, a, b, c, d)
  {
    var e4 := m[r][a];
    if Descends(Root, e4) {
      var e3 := m[e4.frame][b];
      if Descends(Pdpt(a), e3) {
        var e2 := m[e3.frame][c];
        if Descends(Dir(a, b), e2) {
          assert role[e2.frame] == Table(a, b, c);
        }
      }
    }
  }

  /** The subtree under an entry of a table with this role translates the same in m and m'. */
  ghost predicate SameBelow(role: Role, m: Memory, e: Word, m': Memory, e': Word)
  {
    match role
    case Root => forall b: Index, c: Index, d: Index :: WalkRootEntry(m', e', b, c, d) == WalkRootEntry(m, e, b, c, d)
    case Pdpt(_) => forall c: Index, d: Index :: WalkPdptEntry(m', e', c, d) == WalkPdptEntry(m, e, c, d)
    case Dir(_, _) => forall d: Index :: WalkDirEntry(m', e', d) == WalkDirEntry(m, e, d)
    case Table(_, _, _) => e == e'
    case Leaf(_, _, _, _) => true
  }

  ghost predicate SameTranslation(m: Memory, m': Memory, r: nat)
  {
    forall a: Index, b: Index, c: Index, d: Index :: Walk(m', r, a, b, c, d) == Walk(m, r, a, b, c, d)
  }

  lemma WalkKept(m: Memory, m': Memory, r: nat, role: map<nat, Role>, f: nat, i: Index)
    requires Tree(m, r, role) && OneEntry(m, m', role, f, i)
    requires SameBelow(role[f], m, m[f][i], m', m'[f][i])
    ensures SameTranslation(m, m', r)
  {
    forall a: Index, b: Index, c: Index, d: Index
      ensures Walk(m', r, a, b, c, d) == Walk(m, r, a, b, c, d)
    {
      if Through(role[f], i, a, b, c, d) {
        WalkThrough(m, m', r, role, f, i, a, b, c, d);
      } else {
        WalkElsewhere(m, m', r, role, f, i, a, b, c, d);
      }
    }
  }

  lemma WalkThrough(m: Memory, m': Memory, r: nat, role: map<nat, Role>, f: nat, i: Index, a: Index, b: Index,
                    c: Index, d: Index)
    requires Tree(m, r, role) && OneEntry(m, m', role, f, i)
    requires SameBelow(role[f], m, m[f][i], m', m'[f][i])
    requires Through(role[f], i, a, b, c, d)
    ensures Walk(m', r, a, b, c, d) == Walk(m, r, a, b, c, d)
  {
    var e4 := m[r][a];
    if role[f] != Root && Descends(Root, e4) {
      assert role[e4.frame] == Pdpt(a);
      var e3 := m[e4.frame][b];
      if !role[f].Pdpt? && Descends(Pdpt(a), e3) {
        assert role[e3.frame] == Dir(a, b);
        var e2 := m[e3.frame][c];
        if !role[f].Dir? && Descends(Dir(a, b), e2) {
          assert role[e2.frame] == Table(a, b, c);
        }
      }
    }
  }

  /** Hanging a fresh table without descending entries under one entry keeps the tree. */
  lemma LinkKeepsTree(m: Memory, m': Memory, r: nat, role: map<nat, Role>, f: nat, i: Index, p: nat)
    requires Tree(m, r, role) && OneEntry(m, m', role, f, i)
    requires p < |m| && p !in role && !role[f].Table? && !role[f].Leaf?
    requires m'[f][i].frame == p
    requires forall k: Index :: !Descends(Child(role[f], i), m'[p][k])
    ensures Tree(m', r, role[p := Child(role[f], i)])
  {
  }

  /** So does rewriting an entry of a lowest-level table. */
  lemma LeafKeepsTree(m: Memory, m': Memory, r: nat, role: map<nat, Role>, f: nat, i: Index)
    requires Tree(m, r, role) && OneEntry(m, m', role, f, i)
    requires role[f].Table?
    ensures Tree(m', r, role)
  {
  }

  /** A fresh zeroed table under an absent entry: the tree grows, nothing translates differently. */
  lemma LinkZeroed(m: Memory, r: nat, role: map<nat, Role>, f: nat, i: Index, p: nat)
    requires Tree(m, r, role) && f in role && !role[f].Table? && !role[f].Leaf?
    requires p < |m| && p < U52 && p !in role && !m[f][i].flags.present
    ensures Tree(m[p := ZERO_PAGE][f := m[f][i := Word(p, TABLE_FLAGS)]], r, role[p := Child(role[f], i)])
    ensures SameTranslation(m, m[p := ZERO_PAGE][f := m[f][i := Word(p, TABLE_FLAGS)]], r)
  {
    var m' := m[p := ZERO_PAGE][f := m[f][i := Word(p, TABLE_FLAGS)]];
    LinkKeepsTree(m, m', r, role, f, i, p);
    WalkKept(m, m', r, role, f, i);
  }

  /** A table of 512 small pages in place of a 2 MB page: likewise. */
  lemma LinkSplit(m: Memory, r: nat, role: map<nat, Role>, f: nat, i: Index, p: nat, table: Page)
    requires Tree(m, r, role) && f in role && role[f].Dir?
    requires p < |m| && p < U52 && p !in role && m[f][i].flags.huge
    requires forall k: Index :: table[k] == SplitEntry(m[f][i], k)
    ensures Tree(m[p := table][f := m[f][i := Word(p, TABLE_FLAGS)]], r, role[p := Child(role[f], i)])
    ensures SameTranslation(m, m[p := table][f := m[f][i := Word(p, TABLE_FLAGS)]], r)
  {
    var m' := m[p := table][f := m[f][i := Word(p, TABLE_FLAGS)]];
    LinkKeepsTree(m, m', r, role, f, i, p);
    WalkKept(m, m', r, role, f, i);
  }

  /** Only the page with indices a, b, c, d translates differently, and it translates to w. */
  ghost predicate Remapped(m: Memory, m': Memory, r: nat, a: Index, b: Index, c: Index, d: Index, w: Word)
  {
    forall a': Index, b': Index, c': Index, d': Index :: Walk(m', r, a', b', c', d') ==
      if a' == a && b' == b && c' == c && d' == d then Some(w) else Walk(m, r, a', b', c', d')
  }

  /** Writing a present entry into the lowest-level table on the way to a, b, c, d. */
  lemma PutLeaf(m: Memory, r: nat, role: map<nat, Role>, a: Index, b: Index, c: Index, d: Index, t: nat, w: Word)
    requires Tree(m, r, role) && t < |m| && w.flags.present
    requires Descends(Root, m[r][a]) && m[r][a].frame < |m|
    requires Descends(Pdpt(a), m[m[r][a].frame][b]) && m[m[r][a].frame][b].frame < |m|
    requires Descends(Dir(a, b), m[m[m[r][a].frame][b].frame][c]) && m[m[m[r][a].frame][b].frame][c].frame == t
    ensures t in role && role[t] == Table(a, b, c)
    ensures Tree(m[t := m[t][d := w]], r, role)
    ensures Remapped(m, m[t := m[t][d := w]], r, a, b, c, d, w)
  {
    var m' := m[t := m[t][d := w]];
    assert role[m[r][a].frame] == Pdpt(a);
    assert role[m[m[r][a].frame][b].frame] == Dir(a, b);
    assert role[t] == Table(a, b, c);
    LeafKeepsTree(m, m', r, role, t, d);
    forall a': Index, b': Index, c': Index, d': Index
      | !(a' == a && b' == b && c' == c && d' == d)
      ensures Walk(m', r, a', b', c', d') == Walk(m, r, a', b', c', d')
    {
      WalkElsewhere(m, m', r, role, t, d, a', b', c', d');
    }
  }
}
