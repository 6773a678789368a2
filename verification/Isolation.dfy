/** Stores of user processes: what one process writes, no other process sees. */
module Isolation {
  import opened Words
  import opened PageTables
  import opened UserSpaces
  import opened ForkSteps
  import opened Rights
  import Pmm

  /** Process `root` writes a byte at offset k of the page in slot (i, j). */
  datatype Store = Store(root: nat, i: Index, j: Index, k: nat, byte: Byte)

  /** The store reaches memory when the page is mapped writable for the user; otherwise it faults. */
  function After(m: Memory, s: Store): (m': Memory)
    ensures |m'| == |m|
  {
    match UserEntry(m, DirOf(m, s.root), s.i, s.j)
    case None => m
    case Some(w) =>
      if w.flags.rw && w.frame < |m| && s.k < 4096 then m[w.frame := SetByte(m[w.frame], s.k, s.byte)] else m
  }

  function Run(m: Memory, stores: seq<Store>): (m': Memory)
    ensures |m'| == |m|
    decreases stores
  {
    if stores == [] then m else Run(After(m, stores[0]), stores[1..])
  }

  /** The stores of one process. */
  function Of(stores: seq<Store>, r: nat): seq<Store>
  {
    if stores == [] then []
    else if stores[0].root == r then [stores[0]] + Of(stores[1..], r)
    else Of(stores[1..], r)
  }

  /** Process r finds the same pages, with the same flags and contents, in both memories. */
  ghost predicate SameView(m: Memory, n: Memory, r: nat)
  {
    |m| == |n| && forall i: Index, j: Index ::
      var e := UserEntry(m, DirOf(m, r), i, j);
      UserEntry(n, DirOf(n, r), i, j) == e
        && (e.Some? && e.value.frame < |m| ==> n[e.value.frame] == m[e.value.frame])
  }

  /** A store changes at most one frame, and that is a user page of the process. */
  lemma StoreTouchesOwnPage(m: Memory, spaces: map<nat, map<nat, Role>>, kernel: set<nat>, free: set<nat>, s: Store)
    requires Isolated(m, spaces, kernel, free) && s.root in spaces
    ensures forall f :: 0 <= f < |m| && f !in Owned(spaces[s.root], kernel) ==> After(m, s)[f] == m[f]
    ensures forall f :: f in spaces[s.root] && !spaces[s.root][f].Leaf? ==> After(m, s)[f] == m[f]
    ensures Isolated(After(m, s), spaces, kernel, free)
    ensures forall i: Index, j: Index ::
      UserEntry(After(m, s), DirOf(After(m, s), s.root), i, j) == UserEntry(m, DirOf(m, s.root), i, j)
  {
    hide UserEntry, InUse, SetByte;
    var role: map<nat, Role> := spaces[s.root];
    var m' := After(m, s);
    var e := UserEntry(m, DirOf(m, s.root), s.i, s.j);
    if e.Some? {
      assert role[e.value.frame] == Leaf(0, 0, s.i, s.j) && e.value.frame in Owned(role, kernel);
      TablesDecide(m, m', s.root, role, kernel);
      UpdateSpace(m, m', spaces, kernel, free, free, s.root, role);
      assert spaces[s.root := role] == spaces;
    }
  }

  /** A space is decided by its tables; the contents of its user pages do not matter. */
  lemma TablesDecide(m: Memory, m': Memory, r: nat, role: map<nat, Role>, kernel: set<nat>)
    requires Space(m, r, role, kernel) && |m'| == |m|
    requires forall f :: f in role && !role[f].Leaf? ==> m'[f] == m[f]
    ensures Space(m', r, role, kernel)
    ensures forall i: Index, j: Index :: UserEntry(m', DirOf(m', r), i, j) == UserEntry(m, DirOf(m, r), i, j)
  {
    SkeletonPath(m, r, role, kernel);
    forall f, i: Index | f in role && Descends(role[f], m'[f][i])
      ensures m'[f][i].frame in role && role[m'[f][i].frame] == Child(role[f], i)
    {
      assert m'[f] == m[f];
    }
    assert forall i: Index :: DirEntry(m', DirOf(m', r), i) == DirEntry(m, DirOf(m, r), i);
    assert forall i: Index, j: Index :: UserEntry(m', DirOf(m', r), i, j) == UserEntry(m, DirOf(m, r), i, j);
  }

  /** Another process does not see a store. */
  lemma StoreUnseen(m: Memory, spaces: map<nat, map<nat, Role>>, kernel: set<nat>, free: set<nat>, s: Store, r: nat)
    requires Isolated(m, spaces, kernel, free) && s.root in spaces && r in spaces && s.root != r
    ensures SameView(m, After(m, s), r)
  {
    StoreTouchesOwnPage(m, spaces, kernel, free, s);
    var m' := After(m, s);
    forall f | f in spaces[r] ensures m'[f] == m[f] {
      assert f in Owned(spaces[r], kernel) ==> f !in Owned(spaces[s.root], kernel);
    }
    SpaceFrame(m, m', r, spaces[r], kernel);
  }

  /** A process whose view is the same in two memories sees its own store the same way in both. */
  lemma StoreSeen(m: Memory, n: Memory, spaces: map<nat, map<nat, Role>>, kernel: set<nat>, free: set<nat>, s: Store)
    requires Isolated(m, spaces, kernel, free) && Isolated(n, spaces, kernel, free) && s.root in spaces
    requires SameView(m, n, s.root)
    ensures SameView(After(m, s), After(n, s), s.root)
  {
    hide Isolated, UserEntry, SetByte;
    StoreTouchesOwnPage(m, spaces, kernel, free, s);
    StoreTouchesOwnPage(n, spaces, kernel, free, s);
    forall i: Index, j: Index
      ensures var e := UserEntry(m, DirOf(m, s.root), i, j);
        e.Some? && e.value.frame < |m| ==> After(m, s)[e.value.frame] == After(n, s)[e.value.frame]
    {
      var hit := UserEntry(m, DirOf(m, s.root), s.i, s.j);
      assert UserEntry(n, DirOf(n, s.root), s.i, s.j) == hit;
    }
  }

  lemma ViewChain(m: Memory, n: Memory, k: Memory, r: nat)
    requires SameView(m, n, r) && SameView(m, k, r)
    ensures SameView(n, k, r)
  {
    hide UserEntry;
    forall i: Index, j: Index
      ensures var e := UserEntry(n, DirOf(n, r), i, j);
        UserEntry(k, DirOf(k, r), i, j) == e
          && (e.Some? && e.value.frame < |m| ==> k[e.value.frame] == n[e.value.frame])
    {
      assert UserEntry(n, DirOf(n, r), i, j) == UserEntry(m, DirOf(m, r), i, j);
    }
  }

  /** However the stores of all processes interleave, each process sees exactly the effect of its
      own: a parent's writes after fork never reach the child, nor the other way round. */
  lemma {:induction false} NonInterference(m: Memory, n: Memory, spaces: map<nat, map<nat, Role>>, kernel: set<nat>,
                                           free: set<nat>, stores: seq<Store>, r: nat)
    requires Isolated(m, spaces, kernel, free) && Isolated(n, spaces, kernel, free)
    requires r in spaces && SameView(m, n, r)
    requires forall s :: s in stores ==> s.root in spaces
    ensures SameView(Run(m, stores), Run(n, Of(stores, r)), r)
    decreases stores
  {
    hide Isolated, SameView, After, UserEntry, Owned;
    if stores != [] {
      var s := stores[0];
      StoreTouchesOwnPage(m, spaces, kernel, free, s);
      if s.root == r {
        StoreTouchesOwnPage(n, spaces, kernel, free, s);
        StoreSeen(m, n, spaces, kernel, free, s);
        NonInterference(After(m, s), After(n, s), spaces, kernel, free, stores[1..], r);
        assert Of(stores, r)[1..] == Of(stores[1..], r);
      } else {
        StoreUnseen(m, spaces, kernel, free, s, r);
        ViewChain(m, After(m, s), n, r);
        NonInterference(After(m, s), n, spaces, kernel, free, stores[1..], r);
      }
    }
  }

  /** The byte a process reads, if the page is mapped. */
  function UserByte(m: Memory, r: nat, i: Index, j: Index, k: nat): Option<Byte>
    requires k < 4096
  {
    match UserEntry(m, DirOf(m, r), i, j)
    case None => None
    case Some(w) => if w.frame < |m| then Some(ByteAt(m[w.frame], k)) else None
  }

  /** The address a store goes to. */
  function Address(s: Store): nat
  {
    0x20_0000 * s.i + 0x1000 * s.j + s.k
  }

  lemma StoreAddress(s: Store)
    requires s.k < 0x1000
    ensures var v := Address(s);
      v < 0x4000_0000 && v / 0x20_0000 % 512 == s.i && v / 0x1000 % 512 == s.j && v % 0x1000 == s.k
  {
    var v := Address(s);
    assert v / 0x1000 == 512 * s.i + s.j;
    assert v / 0x20_0000 == v / 0x1000 / 512;
  }

  /** A store that ring 3 may make puts its byte at its address and changes no other byte of the process;
      one that it may not make changes nothing. */
  lemma StoreTakesEffect(m: Memory, spaces: map<nat, map<nat, Role>>, kernel: set<nat>, free: set<nat>, s: Store,
                         i: Index, j: Index, k: nat)
    requires Isolated(m, spaces, kernel, free) && s.root in spaces && s.k < 4096 && k < 4096
    ensures UserMay(m, s.root, Address(s), true) ==>
      UserByte(After(m, s), s.root, i, j, k) ==
      if i == s.i && j == s.j && k == s.k then Some(s.byte) else UserByte(m, s.root, i, j, k)
    ensures !UserMay(m, s.root, Address(s), true) ==> After(m, s) == m
  {
    hide UserMay, InUse, SetByte, Skeleton, Owned;
    StoreAddress(s);
    RightsInSpace(m, s.root, spaces[s.root], kernel, Address(s), true);
    StoreTouchesOwnPage(m, spaces, kernel, free, s);
    hide UserEntry;
    var e, f := UserEntry(m, DirOf(m, s.root), s.i, s.j), UserEntry(m, DirOf(m, s.root), i, j);
    if UserMay(m, s.root, Address(s), true) && f.Some? {
      FramesDiffer(m, s.root, spaces[s.root], kernel, s.i, s.j, i, j);
      SetByteSets(m[e.value.frame], s.k, s.byte, k);
    }
  }

  lemma FramesDiffer(m: Memory, r: nat, role: map<nat, Role>, kernel: set<nat>, i: Index, j: Index, c: Index, d: Index)
    requires Space(m, r, role, kernel)
    requires UserEntry(m, DirOf(m, r), i, j).Some? && UserEntry(m, DirOf(m, r), c, d).Some?
    ensures i == c && j == d <==>
      UserEntry(m, DirOf(m, r), i, j).value.frame == UserEntry(m, DirOf(m, r), c, d).value.frame
    ensures UserEntry(m, DirOf(m, r), i, j).value.frame < |m|
  {
    hide UserEntry, InUse;
  }

  predicate GoesTo(s: Store, r: nat, i: Index, j: Index, k: nat)
  {
    s.root == r && s.i == i && s.j == j && s.k == k
  }

  /** The byte of the last store of process r to this place. */
  function LastStored(stores: seq<Store>, r: nat, i: Index, j: Index, k: nat): Option<Byte>
  {
    if stores == [] then None
    else
      var later := LastStored(stores[1..], r, i, j, k);
      if later.Some? then later
      else if GoesTo(stores[0], r, i, j, k) then Some(stores[0].byte) else None
  }

  /** What a process finds after any run: where it may store, its own last byte stored there, if any;
      otherwise what it found before. */
  lemma {:induction false} RunBytes(m: Memory, spaces: map<nat, map<nat, Role>>, kernel: set<nat>, free: set<nat>,
                                    stores: seq<Store>, r: nat, i: Index, j: Index, k: nat)
    requires Isolated(m, spaces, kernel, free) && r in spaces && k < 4096
    requires forall s :: s in stores ==> s.root in spaces && s.k < 4096
    ensures var last := LastStored(stores, r, i, j, k);
      UserByte(Run(m, stores), r, i, j, k) ==
      if last.Some? && UserMay(m, r, 0x20_0000 * i + 0x1000 * j + k, true) then last else UserByte(m, r, i, j, k)
    decreases stores
  {
    hide Isolated, After, UserEntry, UserMay, UserByte;
    if stores != [] {
      var s := stores[0];
      StoreTouchesOwnPage(m, spaces, kernel, free, s);
      RunBytes(After(m, s), spaces, kernel, free, stores[1..], r, i, j, k);
      SameRightsAfter(m, spaces, kernel, free, s, r, 0x20_0000 * i + 0x1000 * j + k, true);
      if s.root == r {
        StoreTakesEffect(m, spaces, kernel, free, s, i, j, k);
      } else {
        StoreUnseen(m, spaces, kernel, free, s, r);
        SameViewSameByte(m, After(m, s), r, i, j, k);
      }
    }
  }

  lemma SameViewSameByte(m: Memory, n: Memory, r: nat, i: Index, j: Index, k: nat)
    requires SameView(m, n, r) && k < 4096
    ensures UserByte(n, r, i, j, k) == UserByte(m, r, i, j, k)
  {
    hide UserEntry;
  }

  lemma SameRightsAfter(m: Memory, spaces: map<nat, map<nat, Role>>, kernel: set<nat>, free: set<nat>, s: Store,
                        r: nat, v: nat, write: bool)
    requires Isolated(m, spaces, kernel, free) && s.root in spaces && r in spaces && v < 0x1_0000_0000_0000
    ensures UserMay(After(m, s), r, v, write) <==> UserMay(m, r, v, write)
  {
    hide Space, UserEntry, UserMay, After;
    StoreTouchesOwnPage(m, spaces, kernel, free, s);
    if s.root != r {
      StoreUnseen(m, spaces, kernel, free, s, r);
    }
    RightsInSpace(m, r, spaces[r], kernel, v, write);
    RightsInSpace(After(m, s), r, spaces[r], kernel, v, write);
  }

  /** Right after a fork parent and child read the same bytes; from then on each sees only its own
      stores. */
  lemma ForkedViews(m: Memory, spaces: map<nat, map<nat, Role>>, kernel: set<nat>, free: set<nat>, parent: nat,
                    child: nat, stores: seq<Store>, i: Index, j: Index, k: nat)
    requires Isolated(m, spaces, kernel, free) && parent in spaces && child in spaces && CopyOf(m, parent, child)
    requires forall s :: s in stores ==> s.root in spaces
    requires k < 4096
    ensures UserByte(m, parent, i, j, k) == UserByte(m, child, i, j, k)
    ensures UserByte(Run(m, stores), parent, i, j, k) == UserByte(Run(m, Of(stores, parent)), parent, i, j, k)
    ensures UserByte(Run(m, stores), child, i, j, k) == UserByte(Run(m, Of(stores, child)), child, i, j, k)
  {
    hide Isolated, UserEntry;
    NonInterference(m, m, spaces, kernel, free, stores, parent);
    NonInterference(m, m, spaces, kernel, free, stores, child);
    assert SameEntry(m, UserEntry(m, DirOf(m, parent), i, j), UserEntry(m, DirOf(m, child), i, j));
  }
}
