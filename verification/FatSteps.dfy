/** The steps the file operations are made of, and what each does to a consistent volume: emptying an
    entry of its chain, building a chain, making room for an entry, and writing the entry. */
module FatSteps {
  import opened Words
  import opened FatTable
  import opened FatVolume
  import opened FatDir
  import opened FatCatalog
  import opened FatFinds

  lemma Excused(v: Vol, geo: Geometry, cat: Catalog, hole: Option<Place>)
    requires geo.Ok() && Consistent(v, geo, cat)
    ensures ConsistentBut(v, geo, cat, hole)
  {
    hide TailUnused, UniqueNames, EntryOk, At, Visible, ChainsOk;
    forall d | d in cat.dirs ensures DirOk(v, geo, cat, d, hole) {
      assert DirOk(v, geo, cat, d, None);
    }
  }

  /** All names but one find what they found. */
  ghost predicate OthersSame(v: Vol, v': Vol, geo: Geometry, cat: Catalog, cat': Catalog, d: nat, name: seq<Byte>,
                             ext: seq<Byte>)
    requires geo.Ok() && ConsistentBut(v, geo, cat, None) && ConsistentBut(v', geo, cat', None)
  {
    forall g: nat, n: seq<Byte>, x: seq<Byte> ::
      g in cat.dirs && g in cat'.dirs && !(g == d && SameName(name, ext, n, x)) ==>
        Find(v', geo, cat', g, n, x) == Find(v, geo, cat, g, n, x)
  }

  // ----- emptying an entry

  ghost function Emptied(v: Vol, cat: Catalog, e: Dirent): Vol
  {
    if ClusterOf(e) in cat.chains then Freed(v, cat.chains[ClusterOf(e)]) else v
  }

  ghost function EmptiedCatalog(cat: Catalog, e: Dirent): Catalog
  {
    if ClusterOf(e) in cat.chains then WithoutChain(cat, ClusterOf(e)) else cat
  }

  /** p is an ordinary entry of directory d. */
  ghost predicate Ordinary(v: Vol, geo: Geometry, cat: Catalog, d: nat, p: Pos)
  {
    && d in cat.dirs && d in cat.chains && InDir(cat.chains[d], geo.sectorsPerCluster, p)
    && Visible(At(v, cat.chains[d], p)) && !IsDot(At(v, cat.chains[d], p))
  }

  lemma EmptiedOk(v: Vol, geo: Geometry, cat: Catalog, d: nat, p: Pos)
    requires geo.Ok() && Consistent(v, geo, cat) && Ordinary(v, geo, cat, d, p)
    ensures var e := At(v, cat.chains[d], p);
      && ConsistentBut(Emptied(v, cat, e), geo, EmptiedCatalog(cat, e), Some(Place(d, p)))
      && d in EmptiedCatalog(cat, e).dirs
      && EmptiedCatalog(cat, e).chains[d] == cat.chains[d]
      && EmptiedCatalog(cat, e).dirs == cat.dirs - if IsDirectory(e) then {ClusterOf(e)} else {}
  {
    hide TailUnused, UniqueNames, At, ConsistentBut, Visible, Cleared, Chain;
    var e := At(v, cat.chains[d], p);
    EntryInOrder(v, geo, cat, d, p);
    if ClusterOf(e) in cat.chains {
      FreeKeepsConsistent(v, geo, cat, ClusterOf(e), Place(d, p));
    } else {
      Excused(v, geo, cat, Some(Place(d, p)));
    }
  }

  lemma EntryInOrder(v: Vol, geo: Geometry, cat: Catalog, d: nat, p: Pos)
    requires geo.Ok() && Consistent(v, geo, cat) && Ordinary(v, geo, cat, d, p)
    ensures var e := At(v, cat.chains[d], p);
      && EntryOk(cat, Place(d, p), e) && ChainsOk(v, geo, cat)
      && (ClusterOf(e) in cat.chains <==> ClusterOf(e) >= 2)
  {
    assert DirOk(v, geo, cat, d, None);
  }

  lemma EmptiedFind(v: Vol, geo: Geometry, cat: Catalog, d: nat, p: Pos, g: nat, name: seq<Byte>, ext: seq<Byte>)
    requires geo.Ok() && Consistent(v, geo, cat) && Ordinary(v, geo, cat, d, p)
    requires ConsistentBut(Emptied(v, cat, At(v, cat.chains[d], p)), geo,
                           EmptiedCatalog(cat, At(v, cat.chains[d], p)), Some(Place(d, p)))
    requires g in EmptiedCatalog(cat, At(v, cat.chains[d], p)).dirs && Avoids(v, cat, Some(Place(d, p)), g, name, ext)
    ensures Find(Emptied(v, cat, At(v, cat.chains[d], p)), geo, EmptiedCatalog(cat, At(v, cat.chains[d], p)), g, name,
                 ext) ==
      Find(v, geo, cat, g, name, ext)
  {
    hide Hit, DirOk, Find, Cleared, Chain, At, FilesKept, ChainsOk, Avoids, InDir, Emptied;
    var e := At(v, cat.chains[d], p);
    Excused(v, geo, cat, Some(Place(d, p)));
    EmptiedKeeps(v, geo, cat, d, p, g);
    SameDataSameAt(v, Emptied(v, cat, e), cat.chains[g]);
    StepKeepsFind(v, Emptied(v, cat, e), geo, cat, EmptiedCatalog(cat, e), Some(Place(d, p)), Some(Place(d, p)), g,
                  name, ext);
  }

  /** Freeing the chain of an entry leaves all other chains and all data alone. */
  lemma EmptiedKeeps(v: Vol, geo: Geometry, cat: Catalog, d: nat, p: Pos, g: nat)
    requires geo.Ok() && Consistent(v, geo, cat) && Ordinary(v, geo, cat, d, p)
    requires g in EmptiedCatalog(cat, At(v, cat.chains[d], p)).dirs && g in cat.chains
    ensures var e := At(v, cat.chains[d], p);
      && FilesKept(v, Emptied(v, cat, e), cat, EmptiedCatalog(cat, e), Some(Place(d, p)))
      && Emptied(v, cat, e).data == v.data && EmptiedCatalog(cat, e).chains[g] == cat.chains[g]
    ensures forall k :: 0 <= k < |cat.chains[g]| ==> cat.chains[g][k] < |v.data|
  {
    hide Hit, DirOk, Cleared, Chain, At;
    EntryInOrder(v, geo, cat, d, p);
    ChainsInside(v, geo, cat);
  }

  lemma ChainsInside(v: Vol, geo: Geometry, cat: Catalog)
    requires geo.Ok() && ChainsOk(v, geo, cat)
    ensures forall c, k :: c in cat.chains && 0 <= k < |cat.chains[c]| ==> cat.chains[c][k] < |v.data|
  {
  }

  // ----- a new chain

  lemma BuiltFind(v: Vol, v': Vol, geo: Geometry, cat: Catalog, nc: seq<nat>, hole: Option<Place>, g: nat,
                  name: seq<Byte>, ext: seq<Byte>)
    requires geo.Ok() && ConsistentBut(v, geo, cat, hole) && Built(v, v', geo, nc)
    requires ConsistentBut(v', geo, WithChain(cat, nc), hole)
    requires g in cat.dirs && Avoids(v, cat, hole, g, name, ext)
    ensures Find(v', geo, WithChain(cat, nc), g, name, ext) == Find(v, geo, cat, g, name, ext)
  {
    hide Hit, DirOk, Find, Built, Chain, At, InDir, Avoids, ChainsOk, FilesKept;
    BuiltSomething(v, v', geo, nc);
    BuiltKeeps(v, v', geo, cat, nc, hole, g);
    SameDataSameAt(v, v', cat.chains[g]);
    StepKeepsFind(v, v', geo, cat, WithChain(cat, nc), hole, hole, g, name, ext);
  }

  /** A chain built of free clusters leaves every other chain and its data alone. */
  lemma BuiltKeeps(v: Vol, v': Vol, geo: Geometry, cat: Catalog, nc: seq<nat>, hole: Option<Place>, g: nat)
    requires geo.Ok() && ConsistentBut(v, geo, cat, hole) && Built(v, v', geo, nc) && g in cat.chains && nc != []
    ensures FilesKept(v, v', cat, WithChain(cat, nc), hole) && WithChain(cat, nc).chains[g] == cat.chains[g]
    ensures forall k :: 0 <= k < |cat.chains[g]| ==>
      && cat.chains[g][k] < |v.data| && cat.chains[g][k] < |v'.data|
      && v'.data[cat.chains[g][k]] == v.data[cat.chains[g][k]]
  {
    hide DirOk, Built, Chain;
    NewChainDisjoint(v, v', geo, cat, nc);
    ChainsInside(v, geo, cat);
    BuiltSomething(v, v', geo, nc);
    forall c | c in cat.chains
      ensures forall k :: 0 <= k < |cat.chains[c]| ==> v'.data[cat.chains[c][k]] == v.data[cat.chains[c][k]]
    {
      SameClusters(v, v', geo, cat, c, nc);
    }
  }

  /** No entry but the one at the hole names chain n. */
  ghost predicate Unnamed(v: Vol, geo: Geometry, cat: Catalog, n: nat, hole: Option<Place>)
  {
    forall g, q: Pos ::
      g in cat.dirs && g in cat.chains && InDir(cat.chains[g], geo.sectorsPerCluster, q)
      && hole != Some(Place(g, q)) ==>
      var x := At(v, cat.chains[g], q);
      Visible(x) && !IsDot(x) ==> ClusterOf(x) != n
  }

  lemma BuiltUnnamed(v: Vol, v': Vol, geo: Geometry, cat: Catalog, nc: seq<nat>, hole: Option<Place>)
    requires geo.Ok() && ConsistentBut(v, geo, cat, hole) && Built(v, v', geo, nc)
    ensures Unnamed(v', geo, WithChain(cat, nc), nc[0], hole)
    ensures nc[0] !in cat.chains
  {
    hide TailUnused, UniqueNames, Visible, At, ClusterOf, Built, Chain;
    BuiltSomething(v, v', geo, nc);
    NewChainDisjoint(v, v', geo, cat, nc);
    ChainsInside(v, geo, cat);
    forall g, q: Pos | g in cat.dirs && InDir(cat.chains[g], geo.sectorsPerCluster, q) && hole != Some(Place(g, q))
        && Visible(At(v', cat.chains[g], q)) && !IsDot(At(v', cat.chains[g], q))
      ensures ClusterOf(At(v', cat.chains[g], q)) != nc[0]
    {
      SameClusters(v, v', geo, cat, g, nc);
      SameDataSameAt(v, v', cat.chains[g]);
      assert DirOk(v, geo, cat, g, hole);
    }
  }

  lemma BuiltSomething(v: Vol, v': Vol, geo: Geometry, nc: seq<nat>)
    requires geo.Ok() && Built(v, v', geo, nc)
    ensures nc != [] && nc[0] >= 2 && |v'.data| == |v.data| == geo.MaxCluster()
  {
  }

  // ----- room for an entry

  /** A directory without a free entry may get one more cluster. */
  ghost predicate CanExtend(v: Vol, geo: Geometry, cat: Catalog, d: nat, grew: Option<nat>)
    requires geo.Ok() && ChainsOk(v, geo, cat) && d in cat.chains
  {
    grew.Some? ==>
      && 2 <= grew.value < geo.MaxCluster() && v.fat[grew.value] == 0
      && FindsNothing(v, cat.chains[d], geo.sectorsPerCluster, AnyFree)
  }

  ghost function Extended(v: Vol, geo: Geometry, cat: Catalog, d: nat, grew: Option<nat>): Vol
    requires geo.Ok() && ChainsOk(v, geo, cat) && d in cat.chains && CanExtend(v, geo, cat, d, grew)
  {
    match grew
    case None => v
    case Some(c) => Grown(v, geo, cat.chains[d], c)
  }

  ghost function ExtendedCatalog(cat: Catalog, d: nat, grew: Option<nat>): Catalog
    requires d in cat.chains
  {
    match grew
    case None => cat
    case Some(c) => WithGrown(cat, d, c)
  }

  lemma ExtendedOk(v: Vol, geo: Geometry, cat: Catalog, d: nat, grew: Option<nat>)
    requires geo.Ok() && Consistent(v, geo, cat) && d in cat.dirs && CanExtend(v, geo, cat, d, grew)
    ensures Consistent(Extended(v, geo, cat, d, grew), geo, ExtendedCatalog(cat, d, grew))
  {
    hide DirOk, ChainsOk, FindsNothing;
    if grew.Some? {
      GrowKeepsConsistent(v, geo, cat, d, grew.value, None);
    }
  }

  /** The entries of an extended directory: the old ones, and blank ones behind them. */
  lemma ExtendedEntry(v: Vol, geo: Geometry, cat: Catalog, d: nat, grew: Option<nat>, g: nat, q: Pos)
    requires geo.Ok() && ChainsOk(v, geo, cat) && d in cat.chains && CanExtend(v, geo, cat, d, grew)
      && g in cat.chains
    requires InDir(ExtendedCatalog(cat, d, grew).chains[g], geo.sectorsPerCluster, q)
    ensures At(Extended(v, geo, cat, d, grew), ExtendedCatalog(cat, d, grew).chains[g], q) ==
      if InDir(cat.chains[g], geo.sectorsPerCluster, q) then At(v, cat.chains[g], q) else Blank()
  {
    hide At, ChainsOk, FindsNothing;
    if grew.Some? {
      GrownEntries(v, geo, cat, d, grew.value, g, q);
    }
  }

  /** Other chains stay as they are. */
  lemma ExtendedChains(v: Vol, geo: Geometry, cat: Catalog, d: nat, grew: Option<nat>, c: nat)
    requires geo.Ok() && ChainsOk(v, geo, cat) && d in cat.chains && CanExtend(v, geo, cat, d, grew)
    requires c in cat.chains && c != d
    ensures var v', cat' := Extended(v, geo, cat, d, grew), ExtendedCatalog(cat, d, grew);
      && |v'.data| == |v.data| && c in cat'.chains && cat'.chains[c] == cat.chains[c]
      && forall k :: 0 <= k < |cat.chains[c]| ==>
        cat.chains[c][k] < |v.data| && v'.data[cat.chains[c][k]] == v.data[cat.chains[c][k]]
  {
    hide FindsNothing;
    if grew.Some? {
      GrowKeepsChains(v, geo, cat, d, grew.value);
      forall k | 0 <= k < |cat.chains[c]| ensures cat.chains[c][k] != grew.value {
        assert cat.chains[c][k] in cat.owner;
      }
    }
  }

  lemma ExtendedFind(v: Vol, geo: Geometry, cat: Catalog, d: nat, grew: Option<nat>, g: nat, name: seq<Byte>,
                     ext: seq<Byte>)
    requires geo.Ok() && Consistent(v, geo, cat) && d in cat.dirs && CanExtend(v, geo, cat, d, grew) && g in cat.dirs
    requires Consistent(Extended(v, geo, cat, d, grew), geo, ExtendedCatalog(cat, d, grew))
    ensures Find(Extended(v, geo, cat, d, grew), geo, ExtendedCatalog(cat, d, grew), g, name, ext) ==
      Find(v, geo, cat, g, name, ext)
  {
    hide At, DirOk, Find, FindsNothing, ChainsOk, FieldMatches;
    var v', cat' := Extended(v, geo, cat, d, grew), ExtendedCatalog(cat, d, grew);
    forall q: Pos | InDir(cat'.chains[g], geo.sectorsPerCluster, q)
      ensures At(v', cat'.chains[g], q) == if InDir(cat.chains[g], geo.sectorsPerCluster, q)
        then At(v, cat.chains[g], q) else Blank()
    {
      ExtendedEntry(v, geo, cat, d, grew, g, q);
    }
    forall c | c in cat.chains && c !in cat.dirs
      ensures c in cat'.chains && cat'.chains[c] == cat.chains[c] && |v'.data| == |v.data|
      ensures forall k :: 0 <= k < |cat.chains[c]| ==>
        cat.chains[c][k] < |v.data| && v'.data[cat.chains[c][k]] == v.data[cat.chains[c][k]]
    {
      ExtendedChains(v, geo, cat, d, grew, c);
    }
    StepKeepsFind(v, v', geo, cat, cat', None, None, g, name, ext);
  }

  lemma ExtendedUnnamed(v: Vol, geo: Geometry, cat: Catalog, d: nat, grew: Option<nat>, n: nat)
    requires geo.Ok() && Consistent(v, geo, cat) && d in cat.dirs && CanExtend(v, geo, cat, d, grew)
    requires Unnamed(v, geo, cat, n, None)
    ensures Unnamed(Extended(v, geo, cat, d, grew), geo, ExtendedCatalog(cat, d, grew), n, None)
  {
    hide At, DirOk, ChainsOk, FindsNothing, Extended;
    var v', cat' := Extended(v, geo, cat, d, grew), ExtendedCatalog(cat, d, grew);
    forall g, q: Pos | g in cat.dirs && InDir(cat'.chains[g], geo.sectorsPerCluster, q)
        && Visible(At(v', cat'.chains[g], q)) && !IsDot(At(v', cat'.chains[g], q))
      ensures ClusterOf(At(v', cat'.chains[g], q)) != n
    {
      ExtendedEntry(v, geo, cat, d, grew, g, q);
    }
  }

  // ----- writing an entry

  lemma SetFind(v: Vol, geo: Geometry, cat: Catalog, cat': Catalog, d: nat, p: Pos, e: Dirent, g: nat,
                name: seq<Byte>, ext: seq<Byte>)
    requires geo.Ok() && ConsistentBut(v, geo, cat, Some(Place(d, p))) && d in cat.dirs
    requires InDir(cat.chains[d], geo.sectorsPerCluster, p)
    requires Consistent(SetAt(v, cat.chains[d], p, e), geo, cat') && cat'.chains == cat.chains
    requires g in cat.dirs && g in cat'.dirs && Avoids(v, cat, Some(Place(d, p)), g, name, ext)
    requires g == d ==> !Hit(e, Named(name, ext))
    ensures Find(SetAt(v, cat.chains[d], p, e), geo, cat', g, name, ext) == Find(v, geo, cat, g, name, ext)
  {
    hide At, Hit, DirOk, Find, EntryAt, WithEntryAt, LinkAt, Distinct, IsDirectory, ClusterOf, SameHits,
      FilesKept;
    SetSameHits(v, geo, cat, d, p, e, g, name, ext);
    SetKeepsFiles(v, geo, cat, cat', d, p, e);
    StepKeepsFind(v, SetAt(v, cat.chains[d], p, e), geo, cat, cat', Some(Place(d, p)), None, g, name, ext);
  }

  lemma SetKeepsFiles(v: Vol, geo: Geometry, cat: Catalog, cat': Catalog, d: nat, p: Pos, e: Dirent)
    requires geo.Ok() && ChainsOk(v, geo, cat) && d in cat.dirs && d in cat.chains && cat'.chains == cat.chains
    requires InDir(cat.chains[d], geo.sectorsPerCluster, p)
    ensures FilesKept(v, SetAt(v, cat.chains[d], p, e), cat, cat', Some(Place(d, p)))
  {
    hide At, DirOk, EntryAt, WithEntryAt, LinkAt, Distinct, IsDirectory, ClusterOf;
    var v' := SetAt(v, cat.chains[d], p, e);
    forall c | c in cat.chains && c != d
      ensures forall k :: 0 <= k < |cat.chains[c]| ==>
        cat.chains[c][k] < |v.data| && v'.data[cat.chains[c][k]] == v.data[cat.chains[c][k]]
    {
      SetElsewhere(v, geo, cat, d, p, e, c);
    }
  }

  lemma SetSameHits(v: Vol, geo: Geometry, cat: Catalog, d: nat, p: Pos, e: Dirent, g: nat, name: seq<Byte>,
                    ext: seq<Byte>)
    requires geo.Ok() && ChainsOk(v, geo, cat) && d in cat.chains && g in cat.chains
    requires InDir(cat.chains[d], geo.sectorsPerCluster, p)
    requires Avoids(v, cat, Some(Place(d, p)), g, name, ext)
    requires g == d ==> !Hit(e, Named(name, ext))
    ensures SameHits(v, SetAt(v, cat.chains[d], p, e), cat.chains[g], cat.chains[g], geo.sectorsPerCluster, name, ext)
  {
    hide At, Hit, EntryAt, WithEntryAt, LinkAt, Distinct;
    forall q: Pos | InDir(cat.chains[g], geo.sectorsPerCluster, q)
      ensures At(SetAt(v, cat.chains[d], p, e), cat.chains[g], q) == if g == d && q == p then e
        else At(v, cat.chains[g], q)
    {
      AtSet(v, geo, cat, d, p, e, g, q);
    }
  }

  /** Rewriting an entry of d changes no cluster of another chain. */
  lemma SetElsewhere(v: Vol, geo: Geometry, cat: Catalog, d: nat, p: Pos, e: Dirent, c: nat)
    requires geo.Ok() && ChainsOk(v, geo, cat) && d in cat.chains && InDir(cat.chains[d], geo.sectorsPerCluster, p)
    requires c in cat.chains && c != d
    ensures forall k :: 0 <= k < |cat.chains[c]| ==>
      cat.chains[c][k] < |v.data| && SetAt(v, cat.chains[d], p, e).data[cat.chains[c][k]] == v.data[cat.chains[c][k]]
  {
    assert cat.owner[cat.chains[d][p.k]] == d;
    forall k | 0 <= k < |cat.chains[c]| ensures cat.chains[c][k] != cat.chains[d][p.k] {
      assert cat.owner[cat.chains[c][k]] == c;
    }
  }

  /** The catalog after entry e at this place has become the one that names its chain. */
  ghost function Adopted(cat: Catalog, place: Place, e: Dirent): Catalog
  {
    var n, named := ClusterOf(e), cat.(home := cat.home[ClusterOf(e) := place]);
    if IsDirectory(e) && place.dir in cat.depth then
      named.(dirs := cat.dirs + {n}, depth := cat.depth[n := cat.depth[place.dir] + 1])
    else named
  }

  lemma AdoptedOk(v: Vol, geo: Geometry, cat: Catalog, d: nat, p: Pos, e: Dirent)
    requires geo.Ok() && ConsistentBut(v, geo, cat, Some(Place(d, p))) && d in cat.dirs
    requires InDir(cat.chains[d], geo.sectorsPerCluster, p)
    requires Fits(v, cat.chains[d], geo.sectorsPerCluster, p, e) && !IsDot(e)
    requires ClusterOf(e) in cat.chains && ClusterOf(e) !in cat.dirs
      && Unnamed(v, geo, cat, ClusterOf(e), Some(Place(d, p)))
    requires IsDirectory(e) ==> DotsOnly(v, cat.chains[ClusterOf(e)], geo.sectorsPerCluster, d)
    ensures Consistent(SetAt(v, cat.chains[d], p, e), geo, Adopted(cat, Place(d, p), e))
  {
    hide DirOk, Fits, At, Visible, DotsOnly, EntryAt, WithEntryAt, ClusterOf, IsDirectory, LinkAt, Distinct;
    var cat', n := Adopted(cat, Place(d, p), e), ClusterOf(e);
    SetKeepsChains(v, geo, cat, d, p, e);
    var v' := SetAt(v, cat.chains[d], p, e);
    if IsDirectory(e) {
      forall q: Pos | InDir(cat.chains[n], geo.sectorsPerCluster, q)
        ensures At(v', cat.chains[n], q) == At(v, cat.chains[n], q)
      {
        AtSet(v, geo, cat, d, p, e, n, q);
      }
      NewDirOk(v, v', geo, cat', n, d);
    }
    ChainStart(v, geo, cat, n);
    SetKeepsConsistent(v, geo, cat, cat', d, p, e);
  }

  lemma ChainStart(v: Vol, geo: Geometry, cat: Catalog, n: nat)
    requires geo.Ok() && ChainsOk(v, geo, cat) && n in cat.chains
    ensures n >= 2
  {
  }

  /** A directory as mkdir leaves it: "." for itself and ".." for its parent, then nothing. */
  ghost predicate DotsOnly(v: Vol, cs: seq<nat>, spc: nat, parent: nat)
  {
    cs != [] && forall q: Pos :: InDir(cs, spc, q) ==>
      if q == Pos(0, 0, 0) then IsDotEntry(At(v, cs, q), 1) && ClusterOf(At(v, cs, q)) == cs[0]
      else if q == Pos(0, 0, 1) then IsDotEntry(At(v, cs, q), 2) && ClusterOf(At(v, cs, q)) == parent
      else At(v, cs, q) == Blank()
  }

  /** A directory entry whose name is n dots. */
  predicate IsDotEntry(e: Dirent, n: nat)
  {
    && 1 <= n <= 2 && Attr(e) == ATTR_DIRECTORY
    && (forall k :: 0 <= k < n ==> e[k] == DOT) && (forall k :: n <= k < 11 ==> e[k] == SPACE)
  }

  lemma NewDirOk(v: Vol, v': Vol, geo: Geometry, cat: Catalog, n: nat, parent: nat)
    requires geo.Ok() && ChainsOk(v', geo, cat) && n in cat.chains
    requires DotsOnly(v, cat.chains[n], geo.sectorsPerCluster, parent)
    requires forall q: Pos :: InDir(cat.chains[n], geo.sectorsPerCluster, q) ==>
      At(v', cat.chains[n], q) == At(v, cat.chains[n], q)
    ensures DirOk(v', geo, cat, n, None)
  {
    hide At, Chain;
    var cs, spc := cat.chains[n], geo.sectorsPerCluster;
    forall p: Pos, q: Pos | InDir(cs, spc, p) && InDir(cs, spc, q) && Visible(At(v', cs, p)) && Visible(At(v', cs, q))
      && p != q
      ensures !SameKeys(At(v', cs, p), At(v', cs, q))
    {
      assert Upper(At(v', cs, p)[1]) != Upper(At(v', cs, q)[1]);
    }
  }

  /** A directory as mkdir leaves it has no names but the two. */
  lemma NewDirEmpty(v: Vol, geo: Geometry, cat: Catalog, n: nat, parent: nat, name: seq<Byte>, ext: seq<Byte>)
    requires geo.Ok() && Consistent(v, geo, cat) && n in cat.dirs
      && DotsOnly(v, cat.chains[n], geo.sectorsPerCluster, parent)
    requires KeyAt(name, 0) != DOT
    ensures Find(v, geo, cat, n, name, ext) == Absent
  {
    hide At, TailUnused, UniqueNames, Find, EntryOk;
    assert DirOk(v, geo, cat, n, None);
    var cs, spc := cat.chains[n], geo.sectorsPerCluster;
    forall q: Pos | InDir(cs, spc, q) ensures !Hit(At(v, cs, q), Named(name, ext)) {
      HitStarts(At(v, cs, q), name, ext);
    }
    FindAbsent(v, geo, cat, n, name, ext);
  }

  lemma HitStarts(e: Dirent, name: seq<Byte>, ext: seq<Byte>)
    ensures Hit(e, Named(name, ext)) ==> Upper(First(e)) == KeyAt(name, 0)
  {
    if Hit(e, Named(name, ext)) {
      assert Upper(e[..8][0]) == KeyAt(name, 0);
    }
  }

  /** A directory with no names but "." for itself and ".." for its parent. */
  ghost predicate EmptyDirectory(v: Vol, geo: Geometry, cat: Catalog, c: nat, parent: nat)
    requires geo.Ok() && ChainsOk(v, geo, cat)
  {
    && c in cat.chains
    && (forall n: seq<Byte>, x: seq<Byte> :: KeyAt(n, 0) != DOT ==> Find(v, geo, cat, c, n, x) == Absent)
    && Find(v, geo, cat, c, [DOT], []) == Directory(c)
    && Find(v, geo, cat, c, [DOT, DOT], []) == Directory(parent)
  }

  /** "." and ".." stand for the directory and its parent. */
  lemma DotsFind(v: Vol, geo: Geometry, cat: Catalog, n: nat, parent: nat)
    requires geo.Ok() && Consistent(v, geo, cat) && n in cat.dirs
      && DotsOnly(v, cat.chains[n], geo.sectorsPerCluster, parent)
    ensures Find(v, geo, cat, n, [DOT], []) == Directory(n)
    ensures Find(v, geo, cat, n, [DOT, DOT], []) == Directory(parent)
  {
    hide At, TailUnused, UniqueNames, Find, EntryOk;
    assert DirOk(v, geo, cat, n, None);
    var cs := cat.chains[n];
    DotHit(At(v, cs, Pos(0, 0, 0)), 1, [DOT]);
    DotHit(At(v, cs, Pos(0, 0, 1)), 2, [DOT, DOT]);
    FindIs(v, geo, cat, n, [DOT], [], Pos(0, 0, 0));
    FindIs(v, geo, cat, n, [DOT, DOT], [], Pos(0, 0, 1));
  }

  lemma DotHit(e: Dirent, n: nat, name: seq<Byte>)
    requires IsDotEntry(e, n) && |name| == n && forall i :: 0 <= i < n ==> name[i] == DOT
    ensures Hit(e, Named(name, [])) && IsDirectory(e)
  {
  }
}
