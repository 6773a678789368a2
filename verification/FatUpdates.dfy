/** Creating, replacing and removing an entry: whole operations as their steps put together. */
module FatUpdates {
  import opened Words
  import opened FatTable
  import opened FatVolume
  import opened FatDir
  import opened FatCatalog
  import opened FatFinds
  import opened FatSteps

  // ----- a new entry for a chain that nothing names yet

  /** Everything create needs before it writes entry e, which names chain ClusterOf(e), at p. */
  ghost predicate ReadyToCreate(v: Vol, geo: Geometry, cat: Catalog, d: nat, name: seq<Byte>, ext: seq<Byte>,
                                e: Dirent)
    requires geo.Ok()
  {
    var n := ClusterOf(e);
    && Consistent(v, geo, cat) && d in cat.dirs
    && n in cat.chains && n !in cat.dirs && Unnamed(v, geo, cat, n, None)
    && Find(v, geo, cat, d, name, ext) == Absent
    && Hit(e, Named(name, ext)) && !IsDot(e)
    && (IsDirectory(e) ==> DotsOnly(v, cat.chains[n], geo.sectorsPerCluster, d))
  }

  /** p is the first free entry of the directory, extended if it had none. */
  ghost predicate FirstFree(v: Vol, geo: Geometry, cat: Catalog, d: nat, grew: Option<nat>, p: Pos)
    requires geo.Ok() && ChainsOk(v, geo, cat) && d in cat.chains
  {
    CanExtend(v, geo, cat, d, grew) &&
    var v', cs := Extended(v, geo, cat, d, grew), ExtendedCatalog(cat, d, grew).chains[d];
    && InDir(cs, geo.sectorsPerCluster, p) && !Occupied(At(v', cs, p))
    && PassesTo(v', cs, geo.sectorsPerCluster, AnyFree, p)
  }

  /** The directory may be written at p. */
  ghost predicate Writable(v: Vol, cs: seq<nat>, p: Pos)
  {
    p.k < |cs| && cs[p.k] < |v.data| && p.s < |v.data[cs[p.k]]| && p.i < 16
  }

  lemma PlaceWritable(v: Vol, geo: Geometry, cat: Catalog, d: nat, p: Pos)
    requires geo.Ok() && ChainsOk(v, geo, cat) && d in cat.chains && InDir(cat.chains[d], geo.sectorsPerCluster, p)
    ensures Writable(v, cat.chains[d], p)
  {
  }

  lemma CreateFits(v: Vol, geo: Geometry, cat: Catalog, d: nat, name: seq<Byte>, ext: seq<Byte>, p: Pos, e: Dirent)
    requires geo.Ok() && Consistent(v, geo, cat) && d in cat.dirs && InDir(cat.chains[d], geo.sectorsPerCluster, p)
    requires Find(v, geo, cat, d, name, ext) == Absent && Hit(e, Named(name, ext))
    requires PassesTo(v, cat.chains[d], geo.sectorsPerCluster, AnyFree, p)
    ensures Fits(v, cat.chains[d], geo.sectorsPerCluster, p, e)
  {
    hide At, TailUnused, UniqueNames, FieldMatches, PassesTo, EntryOk, SameKeys;
    assert DirOk(v, geo, cat, d, None);
    HitVisible(e, name, ext);
    forall q: Pos | InDir(cat.chains[d], geo.sectorsPerCluster, q) && Visible(At(v, cat.chains[d], q))
      ensures !SameKeys(e, At(v, cat.chains[d], q))
    {
      if SameKeys(e, At(v, cat.chains[d], q)) {
        SameKeysHit(e, At(v, cat.chains[d], q), name, ext);
        FindIs(v, geo, cat, d, name, ext, q);
      }
    }
  }

  lemma SameKeysHit(a: Dirent, b: Dirent, name: seq<Byte>, ext: seq<Byte>)
    requires Hit(a, Named(name, ext)) && SameKeys(a, b) && Visible(b)
    ensures Hit(b, Named(name, ext))
  {
    forall i: nat | i < 8 ensures Upper(b[..8][i]) == KeyAt(name, i) {
      assert Upper(a[..8][i]) == KeyAt(name, i) && Upper(a[i]) == Upper(b[i]);
    }
    forall i: nat | i < 3 ensures Upper(b[8..11][i]) == KeyAt(ext, i) {
      assert Upper(a[8..11][i]) == KeyAt(ext, i) && Upper(a[8 + i]) == Upper(b[8 + i]);
    }
  }

  ghost function CreatedVol(v: Vol, geo: Geometry, cat: Catalog, d: nat, grew: Option<nat>, p: Pos, e: Dirent): Vol
    requires geo.Ok() && ChainsOk(v, geo, cat) && d in cat.chains && CanExtend(v, geo, cat, d, grew)
    requires Writable(Extended(v, geo, cat, d, grew), ExtendedCatalog(cat, d, grew).chains[d], p)
  {
    SetAt(Extended(v, geo, cat, d, grew), ExtendedCatalog(cat, d, grew).chains[d], p, e)
  }

  ghost function CreatedCatalog(cat: Catalog, d: nat, grew: Option<nat>, p: Pos, e: Dirent): Catalog
    requires d in cat.chains
  {
    Adopted(ExtendedCatalog(cat, d, grew), Place(d, p), e)
  }

  /** Creating an entry keeps the volume consistent. */
  lemma CreatedOk(v: Vol, geo: Geometry, cat: Catalog, d: nat, name: seq<Byte>, ext: seq<Byte>, grew: Option<nat>,
                  p: Pos, e: Dirent)
    requires geo.Ok() && ReadyToCreate(v, geo, cat, d, name, ext, e) && FirstFree(v, geo, cat, d, grew, p)
    ensures Writable(Extended(v, geo, cat, d, grew), ExtendedCatalog(cat, d, grew).chains[d], p)
    ensures Consistent(CreatedVol(v, geo, cat, d, grew, p, e), geo, CreatedCatalog(cat, d, grew, p, e))
  {
    hide DirOk, At, Find, Fits, PassesTo, Hit, ClusterOf, DotsOnly, IsDirectory, IsDot, Chain, FindsNothing,
      Unnamed;
    var v1, cat1 := Extended(v, geo, cat, d, grew), ExtendedCatalog(cat, d, grew);
    ExtendedOk(v, geo, cat, d, grew);
    ExtendedFind(v, geo, cat, d, grew, d, name, ext);
    ExtendedUnnamed(v, geo, cat, d, grew, ClusterOf(e));
    UnnamedBut(v1, geo, cat1, ClusterOf(e), Some(Place(d, p)));
    CreateFits(v1, geo, cat1, d, name, ext, p, e);
    Excused(v1, geo, cat1, Some(Place(d, p)));
    if IsDirectory(e) {
      ExtendedDots(v, geo, cat, d, grew, ClusterOf(e), d);
    }
    PlaceWritable(v1, geo, cat1, d, p);
    AdoptedOk(v1, geo, cat1, d, p, e);
  }

  lemma UnnamedBut(v: Vol, geo: Geometry, cat: Catalog, n: nat, hole: Option<Place>)
    requires Unnamed(v, geo, cat, n, None)
    ensures Unnamed(v, geo, cat, n, hole)
  {
  }

  lemma ExtendedDots(v: Vol, geo: Geometry, cat: Catalog, d: nat, grew: Option<nat>, n: nat, parent: nat)
    requires geo.Ok() && ChainsOk(v, geo, cat) && d in cat.chains && CanExtend(v, geo, cat, d, grew)
    requires n in cat.chains && n != d && DotsOnly(v, cat.chains[n], geo.sectorsPerCluster, parent)
    ensures DotsOnly(Extended(v, geo, cat, d, grew), ExtendedCatalog(cat, d, grew).chains[n], geo.sectorsPerCluster,
                     parent)
  {
    hide IsDotEntry, At, FindsNothing;
    ExtendedChains(v, geo, cat, d, grew, n);
    SameDataSameAt(v, Extended(v, geo, cat, d, grew), cat.chains[n]);
  }

  /** The created name stands for what the entry names. */
  lemma CreatedFind(v: Vol, geo: Geometry, cat: Catalog, d: nat, name: seq<Byte>, ext: seq<Byte>, grew: Option<nat>,
                    p: Pos, e: Dirent)
    requires geo.Ok() && ReadyToCreate(v, geo, cat, d, name, ext, e) && FirstFree(v, geo, cat, d, grew, p)
    requires Writable(Extended(v, geo, cat, d, grew), ExtendedCatalog(cat, d, grew).chains[d], p)
    requires Consistent(CreatedVol(v, geo, cat, d, grew, p, e), geo, CreatedCatalog(cat, d, grew, p, e))
    ensures Find(CreatedVol(v, geo, cat, d, grew, p, e), geo, CreatedCatalog(cat, d, grew, p, e), d, name, ext) ==
      ObjectOf(v, geo, cat, e)
    ensures StandsFor(CreatedVol(v, geo, cat, d, grew, p, e), CreatedCatalog(cat, d, grew, p, e), d,
                      geo.sectorsPerCluster, name, ext, e)
  {
    hide TailUnused, UniqueNames, At, Find, PassesTo, Hit, ClusterOf, DotsOnly, IsDirectory, IsDot, Chain,
      FindsNothing, Unnamed, EntryOk, Extended, SetAt, Visible, StandsFor;
    var n, v1, cat1 := ClusterOf(e), Extended(v, geo, cat, d, grew), ExtendedCatalog(cat, d, grew);
    var v2, cat2 := CreatedVol(v, geo, cat, d, grew, p, e), CreatedCatalog(cat, d, grew, p, e);
    ExtendedOk(v, geo, cat, d, grew);
    AtSet(v1, geo, cat1, d, p, e, d, p);
    assert DirOk(v2, geo, cat2, d, None);
    FindIs(v2, geo, cat2, d, name, ext, p);
    ExtendedChains(v, geo, cat, d, grew, n);
    SetElsewhere(v1, geo, cat1, d, p, e, n);
    SameObject(v, v1, geo, cat, cat1, e);
    SameObject(v1, v2, geo, cat1, cat2, e);
  }

  /** Creating one name changes what no other name stands for. */
  lemma CreatedOthers(v: Vol, geo: Geometry, cat: Catalog, d: nat, name: seq<Byte>, ext: seq<Byte>, grew: Option<nat>,
                      p: Pos, e: Dirent)
    requires geo.Ok() && ReadyToCreate(v, geo, cat, d, name, ext, e) && FirstFree(v, geo, cat, d, grew, p)
    requires Writable(Extended(v, geo, cat, d, grew), ExtendedCatalog(cat, d, grew).chains[d], p)
    requires Consistent(CreatedVol(v, geo, cat, d, grew, p, e), geo, CreatedCatalog(cat, d, grew, p, e))
    ensures OthersSame(v, CreatedVol(v, geo, cat, d, grew, p, e), geo, cat, CreatedCatalog(cat, d, grew, p, e), d,
                       name, ext)
  {
    hide DirOk, At, Find, PassesTo, FieldMatches, ClusterOf, DotsOnly, IsDirectory, IsDot, Chain, FindsNothing,
      Unnamed, Extended, ChainsOk, SetAt, SameKey;
    var v1, cat1 := Extended(v, geo, cat, d, grew), ExtendedCatalog(cat, d, grew);
    ExtendedOk(v, geo, cat, d, grew);
    Excused(v1, geo, cat1, Some(Place(d, p)));
    forall g: nat, n: seq<Byte>, x: seq<Byte> | g in cat.dirs && !(g == d && SameName(name, ext, n, x))
      ensures Find(CreatedVol(v, geo, cat, d, grew, p, e), geo, CreatedCatalog(cat, d, grew, p, e), g, n, x) ==
        Find(v, geo, cat, g, n, x)
    {
      ExtendedFind(v, geo, cat, d, grew, g, n, x);
      if g == d && Hit(e, Named(n, x)) {
        HitOneName(e, name, ext, n, x);
      }
      SetFind(v1, geo, cat1, CreatedCatalog(cat, d, grew, p, e), d, p, e, g, n, x);
    }
  }

  // ----- replacing the contents of a file

  /** The name matches the ordinary entry at p of directory d. */
  ghost predicate NamedAt(v: Vol, geo: Geometry, cat: Catalog, d: nat, name: seq<Byte>, ext: seq<Byte>, p: Pos)
    requires geo.Ok()
  {
    Consistent(v, geo, cat) && Ordinary(v, geo, cat, d, p) && Hit(At(v, cat.chains[d], p), Named(name, ext))
  }

  /** v' is v with the chain of the entry e freed and a new chain nc built. */
  ghost predicate Rebuilt(v: Vol, v': Vol, geo: Geometry, cat: Catalog, e: Dirent, nc: seq<nat>)
    requires geo.Ok()
  {
    Built(Emptied(v, cat, e), v', geo, nc)
  }

  ghost function RebuiltCatalog(cat: Catalog, e: Dirent, nc: seq<nat>): Catalog
    requires nc != []
  {
    WithChain(EmptiedCatalog(cat, e), nc)
  }

  ghost function Replaced(v': Vol, cat: Catalog, d: nat, p: Pos, e: Dirent): Vol
    requires d in cat.chains && Writable(v', cat.chains[d], p)
  {
    SetAt(v', cat.chains[d], p, e)
  }

  ghost function ReplacedCatalog(cat: Catalog, d: nat, p: Pos, e: Dirent, nc: seq<nat>, e': Dirent): Catalog
    requires nc != []
  {
    Adopted(RebuiltCatalog(cat, e, nc), Place(d, p), e')
  }

  /** The entry e' says the same as e, but names nc. */
  ghost predicate Renames(e: Dirent, e': Dirent, nc: seq<nat>)
  {
    nc != [] && e'[..12] == e[..12] && ClusterOf(e') == nc[0]
  }

  lemma RenamesKeeps(e: Dirent, e': Dirent, nc: seq<nat>)
    requires Renames(e, e', nc)
    ensures Visible(e') <==> Visible(e)
    ensures IsDirectory(e') <==> IsDirectory(e)
    ensures IsDot(e') <==> IsDot(e)
    ensures Occupied(e') <==> Occupied(e)
    ensures SameKeys(e, e')
    ensures forall q: Query :: Hit(e', q) <==> Hit(e, q)
  {
    assert forall i: nat :: i < 12 ==> e'[i] == e'[..12][i] && e[i] == e[..12][i];
    assert e'[..8] == e'[..12][..8] && e[..8] == e[..12][..8];
    assert e'[8..11] == e'[..12][8..11] && e[8..11] == e[..12][8..11];
  }

  /** A file of directory d and the state in which its new chain is ready. */
  ghost predicate ReadyToReplace(v: Vol, v': Vol, geo: Geometry, cat: Catalog, d: nat, name: seq<Byte>,
                                 ext: seq<Byte>, p: Pos, nc: seq<nat>, e': Dirent)
    requires geo.Ok()
  {
    && NamedAt(v, geo, cat, d, name, ext, p)
    && !IsDirectory(At(v, cat.chains[d], p))
    && Rebuilt(v, v', geo, cat, At(v, cat.chains[d], p), nc)
    && Renames(At(v, cat.chains[d], p), e', nc)
  }

  lemma RebuiltOk(v: Vol, v': Vol, geo: Geometry, cat: Catalog, d: nat, name: seq<Byte>, ext: seq<Byte>, p: Pos,
                  nc: seq<nat>, e': Dirent)
    requires geo.Ok() && ReadyToReplace(v, v', geo, cat, d, name, ext, p, nc, e')
    ensures var e := At(v, cat.chains[d], p);
      && ConsistentBut(v', geo, RebuiltCatalog(cat, e, nc), Some(Place(d, p)))
      && d in RebuiltCatalog(cat, e, nc).chains && RebuiltCatalog(cat, e, nc).chains[d] == cat.chains[d]
      && RebuiltCatalog(cat, e, nc).dirs == cat.dirs
      && Writable(v', cat.chains[d], p) && At(v', cat.chains[d], p) == e
      && Unnamed(v', geo, RebuiltCatalog(cat, e, nc), nc[0], Some(Place(d, p)))
      && nc[0] in RebuiltCatalog(cat, e, nc).chains && nc[0] !in cat.dirs
  {
    hide At, DirOk, Hit, Visible, ClusterOf, IsDirectory, IsDot, Cleared, Built, Chain, Emptied,
      EmptiedCatalog, Unnamed;
    var e := At(v, cat.chains[d], p);
    var v1, cat1 := Emptied(v, cat, e), EmptiedCatalog(cat, e);
    EmptiedOk(v, geo, cat, d, p);
    NewChainKeepsDirs(v1, v', geo, cat1, nc, Some(Place(d, p)));
    BuiltUnnamed(v1, v', geo, cat1, nc, Some(Place(d, p)));
    BuiltSomething(v1, v', geo, nc);
    SameClusters(v1, v', geo, cat1, d, nc);
    ChainsInside(v1, geo, cat1);
    SameDataSameAt(v1, v', cat.chains[d]);
    EmptiedData(v, cat, e);
    EqualDataSameAt(v, v1, cat.chains[d]);
    PlaceWritable(v', geo, WithChain(cat1, nc), d, p);
  }

  lemma EqualDataSameAt(v: Vol, v': Vol, cs: seq<nat>)
    requires v'.data == v.data
    ensures forall q: Pos :: At(v', cs, q) == At(v, cs, q)
  {
  }

  lemma EmptiedData(v: Vol, cat: Catalog, e: Dirent)
    ensures Emptied(v, cat, e).data == v.data
  {
  }

  lemma ReplacedOk(v: Vol, v': Vol, geo: Geometry, cat: Catalog, d: nat, name: seq<Byte>, ext: seq<Byte>, p: Pos,
                   nc: seq<nat>, e': Dirent)
    requires geo.Ok() && ReadyToReplace(v, v', geo, cat, d, name, ext, p, nc, e')
    ensures Writable(v', cat.chains[d], p)
    ensures Consistent(Replaced(v', cat, d, p, e'), geo, ReplacedCatalog(cat, d, p, At(v, cat.chains[d], p), nc, e'))
    ensures d in ReplacedCatalog(cat, d, p, At(v, cat.chains[d], p), nc, e').chains
  {
    hide At, DirOk, Hit, ClusterOf, IsDirectory, Visible, IsDot, Cleared, Built, Chain, Emptied,
      EmptiedCatalog, Unnamed, DotsOnly, Fits, Occupied;
    var e := At(v, cat.chains[d], p);
    RebuiltOk(v, v', geo, cat, d, name, ext, p, nc, e');
    RenamesKeeps(e, e', nc);
    ReplaceFits(v', geo, RebuiltCatalog(cat, e, nc), d, p, e');
    AdoptedOk(v', geo, RebuiltCatalog(cat, e, nc), d, p, e');
  }

  lemma ReplaceFits(v: Vol, geo: Geometry, cat: Catalog, d: nat, p: Pos, e': Dirent)
    requires geo.Ok() && ConsistentBut(v, geo, cat, Some(Place(d, p))) && d in cat.dirs
    requires InDir(cat.chains[d], geo.sectorsPerCluster, p)
    requires Visible(At(v, cat.chains[d], p)) && Visible(e') && SameKeys(At(v, cat.chains[d], p), e')
    ensures Fits(v, cat.chains[d], geo.sectorsPerCluster, p, e')
  {
    hide At, TailUnused, EntryOk, PassesTo;
    assert DirOk(v, geo, cat, d, Some(Place(d, p)));
  }

  /** The replaced file has the contents of its new chain. */
  lemma ReplacedFind(v: Vol, v': Vol, geo: Geometry, cat: Catalog, d: nat, name: seq<Byte>, ext: seq<Byte>, p: Pos,
                     nc: seq<nat>, e': Dirent)
    requires geo.Ok() && ReadyToReplace(v, v', geo, cat, d, name, ext, p, nc, e')
    requires Writable(v', cat.chains[d], p)
    requires d in ReplacedCatalog(cat, d, p, At(v, cat.chains[d], p), nc, e').chains
    requires Consistent(Replaced(v', cat, d, p, e'), geo, ReplacedCatalog(cat, d, p, At(v, cat.chains[d], p), nc, e'))
    ensures ChainsOk(v', geo, RebuiltCatalog(cat, At(v, cat.chains[d], p), nc))
    ensures Find(Replaced(v', cat, d, p, e'), geo, ReplacedCatalog(cat, d, p, At(v, cat.chains[d], p), nc, e'), d,
                 name, ext) ==
      ObjectOf(v', geo, RebuiltCatalog(cat, At(v, cat.chains[d], p), nc), e')
    ensures StandsFor(Replaced(v', cat, d, p, e'), ReplacedCatalog(cat, d, p, At(v, cat.chains[d], p), nc, e'), d,
                      geo.sectorsPerCluster, name, ext, e')
  {
    hide StandsFor, TailUnused, UniqueNames, At, Find, Hit, ClusterOf, Visible, IsDirectory, IsDot, Cleared,
      Built, Chain, Emptied, EmptiedCatalog, Unnamed, EntryOk, SetAt;
    var e := At(v, cat.chains[d], p);
    var cat', v2, cat2 := RebuiltCatalog(cat, e, nc), Replaced(v', cat, d, p, e'),
      ReplacedCatalog(cat, d, p, e, nc, e');
    RebuiltOk(v, v', geo, cat, d, name, ext, p, nc, e');
    RenamesKeeps(e, e', nc);
    AtSet(v', geo, cat', d, p, e', d, p);
    assert DirOk(v2, geo, cat2, d, None);
    FindIs(v2, geo, cat2, d, name, ext, p);
    SetElsewhere(v', geo, cat', d, p, e', nc[0]);
    SameObject(v', v2, geo, cat', cat2, e');
  }

  lemma ReplacedOthers(v: Vol, v': Vol, geo: Geometry, cat: Catalog, d: nat, name: seq<Byte>, ext: seq<Byte>, p: Pos,
                       nc: seq<nat>, e': Dirent)
    requires geo.Ok() && ReadyToReplace(v, v', geo, cat, d, name, ext, p, nc, e')
    requires Writable(v', cat.chains[d], p)
    requires Consistent(Replaced(v', cat, d, p, e'), geo, ReplacedCatalog(cat, d, p, At(v, cat.chains[d], p), nc, e'))
    ensures OthersSame(v, Replaced(v', cat, d, p, e'), geo, cat,
                       ReplacedCatalog(cat, d, p, At(v, cat.chains[d], p), nc, e'), d, name, ext)
  {
    hide At, DirOk, Find, FieldMatches, ClusterOf, Visible, IsDirectory, IsDot, Cleared, Built, Chain, Unnamed,
      SetAt, SameKey, ChainsOk, Emptied;
    var e := At(v, cat.chains[d], p);
    var v1, cat1, hole := Emptied(v, cat, e), EmptiedCatalog(cat, e), Some(Place(d, p));
    EmptiedOk(v, geo, cat, d, p);
    RebuiltOk(v, v', geo, cat, d, name, ext, p, nc, e');
    RenamesKeeps(e, e', nc);
    EmptiedData(v, cat, e);
    EqualDataSameAt(v, v1, cat.chains[d]);
    forall g: nat, n: seq<Byte>, x: seq<Byte> | g in cat.dirs && !(g == d && SameName(name, ext, n, x))
      ensures Find(Replaced(v', cat, d, p, e'), geo, ReplacedCatalog(cat, d, p, e, nc, e'), g, n, x) ==
        Find(v, geo, cat, g, n, x)
    {
      if g == d && Hit(e, Named(n, x)) {
        HitOneName(e, name, ext, n, x);
      }
      EmptiedFind(v, geo, cat, d, p, g, n, x);
      BuiltFind(v1, v', geo, cat1, nc, hole, g, n, x);
      SetFind(v', geo, RebuiltCatalog(cat, e, nc), ReplacedCatalog(cat, d, p, e, nc, e'), d, p, e', g, n, x);
    }
  }

  // ----- removing an entry

  function Erased(e: Dirent): Dirent
  {
    e[0 := DELETED]
  }

  ghost function Removed(v: Vol, cat: Catalog, d: nat, p: Pos): Vol
    requires d in cat.chains && Writable(v, cat.chains[d], p)
  {
    var e := At(v, cat.chains[d], p);
    EmptiedData(v, cat, e);
    SetAt(Emptied(v, cat, e), cat.chains[d], p, Erased(e))
  }

  lemma RemovedOk(v: Vol, geo: Geometry, cat: Catalog, d: nat, name: seq<Byte>, ext: seq<Byte>, p: Pos)
    requires geo.Ok() && NamedAt(v, geo, cat, d, name, ext, p)
    ensures Writable(v, cat.chains[d], p)
    ensures Consistent(Removed(v, cat, d, p), geo, EmptiedCatalog(cat, At(v, cat.chains[d], p)))
  {
    hide At, DirOk, Hit, ClusterOf, IsDirectory, IsDot, Cleared, Chain, Emptied, EmptiedCatalog, PassesTo;
    var e := At(v, cat.chains[d], p);
    var v1, cat1 := Emptied(v, cat, e), EmptiedCatalog(cat, e);
    PlaceWritable(v, geo, cat, d, p);
    EmptiedOk(v, geo, cat, d, p);
    EmptiedData(v, cat, e);
    EqualDataSameAt(v, v1, cat.chains[d]);
    SetKeepsChains(v1, geo, cat1, d, p, Erased(e));
    SetKeepsConsistent(v1, geo, cat1, cat1, d, p, Erased(e));
  }

  lemma RemovedFind(v: Vol, geo: Geometry, cat: Catalog, d: nat, name: seq<Byte>, ext: seq<Byte>, p: Pos)
    requires geo.Ok() && NamedAt(v, geo, cat, d, name, ext, p) && Writable(v, cat.chains[d], p)
    requires Consistent(Removed(v, cat, d, p), geo, EmptiedCatalog(cat, At(v, cat.chains[d], p)))
    requires d in EmptiedCatalog(cat, At(v, cat.chains[d], p)).dirs
    ensures Find(Removed(v, cat, d, p), geo, EmptiedCatalog(cat, At(v, cat.chains[d], p)), d, name, ext) == Absent
  {
    hide TailUnused, UniqueNames, At, FieldMatches, ClusterOf, IsDirectory, IsDot, Cleared, Chain, Emptied,
      EmptiedCatalog, EntryOk, SetAt, Find;
    var e := At(v, cat.chains[d], p);
    var v1, cat1 := Emptied(v, cat, e), EmptiedCatalog(cat, e);
    EmptiedOk(v, geo, cat, d, p);
    EmptiedData(v, cat, e);
    EqualDataSameAt(v, v1, cat.chains[d]);
    assert DirOk(v, geo, cat, d, None);
    assert DirOk(Removed(v, cat, d, p), geo, cat1, d, None);
    forall q: Pos | InDir(cat.chains[d], geo.sectorsPerCluster, q)
      ensures !Hit(At(Removed(v, cat, d, p), cat.chains[d], q), Named(name, ext))
    {
      AtSet(v1, geo, cat1, d, p, Erased(e), d, q);
      if q != p && Hit(At(v, cat.chains[d], q), Named(name, ext)) {
        HitsShareKeys(e, At(v, cat.chains[d], q), name, ext);
        OneOfEach(v, cat.chains[d], geo.sectorsPerCluster, p, q);
      }
    }
    FindAbsent(Removed(v, cat, d, p), geo, cat1, d, name, ext);
  }

  lemma OneOfEach(v: Vol, cs: seq<nat>, spc: nat, p: Pos, q: Pos)
    requires UniqueNames(v, cs, spc) && InDir(cs, spc, p) && InDir(cs, spc, q)
    requires Visible(At(v, cs, p)) && Visible(At(v, cs, q)) && SameKeys(At(v, cs, p), At(v, cs, q))
    ensures p == q
  {
  }

  lemma RemovedOthers(v: Vol, geo: Geometry, cat: Catalog, d: nat, name: seq<Byte>, ext: seq<Byte>, p: Pos)
    requires geo.Ok() && NamedAt(v, geo, cat, d, name, ext, p) && Writable(v, cat.chains[d], p)
    requires Consistent(Removed(v, cat, d, p), geo, EmptiedCatalog(cat, At(v, cat.chains[d], p)))
    ensures OthersSame(v, Removed(v, cat, d, p), geo, cat, EmptiedCatalog(cat, At(v, cat.chains[d], p)), d, name, ext)
  {
    hide At, DirOk, Find, FieldMatches, ClusterOf, Visible, IsDirectory, IsDot, Cleared, Chain, SetAt, SameKey,
      ChainsOk, Emptied;
    var e := At(v, cat.chains[d], p);
    var v1, cat1, hole := Emptied(v, cat, e), EmptiedCatalog(cat, e), Some(Place(d, p));
    EmptiedOk(v, geo, cat, d, p);
    EmptiedData(v, cat, e);
    EqualDataSameAt(v, v1, cat.chains[d]);
    ErasedMatchesNothing(e);
    forall g: nat, n: seq<Byte>, x: seq<Byte> | g in cat1.dirs && !(g == d && SameName(name, ext, n, x))
      ensures Find(Removed(v, cat, d, p), geo, cat1, g, n, x) == Find(v, geo, cat, g, n, x)
    {
      if g == d && Hit(e, Named(n, x)) {
        HitOneName(e, name, ext, n, x);
      }
      EmptiedFind(v, geo, cat, d, p, g, n, x);
      SetFind(v1, geo, cat1, cat1, d, p, Erased(e), g, n, x);
    }
  }

  lemma ErasedMatchesNothing(e: Dirent)
    ensures !Visible(Erased(e)) && forall n: seq<Byte>, x: seq<Byte> :: !Hit(Erased(e), Named(n, x))
  {
  }
}
