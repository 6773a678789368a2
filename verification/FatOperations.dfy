/** The whole operations on files and directories: fat32_write_file, fat32_delete and fat32_mkdir. */
module FatOperations {
  import opened Words
  import opened FatTable
  import opened FatVolume
  import opened FatDir
  import opened FatBytes
  import opened FatCatalog
  import opened FatFinds
  import opened FatSteps
  import opened FatUpdates
  import opened FatFiles
  import opened FatWriting

  /** A name under which an entry can be found again. */
  predicate Legal(name: seq<Byte>, ext: seq<Byte>)
  {
    && NoInnerSpace(name, 8) && NoInnerSpace(ext, 3)
    && KeyAt(name, 0) != 0 && KeyAt(name, 0) != DELETED && KeyAt(name, 0) != DOT
  }

  // ----- putting an entry into place

  /** Replaces entry idx of the sector at lba, which is in g_io_buf, and writes the sector. */
  method StoreEntry(vol: Volume, lba: nat, idx: nat, e: Dirent, ghost cs: seq<nat>, ghost p: Pos)
    requires vol.Valid() && Inside(vol.State(), cs, vol.geo.sectorsPerCluster)
      && InDir(cs, vol.geo.sectorsPerCluster, p)
    requires cs[p.k] >= 2 && lba == vol.geo.Lba(cs[p.k]) + p.s && idx == p.i
    requires lba < vol.disk.Length && vol.ioBuf == vol.disk[lba]
    modifies vol`ioBuf, vol.disk
    ensures Writable(old(vol.State()), cs, p) && vol.State() == SetAt(old(vol.State()), cs, p, e)
    ensures old(vol.Flushed()) ==> vol.Flushed()
  {
    hide Table, AllData, Volume.Flushed;
    vol.StateSized();
    EntryIs(vol.State(), cs, vol.geo, p);
    vol.SectorAt(cs[p.k], p.s);
    vol.ioBuf := WithEntryAt(vol.ioBuf, idx, e);
    vol.WriteData(lba, vol.ioBuf, cs[p.k], p.s);
  }

  /** The entry has the name, attributes, chain and size asked for. */
  ghost predicate Says(e: Dirent, name: seq<Byte>, ext: seq<Byte>, attr: Byte, c: nat, size: nat)
  {
    |name| == 8 && |ext| == 3 && e[..8] == name && e[8..11] == ext && Attr(e) == attr && ClusterOf(e) == c
      && SizeOf(e) == size
  }

  /** What is needed before the new entry goes in; v4 says the same of any entry with these fields. */
  ghost predicate ReadyFor(v: Vol, geo: Geometry, cat: Catalog, d: nat, name: seq<Byte>, ext: seq<Byte>,
                           name8: seq<Byte>, ext3: seq<Byte>, attr: Byte, c: nat, size: nat)
    requires geo.Ok()
  {
    forall e: Dirent :: Says(e, name8, ext3, attr, c, size) ==> ReadyToCreate(v, geo, cat, d, name, ext, e)
  }

  /** Finds a free entry, fills it in and writes it. */
  method AddEntry(fs: FileSystem, dir: nat, name8: seq<Byte>, ext3: seq<Byte>, attr: Byte, c: nat, size: nat,
                  ghost name: seq<Byte>, ghost ext: seq<Byte>, ghost cat: Catalog)
    returns (ok: bool, ghost cat': Catalog, ghost grew: Option<nat>, ghost p: Pos, ghost e: Dirent)
    requires fs.vol.Valid() && |name8| == 8 && |ext3| == 3 && c < U32 && size < U32
    requires Consistent(fs.vol.State(), fs.vol.geo, cat) && dir in cat.dirs
    requires ReadyFor(fs.vol.State(), fs.vol.geo, cat, dir, name, ext, name8, ext3, attr, c, size)
    modifies fs.vol`ioBuf, fs.vol.fat, fs.vol.disk
    ensures Tops(fs.vol.fat[..]) == old(Tops(fs.vol.fat[..])) && (old(fs.vol.Flushed()) ==> fs.vol.Flushed())
    ensures ok <==>
      HasFree(old(fs.vol.State()), fs.vol.geo, cat, dir)
        || FreeBelow(old(fs.vol.State()).fat, fs.vol.geo.MaxCluster()) > 0
    ensures ok ==>
      && Says(e, name8, ext3, attr, c, size)
      && FirstFree(old(fs.vol.State()), fs.vol.geo, cat, dir, grew, p)
      && (grew.None? <==> HasFree(old(fs.vol.State()), fs.vol.geo, cat, dir))
      && Writable(Extended(old(fs.vol.State()), fs.vol.geo, cat, dir, grew),
                  ExtendedCatalog(cat, dir, grew).chains[dir], p)
      && fs.vol.State() == CreatedVol(old(fs.vol.State()), fs.vol.geo, cat, dir, grew, p, e)
      && cat' == CreatedCatalog(cat, dir, grew, p, e)
      && Consistent(fs.vol.State(), fs.vol.geo, cat')
      && Find(fs.vol.State(), fs.vol.geo, cat', dir, name, ext) == ObjectOf(old(fs.vol.State()), fs.vol.geo, cat, e)
      && OthersSame(old(fs.vol.State()), fs.vol.State(), fs.vol.geo, cat, cat', dir, name, ext)
      && StandsFor(fs.vol.State(), cat', dir, fs.vol.geo.sectorsPerCluster, name, ext, e)
  {
    hide Table, AllData, Tops, Volume.Flushed, DirOk, HasFree, FreeBelow, At, EntryAt, Hit, PassesTo,
      FindsNothing, ReadyToCreate, Extended, ChainsOk, SetAt, Find, OthersSame, SizeOf, ClusterOf, Inside,
      CanExtend, StandsFor, Records;
    var vol := fs.vol;
    ghost var v, geo := vol.State(), vol.geo;
    cat' := cat;
    e := Blank();
    var lba, idx;
    ok, lba, idx, grew, p := fs.FindFreeSlot(dir, cat);
    if !ok {
      return;
    }
    ghost var v1, cat1 := vol.State(), ExtendedCatalog(cat, dir, grew);
    ExtendedOk(v, geo, cat, dir, grew);
    DirChain(v1, geo, cat1, dir);
    EntryIs(v1, cat1.chains[dir], geo, p);
    vol.SectorAt(cat1.chains[dir][p.k], p.s);
    vol.ReadSector(lba);
    var was := EntryAt(vol.ioBuf, idx);
    NewEntryFields(was, name8, ext3, attr, c, size);
    var e' := NewEntry(was, name8, ext3, attr, c, size);
    e := e';
    StoreEntry(vol, lba, idx, e', cat1.chains[dir], p);
    assert ReadyToCreate(v, geo, cat, dir, name, ext, e);
    CreatedOk(v, geo, cat, dir, name, ext, grew, p, e);
    CreatedFind(v, geo, cat, dir, name, ext, grew, p, e);
    CreatedOthers(v, geo, cat, dir, name, ext, grew, p, e);
    cat' := CreatedCatalog(cat, dir, grew, p, e);
  }

  /** Where the sector with the entry for the name lies on the disk, its 32 bytes hold the cluster and the size. */
  ghost predicate OnDisk(disk: seq<Sector>, geo: Geometry, v: Vol, cat: Catalog, d: nat, name: seq<Byte>,
                         ext: seq<Byte>, c: nat, n: nat)
  {
    && d in cat.chains
    && EntryLies(disk, geo, cat.chains[d], Lookup(v, cat.chains[d], geo.sectorsPerCluster, name, ext), c, n)
  }

  ghost predicate EntryLies(disk: seq<Sector>, geo: Geometry, cs: seq<nat>, r: Option<Pos>, c: nat, n: nat)
  {
    && r.Some? && r.value.k < |cs| && cs[r.value.k] >= 2
    && RecordsAt(disk, geo.firstData + (cs[r.value.k] - 2) * geo.sectorsPerCluster + r.value.s, r.value.i, c, n)
  }

  predicate RecordsAt(disk: seq<Sector>, lba: nat, i: nat, c: nat, n: nat)
  {
    lba < |disk| && i < 16 && Records(disk[lba][32 * i..32 * i + 32], c, n)
  }

  lemma EntryOnDisk(vol: Volume, cat: Catalog, d: nat, name: seq<Byte>, ext: seq<Byte>, e: Dirent)
    requires vol.Valid() && Consistent(vol.State(), vol.geo, cat) && d in cat.dirs
    requires StandsFor(vol.State(), cat, d, vol.geo.sectorsPerCluster, name, ext, e)
    ensures OnDisk(vol.disk[..], vol.geo, vol.State(), cat, d, name, ext, ClusterOf(e), SizeOf(e))
  {
    hide Table, AllData, DirOk, Hit, PassesTo, ClusterOf, SizeOf, Records;
    ghost var v, cs := vol.State(), cat.chains[d];
    var p := Lookup(v, cs, vol.geo.sectorsPerCluster, name, ext).value;
    DirChain(v, vol.geo, cat, d);
    EntryIs(v, cs, vol.geo, p);
    vol.SectorAt(cs[p.k], p.s);
    RecordsIff(e, ClusterOf(e), SizeOf(e));
  }

  // ----- write_file

  /** What write_file stores: the data, but a single cluster of it when the length is within a cluster
      of 4 GB, where the 32-bit rounding of the cluster count wraps. */
  function Stored(b: seq<Byte>, spc: nat): seq<Byte>
  {
    if |b| + SECTOR * spc <= U32 then b else b[..Min(|b|, SECTOR * spc)]
  }

  /** There are clusters enough: for the data, once the old contents are freed, and for a full directory
      that needs another entry. */
  ghost predicate RoomFor(v: Vol, geo: Geometry, cat: Catalog, d: nat, name: seq<Byte>, ext: seq<Byte>, len: nat)
    requires geo.Ok() && ChainsOk(v, geo, cat) && d in cat.chains
  {
    var needed := ClustersFor(len, geo.sectorsPerCluster);
    match Lookup(v, cat.chains[d], geo.sectorsPerCluster, name, ext)
    case Some(p) => FreeBelow(Emptied(v, cat, At(v, cat.chains[d], p)).fat, geo.MaxCluster()) >= needed
    case None => FreeBelow(v.fat, geo.MaxCluster()) >= needed + if HasFree(v, geo, cat, d) then 0 else 1
  }

  lemma StoredBytes(v: Vol, geo: Geometry, cat: Catalog, nc: seq<nat>, b: seq<Byte>, e: Dirent)
    requires geo.Ok() && ChainsOk(v, geo, cat) && nc != [] && nc[0] in cat.chains && cat.chains[nc[0]] == nc
    requires ClusterOf(e) == nc[0] && SizeOf(e) == |b| && !IsDirectory(e)
    requires |nc| == ClustersFor(|b|, geo.sectorsPerCluster) && |b| < U32
    requires InRange(v, nc) && Stream(v, nc) == Padded(b, |Stream(v, nc)|)
    ensures ObjectOf(v, geo, cat, e) == File(nc[0], Stored(b, geo.sectorsPerCluster))
  {
    var spc := geo.sectorsPerCluster;
    StreamLength(v, nc, spc);
    ClustersHold(|b|, spc);
    assert SECTOR * spc * |nc| == |Stream(v, nc)|;
  }

  /** The entry is found, and what follows from that. */
  lemma LocateEntry(v: Vol, geo: Geometry, cat: Catalog, d: nat, name: seq<Byte>, ext: seq<Byte>, p: Pos)
    requires geo.Ok() && Consistent(v, geo, cat) && d in cat.dirs && KeyAt(name, 0) != DOT
    requires FindsAt(v, cat.chains[d], geo.sectorsPerCluster, Named(name, ext), p)
    ensures NamedAt(v, geo, cat, d, name, ext, p)
    ensures Lookup(v, cat.chains[d], geo.sectorsPerCluster, name, ext) == Some(p)
    ensures Find(v, geo, cat, d, name, ext) == ObjectOf(v, geo, cat, At(v, cat.chains[d], p))
    ensures var e := At(v, cat.chains[d], p); ClusterOf(e) in cat.chains <==> ClusterOf(e) >= 2
  {
    hide TailUnused, UniqueNames, At, PassesTo, Find, Chain;
    FoundEntry(v, geo, cat, d, name, ext, p);
    var e := At(v, cat.chains[d], p);
    assert Upper(e[..8][0]) == KeyAt(name, 0);
    EntryInOrder(v, geo, cat, d, p);
  }

  lemma BuiltHasFree(v: Vol, v': Vol, geo: Geometry, cat: Catalog, d: nat, nc: seq<nat>)
    requires geo.Ok() && ChainsOk(v, geo, cat) && Built(v, v', geo, nc) && d in cat.chains && nc != []
    ensures d in WithChain(cat, nc).chains
    ensures HasFree(v', geo, WithChain(cat, nc), d) <==> HasFree(v, geo, cat, d)
  {
    hide At, Chain, Built, Hit, Stop;
    NewChainOk(v, v', geo, cat, nc);
    SameClusters(v, v', geo, cat, d, nc);
    ChainsInside(v, geo, cat);
    BuiltSomething(v, v', geo, nc);
    SameDataSameAt(v, v', cat.chains[d]);
  }

  /** Frees the chain of the entry on the table. */
  method EmptyEntry(vol: Volume, e: Dirent, ghost cat: Catalog)
    requires vol.Valid() && ChainsOk(vol.State(), vol.geo, cat) && (ClusterOf(e) in cat.chains <==> ClusterOf(e) >= 2)
    modifies vol.fat
    ensures Tops(vol.fat[..]) == old(Tops(vol.fat[..])) && vol.State() == Emptied(old(vol.State()), cat, e)
  {
    hide Table, AllData, Tops, Chain;
    if ClusterOf(e) >= 2 {
      DirChain(vol.State(), vol.geo, cat, ClusterOf(e));
      FreesExactlyTheChain(vol.State().fat, vol.geo.MaxCluster(), cat.chains[ClusterOf(e)]);
      vol.FreeChain(ClusterOf(e));
    }
  }

  /** fat32_delete: the name is gone, its chain is free, and no other name has changed. */
  method Delete(fs: FileSystem, name: seq<Byte>, ext: seq<Byte>, ghost cat: Catalog)
    returns (ok: bool, ghost cat': Catalog)
    requires fs.vol.Valid() && Consistent(fs.vol.State(), fs.vol.geo, cat) && fs.Dir() in cat.dirs
    requires KeyAt(name, 0) != DOT
    modifies fs.vol`ioBuf, fs.vol.fat, fs.vol.disk
    ensures Tops(fs.vol.fat[..]) == old(Tops(fs.vol.fat[..]))
    ensures ok <==> !old(Find(fs.vol.State(), fs.vol.geo, cat, fs.Dir(), name, ext)).Absent?
    ensures !ok ==> fs.vol.State() == old(fs.vol.State()) && cat' == cat
    ensures ok ==> var o := old(Find(fs.vol.State(), fs.vol.geo, cat, fs.Dir(), name, ext));
      && Consistent(fs.vol.State(), fs.vol.geo, cat') && fs.vol.Flushed()
      && cat'.dirs == cat.dirs - (if o.Directory? then {o.first} else {}) && fs.Dir() in cat'.dirs
      && Find(fs.vol.State(), fs.vol.geo, cat', fs.Dir(), name, ext) == Absent
      && OthersSame(old(fs.vol.State()), fs.vol.State(), fs.vol.geo, cat, cat', fs.Dir(), name, ext)
      && fs.vol.State().fat == Cleared(old(fs.vol.State()).fat, if o.first in cat.chains then cat.chains[o.first]
        else [])
  {
    hide Table, AllData, Tops, Volume.Flushed, Consistent, At, EntryAt, Hit, PassesTo, FindsNothing, ChainsOk,
      SetAt, Find, OthersSame, ClusterOf, Inside, Cleared, Ordinary;
    var vol, dir := fs.vol, fs.Dir();
    ghost var v, geo := vol.State(), vol.geo;
    cat' := cat;
    ConsistentChains(v, geo, cat);
    DirChain(v, geo, cat, dir);
    ghost var p;
    var lba, idx;
    ok, lba, idx, p := fs.FindEntry(dir, Named(name, ext), cat.chains[dir]);
    if !ok {
      NothingFound(v, geo, cat, dir, name, ext);
      return;
    }
    LocateEntry(v, geo, cat, dir, name, ext, p);
    EntryIs(v, cat.chains[dir], geo, p);
    vol.SectorAt(cat.chains[dir][p.k], p.s);
    vol.ReadSector(lba);
    var e := EntryAt(vol.ioBuf, idx);
    EmptyEntry(vol, e, cat);
    vol.FlushFat();
    EmptiedData(v, cat, e);
    EqualDataInside(v, vol.State(), cat.chains[dir], geo.sectorsPerCluster);
    vol.SectorAt(cat.chains[dir][p.k], p.s);
    StoreEntry(vol, lba, idx, Erased(e), cat.chains[dir], p);
    cat' := EmptiedCatalog(cat, e);
    EmptiedOk(v, geo, cat, dir, p);
    RemovedOk(v, geo, cat, dir, name, ext, p);
    RemovedFind(v, geo, cat, dir, name, ext, p);
    RemovedOthers(v, geo, cat, dir, name, ext, p);
    ClearedNothing(v.fat);
  }

  lemma ConsistentChains(v: Vol, geo: Geometry, cat: Catalog)
    requires geo.Ok() && Consistent(v, geo, cat)
    ensures ChainsOk(v, geo, cat) && cat.dirs <= cat.chains.Keys
  {
  }

  lemma EqualDataInside(v: Vol, v': Vol, cs: seq<nat>, spc: nat)
    requires Inside(v, cs, spc) && v'.data == v.data
    ensures Inside(v', cs, spc)
  {
  }

  lemma ClearedNothing(f: Fat)
    ensures Cleared(f, []) == f
  {
  }

  lemma LegalHit(name: seq<Byte>, ext: seq<Byte>, e: Dirent, c: nat, size: nat)
    requires Legal(name, ext) && Says(e, EncodeName(name, 8), EncodeName(ext, 3), ATTR_ARCHIVE, c, size)
    ensures Hit(e, Named(name, ext)) && !IsDot(e) && !IsDirectory(e)
  {
    EncodedMatchesItself(name, 8);
    EncodedMatchesItself(ext, 3);
    assert First(e) == e[..8][0];
    EncodedAt(name, 0, 8, 0);
  }

  /** With the chain of a new file built, an entry for it may be created. */
  lemma FileReady(v: Vol, v': Vol, geo: Geometry, cat: Catalog, d: nat, nc: seq<nat>, name: seq<Byte>, ext: seq<Byte>,
                  size: nat)
    requires geo.Ok() && Consistent(v, geo, cat) && d in cat.dirs && Built(v, v', geo, nc) && nc != []
    requires Find(v, geo, cat, d, name, ext) == Absent && Legal(name, ext)
    ensures Consistent(v', geo, WithChain(cat, nc)) && nc[0] !in cat.dirs
    ensures ReadyFor(v', geo, WithChain(cat, nc), d, name, ext, EncodeName(name, 8), EncodeName(ext, 3), ATTR_ARCHIVE,
                     nc[0], size)
  {
    hide DirOk, At, Chain, Built, Find, Unnamed, Hit, IsDot, IsDirectory, ClusterOf, SizeOf, ChainsOk;
    BuiltReady(v, v', geo, cat, d, nc, name, ext);
    forall e: Dirent | Says(e, EncodeName(name, 8), EncodeName(ext, 3), ATTR_ARCHIVE, nc[0], size)
      ensures ReadyToCreate(v', geo, WithChain(cat, nc), d, name, ext, e)
    {
      LegalHit(name, ext, e, nc[0], size);
    }
  }

  lemma BuiltReady(v: Vol, v': Vol, geo: Geometry, cat: Catalog, d: nat, nc: seq<nat>, name: seq<Byte>,
                   ext: seq<Byte>)
    requires geo.Ok() && Consistent(v, geo, cat) && d in cat.dirs && Built(v, v', geo, nc) && nc != []
    requires Find(v, geo, cat, d, name, ext) == Absent
    ensures Consistent(v', geo, WithChain(cat, nc)) && nc[0] !in cat.dirs
    ensures Find(v', geo, WithChain(cat, nc), d, name, ext) == Absent
    ensures Unnamed(v', geo, WithChain(cat, nc), nc[0], None)
  {
    hide DirOk, At, Chain, Built, Find, Unnamed, Hit;
    NewChainKeepsDirs(v, v', geo, cat, nc, None);
    BuiltUnnamed(v, v', geo, cat, nc, None);
    BuiltFind(v, v', geo, cat, nc, None, d, name, ext);
  }

  /** Building a chain for a file to come changes nothing, so what the rest changes is all. */
  lemma OthersAfterBuilt(v: Vol, v1: Vol, v2: Vol, geo: Geometry, cat: Catalog, nc: seq<nat>, cat2: Catalog, d: nat,
                         name: seq<Byte>, ext: seq<Byte>)
    requires geo.Ok() && Consistent(v, geo, cat) && Built(v, v1, geo, nc) && nc != []
    requires Consistent(v1, geo, WithChain(cat, nc)) && Consistent(v2, geo, cat2)
    requires OthersSame(v1, v2, geo, WithChain(cat, nc), cat2, d, name, ext)
    ensures OthersSame(v, v2, geo, cat, cat2, d, name, ext)
  {
    hide DirOk, Chain, Built, Find, Hit, SameName, ChainsOk;
    forall g: nat, n: seq<Byte>, x: seq<Byte> | g in cat.dirs && g in cat2.dirs
      && !(g == d && SameName(name, ext, n, x))
      ensures Find(v2, geo, cat2, g, n, x) == Find(v, geo, cat, g, n, x)
    {
      BuiltFind(v, v1, geo, cat, nc, None, g, n, x);
    }
  }

  /** Once the chain is undone, so is everything a creation without growth did to the table. */
  lemma BuiltUndone(v: Vol, v': Vol, geo: Geometry, nc: seq<nat>)
    requires geo.Ok() && Built(v, v', geo, nc)
    ensures Cleared(v'.fat, nc) == v.fat
  {
    forall c | 0 <= c < ENTRIES ensures Cleared(v'.fat, nc)[c] == v.fat[c] {
      if c in nc {
        var k :| 0 <= k < |nc| && nc[k] == c;
      }
    }
  }

  /** Points the entry of an existing file to its new chain. */
  method UpdateEntry(fs: FileSystem, lba: nat, idx: nat, first: nat, size: nat, ghost v: Vol, ghost cat: Catalog,
                     ghost d: nat, ghost name: seq<Byte>, ghost ext: seq<Byte>, ghost p: Pos, ghost nc: seq<nat>)
    returns (ghost cat': Catalog, ghost e': Dirent)
    requires fs.vol.Valid() && first < U32 && size < U32 && nc != [] && first == nc[0]
    requires NamedAt(v, fs.vol.geo, cat, d, name, ext, p) && !IsDirectory(At(v, cat.chains[d], p))
    requires Rebuilt(v, fs.vol.State(), fs.vol.geo, cat, At(v, cat.chains[d], p), nc)
    requires cat.chains[d][p.k] >= 2 && lba == fs.vol.geo.Lba(cat.chains[d][p.k]) + p.s && idx == p.i
    modifies fs.vol`ioBuf, fs.vol.disk
    ensures old(fs.vol.Flushed()) ==> fs.vol.Flushed()
    ensures ClusterOf(e') == first && SizeOf(e') == size && !IsDirectory(e')
    ensures Consistent(fs.vol.State(), fs.vol.geo, cat') && Consistent(v, fs.vol.geo, cat) && cat'.dirs == cat.dirs
      && d in cat'.dirs
    ensures ChainsOk(old(fs.vol.State()), fs.vol.geo, RebuiltCatalog(cat, At(v, cat.chains[d], p), nc))
    ensures Find(fs.vol.State(), fs.vol.geo, cat', d, name, ext) ==
      ObjectOf(old(fs.vol.State()), fs.vol.geo, RebuiltCatalog(cat, At(v, cat.chains[d], p), nc), e')
    ensures OthersSame(v, fs.vol.State(), fs.vol.geo, cat, cat', d, name, ext)
    ensures StandsFor(fs.vol.State(), cat', d, fs.vol.geo.sectorsPerCluster, name, ext, e')
  {
    hide Table, AllData, Volume.Flushed, DirOk, At, EntryAt, Hit, ChainsOk, SetAt, Find, OthersSame, ClusterOf,
      SizeOf, StandsFor, Inside, Cleared, Emptied, EmptiedCatalog, Built, Ordinary, IsDirectory, ObjectOf;
    var vol := fs.vol;
    OrdinaryPlace(v, vol.geo, cat, d, p);
    ghost var v', geo, e := vol.State(), vol.geo, At(v, cat.chains[d], p);
    e' := WithSize(WithCluster(e, first), size);
    FieldsSet(e, first, size);
    RenamesKeeps(e, e', nc);
    RebuiltOk(v, v', geo, cat, d, name, ext, p, nc, e');
    DirChain(v', geo, RebuiltCatalog(cat, e, nc), d);
    EntryIs(v', cat.chains[d], geo, p);
    vol.SectorAt(cat.chains[d][p.k], p.s);
    vol.ReadSector(lba);
    StoreEntry(vol, lba, idx, WithSize(WithCluster(EntryAt(vol.ioBuf, idx), first), size), cat.chains[d], p);
    cat' := ReplacedCatalog(cat, d, p, e, nc, e');
    ReplacedOk(v, v', geo, cat, d, name, ext, p, nc, e');
    ReplacedFind(v, v', geo, cat, d, name, ext, p, nc, e');
    ReplacedOthers(v, v', geo, cat, d, name, ext, p, nc, e');
  }

  lemma OrdinaryPlace(v: Vol, geo: Geometry, cat: Catalog, d: nat, p: Pos)
    requires Ordinary(v, geo, cat, d, p)
    ensures d in cat.dirs && d in cat.chains && InDir(cat.chains[d], geo.sectorsPerCluster, p)
  {
  }

  /** The rest of write_file when the name is taken by a file: its entry is in g_io_buf. */
  method Overwrite(fs: FileSystem, lba: nat, idx: nat, src: array<Byte>, len: nat, ghost cat: Catalog, ghost d: nat,
                   ghost name: seq<Byte>, ghost ext: seq<Byte>, ghost p: Pos)
    returns (ok: bool, ghost cat': Catalog, ghost first': nat)
    requires fs.vol.Valid() && len <= src.Length && len < U32
    requires src != fs.vol.fat && src as object != fs.vol.disk as object
    requires NamedAt(fs.vol.State(), fs.vol.geo, cat, d, name, ext, p)
      && !IsDirectory(At(fs.vol.State(), cat.chains[d], p))
    requires Lookup(fs.vol.State(), cat.chains[d], fs.vol.geo.sectorsPerCluster, name, ext) == Some(p)
    requires ChainsOk(fs.vol.State(), fs.vol.geo, cat)
    requires cat.chains[d][p.k] >= 2 && lba == fs.vol.geo.Lba(cat.chains[d][p.k]) + p.s && idx == p.i
    requires idx < 16 && EntryAt(fs.vol.ioBuf, idx) == At(fs.vol.State(), cat.chains[d], p)
    modifies fs.vol`ioBuf, fs.vol.fat, fs.vol.disk
    ensures Tops(fs.vol.fat[..]) == old(Tops(fs.vol.fat[..]))
    ensures ok <==> old(RoomFor(fs.vol.State(), fs.vol.geo, cat, d, name, ext, len))
    ensures ok ==>
      && Consistent(fs.vol.State(), fs.vol.geo, cat') && Consistent(old(fs.vol.State()), fs.vol.geo, cat)
      && cat'.dirs == cat.dirs && d in cat'.dirs && fs.vol.Flushed()
      && Find(fs.vol.State(), fs.vol.geo, cat', d, name, ext) ==
        File(first', Stored(src[..len], fs.vol.geo.sectorsPerCluster))
      && OthersSame(old(fs.vol.State()), fs.vol.State(), fs.vol.geo, cat, cat', d, name, ext)
      && OnDisk(fs.vol.disk[..], fs.vol.geo, fs.vol.State(), cat', d, name, ext, first', len)
  {
    hide StandsFor, OnDisk, Table, AllData, Tops, Volume.Flushed, Consistent, At, EntryAt, Hit, ChainsOk, Find,
      OthersSame, ClusterOf, SizeOf, Emptied, EmptiedCatalog, Built, ClustersFor, Stream, Padded, Stored,
      IsDirectory, ObjectOf, FreeBelow, InRange, Ordinary;
    var vol := fs.vol;
    ghost var v, geo := vol.State(), vol.geo;
    cat', first' := cat, 0;
    OrdinaryPlace(v, geo, cat, d, p);
    EntryInOrder(v, geo, cat, d, p);
    EmptyEntry(vol, EntryAt(vol.ioBuf, idx), cat);
    var first;
    ghost var nc;
    first, nc := BuildChain(vol, src, len);
    ok := first != 0;
    if ok {
      vol.FlushFat();
      ghost var v', e := vol.State(), At(v, cat.chains[d], p);
      ghost var e';
      cat', e' := UpdateEntry(fs, lba, idx, first, len, v, cat, d, name, ext, p, nc);
      first' := first;
      RebuiltNames(cat, e, nc);
      StoredBytes(v', geo, RebuiltCatalog(cat, e, nc), nc, src[..len], e');
      EntryOnDisk(vol, cat', d, name, ext, e');
    }
  }

  lemma RebuiltNames(cat: Catalog, e: Dirent, nc: seq<nat>)
    requires nc != []
    ensures nc[0] in RebuiltCatalog(cat, e, nc).chains && RebuiltCatalog(cat, e, nc).chains[nc[0]] == nc
  {
  }

  /** The rest of write_file when the name is free. */
  method CreateFile(fs: FileSystem, dir: nat, name: seq<Byte>, ext: seq<Byte>, src: array<Byte>, len: nat,
                    ghost cat: Catalog)
    returns (ok: bool, ghost cat': Catalog, ghost nc: seq<nat>)
    requires fs.vol.Valid() && Consistent(fs.vol.State(), fs.vol.geo, cat) && dir in cat.dirs
    requires Legal(name, ext) && len <= src.Length && len < U32
    requires src != fs.vol.fat && src as object != fs.vol.disk as object
    requires Lookup(fs.vol.State(), cat.chains[dir], fs.vol.geo.sectorsPerCluster, name, ext) == None
    requires Find(fs.vol.State(), fs.vol.geo, cat, dir, name, ext) == Absent
    modifies fs.vol`ioBuf, fs.vol.fat, fs.vol.disk
    ensures Tops(fs.vol.fat[..]) == old(Tops(fs.vol.fat[..]))
    ensures ok <==> old(RoomFor(fs.vol.State(), fs.vol.geo, cat, dir, name, ext, len))
    ensures ok ==>
      && Consistent(fs.vol.State(), fs.vol.geo, cat') && cat'.dirs == cat.dirs && fs.vol.Flushed()
      && nc != [] && nc[0] in cat'.chains && cat'.chains[nc[0]] == nc
      && Find(fs.vol.State(), fs.vol.geo, cat', dir, name, ext) ==
        File(nc[0], Stored(src[..len], fs.vol.geo.sectorsPerCluster))
      && OthersSame(old(fs.vol.State()), fs.vol.State(), fs.vol.geo, cat, cat', dir, name, ext)
      && (old(HasFree(fs.vol.State(), fs.vol.geo, cat, dir)) ==>
        Cleared(fs.vol.State().fat, nc) == old(fs.vol.State()).fat)
      && OnDisk(fs.vol.disk[..], fs.vol.geo, fs.vol.State(), cat', dir, name, ext, nc[0], len)
  {
    hide StandsFor, OnDisk, Table, AllData, Tops, Volume.Flushed, DirOk, ChainsOk, At, Hit, Find, OthersSame,
      ClusterOf, SizeOf, Built, HasFree, Legal, ClustersFor, Stream, Padded, Stored, IsDirectory, ObjectOf,
      FreeBelow, InRange, Cleared, ReadyFor, CanExtend, FirstFree, Chain;
    var vol := fs.vol;
    ghost var v, geo := vol.State(), vol.geo;
    cat' := cat;
    var first;
    first, nc := BuildChain(vol, src, len);
    if first == 0 {
      return false, cat, [];
    }
    vol.FlushFat();
    ghost var v', cat1 := vol.State(), WithChain(cat, nc);
    FileReady(v, v', geo, cat, dir, nc, name, ext, len);
    BuiltHasFree(v, v', geo, cat, dir, nc);
    BuiltUndone(v, v', geo, nc);
    ghost var grew, p, e;
    ok, cat', grew, p, e :=
      AddEntry(fs, dir, EncodeName(name, 8), EncodeName(ext, 3), ATTR_ARCHIVE, first, len, name, ext, cat1);
    if ok {
      LegalHit(name, ext, e, first, len);
      StoredBytes(v', geo, cat1, nc, src[..len], e);
      EntryOnDisk(vol, cat', dir, name, ext, e);
      OthersAfterBuilt(v, v', vol.State(), geo, cat, nc, cat', dir, name, ext);
      CreatedKeeps(v', geo, cat1, dir, grew, p, e, nc[0]);
    }
  }

  /** A new entry for a file leaves the directories and the other chains as they are, and, when the
      directory had room, the table. */
  lemma CreatedKeeps(v: Vol, geo: Geometry, cat: Catalog, d: nat, grew: Option<nat>, p: Pos, e: Dirent, n: nat)
    requires geo.Ok() && ChainsOk(v, geo, cat) && d in cat.chains && FirstFree(v, geo, cat, d, grew, p) && n != d
    requires Writable(Extended(v, geo, cat, d, grew), ExtendedCatalog(cat, d, grew).chains[d], p)
    requires n in cat.chains && !IsDirectory(e)
    ensures var cat' := CreatedCatalog(cat, d, grew, p, e);
      cat'.dirs == cat.dirs && n in cat'.chains && cat'.chains[n] == cat.chains[n]
    ensures grew.None? ==> CreatedVol(v, geo, cat, d, grew, p, e).fat == v.fat
  {
  }

  /** fat32_write_file: on success the name stands for the data, and no other name has changed. It
      fails exactly when the name is a directory's or there are not clusters enough. */
  method WriteFile(fs: FileSystem, name: seq<Byte>, ext: seq<Byte>, src: array<Byte>, len: nat, ghost cat: Catalog)
    returns (ok: bool, ghost cat': Catalog, ghost first: nat)
    requires fs.vol.Valid() && Consistent(fs.vol.State(), fs.vol.geo, cat) && fs.Dir() in cat.dirs
    requires Legal(name, ext) && len <= src.Length && len < U32
    requires src != fs.vol.fat && src as object != fs.vol.disk as object
    modifies fs.vol`ioBuf, fs.vol.fat, fs.vol.disk
    ensures Tops(fs.vol.fat[..]) == old(Tops(fs.vol.fat[..]))
    ensures ok <==>
      && !old(Find(fs.vol.State(), fs.vol.geo, cat, fs.Dir(), name, ext)).Directory?
      && old(RoomFor(fs.vol.State(), fs.vol.geo, cat, fs.Dir(), name, ext, len))
    ensures old(Find(fs.vol.State(), fs.vol.geo, cat, fs.Dir(), name, ext)).Directory? ==>
      fs.vol.State() == old(fs.vol.State())
    ensures ok ==>
      && Consistent(fs.vol.State(), fs.vol.geo, cat') && cat'.dirs == cat.dirs && fs.vol.Flushed()
      && Find(fs.vol.State(), fs.vol.geo, cat', fs.Dir(), name, ext) ==
        File(first, Stored(src[..len], fs.vol.geo.sectorsPerCluster))
      && OthersSame(old(fs.vol.State()), fs.vol.State(), fs.vol.geo, cat, cat', fs.Dir(), name, ext)
      && OnDisk(fs.vol.disk[..], fs.vol.geo, fs.vol.State(), cat', fs.Dir(), name, ext, first, len)
    ensures
      ok && old(Find(fs.vol.State(), fs.vol.geo, cat, fs.Dir(), name, ext).Absent?
        && HasFree(fs.vol.State(), fs.vol.geo, cat, fs.Dir()))
      ==> first in cat'.chains && Cleared(fs.vol.State().fat, cat'.chains[first]) == old(fs.vol.State()).fat
  {
    hide OnDisk, Table, AllData, Tops, Volume.Flushed, DirOk, ChainsOk, At, EntryAt, Hit, PassesTo,
      FindsNothing, Find, OthersSame, ClusterOf, Inside, Cleared, HasFree, Stored, IsDirectory, RoomFor, Chain,
      FileBytes, Legal, Ordinary;
    var vol, dir := fs.vol, fs.Dir();
    ghost var v, geo := vol.State(), vol.geo;
    cat', first := cat, 0;
    DirChain(v, geo, cat, dir);
    ghost var p;
    var taken, lba, idx;
    taken, lba, idx, p := fs.FindEntry(dir, Named(name, ext), cat.chains[dir]);
    if taken {
      LegalDot(name, ext);
      LocateEntry(v, geo, cat, dir, name, ext, p);
      EntryIs(v, cat.chains[dir], geo, p);
      vol.SectorAt(cat.chains[dir][p.k], p.s);
      vol.ReadSector(lba);
      if IsDirectory(EntryAt(vol.ioBuf, idx)) {
        return false, cat, 0;
      }
      ok, cat', first := Overwrite(fs, lba, idx, src, len, cat, dir, name, ext, p);
    } else {
      NothingFound(v, geo, cat, dir, name, ext);
      LookupNone(v, cat.chains[dir], geo.sectorsPerCluster, name, ext);
      ghost var nc;
      ok, cat', nc := CreateFile(fs, dir, name, ext, src, len, cat);
      first := if ok then nc[0] else 0;
    }
  }

  lemma LegalDot(name: seq<Byte>, ext: seq<Byte>)
    requires Legal(name, ext)
    ensures KeyAt(name, 0) != DOT
  {
  }

  /** Creating a file, without growth of the directory, and deleting it again leaves the table as it
      was, byte for byte. */
  method CreateThenDelete(fs: FileSystem, name: seq<Byte>, ext: seq<Byte>, src: array<Byte>, len: nat,
                          ghost cat: Catalog)
    returns (ok: bool, ghost cat': Catalog)
    requires fs.vol.Valid() && Consistent(fs.vol.State(), fs.vol.geo, cat) && fs.Dir() in cat.dirs
    requires Legal(name, ext) && len <= src.Length && len < U32
    requires src != fs.vol.fat && src as object != fs.vol.disk as object
    requires Find(fs.vol.State(), fs.vol.geo, cat, fs.Dir(), name, ext).Absent?
    requires HasFree(fs.vol.State(), fs.vol.geo, cat, fs.Dir())
    modifies fs.vol`ioBuf, fs.vol.fat, fs.vol.disk
    ensures ok <==> old(RoomFor(fs.vol.State(), fs.vol.geo, cat, fs.Dir(), name, ext, len))
    ensures ok ==>
      && fs.vol.fat[..] == old(fs.vol.fat[..])
      && Consistent(fs.vol.State(), fs.vol.geo, cat') && cat'.dirs == cat.dirs
      && Find(fs.vol.State(), fs.vol.geo, cat', fs.Dir(), name, ext) == Absent
      && OthersSame(old(fs.vol.State()), fs.vol.State(), fs.vol.geo, cat, cat', fs.Dir(), name, ext)
  {
    hide OnDisk, Table, AllData, Tops, Volume.Flushed, DirOk, ChainsOk, Find, Cleared, HasFree, Stored,
      RoomFor, Legal, SameName;
    ghost var first, v, cat1, b := 0, fs.vol.State(), cat, fs.vol.fat[..];
    ok, cat1, first := WriteFile(fs, name, ext, src, len, cat);
    cat' := cat1;
    if ok {
      LegalDot(name, ext);
      var deleted;
      deleted, cat' := Delete(fs, name, ext, cat1);
      BytesFromEntries(fs.vol.fat[..], b);
    }
  }

  // ----- mkdir

  const SPACES: seq<Byte> := [SPACE, SPACE, SPACE]

  function DotName(n: nat): (s: seq<Byte>)
    requires n <= 8
    ensures |s| == 8
  {
    seq(8, i => if i < n then DOT else SPACE)
  }

  /** Allocates a cluster and makes an empty directory of it, "." and ".." inside. */
  method MakeDirectory(fs: FileSystem, parent: nat) returns (c: nat)
    requires fs.vol.Valid() && parent < U32
    modifies fs.vol`ioBuf, fs.vol.fat, fs.vol.disk
    ensures Tops(fs.vol.fat[..]) == old(Tops(fs.vol.fat[..]))
    ensures c != 0 <==> FreeBelow(old(fs.vol.State()).fat, fs.vol.geo.MaxCluster()) > 0
    ensures c == 0 ==> fs.vol.State() == old(fs.vol.State())
    ensures c != 0 ==>
      && c < U32 && Built(old(fs.vol.State()), fs.vol.State(), fs.vol.geo, [c]) && fs.vol.Flushed()
      && FreeBelow(fs.vol.State().fat, fs.vol.geo.MaxCluster()) + 1 ==
        FreeBelow(old(fs.vol.State()).fat, fs.vol.geo.MaxCluster())
      && DotsOnly(fs.vol.State(), [c], fs.vol.geo.sectorsPerCluster, parent)
  {
    hide Table, AllData, Tops, Volume.Flushed, FreeBelow, Built, DotsOnly, At, EntryAt, WithEntryAt;
    var vol := fs.vol;
    vol.StateSized();
    SizedNow(vol);
    ghost var v, geo := vol.State(), vol.geo;
    c := vol.AllocCluster();
    if c == 0 {
      NoneFree(v.fat, geo.MaxCluster());
      return;
    }
    FreeAfterSet(v.fat, geo.MaxCluster(), c, EOC_MARK);
    vol.SetCluster(c, EOC_MARK);
    vol.FlushFat();
    fs.ZeroFill(c);
    vol.SectorAt(c, 0);
    vol.ReadSector(vol.geo.Lba(c));
    var dot := NewEntry(EntryAt(vol.ioBuf, 0), DotName(1), SPACES, ATTR_DIRECTORY, c, 0);
    vol.ioBuf := WithEntryAt(vol.ioBuf, 0, dot);
    var dotDot := NewEntry(EntryAt(vol.ioBuf, 1), DotName(2), SPACES, ATTR_DIRECTORY, parent, 0);
    vol.ioBuf := WithEntryAt(vol.ioBuf, 1, dotDot);
    vol.WriteData(vol.geo.Lba(c), vol.ioBuf, c, 0);
    DotsWritten(v, vol.State(), geo, c, parent);
  }

  /** The first sector of a new directory. */
  function DotSector(c: nat, parent: nat): Sector
    requires c < U32 && parent < U32
  {
    var dot := NewEntry(EntryAt(ZeroSector(), 0), DotName(1), SPACES, ATTR_DIRECTORY, c, 0);
    var x := WithEntryAt(ZeroSector(), 0, dot);
    WithEntryAt(x, 1, NewEntry(EntryAt(x, 1), DotName(2), SPACES, ATTR_DIRECTORY, parent, 0))
  }

  lemma DotsWritten(v: Vol, v': Vol, geo: Geometry, c: nat, parent: nat)
    requires geo.Ok() && |v.data| == geo.MaxCluster() && Sized(v, geo.sectorsPerCluster)
    requires 2 <= c < geo.MaxCluster() && v.fat[c] == 0 && parent < U32
    requires v' == Vol(v.fat[c := EOC_MARK],
                       v.data[c := ZeroCluster(geo.sectorsPerCluster)[0 := DotSector(c, parent)]])
    ensures Built(v, v', geo, [c]) && DotsOnly(v', [c], geo.sectorsPerCluster, parent)
  {
    var cs := [c];
    assert LinkAt(v'.fat, cs, 0);
    hide WithEntryAt, EntryAt, NewEntry, ClusterOf;
    forall q: Pos | InDir(cs, geo.sectorsPerCluster, q)
      ensures if q == Pos(0, 0, 0) then IsDotEntry(At(v', cs, q), 1) && ClusterOf(At(v', cs, q)) == c
              else if q == Pos(0, 0, 1) then IsDotEntry(At(v', cs, q), 2) && ClusterOf(At(v', cs, q)) == parent
              else At(v', cs, q) == Blank()
    {
      BlankEntry(q.i);
      DotSectorEntry(c, parent, q.i);
    }
  }

  lemma DotSectorEntry(c: nat, parent: nat, i: nat)
    requires c < U32 && parent < U32 && i < 16
    ensures var e := EntryAt(DotSector(c, parent), i);
      if i == 0 then IsDotEntry(e, 1) && ClusterOf(e) == c
      else if i == 1 then IsDotEntry(e, 2) && ClusterOf(e) == parent
      else e == Blank()
  {
    hide WithEntryAt, EntryAt, NewEntry, ClusterOf, SizeOf;
    var was := EntryAt(ZeroSector(), 0);
    var x := WithEntryAt(ZeroSector(), 0, NewEntry(was, DotName(1), SPACES, ATTR_DIRECTORY, c, 0));
    EntrySet(ZeroSector(), 0, NewEntry(was, DotName(1), SPACES, ATTR_DIRECTORY, c, 0), i);
    EntrySet(x, 1, NewEntry(EntryAt(x, 1), DotName(2), SPACES, ATTR_DIRECTORY, parent, 0), i);
    BlankEntry(i);
    DotEntryIs(was, 1, c);
    DotEntryIs(EntryAt(x, 1), 2, parent);
  }

  lemma DotEntryIs(was: Dirent, n: nat, c: nat)
    requires 1 <= n <= 2 && c < U32
    ensures IsDotEntry(NewEntry(was, DotName(n), SPACES, ATTR_DIRECTORY, c, 0), n)
    ensures ClusterOf(NewEntry(was, DotName(n), SPACES, ATTR_DIRECTORY, c, 0)) == c
  {
    var e := NewEntry(was, DotName(n), SPACES, ATTR_DIRECTORY, c, 0);
    NewEntryFields(was, DotName(n), SPACES, ATTR_DIRECTORY, c, 0);
    forall k | 0 <= k < 11 ensures e[k] == if k < n then DOT else SPACE {
      assert k < 8 ==> e[k] == e[..8][k];
      assert k >= 8 ==> e[k] == e[8..11][k - 8];
    }
  }

  /** fat32_mkdir: on success the name, cut at its first space, stands for a new directory that is
      empty but for "." and "..", and no other name has changed. */
  method Mkdir(fs: FileSystem, name: seq<Byte>, ghost cat: Catalog)
    returns (ok: bool, ghost cat': Catalog, ghost c: nat)
    requires fs.vol.Valid() && Consistent(fs.vol.State(), fs.vol.geo, cat) && fs.Dir() in cat.dirs
    requires EncodeName(name, 8)[0] != 0 && EncodeName(name, 8)[0] != DELETED && EncodeName(name, 8)[0] != DOT
    modifies fs.vol`ioBuf, fs.vol.fat, fs.vol.disk
    ensures Tops(fs.vol.fat[..]) == old(Tops(fs.vol.fat[..]))
    ensures ok <==>
      && old(Find(fs.vol.State(), fs.vol.geo, cat, fs.Dir(), EncodeName(name, 8), SPACES)).Absent?
      && old(FreeBelow(fs.vol.State().fat, fs.vol.geo.MaxCluster()) >=
             if HasFree(fs.vol.State(), fs.vol.geo, cat, fs.Dir()) then 1 else 2)
    ensures !old(Find(fs.vol.State(), fs.vol.geo, cat, fs.Dir(), EncodeName(name, 8), SPACES)).Absent? ==>
      fs.vol.State() == old(fs.vol.State())
    ensures ok ==>
      old(FreeBelow(fs.vol.State().fat, fs.vol.geo.MaxCluster())) <= FreeBelow(fs.vol.State().fat,
        fs.vol.geo.MaxCluster()) + 2
    ensures ok ==>
      && Consistent(fs.vol.State(), fs.vol.geo, cat') && cat'.dirs == cat.dirs + {c} && c !in cat.dirs
      && fs.vol.Flushed()
      && fs.Dir() in cat'.chains && EmptyDirectory(fs.vol.State(), fs.vol.geo, cat', c, fs.Dir())
      && Find(fs.vol.State(), fs.vol.geo, cat', fs.Dir(), EncodeName(name, 8), SPACES) == Directory(c)
      && OthersSame(old(fs.vol.State()), fs.vol.State(), fs.vol.geo, cat, cat', fs.Dir(), EncodeName(name, 8), SPACES)
  {
    hide StandsFor, Table, AllData, Tops, Volume.Flushed, DirOk, ChainsOk, At, Hit, PassesTo, FindsNothing,
      Find, OthersSame, ClusterOf, SizeOf, Built, HasFree, IsDirectory, FreeBelow, ReadyFor, CanExtend,
      FirstFree, Chain, DotsOnly, Extended, SetAt, FileBytes;
    var vol, dir := fs.vol, fs.Dir();
    ghost var v, geo := vol.State(), vol.geo;
    cat', c := cat, 0;
    var n8 := EncodeName(name, 8);
    DirChain(v, geo, cat, dir);
    ghost var p, grew, e;
    var lba, idx;
    ok, lba, idx, p := fs.FindEntry(dir, Named(n8, SPACES), cat.chains[dir]);
    if ok {
      FoundEntry(v, geo, cat, dir, n8, SPACES, p);
      return false, cat, 0;
    }
    NothingFound(v, geo, cat, dir, n8, SPACES);
    var new_c := MakeDirectory(fs, dir);
    if new_c == 0 {
      return false, cat, 0;
    }
    c := new_c;
    ghost var v', cat1 := vol.State(), WithChain(cat, [c]);
    DirReady(v, v', geo, cat, dir, c, name);
    BuiltHasFree(v, v', geo, cat, dir, [c]);
    ok, cat', grew, p, e := AddEntry(fs, dir, n8, SPACES, ATTR_DIRECTORY, new_c, 0, n8, SPACES, cat1);
    if ok {
      CreatedFree(v', geo, cat1, dir, grew, p, e);
      DirHit(name, e, c);
      OthersAfterBuilt(v, v', vol.State(), geo, cat, [c], cat', dir, n8, SPACES);
      NewDirKept(v', geo, cat1, dir, n8, SPACES, grew, p, e, c);
      forall n: seq<Byte>, x: seq<Byte> | KeyAt(n, 0) != DOT
        ensures Find(vol.State(), geo, cat', c, n, x) == Absent
      {
        NewDirEmpty(vol.State(), geo, cat', c, dir, n, x);
      }
      DotsFind(vol.State(), geo, cat', c, dir);
    }
  }

  /** A new entry takes a cluster at most: the one its directory may grow by. */
  lemma CreatedFree(v: Vol, geo: Geometry, cat: Catalog, d: nat, grew: Option<nat>, p: Pos, e: Dirent)
    requires geo.Ok() && ChainsOk(v, geo, cat) && d in cat.chains && FirstFree(v, geo, cat, d, grew, p)
    requires Writable(Extended(v, geo, cat, d, grew), ExtendedCatalog(cat, d, grew).chains[d], p)
    ensures FreeBelow(v.fat, geo.MaxCluster()) <= FreeBelow(CreatedVol(v, geo, cat, d, grew, p, e).fat,
                                                            geo.MaxCluster()) + 1
  {
    match grew {
      case None =>
      case Some(c) =>
        GrowFits(v, geo, cat, d, c);
        var last := cat.chains[d][|cat.chains[d]| - 1];
        assert LinkAt(v.fat, cat.chains[d], |cat.chains[d]| - 1);
        FreeAfterSet(v.fat, geo.MaxCluster(), last, c);
        FreeAfterSet(v.fat[last := c], geo.MaxCluster(), c, EOC_MARK);
    }
  }

  lemma DirHit(name: seq<Byte>, e: Dirent, c: nat)
    requires EncodeName(name, 8)[0] != 0 && EncodeName(name, 8)[0] != DELETED && EncodeName(name, 8)[0] != DOT
    requires Says(e, EncodeName(name, 8), SPACES, ATTR_DIRECTORY, c, 0)
    ensures Hit(e, Named(EncodeName(name, 8), SPACES)) && !IsDot(e) && IsDirectory(e) && ClusterOf(e) == c
  {
    assert First(e) == e[..8][0];
  }

  lemma DirReady(v: Vol, v': Vol, geo: Geometry, cat: Catalog, d: nat, c: nat, name: seq<Byte>)
    requires geo.Ok() && Consistent(v, geo, cat) && d in cat.dirs && Built(v, v', geo, [c])
    requires EncodeName(name, 8)[0] != 0 && EncodeName(name, 8)[0] != DELETED && EncodeName(name, 8)[0] != DOT
    requires Find(v, geo, cat, d, EncodeName(name, 8), SPACES) == Absent
    requires DotsOnly(v', [c], geo.sectorsPerCluster, d)
    ensures Consistent(v', geo, WithChain(cat, [c])) && c !in cat.dirs
    ensures ReadyFor(v', geo, WithChain(cat, [c]), d, EncodeName(name, 8), SPACES, EncodeName(name, 8), SPACES,
                     ATTR_DIRECTORY, c, 0)
  {
    hide DirOk, At, Chain, Built, Find, Unnamed, Hit, IsDot, IsDirectory, ClusterOf, SizeOf, ChainsOk,
      DotsOnly;
    BuiltReady(v, v', geo, cat, d, [c], EncodeName(name, 8), SPACES);
    forall e: Dirent | Says(e, EncodeName(name, 8), SPACES, ATTR_DIRECTORY, c, 0)
      ensures ReadyToCreate(v', geo, WithChain(cat, [c]), d, EncodeName(name, 8), SPACES, e)
    {
      DirHit(name, e, c);
    }
  }

  /** The new directory is untouched by the making of its entry. */
  lemma NewDirKept(v: Vol, geo: Geometry, cat: Catalog, d: nat, name: seq<Byte>, ext: seq<Byte>, grew: Option<nat>,
                   p: Pos, e: Dirent, c: nat)
    requires geo.Ok() && Consistent(v, geo, cat) && d in cat.dirs && FirstFree(v, geo, cat, d, grew, p)
    requires c in cat.chains && c !in cat.dirs && ClusterOf(e) == c && IsDirectory(e)
    requires DotsOnly(v, cat.chains[c], geo.sectorsPerCluster, d)
    requires Writable(Extended(v, geo, cat, d, grew), ExtendedCatalog(cat, d, grew).chains[d], p)
    ensures var v', cat' := CreatedVol(v, geo, cat, d, grew, p, e), CreatedCatalog(cat, d, grew, p, e);
      && cat'.dirs == cat.dirs + {c} && c in cat'.chains
      && DotsOnly(v', cat'.chains[c], geo.sectorsPerCluster, d)
  {
    hide DirOk, At, Chain, IsDotEntry, ClusterOf, IsDirectory, SetAt, Extended, FindsNothing, PassesTo,
      Occupied;
    var v1, cat1 := Extended(v, geo, cat, d, grew), ExtendedCatalog(cat, d, grew);
    var v', cat' := CreatedVol(v, geo, cat, d, grew, p, e), CreatedCatalog(cat, d, grew, p, e);
    ExtendedOk(v, geo, cat, d, grew);
    ExtendedDots(v, geo, cat, d, grew, c, d);
    forall q: Pos | InDir(cat1.chains[c], geo.sectorsPerCluster, q)
      ensures At(v', cat1.chains[c], q) == At(v1, cat1.chains[c], q)
    {
      AtSet(v1, geo, cat1, d, p, e, c, q);
    }
  }
}
