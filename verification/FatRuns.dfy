/** Whole runs: any sequence of writes, deletes and mkdirs in a directory does to its names what the
    same sequence does to a plain table of contents. */
module FatRuns {
  import opened Words
  import opened FatTable
  import opened FatVolume
  import opened FatDir
  import opened FatBytes
  import opened FatCatalog
  import opened FatFinds
  import opened FatSteps
  import opened FatFiles
  import opened FatReading
  import opened FatOperations

  datatype Op =
    | Write(name: seq<Byte>, ext: seq<Byte>, data: seq<Byte>)
    | Remove(name: seq<Byte>, ext: seq<Byte>)
    | MakeDir(name: seq<Byte>)
  {
    function Name(): seq<Byte>
    {
      if MakeDir? then EncodeName(name, 8) else name
    }

    function Ext(): seq<Byte>
    {
      if MakeDir? then SPACES else ext
    }

    predicate Ok()
    {
      match this
      case Write(n, x, data) => Legal(n, x) && |data| < U32
      case Remove(n, x) => KeyAt(n, 0) != DOT
      case MakeDir(n) => EncodeName(n, 8)[0] != 0 && EncodeName(n, 8)[0] != DELETED && EncodeName(n, 8)[0] != DOT
    }
  }

  /** What a user sees under a name. */
  datatype Content = Nothing | Bytes(b: seq<Byte>) | Folder

  ghost function ContentOf(o: Object): Content
  {
    match o
    case Absent => Nothing
    case File(_, b) => Bytes(b)
    case Directory(_) => Folder
  }

  /** What operation op makes of the content c of the name (n, x). */
  ghost function Effect(c: Content, op: Op, n: seq<Byte>, x: seq<Byte>, spc: nat): Content
  {
    if !SameName(op.Name(), op.Ext(), n, x) then c
    else
      match op
      case Write(_, _, data) => Bytes(Stored(data, spc))
      case Remove(_, _) => Nothing
      case MakeDir(_) => Folder
  }

  ghost function Effects(c: Content, ops: seq<Op>, n: seq<Byte>, x: seq<Byte>, spc: nat): Content
  {
    if ops == [] then c else Effect(Effects(c, ops[..|ops| - 1], n, x, spc), ops[|ops| - 1], n, x, spc)
  }

  ghost function Seen(v: Vol, geo: Geometry, cat: Catalog, d: nat, n: seq<Byte>, x: seq<Byte>): Content
    requires geo.Ok() && Consistent(v, geo, cat) && d in cat.dirs
  {
    ContentOf(Find(v, geo, cat, d, n, x))
  }

  /** One operation: the named content changes as it should, and nothing else does. */
  ghost predicate Did(v: Vol, v': Vol, geo: Geometry, cat: Catalog, cat': Catalog, d: nat, op: Op)
    requires geo.Ok()
  {
    && Consistent(v, geo, cat) && Consistent(v', geo, cat') && d in cat.dirs && d in cat'.dirs
    && Seen(v', geo, cat', d, op.Name(), op.Ext()) == Effect(Nothing, op, op.Name(), op.Ext(), geo.sectorsPerCluster)
    && OthersSame(v, v', geo, cat, cat', d, op.Name(), op.Ext())
  }

  lemma DidEffect(v: Vol, v': Vol, geo: Geometry, cat: Catalog, cat': Catalog, d: nat, op: Op, n: seq<Byte>,
                  x: seq<Byte>)
    requires geo.Ok() && Did(v, v', geo, cat, cat', d, op)
    ensures Seen(v', geo, cat', d, n, x) == Effect(Seen(v, geo, cat, d, n, x), op, n, x, geo.sectorsPerCluster)
  {
    hide DirOk, ChainsOk, Find;
    if SameName(op.Name(), op.Ext(), n, x) {
      SameNameSameFind(v', geo, cat', d, op.Name(), op.Ext(), n, x);
    }
  }

  method Perform(fs: FileSystem, op: Op, ghost cat: Catalog) returns (ok: bool, ghost cat': Catalog)
    requires fs.vol.Valid() && Consistent(fs.vol.State(), fs.vol.geo, cat) && fs.Dir() in cat.dirs && op.Ok()
    modifies fs.vol`ioBuf, fs.vol.fat, fs.vol.disk
    ensures ok ==> Did(old(fs.vol.State()), fs.vol.State(), fs.vol.geo, cat, cat', fs.Dir(), op)
    ensures ok ==> |cat.dirs - cat'.dirs| <= if op.Remove? then 1 else 0
  {
    hide OnDisk, Table, AllData, Tops, Volume.Flushed, DirOk, ChainsOk, Find, OthersSame, RoomFor, Cleared,
      HasFree, FreeBelow, Legal, EmptyDirectory;
    ghost var first;
    match op {
      case Write(n, x, data) =>
        ok, cat' := PerformWrite(fs, n, x, data, cat);
        assert ok ==> cat.dirs - cat'.dirs == {};
      case Remove(n, x) =>
        ghost var o := Find(fs.vol.State(), fs.vol.geo, cat, fs.Dir(), n, x);
        ok, cat' := Delete(fs, n, x, cat);
        assert ok ==> cat.dirs - cat'.dirs <= (if o.Directory? then {o.first} else {});
        OneAtMost(cat.dirs - cat'.dirs, o);
      case MakeDir(n) =>
        ok, cat', first := Mkdir(fs, n, cat);
        assert ok ==> cat.dirs - cat'.dirs == {};
    }
  }

  method PerformWrite(fs: FileSystem, n: seq<Byte>, x: seq<Byte>, data: seq<Byte>, ghost cat: Catalog)
    returns (ok: bool, ghost cat': Catalog)
    requires fs.vol.Valid() && Consistent(fs.vol.State(), fs.vol.geo, cat) && fs.Dir() in cat.dirs
    requires Write(n, x, data).Ok()
    modifies fs.vol`ioBuf, fs.vol.fat, fs.vol.disk
    ensures ok ==> cat'.dirs == cat.dirs
    ensures ok ==> Did(old(fs.vol.State()), fs.vol.State(), fs.vol.geo, cat, cat', fs.Dir(),
                       Write(n, x, data))
  {
    hide OnDisk, Table, AllData, Tops, Volume.Flushed, DirOk, ChainsOk, Find, OthersSame, RoomFor, Cleared,
      HasFree, FreeBelow, Legal;
    var src := new Byte[|data|](i requires 0 <= i < |data| => data[i]);
    assert src[..|data|] == data;
    ghost var first;
    ok, cat', first := WriteFile(fs, n, x, src, |data|, cat);
  }

  lemma OneAtMost(gone: set<nat>, o: Object)
    ensures gone <= (if o.Directory? then {o.first} else {}) ==> |gone| <= 1
  {
    if o.Directory? && gone <= {o.first} && gone != {} {
      assert gone == {o.first};
    }
  }

  function Removals(ops: seq<Op>): nat
  {
    if ops == [] then 0 else Removals(ops[..|ops| - 1]) + if ops[|ops| - 1].Remove? then 1 else 0
  }

  /** Every name in these directories, other than d, stands for the same as before. */
  ghost predicate Untouched(v: Vol, v': Vol, geo: Geometry, cat: Catalog, cat': Catalog, d: nat, dirs: set<nat>)
    requires geo.Ok() && Consistent(v, geo, cat) && Consistent(v', geo, cat')
  {
    dirs <= cat.dirs && dirs <= cat'.dirs &&
    forall g: nat, n: seq<Byte>, x: seq<Byte> :: g in dirs && g != d ==>
      Find(v', geo, cat', g, n, x) == Find(v, geo, cat, g, n, x)
  }

  lemma StillUntouched(v0: Vol, v: Vol, v': Vol, geo: Geometry, cat0: Catalog, cat: Catalog, cat': Catalog, d: nat,
                       op: Op, dirs: set<nat>)
    requires geo.Ok() && Consistent(v0, geo, cat0) && Did(v, v', geo, cat, cat', d, op)
    requires Untouched(v0, v, geo, cat0, cat, d, dirs)
    ensures Untouched(v0, v', geo, cat0, cat', d, dirs * cat'.dirs)
    ensures |cat0.dirs - dirs * cat'.dirs| <= |cat0.dirs - dirs| + |cat.dirs - cat'.dirs|
  {
    hide DirOk, ChainsOk, Find, Seen, Effect;
    forall g: nat, n: seq<Byte>, x: seq<Byte> | g in dirs * cat'.dirs && g != d
      ensures Find(v', geo, cat', g, n, x) == Find(v0, geo, cat0, g, n, x)
    {
      assert Find(v, geo, cat, g, n, x) == Find(v0, geo, cat0, g, n, x);
    }
    var gone, more := cat0.dirs - dirs, cat.dirs - cat'.dirs;
    assert cat0.dirs - dirs * cat'.dirs <= gone + more;
    SubsetCount(cat0.dirs - dirs * cat'.dirs, gone + more);
    assert |gone + more| <= |gone| + |more| by {
      assert gone + more == gone + (more - gone);
      SubsetCount(more - gone, more);
    }
  }

  lemma SubsetCount(a: set<nat>, b: set<nat>)
    requires a <= b
    ensures |a| <= |b|
  {
    assert b == a + (b - a);
  }

  /** A run of operations, up to the first that fails. In the directory it works in every name ends up as
      in the plain table; in all others every name stands for what it stood for, but for the directories
      deleted on the way, of which each deletion takes one at most. */
  method Run(fs: FileSystem, ops: seq<Op>, ghost cat: Catalog)
    returns (ok: bool, ghost cat': Catalog, ghost survivors: set<nat>)
    requires fs.vol.Valid() && Consistent(fs.vol.State(), fs.vol.geo, cat) && fs.Dir() in cat.dirs
    requires forall i :: 0 <= i < |ops| ==> ops[i].Ok()
    modifies fs.vol`ioBuf, fs.vol.fat, fs.vol.disk
    ensures ok ==> Consistent(fs.vol.State(), fs.vol.geo, cat') && fs.Dir() in cat'.dirs
    ensures ok ==> forall n: seq<Byte>, x: seq<Byte> ::
      Seen(fs.vol.State(), fs.vol.geo, cat', fs.Dir(), n, x) ==
      Effects(old(Seen(fs.vol.State(), fs.vol.geo, cat, fs.Dir(), n, x)), ops, n, x, fs.vol.geo.sectorsPerCluster)
    ensures ok ==> Untouched(old(fs.vol.State()), fs.vol.State(), fs.vol.geo, cat, cat', fs.Dir(), survivors)
    ensures ok ==> |cat.dirs - survivors| <= Removals(ops)
  {
    hide Table, AllData, Consistent, Seen, Did, Effect, Untouched;
    ghost var v0, geo, d := fs.vol.State(), fs.vol.geo, fs.Dir();
    cat', survivors := cat, cat.dirs;
    ok := true;
    NothingTouched(v0, geo, cat, d);
    var i := 0;
    while i < |ops|
      invariant 0 <= i <= |ops| && ok
      invariant Consistent(fs.vol.State(), geo, cat') && d in cat'.dirs
      invariant Untouched(v0, fs.vol.State(), geo, cat, cat', d, survivors)
        && |cat.dirs - survivors| <= Removals(ops[..i])
      invariant forall n: seq<Byte>, x: seq<Byte> ::
        Seen(fs.vol.State(), geo, cat', d, n, x) ==
          Effects(Seen(v0, geo, cat, d, n, x), ops[..i], n, x, geo.sectorsPerCluster)
    {
      ghost var v, cat1 := fs.vol.State(), cat';
      ok, cat' := Perform(fs, ops[i], cat1);
      if !ok {
        return;
      }
      DidConsistent(v, fs.vol.State(), geo, cat1, cat', d, ops[i]);
      StillUntouched(v0, v, fs.vol.State(), geo, cat, cat1, cat', d, ops[i], survivors);
      survivors := survivors * cat'.dirs;
      assert ops[..i + 1][..i] == ops[..i];
      forall n: seq<Byte>, x: seq<Byte>
        ensures Seen(fs.vol.State(), geo, cat', d, n, x) ==
          Effects(Seen(v0, geo, cat, d, n, x), ops[..i + 1], n, x, geo.sectorsPerCluster)
      {
        DidEffect(v, fs.vol.State(), geo, cat1, cat', d, ops[i], n, x);
      }
      i := i + 1;
    }
    assert ops[..|ops|] == ops;
  }

  lemma NothingTouched(v: Vol, geo: Geometry, cat: Catalog, d: nat)
    requires geo.Ok() && Consistent(v, geo, cat)
    ensures Untouched(v, v, geo, cat, cat, d, cat.dirs) && cat.dirs - cat.dirs == {}
  {
  }

  lemma DidConsistent(v: Vol, v': Vol, geo: Geometry, cat: Catalog, cat': Catalog, d: nat, op: Op)
    requires geo.Ok() && Did(v, v', geo, cat, cat', d, op)
    ensures Consistent(v', geo, cat') && d in cat'.dirs
  {
  }

  // ----- writing and reading back

  /** A file that was written reads back as it was, byte for byte, exactly when rounding its length up to
      whole clusters does not wrap. */
  method WriteThenRead(fs: FileSystem, name: seq<Byte>, ext: seq<Byte>, src: array<Byte>, len: nat, dst: array<Byte>,
                       ghost cat: Catalog)
    returns (ok: bool, n: nat, ghost cat': Catalog)
    requires fs.vol.Valid() && Consistent(fs.vol.State(), fs.vol.geo, cat) && fs.Dir() in cat.dirs
    requires Legal(name, ext) && len <= src.Length && len < U32 && len <= dst.Length && src != dst
    requires src != fs.vol.fat && src as object != fs.vol.disk as object
    requires dst != fs.vol.fat && dst as object != fs.vol.disk as object
    modifies fs.vol`ioBuf, fs.vol.fat, fs.vol.disk, dst
    ensures ok <==>
      && !old(Find(fs.vol.State(), fs.vol.geo, cat, fs.Dir(), name, ext)).Directory?
      && old(RoomFor(fs.vol.State(), fs.vol.geo, cat, fs.Dir(), name, ext, len))
    ensures ok ==>
      && Consistent(fs.vol.State(), fs.vol.geo, cat')
      && OthersSame(old(fs.vol.State()), fs.vol.State(), fs.vol.geo, cat, cat', fs.Dir(), name, ext)
      && (n == len && dst[..len] == src[..len] <==> len + SECTOR * fs.vol.geo.sectorsPerCluster <= U32)
  {
    hide OnDisk, Table, AllData, Tops, Volume.Flushed, DirOk, ChainsOk, Find, OthersSame, RoomFor, Cleared,
      HasFree, Legal;
    ghost var first, data := 0, src[..len];
    n := 0;
    ok, cat', first := WriteFile(fs, name, ext, src, len, cat);
    if ok {
      var found;
      found, n := ReadFile(fs, name, ext, dst, len, cat');
      assert src[..len] == data;
    }
  }

  // ----- where runs may start

  /** The catalog of a volume with an empty root directory of one cluster and nothing else. */
  ghost function EmptyCatalog(geo: Geometry): Catalog
  {
    Catalog(map[geo.root := [geo.root]], map[geo.root := geo.root], {geo.root}, map[], map[geo.root := 0])
  }

  /** A freshly formatted volume is consistent, and nothing is found on it. */
  lemma FormattedOk(v: Vol, geo: Geometry)
    requires geo.Ok() && |v.data| == geo.MaxCluster() && Sized(v, geo.sectorsPerCluster)
    requires v.fat[geo.root] >= EOC && v.fat[geo.root] < U28 && v.data[geo.root] == ZeroCluster(geo.sectorsPerCluster)
    ensures Consistent(v, geo, EmptyCatalog(geo))
    ensures forall n: seq<Byte>, x: seq<Byte> :: Find(v, geo, EmptyCatalog(geo), geo.root, n, x) == Absent
  {
    var cat, cs := EmptyCatalog(geo), [geo.root];
    assert LinkAt(v.fat, cs, 0);
    assert ChainsOk(v, geo, cat);
    hide EntryAt;
    forall q: Pos | InDir(cs, geo.sectorsPerCluster, q) ensures At(v, cs, q) == Blank() {
      BlankEntry(q.i);
    }
    hide At;
    assert DirOk(v, geo, cat, geo.root, None);
    forall n: seq<Byte>, x: seq<Byte>
      ensures Find(v, geo, cat, geo.root, n, x) == Absent
    {
      BlankHasNothing(v, geo, cat, geo.root, n, x);
    }
  }

  lemma BlankHasNothing(v: Vol, geo: Geometry, cat: Catalog, d: nat, n: seq<Byte>, x: seq<Byte>)
    requires geo.Ok() && Consistent(v, geo, cat) && d in cat.dirs
    requires forall q: Pos :: InDir(cat.chains[d], geo.sectorsPerCluster, q) ==> At(v, cat.chains[d], q) == Blank()
    ensures Find(v, geo, cat, d, n, x) == Absent
  {
    hide At, TailUnused, UniqueNames, Find, EntryOk;
    assert DirOk(v, geo, cat, d, None);
    FindAbsent(v, geo, cat, d, n, x);
  }
}
