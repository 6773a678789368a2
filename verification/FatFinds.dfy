/** What the names of a consistent volume stand for, and that each step of an operation changes it
    for no other name. */
module FatFinds {
  import opened Words
  import opened FatTable
  import opened FatVolume
  import opened FatDir
  import opened FatBytes
  import opened FatCatalog

  // ----- looking names up

  /** The entry of a directory that a name finds. */
  ghost function Lookup(v: Vol, cs: seq<nat>, spc: nat, name: seq<Byte>, ext: seq<Byte>): (r: Option<Pos>)
    ensures r.Some? ==> FindsAt(v, cs, spc, Named(name, ext), r.value)
    ensures r.None? ==> forall p: Pos :: !FindsAt(v, cs, spc, Named(name, ext), p)
  {
    if exists p: Pos :: FindsAt(v, cs, spc, Named(name, ext), p) then
      var p: Pos :| FindsAt(v, cs, spc, Named(name, ext), p);
      Some(p)
    else None
  }

  lemma LookupIs(v: Vol, cs: seq<nat>, spc: nat, name: seq<Byte>, ext: seq<Byte>, p: Pos)
    requires FindsAt(v, cs, spc, Named(name, ext), p)
    ensures Lookup(v, cs, spc, name, ext) == Some(p)
  {
    var r := Lookup(v, cs, spc, name, ext).value;
    assert Before(r, p) || r == p || Before(p, r);
  }

  lemma LookupNone(v: Vol, cs: seq<nat>, spc: nat, name: seq<Byte>, ext: seq<Byte>)
    requires FindsNothing(v, cs, spc, Named(name, ext))
    ensures Lookup(v, cs, spc, name, ext) == None
  {
    forall p: Pos ensures !FindsAt(v, cs, spc, Named(name, ext), p) {
    }
  }

  /** What a name in directory d stands for. */
  datatype Object = Absent | File(first: nat, bytes: seq<Byte>) | Directory(first: nat)

  ghost function Find(v: Vol, geo: Geometry, cat: Catalog, d: nat, name: seq<Byte>, ext: seq<Byte>): Object
    requires geo.Ok() && ChainsOk(v, geo, cat) && d in cat.chains
  {
    var spc, cs := geo.sectorsPerCluster, cat.chains[d];
    match Lookup(v, cs, spc, name, ext)
    case None => Absent
    case Some(p) =>
      if IsDirectory(At(v, cs, p)) then Directory(ClusterOf(At(v, cs, p)))
        else File(ClusterOf(At(v, cs, p)), FileBytes(v, geo, cat, At(v, cs, p)))
  }

  // ----- what names find, before and after

  lemma HitsShareKeys(a: Dirent, b: Dirent, name: seq<Byte>, ext: seq<Byte>)
    requires Hit(a, Named(name, ext)) && Hit(b, Named(name, ext))
    ensures SameKeys(a, b)
  {
    forall i: nat | i < 11 ensures Upper(a[i]) == Upper(b[i]) {
      if i < 8 {
        assert Upper(a[..8][i]) == KeyAt(name, i) && Upper(b[..8][i]) == KeyAt(name, i);
      } else {
        assert Upper(a[8..11][i - 8]) == KeyAt(ext, i - 8) && Upper(b[8..11][i - 8]) == KeyAt(ext, i - 8);
      }
    }
  }

  /** In a directory in order, a name finds the one entry that matches it. */
  lemma FindsTheHit(v: Vol, cs: seq<nat>, spc: nat, name: seq<Byte>, ext: seq<Byte>, p: Pos)
    requires TailUnused(v, cs, spc) && UniqueNames(v, cs, spc)
    ensures FindsAt(v, cs, spc, Named(name, ext), p) <==> InDir(cs, spc, p) && Hit(At(v, cs, p), Named(name, ext))
  {
    hide At, SameKeys, FieldMatches;
    if InDir(cs, spc, p) && Hit(At(v, cs, p), Named(name, ext)) {
      forall r: Pos | InDir(cs, spc, r) && Before(r, p)
        ensures !Hit(At(v, cs, r), Named(name, ext)) && !Stop(At(v, cs, r), Named(name, ext))
      {
        if Hit(At(v, cs, r), Named(name, ext)) {
          HitsShareKeys(At(v, cs, r), At(v, cs, p), name, ext);
        }
      }
    }
  }

  ghost predicate InOrder(v: Vol, cs: seq<nat>, spc: nat)
  {
    TailUnused(v, cs, spc) && UniqueNames(v, cs, spc)
  }

  ghost function ObjectOf(v: Vol, geo: Geometry, cat: Catalog, e: Dirent): Object
    requires geo.Ok() && ChainsOk(v, geo, cat)
  {
    if IsDirectory(e) then Directory(ClusterOf(e)) else File(ClusterOf(e), FileBytes(v, geo, cat, e))
  }

  /** The name leads to this entry. */
  ghost predicate StandsFor(v: Vol, cat: Catalog, d: nat, spc: nat, name: seq<Byte>, ext: seq<Byte>, e: Dirent)
  {
    && d in cat.chains
    && var r := Lookup(v, cat.chains[d], spc, name, ext); r.Some? && At(v, cat.chains[d], r.value) == e
  }

  lemma FindIs(v: Vol, geo: Geometry, cat: Catalog, d: nat, name: seq<Byte>, ext: seq<Byte>, p: Pos)
    requires geo.Ok() && ChainsOk(v, geo, cat) && d in cat.chains && InOrder(v, cat.chains[d], geo.sectorsPerCluster)
    requires InDir(cat.chains[d], geo.sectorsPerCluster, p) && Hit(At(v, cat.chains[d], p), Named(name, ext))
    ensures Find(v, geo, cat, d, name, ext) == ObjectOf(v, geo, cat, At(v, cat.chains[d], p))
    ensures StandsFor(v, cat, d, geo.sectorsPerCluster, name, ext, At(v, cat.chains[d], p))
  {
    hide At, TailUnused, UniqueNames, Hit, FindsAt;
    FindsTheHit(v, cat.chains[d], geo.sectorsPerCluster, name, ext, p);
    LookupIs(v, cat.chains[d], geo.sectorsPerCluster, name, ext, p);
  }

  lemma FindAbsent(v: Vol, geo: Geometry, cat: Catalog, d: nat, name: seq<Byte>, ext: seq<Byte>)
    requires geo.Ok() && ChainsOk(v, geo, cat) && d in cat.chains && InOrder(v, cat.chains[d], geo.sectorsPerCluster)
    requires forall p: Pos :: InDir(cat.chains[d], geo.sectorsPerCluster, p) ==>
      !Hit(At(v, cat.chains[d], p), Named(name, ext))
    ensures Find(v, geo, cat, d, name, ext) == Absent
  {
    hide At, TailUnused, UniqueNames, Hit;
    LookupNone(v, cat.chains[d], geo.sectorsPerCluster, name, ext);
  }

  /** A name whose entry, and what the entry stands for, are the same finds the same. */
  lemma FindSame(v: Vol, v': Vol, geo: Geometry, cat: Catalog, cat': Catalog, g: nat, name: seq<Byte>, ext: seq<Byte>)
    requires geo.Ok() && ChainsOk(v, geo, cat) && ChainsOk(v', geo, cat') && g in cat.chains && g in cat'.chains
    requires InOrder(v, cat.chains[g], geo.sectorsPerCluster) && InOrder(v', cat'.chains[g], geo.sectorsPerCluster)
    requires forall q: Pos ::
      (InDir(cat'.chains[g], geo.sectorsPerCluster, q) && Hit(At(v', cat'.chains[g], q), Named(name, ext))) <==>
      (InDir(cat.chains[g], geo.sectorsPerCluster, q) && Hit(At(v, cat.chains[g], q), Named(name, ext)))
    requires forall q: Pos ::
      InDir(cat.chains[g], geo.sectorsPerCluster, q) && Hit(At(v, cat.chains[g], q), Named(name, ext)) ==>
        && At(v', cat'.chains[g], q) == At(v, cat.chains[g], q)
        && ObjectOf(v', geo, cat', At(v, cat.chains[g], q)) == ObjectOf(v, geo, cat, At(v, cat.chains[g], q))
    ensures Find(v', geo, cat', g, name, ext) == Find(v, geo, cat, g, name, ext)
  {
    hide At, InOrder, Hit, ObjectOf, ChainsOk, Find;
    if p: Pos :| InDir(cat.chains[g], geo.sectorsPerCluster, p) && Hit(At(v, cat.chains[g], p), Named(name, ext)) {
      FindIs(v, geo, cat, g, name, ext, p);
      FindIs(v', geo, cat', g, name, ext, p);
    } else {
      FindAbsent(v, geo, cat, g, name, ext);
      FindAbsent(v', geo, cat', g, name, ext);
    }
  }

  /** A file whose chain and clusters are unchanged has the same contents. */
  lemma SameObject(v: Vol, v': Vol, geo: Geometry, cat: Catalog, cat': Catalog, e: Dirent)
    requires geo.Ok() && ChainsOk(v, geo, cat) && ChainsOk(v', geo, cat')
    requires !IsDirectory(e) && ClusterOf(e) >= 2 ==>
      var c := ClusterOf(e);
      && c in cat.chains && c in cat'.chains && cat'.chains[c] == cat.chains[c]
      && forall k :: 0 <= k < |cat.chains[c]| ==> v'.data[cat.chains[c][k]] == v.data[cat.chains[c][k]]
    ensures ObjectOf(v', geo, cat', e) == ObjectOf(v, geo, cat, e)
  {
    var c := ClusterOf(e);
    if !IsDirectory(e) && c >= 2 {
      StreamKept(v, v', cat.chains[c]);
    }
  }

  predicate SameName(name: seq<Byte>, ext: seq<Byte>, name': seq<Byte>, ext': seq<Byte>)
  {
    SameKey(name, name', 8) && SameKey(ext, ext', 3)
  }

  /** One entry matches two names only when they are the same name. */
  lemma HitOneName(e: Dirent, name: seq<Byte>, ext: seq<Byte>, name': seq<Byte>, ext': seq<Byte>)
    requires Hit(e, Named(name, ext)) && Hit(e, Named(name', ext'))
    ensures SameName(name, ext, name', ext')
  {
    forall i: nat | i < 8 ensures KeyAt(name, i) == KeyAt(name', i) {
      assert Upper(e[..8][i]) == KeyAt(name, i) && Upper(e[..8][i]) == KeyAt(name', i);
    }
    forall i: nat | i < 3 ensures KeyAt(ext, i) == KeyAt(ext', i) {
      assert Upper(e[8..11][i]) == KeyAt(ext, i) && Upper(e[8..11][i]) == KeyAt(ext', i);
    }
  }

  /** What it means for a name when the search finds nothing, and when it stops at p. */
  lemma NothingFound(v: Vol, geo: Geometry, cat: Catalog, d: nat, name: seq<Byte>, ext: seq<Byte>)
    requires geo.Ok() && ChainsOk(v, geo, cat) && d in cat.chains
    requires FindsNothing(v, cat.chains[d], geo.sectorsPerCluster, Named(name, ext))
    ensures Find(v, geo, cat, d, name, ext) == Absent
  {
    LookupNone(v, cat.chains[d], geo.sectorsPerCluster, name, ext);
  }

  lemma FoundEntry(v: Vol, geo: Geometry, cat: Catalog, d: nat, name: seq<Byte>, ext: seq<Byte>, p: Pos)
    requires geo.Ok() && Consistent(v, geo, cat) && d in cat.dirs
    requires FindsAt(v, cat.chains[d], geo.sectorsPerCluster, Named(name, ext), p)
    ensures Find(v, geo, cat, d, name, ext) == ObjectOf(v, geo, cat, At(v, cat.chains[d], p))
    ensures Lookup(v, cat.chains[d], geo.sectorsPerCluster, name, ext) == Some(p)
    ensures Visible(At(v, cat.chains[d], p)) && EntryOk(cat, Place(d, p), At(v, cat.chains[d], p))
  {
    hide PassesTo, TailUnused, UniqueNames;
    assert DirOk(v, geo, cat, d, None);
    HitVisible(At(v, cat.chains[d], p), name, ext);
    LookupIs(v, cat.chains[d], geo.sectorsPerCluster, name, ext, p);
  }

  // ----- steps change nothing for the names that avoid the entry they work on

  /** The entry at the hole does not match the name. */
  ghost predicate Avoids(v: Vol, cat: Catalog, hole: Option<Place>, g: nat, name: seq<Byte>, ext: seq<Byte>)
    requires g in cat.chains
  {
    forall q: Pos :: hole == Some(Place(g, q)) ==> !Hit(At(v, cat.chains[g], q), Named(name, ext))
  }

  /** The files named outside the hole keep their chains and clusters. */
  ghost predicate FilesKept(v: Vol, v': Vol, cat: Catalog, cat': Catalog, hole: Option<Place>)
  {
    forall c :: c in cat.chains && c !in cat.dirs && c in cat.home && hole != Some(cat.home[c]) ==>
      && c in cat'.chains && cat'.chains[c] == cat.chains[c]
      && forall k :: 0 <= k < |cat.chains[c]| ==>
           cat.chains[c][k] < |v.data| && cat.chains[c][k] < |v'.data|
             && v'.data[cat.chains[c][k]] == v.data[cat.chains[c][k]]
  }

  /** The name matches the same entries before and after. */
  ghost predicate SameHits(v: Vol, v': Vol, cs: seq<nat>, cs': seq<nat>, spc: nat, name: seq<Byte>, ext: seq<Byte>)
  {
    && (forall q: Pos :: InDir(cs', spc, q) && Hit(At(v', cs', q), Named(name, ext)) ==>
          InDir(cs, spc, q) && At(v', cs', q) == At(v, cs, q))
    && (forall q: Pos :: InDir(cs, spc, q) && Hit(At(v, cs, q), Named(name, ext)) ==>
          InDir(cs', spc, q) && At(v', cs', q) == At(v, cs, q))
  }

  lemma StepKeepsFind(v: Vol, v': Vol, geo: Geometry, cat: Catalog, cat': Catalog, hole: Option<Place>,
                      hole': Option<Place>, g: nat, name: seq<Byte>, ext: seq<Byte>)
    requires geo.Ok() && ConsistentBut(v, geo, cat, hole) && ConsistentBut(v', geo, cat', hole')
    requires g in cat.dirs && g in cat'.dirs && Avoids(v, cat, hole, g, name, ext)
    requires FilesKept(v, v', cat, cat', hole)
    requires SameHits(v, v', cat.chains[g], cat'.chains[g], geo.sectorsPerCluster, name, ext)
    ensures Find(v', geo, cat', g, name, ext) == Find(v, geo, cat, g, name, ext)
  {
    hide At, Hit, TailUnused, UniqueNames, Chain;
    assert DirOk(v, geo, cat, g, hole) && DirOk(v', geo, cat', g, hole');
    forall q: Pos | InDir(cat.chains[g], geo.sectorsPerCluster, q) && Hit(At(v, cat.chains[g], q), Named(name, ext))
      ensures ObjectOf(v', geo, cat', At(v, cat.chains[g], q)) == ObjectOf(v, geo, cat, At(v, cat.chains[g], q))
    {
      HitVisible(At(v, cat.chains[g], q), name, ext);
      assert EntryOk(cat, Place(g, q), At(v, cat.chains[g], q));
      SameObject(v, v', geo, cat, cat', At(v, cat.chains[g], q));
    }
    FindSame(v, v', geo, cat, cat', g, name, ext);
  }

  lemma HitVisible(e: Dirent, name: seq<Byte>, ext: seq<Byte>)
    requires Hit(e, Named(name, ext))
    ensures Visible(e)
  {
  }

  /** What a name stands for does not depend on the catalog chosen: the volume determines it, from
      the root down. */
  lemma FindDetermined(v: Vol, geo: Geometry, cat: Catalog, cat': Catalog, d: nat, name: seq<Byte>, ext: seq<Byte>)
    requires geo.Ok() && Consistent(v, geo, cat) && Consistent(v, geo, cat') && d in cat.dirs && d in cat'.dirs
    ensures Find(v, geo, cat, d, name, ext) == Find(v, geo, cat', d, name, ext)
    ensures var o := Find(v, geo, cat, d, name, ext);
      o.Directory? && KeyAt(name, 0) != DOT ==> o.first in cat.dirs && o.first in cat'.dirs
  {
    hide At, TailUnused, UniqueNames, PassesTo, LinkAt, Distinct, Visible;
    ChainUnique(v.fat, geo.MaxCluster(), cat.chains[d], cat'.chains[d]);
    var r := Lookup(v, cat.chains[d], geo.sectorsPerCluster, name, ext);
    if r.Some? {
      var p := r.value;
      var e := At(v, cat.chains[d], p);
      FoundEntry(v, geo, cat, d, name, ext, p);
      FoundEntry(v, geo, cat', d, name, ext, p);
      assert Upper(e[..8][0]) == KeyAt(name, 0);
      if !IsDirectory(e) && ClusterOf(e) >= 2 {
        ChainUnique(v.fat, geo.MaxCluster(), cat.chains[ClusterOf(e)], cat'.chains[ClusterOf(e)]);
      }
    }
  }

  /** Names that differ only in case or padding find the same. */
  lemma SameNameSameFind(v: Vol, geo: Geometry, cat: Catalog, d: nat, n: seq<Byte>, x: seq<Byte>, n': seq<Byte>,
                         x': seq<Byte>)
    requires geo.Ok() && ChainsOk(v, geo, cat) && d in cat.chains && SameName(n, x, n', x')
    ensures Find(v, geo, cat, d, n, x) == Find(v, geo, cat, d, n', x')
  {
    hide At;
    var cs, spc := cat.chains[d], geo.sectorsPerCluster;
    forall e: Dirent ensures Hit(e, Named(n, x)) <==> Hit(e, Named(n', x')) {
    }
    assert forall e: Dirent :: Stop(e, Named(n, x)) <==> Stop(e, Named(n', x'));
    var r := Lookup(v, cs, spc, n, x);
    if r.Some? {
      LookupIs(v, cs, spc, n', x', r.value);
    } else {
      forall p: Pos ensures !FindsAt(v, cs, spc, Named(n', x'), p) {
        assert FindsAt(v, cs, spc, Named(n', x'), p) ==> FindsAt(v, cs, spc, Named(n, x), p);
      }
    }
  }
}
