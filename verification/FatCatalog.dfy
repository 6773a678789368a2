/** What a consistent volume contains: chains, directories and the files in them, and how freeing,
    building and linking chains and rewriting entries change it. */
module FatCatalog {
  import opened Words
  import opened FatTable
  import opened FatVolume
  import opened FatDir
  import opened FatBytes

  /** Where an entry is: its directory and its position there. */
  datatype Place = Place(dir: nat, pos: Pos)

  /** The structure of a volume: its chains by first cluster, the chain every cluster belongs to,
      which chains are directories, the entry that names each chain, and how deep directories are. */
  datatype Catalog = Catalog(chains: map<nat, seq<nat>>, owner: map<nat, nat>, dirs: set<nat>,
                             home: map<nat, Place>, depth: map<nat, nat>)

  /** Chains are well formed and share no cluster. */
  ghost predicate ChainsOk(v: Vol, geo: Geometry, cat: Catalog)
    requires geo.Ok()
  {
    && Sized(v, geo.sectorsPerCluster) && |v.data| == geo.MaxCluster()
    && (forall h :: h in cat.chains ==> Chain(v.fat, geo.MaxCluster(), cat.chains[h]) && cat.chains[h][0] == h)
    && (forall h, k :: h in cat.chains && 0 <= k < |cat.chains[h]| ==>
          cat.chains[h][k] in cat.owner && cat.owner[cat.chains[h][k]] == h)
    && (forall c :: c in cat.owner ==> cat.owner[c] in cat.chains && c in cat.chains[cat.owner[c]])
  }

  ghost predicate IsDot(e: Dirent)
  {
    First(e) == DOT
  }

  /** The chain an entry names exists, is named by no other entry, and is a directory exactly when
      the entry says so. Only a file may have no chain. Entries starting with a dot are marked as
      directories, wherever they lead. */
  ghost predicate EntryOk(cat: Catalog, place: Place, e: Dirent)
  {
    var c := ClusterOf(e);
    if IsDot(e) then IsDirectory(e)
    else if c < 2 then !IsDirectory(e)
    else
      && c in cat.chains && c in cat.home && cat.home[c] == place
      && (IsDirectory(e) <==> c in cat.dirs)
      && (IsDirectory(e) ==> place.dir in cat.depth && c in cat.depth && cat.depth[c] == cat.depth[place.dir] + 1)
  }

  ghost predicate SameKeys(a: Dirent, b: Dirent)
  {
    forall i: nat :: i < 11 ==> Upper(a[i]) == Upper(b[i])
  }

  ghost predicate UniqueNames(v: Vol, cs: seq<nat>, spc: nat)
  {
    forall p: Pos, q: Pos ::
      InDir(cs, spc, p) && InDir(cs, spc, q) && Visible(At(v, cs, p)) && Visible(At(v, cs, q)) && p != q ==>
        !SameKeys(At(v, cs, p), At(v, cs, q))
  }

  /** Directory d is in order, the entry at `hole` (if it is in d) left out of account. */
  ghost predicate DirOk(v: Vol, geo: Geometry, cat: Catalog, d: nat, hole: Option<Place>)
    requires geo.Ok() && ChainsOk(v, geo, cat) && d in cat.chains
  {
    var spc, cs := geo.sectorsPerCluster, cat.chains[d];
    && TailUnused(v, cs, spc)
    && (forall p: Pos :: InDir(cs, spc, p) && Visible(At(v, cs, p)) && hole != Some(Place(d, p)) ==>
          EntryOk(cat, Place(d, p), At(v, cs, p)))
    && UniqueNames(v, cs, spc)
  }

  /** The volume is consistent, the entry at `hole` left out of account. */
  ghost predicate ConsistentBut(v: Vol, geo: Geometry, cat: Catalog, hole: Option<Place>)
    requires geo.Ok()
  {
    && ChainsOk(v, geo, cat)
    && geo.root in cat.dirs && cat.dirs <= cat.chains.Keys && cat.dirs <= cat.depth.Keys && geo.root !in cat.home
    && (forall d :: d in cat.dirs ==> DirOk(v, geo, cat, d, hole))
  }

  ghost predicate Consistent(v: Vol, geo: Geometry, cat: Catalog)
    requires geo.Ok()
  {
    ConsistentBut(v, geo, cat, None)
  }

  // ----- the bytes of a file

  /** The contents of the file an entry names: the first `size` bytes of its chain. */
  ghost function FileBytes(v: Vol, geo: Geometry, cat: Catalog, e: Dirent): seq<Byte>
    requires geo.Ok() && ChainsOk(v, geo, cat)
  {
    var c := ClusterOf(e);
    if c < 2 || c !in cat.chains then []
    else
      var s := Stream(v, cat.chains[c]);
      if SizeOf(e) <= |s| then s[..SizeOf(e)] else s
  }

  /** The chain of the file an entry names; a file without a cluster has none. */
  ghost function ChainOf(cat: Catalog, e: Dirent): seq<nat>
  {
    if ClusterOf(e) in cat.chains then cat.chains[ClusterOf(e)] else []
  }

  lemma FileChain(v: Vol, geo: Geometry, cat: Catalog, place: Place, e: Dirent)
    requires geo.Ok() && ChainsOk(v, geo, cat) && EntryOk(cat, place, e) && !IsDirectory(e)
    ensures var cs := ChainOf(cat, e);
      && (if cs == [] then ClusterOf(e) < 2
          else Chain(v.fat, geo.MaxCluster(), cs) && Inside(v, cs, geo.sectorsPerCluster) && cs[0] == ClusterOf(e))
      && (forall k :: 0 <= k < |cs| ==> cs[k] < |v.data|)
      && FileBytes(v, geo, cat, e) == Stream(v, cs)[..Min(SizeOf(e), |Stream(v, cs)|)]
  {
  }

  lemma DirChain(v: Vol, geo: Geometry, cat: Catalog, d: nat)
    requires geo.Ok() && ChainsOk(v, geo, cat) && d in cat.chains
    ensures var cs := cat.chains[d];
      && Chain(v.fat, geo.MaxCluster(), cs) && Inside(v, cs, geo.sectorsPerCluster) && cs != [] && cs[0] == d
      && d < ENTRIES
      && |v.data| == geo.MaxCluster() && 2 <= cs[|cs| - 1] < geo.MaxCluster() && v.fat[cs[|cs| - 1]] != 0
  {
    var cs := cat.chains[d];
    assert LinkAt(v.fat, cs, |cs| - 1);
  }

  // ----- freeing the chain of one entry

  ghost function WithoutChain(cat: Catalog, h: nat): Catalog
    requires h in cat.chains
  {
    cat.(chains := cat.chains - {h}, owner := map c | c in cat.owner && cat.owner[c] != h ::
      cat.owner[c], dirs := cat.dirs - {h})
  }

  /** The volume with the entries of a chain cleared in the table. */
  ghost function Freed(v: Vol, cs: seq<nat>): Vol
  {
    v.(fat := Cleared(v.fat, cs))
  }

  lemma FreeKeepsChains(v: Vol, geo: Geometry, cat: Catalog, h: nat)
    requires geo.Ok() && ChainsOk(v, geo, cat) && h in cat.chains
    ensures ChainsOk(Freed(v, cat.chains[h]), geo, WithoutChain(cat, h))
  {
    var v', cat' := Freed(v, cat.chains[h]), WithoutChain(cat, h);
    forall g | g in cat'.chains
      ensures Chain(v'.fat, geo.MaxCluster(), cat'.chains[g])
    {
      forall k | 0 <= k < |cat.chains[g]| ensures v'.fat[cat.chains[g][k]] == v.fat[cat.chains[g][k]] {
        assert cat.owner[cat.chains[g][k]] == g;
      }
      ChainKept(v.fat, v'.fat, geo.MaxCluster(), cat.chains[g]);
    }
  }

  /** Freeing the chain named at `place`: everything but that entry stays consistent. */
  lemma FreeKeepsConsistent(v: Vol, geo: Geometry, cat: Catalog, h: nat, place: Place)
    requires geo.Ok() && Consistent(v, geo, cat) && h in cat.chains && h in cat.home && cat.home[h] == place
    ensures ConsistentBut(Freed(v, cat.chains[h]), geo, WithoutChain(cat, h), Some(place))
  {
    hide DirOk, Cleared;
    var v', cat' := Freed(v, cat.chains[h]), WithoutChain(cat, h);
    FreeKeepsChains(v, geo, cat, h);
    forall d | d in cat'.dirs
      ensures DirOk(v', geo, cat', d, Some(place))
    {
      assert DirOk(v, geo, cat, d, None);
      DirKept(v, v', geo, cat, cat', d, None, Some(place));
    }
  }

  // ----- a new chain

  /** v' is v with a new chain nc, built from free clusters. */
  ghost predicate Built(v: Vol, v': Vol, geo: Geometry, nc: seq<nat>)
    requires geo.Ok()
  {
    && |v.data| == |v'.data| == geo.MaxCluster() && Sized(v', geo.sectorsPerCluster)
    && Chain(v'.fat, geo.MaxCluster(), nc)
    && (forall k :: 0 <= k < |nc| ==> v.fat[nc[k]] == 0)
    && (forall c :: 0 <= c < ENTRIES && c !in nc ==> v'.fat[c] == v.fat[c])
    && (forall c :: 0 <= c < geo.MaxCluster() && c !in nc ==> v'.data[c] == v.data[c])
  }

  ghost function WithChain(cat: Catalog, nc: seq<nat>): Catalog
    requires nc != []
  {
    cat.(chains := cat.chains[nc[0] := nc],
         owner := map c | c in cat.owner.Keys + Clusters(nc) :: if c in nc then nc[0] else cat.owner[c])
  }

  /** Clusters of existing chains are not free. */
  lemma OwnedNotFree(v: Vol, geo: Geometry, cat: Catalog, c: nat)
    requires geo.Ok() && ChainsOk(v, geo, cat) && c in cat.owner
    ensures c < ENTRIES && v.fat[c] != 0
  {
    var cs := cat.chains[cat.owner[c]];
    var k :| 0 <= k < |cs| && cs[k] == c;
    assert LinkAt(v.fat, cs, k);
    if k + 1 < |cs| {
      assert 2 <= cs[k + 1];
    }
  }

  lemma NewChainDisjoint(v: Vol, v': Vol, geo: Geometry, cat: Catalog, nc: seq<nat>)
    requires geo.Ok() && ChainsOk(v, geo, cat) && Built(v, v', geo, nc)
    ensures forall c :: c in nc ==> c !in cat.owner && c !in cat.chains
  {
    forall c | c in nc ensures c !in cat.owner {
      if c in cat.owner {
        OwnedNotFree(v, geo, cat, c);
      }
    }
    assert forall h :: h in cat.chains ==> cat.chains[h][0] in cat.owner;
  }

  lemma NewChainOk(v: Vol, v': Vol, geo: Geometry, cat: Catalog, nc: seq<nat>)
    requires geo.Ok() && ChainsOk(v, geo, cat) && Built(v, v', geo, nc)
    ensures ChainsOk(v', geo, WithChain(cat, nc))
    ensures forall h :: h in cat.chains ==>
      h in WithChain(cat, nc).chains && WithChain(cat, nc).chains[h] == cat.chains[h]
  {
    NewChainDisjoint(v, v', geo, cat, nc);
    var cat' := WithChain(cat, nc);
    assert nc != [] && forall g :: g in cat.chains ==> cat.chains[g] != [];
    hide Chain, LinkAt;
    forall g | g in cat'.chains
      ensures Chain(v'.fat, geo.MaxCluster(), cat'.chains[g]) && cat'.chains[g][0] == g
    {
      if g != nc[0] {
        OldChainKept(v, v', geo, cat, nc, g);
      }
    }
    NewChainOwners(v, geo, cat, nc);
  }

  lemma OldChainKept(v: Vol, v': Vol, geo: Geometry, cat: Catalog, nc: seq<nat>, g: nat)
    requires geo.Ok() && ChainsOk(v, geo, cat) && Built(v, v', geo, nc) && g in cat.chains
    requires forall c :: c in nc ==> c !in cat.owner
    ensures Chain(v'.fat, geo.MaxCluster(), cat.chains[g])
  {
    forall k | 0 <= k < |cat.chains[g]| ensures v'.fat[cat.chains[g][k]] == v.fat[cat.chains[g][k]] {
      assert cat.chains[g][k] in cat.owner;
    }
    ChainKept(v.fat, v'.fat, geo.MaxCluster(), cat.chains[g]);
  }

  lemma NewChainOwners(v: Vol, geo: Geometry, cat: Catalog, nc: seq<nat>)
    requires geo.Ok() && ChainsOk(v, geo, cat) && nc != []
    requires forall c :: c in nc ==> c !in cat.owner && c !in cat.chains
    ensures var cat' := WithChain(cat, nc);
      && (forall h, k :: h in cat'.chains && 0 <= k < |cat'.chains[h]| ==>
            cat'.chains[h][k] in cat'.owner && cat'.owner[cat'.chains[h][k]] == h)
      && forall x :: x in cat'.owner ==> cat'.owner[x] in cat'.chains && x in cat'.chains[cat'.owner[x]]
  {
    hide Chain, LinkAt;
    var cat' := WithChain(cat, nc);
    forall h, k | h in cat'.chains && 0 <= k < |cat'.chains[h]|
      ensures cat'.chains[h][k] in cat'.owner && cat'.owner[cat'.chains[h][k]] == h
    {
      if h == nc[0] {
        assert nc[k] in Clusters(nc);
      } else {
        assert cat.chains[h][k] in cat.owner;
      }
    }
  }

  /** Existing directories do not notice a new chain. */
  lemma NewChainKeepsDirs(v: Vol, v': Vol, geo: Geometry, cat: Catalog, nc: seq<nat>, hole: Option<Place>)
    requires geo.Ok() && ConsistentBut(v, geo, cat, hole) && Built(v, v', geo, nc)
    ensures ConsistentBut(v', geo, WithChain(cat, nc), hole)
  {
    hide DirOk, ChainsOk;
    NewChainOk(v, v', geo, cat, nc);
    NewChainDisjoint(v, v', geo, cat, nc);
    var cat' := WithChain(cat, nc);
    forall d | d in cat'.dirs
      ensures DirOk(v', geo, cat', d, hole)
    {
      assert DirOk(v, geo, cat, d, hole);
      SameClusters(v, v', geo, cat, d, nc);
      DirKept(v, v', geo, cat, cat', d, hole, hole);
    }
  }

  lemma SameClusters(v: Vol, v': Vol, geo: Geometry, cat: Catalog, d: nat, nc: seq<nat>)
    requires geo.Ok() && ChainsOk(v, geo, cat) && Built(v, v', geo, nc) && d in cat.chains
    ensures forall k :: 0 <= k < |cat.chains[d]| ==> v'.data[cat.chains[d][k]] == v.data[cat.chains[d][k]]
  {
    NewChainDisjoint(v, v', geo, cat, nc);
    forall k | 0 <= k < |cat.chains[d]| ensures v'.data[cat.chains[d][k]] == v.data[cat.chains[d][k]] {
      assert cat.chains[d][k] in cat.owner;
    }
  }

  /** A directory whose clusters are unchanged stays in order when the chains its entries name do. */
  lemma DirKept(v: Vol, v': Vol, geo: Geometry, cat: Catalog, cat': Catalog, d: nat, hole: Option<Place>,
                hole': Option<Place>)
    requires geo.Ok() && ChainsOk(v, geo, cat) && ChainsOk(v', geo, cat') && d in cat.chains
      && DirOk(v, geo, cat, d, hole)
    requires d in cat'.chains && cat'.chains[d] == cat.chains[d]
    requires forall k :: 0 <= k < |cat.chains[d]| ==> v'.data[cat.chains[d][k]] == v.data[cat.chains[d][k]]
    requires hole == None || hole == hole'
    requires forall p: Pos, e: Dirent :: hole' != Some(Place(d, p)) && EntryOk(cat, Place(d, p), e) ==>
      EntryOk(cat', Place(d, p), e)
    ensures DirOk(v', geo, cat', d, hole')
  {
    hide TailUnused, UniqueNames, At, EntryOk, Visible;
    SameDataSameAt(v, v', cat.chains[d]);
    SameEntries(v, v', cat.chains[d], geo.sectorsPerCluster);
  }

  lemma SameDataSameAt(v: Vol, v': Vol, cs: seq<nat>)
    requires |v.data| == |v'.data|
    requires forall k :: 0 <= k < |cs| ==> cs[k] < |v.data| && v'.data[cs[k]] == v.data[cs[k]]
    ensures forall q: Pos :: At(v', cs, q) == At(v, cs, q)
  {
  }

  /** Order depends on the entries only. */
  lemma SameEntries(v: Vol, v': Vol, cs: seq<nat>, spc: nat)
    requires forall q: Pos :: InDir(cs, spc, q) ==> At(v', cs, q) == At(v, cs, q)
    ensures TailUnused(v', cs, spc) <==> TailUnused(v, cs, spc)
    ensures UniqueNames(v', cs, spc) <==> UniqueNames(v, cs, spc)
  {
    hide At, Visible, SameKeys, InDir, Before, Occupied;
  }

  // ----- rewriting one entry

  /** v with the entry at position p of the chain cs replaced by e. */
  ghost function SetAt(v: Vol, cs: seq<nat>, p: Pos, e: Dirent): Vol
    requires p.k < |cs| && cs[p.k] < |v.data| && p.s < |v.data[cs[p.k]]| && p.i < 16
  {
    v.(data := WithSector(v.data, cs[p.k], p.s, WithEntryAt(v.data[cs[p.k]][p.s], p.i, e)))
  }

  lemma SetKeepsChains(v: Vol, geo: Geometry, cat: Catalog, d: nat, p: Pos, e: Dirent)
    requires geo.Ok() && ChainsOk(v, geo, cat) && d in cat.chains && InDir(cat.chains[d], geo.sectorsPerCluster, p)
    ensures ChainsOk(SetAt(v, cat.chains[d], p, e), geo, cat)
  {
  }

  /** Only that entry reads differently. */
  lemma AtSet(v: Vol, geo: Geometry, cat: Catalog, d: nat, p: Pos, e: Dirent, d': nat, q: Pos)
    requires geo.Ok() && ChainsOk(v, geo, cat) && d in cat.chains && d' in cat.chains
    requires InDir(cat.chains[d], geo.sectorsPerCluster, p) && InDir(cat.chains[d'], geo.sectorsPerCluster, q)
    ensures At(SetAt(v, cat.chains[d], p, e), cat.chains[d'], q) ==
      if d' == d && q == p then e else At(v, cat.chains[d'], q)
  {
    var c, c' := cat.chains[d][p.k], cat.chains[d'][q.k];
    if c == c' {
      assert cat.owner[c] == d && cat.owner[c'] == d';
      assert q.k == p.k;
      if q.s == p.s {
        EntrySet(v.data[c][p.s], p.i, e, q.i);
      }
    }
  }

  /** The entry may take its place: the directory has no never-used entry before it, and its name
      is nobody else's. */
  ghost predicate Fits(v: Vol, cs: seq<nat>, spc: nat, p: Pos, e: Dirent)
  {
    && (Occupied(At(v, cs, p)) || (Occupied(e) && PassesTo(v, cs, spc, AnyFree, p)))
    && (Occupied(e) || First(e) != 0)
    && (Visible(e) ==> forall q: Pos :: InDir(cs, spc, q) && q != p && Visible(At(v, cs, q)) ==>
      !SameKeys(e, At(v, cs, q)))
  }

  lemma SetKeepsOrder(v: Vol, geo: Geometry, cat: Catalog, d: nat, p: Pos, e: Dirent)
    requires geo.Ok() && ChainsOk(v, geo, cat) && d in cat.chains && InDir(cat.chains[d], geo.sectorsPerCluster, p)
    requires Fits(v, cat.chains[d], geo.sectorsPerCluster, p, e)
    requires TailUnused(v, cat.chains[d], geo.sectorsPerCluster)
      && UniqueNames(v, cat.chains[d], geo.sectorsPerCluster)
    ensures TailUnused(SetAt(v, cat.chains[d], p, e), cat.chains[d], geo.sectorsPerCluster)
    ensures UniqueNames(SetAt(v, cat.chains[d], p, e), cat.chains[d], geo.sectorsPerCluster)
  {
    var cs, spc := cat.chains[d], geo.sectorsPerCluster;
    var v' := SetAt(v, cs, p, e);
    forall q: Pos | InDir(cs, spc, q) ensures At(v', cs, q) == if q == p then e else At(v, cs, q) {
      AtSet(v, geo, cat, d, p, e, d, q);
    }
    TailAfter(v, v', cs, spc, p, e);
    NamesAfter(v, v', cs, spc, p, e);
  }

  lemma TailAfter(v: Vol, v': Vol, cs: seq<nat>, spc: nat, p: Pos, e: Dirent)
    requires InDir(cs, spc, p)
    requires forall q: Pos :: InDir(cs, spc, q) ==> At(v', cs, q) == if q == p then e else At(v, cs, q)
    requires Fits(v, cs, spc, p, e) && TailUnused(v, cs, spc)
    ensures TailUnused(v', cs, spc)
  {
    hide At, SameKeys;
    forall t: Pos, r: Pos | InDir(cs, spc, t) && InDir(cs, spc, r) && Before(t, r) && First(At(v', cs, t)) == 0
      ensures !Occupied(At(v', cs, r))
    {
    }
  }

  lemma NamesAfter(v: Vol, v': Vol, cs: seq<nat>, spc: nat, p: Pos, e: Dirent)
    requires InDir(cs, spc, p)
    requires forall q: Pos :: InDir(cs, spc, q) ==> At(v', cs, q) == if q == p then e else At(v, cs, q)
    requires Fits(v, cs, spc, p, e) && UniqueNames(v, cs, spc)
    ensures UniqueNames(v', cs, spc)
  {
    hide At, Visible, Occupied, InDir;
    forall q: Pos, r: Pos | InDir(cs, spc, q) && InDir(cs, spc, r) && Visible(At(v', cs, q)) && Visible(At(v', cs, r))
      && q != r
      ensures !SameKeys(At(v', cs, q), At(v', cs, r))
    {
      if SameKeys(At(v', cs, q), At(v', cs, r)) {
        KeysSymmetric(At(v', cs, q), At(v', cs, r));
      }
    }
  }

  lemma KeysSymmetric(a: Dirent, b: Dirent)
    requires SameKeys(a, b)
    ensures SameKeys(b, a)
  {
  }

  /** cat' differs from cat only in what it knows about the chain e names; e is in order there and
      no other entry names its chain. */
  ghost predicate Adopts(v: Vol, geo: Geometry, cat: Catalog, cat': Catalog, d: nat, p: Pos, e: Dirent)
    requires geo.Ok() && ChainsOk(v, geo, cat)
  {
    && cat'.chains == cat.chains && cat'.owner == cat.owner && cat.dirs <= cat'.dirs <= cat.chains.Keys
    && cat'.dirs <= cat'.depth.Keys
    && geo.root !in cat'.home
    && (Visible(e) ==> EntryOk(cat', Place(d, p), e))
    && (forall g, q: Pos ::
          g in cat.dirs && InDir(cat.chains[g], geo.sectorsPerCluster, q) && Place(g, q) != Place(d, p) ==>
          var x := At(v, cat.chains[g], q);
          Visible(x) && EntryOk(cat, Place(g, q), x) ==> EntryOk(cat', Place(g, q), x))
  }

  /** With an entry that fits, at the place left out of account, the volume is consistent again. */
  lemma SetKeepsConsistent(v: Vol, geo: Geometry, cat: Catalog, cat': Catalog, d: nat, p: Pos, e: Dirent)
    requires geo.Ok() && ConsistentBut(v, geo, cat, Some(Place(d, p))) && d in cat.dirs
    requires InDir(cat.chains[d], geo.sectorsPerCluster, p)
    requires Fits(v, cat.chains[d], geo.sectorsPerCluster, p, e) && Adopts(v, geo, cat, cat', d, p, e)
    requires ChainsOk(SetAt(v, cat.chains[d], p, e), geo, cat')
    requires forall g :: g in cat'.dirs && g !in cat.dirs ==> DirOk(SetAt(v, cat.chains[d], p, e), geo, cat', g, None)
    ensures Consistent(SetAt(v, cat.chains[d], p, e), geo, cat')
  {
    hide DirOk, Fits;
    var v' := SetAt(v, cat.chains[d], p, e);
    forall g | g in cat.dirs ensures DirOk(v', geo, cat', g, None) {
      SetKeepsDir(v, geo, cat, cat', d, p, e, g);
    }
  }

  lemma SetKeepsDir(v: Vol, geo: Geometry, cat: Catalog, cat': Catalog, d: nat, p: Pos, e: Dirent, g: nat)
    requires geo.Ok() && ConsistentBut(v, geo, cat, Some(Place(d, p))) && d in cat.dirs && g in cat.dirs
    requires InDir(cat.chains[d], geo.sectorsPerCluster, p)
    requires Fits(v, cat.chains[d], geo.sectorsPerCluster, p, e) && Adopts(v, geo, cat, cat', d, p, e)
    requires ChainsOk(SetAt(v, cat.chains[d], p, e), geo, cat')
    ensures DirOk(SetAt(v, cat.chains[d], p, e), geo, cat', g, None)
  {
    hide TailUnused, UniqueNames, Visible, EntryOk, Fits;
    var v' := SetAt(v, cat.chains[d], p, e);
    assert DirOk(v, geo, cat, g, Some(Place(d, p)));
    var cs, spc := cat.chains[g], geo.sectorsPerCluster;
    forall q: Pos | InDir(cs, spc, q) ensures At(v', cs, q) == if g == d && q == p then e else At(v, cs, q) {
      AtSet(v, geo, cat, d, p, e, g, q);
    }
    if g == d {
      SetKeepsOrder(v, geo, cat, d, p, e);
    } else {
      SameEntries(v, v', cs, spc);
    }
  }

  // ----- growing a directory

  function ZeroCluster(spc: nat): seq<Sector>
  {
    seq(spc, _ => ZeroSector())
  }

  /** v with the free cluster c, zeroed, linked behind the chain cs. */
  ghost function Grown(v: Vol, geo: Geometry, cs: seq<nat>, c: nat): Vol
    requires cs != [] && cs[|cs| - 1] < ENTRIES && c < ENTRIES && c < |v.data|
  {
    Vol(v.fat[cs[|cs| - 1] := c][c := EOC_MARK], v.data[c := ZeroCluster(geo.sectorsPerCluster)])
  }

  ghost function WithGrown(cat: Catalog, d: nat, c: nat): Catalog
    requires d in cat.chains
  {
    cat.(chains := cat.chains[d := cat.chains[d] + [c]], owner := cat.owner[c := d])
  }

  lemma GrowKeepsChains(v: Vol, geo: Geometry, cat: Catalog, d: nat, c: nat)
    requires geo.Ok() && ChainsOk(v, geo, cat) && d in cat.chains
    requires 2 <= c < geo.MaxCluster() && v.fat[c] == 0
    ensures ChainsOk(Grown(v, geo, cat.chains[d], c), geo, WithGrown(cat, d, c))
    ensures c !in cat.owner
  {
    var v', cat' := Grown(v, geo, cat.chains[d], c), WithGrown(cat, d, c);
    assert cat.chains[d] != [] && (cat.chains[d] + [c])[0] == d;
    GrownSized(v, geo, cat.chains[d], c);
    hide Chain, LinkAt, Grown, Sized;
    if c in cat.owner {
      OwnedNotFree(v, geo, cat, c);
    }
    forall g | g in cat'.chains
      ensures Chain(v'.fat, geo.MaxCluster(), cat'.chains[g])
    {
      GrownChain(v, geo, cat, d, c, g);
    }
    GrownOwners(v, geo, cat, d, c);
  }

  lemma GrownSized(v: Vol, geo: Geometry, cs: seq<nat>, c: nat)
    requires Sized(v, geo.sectorsPerCluster) && cs != [] && cs[|cs| - 1] < ENTRIES && c < ENTRIES && c < |v.data|
    ensures Sized(Grown(v, geo, cs, c), geo.sectorsPerCluster) && |Grown(v, geo, cs, c).data| == |v.data|
  {
  }

  lemma GrownOwners(v: Vol, geo: Geometry, cat: Catalog, d: nat, c: nat)
    requires geo.Ok() && ChainsOk(v, geo, cat) && d in cat.chains && c !in cat.owner
    ensures var cat' := WithGrown(cat, d, c);
      && (forall h, k :: h in cat'.chains && 0 <= k < |cat'.chains[h]| ==>
            cat'.chains[h][k] in cat'.owner && cat'.owner[cat'.chains[h][k]] == h)
      && forall x :: x in cat'.owner ==> cat'.owner[x] in cat'.chains && x in cat'.chains[cat'.owner[x]]
  {
    hide Chain, LinkAt;
    var cat' := WithGrown(cat, d, c);
    forall h, k | h in cat'.chains && 0 <= k < |cat'.chains[h]|
      ensures cat'.chains[h][k] in cat'.owner && cat'.owner[cat'.chains[h][k]] == h
    {
      if k < |cat.chains[h]| {
        assert cat.chains[h][k] in cat.owner;
      }
    }
    forall x | x in cat'.owner
      ensures cat'.owner[x] in cat'.chains && x in cat'.chains[cat'.owner[x]]
    {
      if x != c {
        assert x in cat.chains[cat.owner[x]];
      }
    }
  }

  lemma GrownChain(v: Vol, geo: Geometry, cat: Catalog, d: nat, c: nat, g: nat)
    requires geo.Ok() && ChainsOk(v, geo, cat) && d in cat.chains && g in cat.chains
    requires 2 <= c < geo.MaxCluster() && v.fat[c] == 0 && c !in cat.owner
    ensures Chain(Grown(v, geo, cat.chains[d], c).fat, geo.MaxCluster(), WithGrown(cat, d, c).chains[g])
  {
    var v', cs := Grown(v, geo, cat.chains[d], c), cat.chains[d];
    if g == d {
      forall k | 0 <= k < |cs| ensures cs[k] != c {
        assert cat.chains[d][k] in cat.owner;
      }
      ChainExtended(v.fat, v'.fat, geo.MaxCluster(), cs, c);
    } else {
      assert cat.owner[cat.chains[d][|cs| - 1]] == d;
      forall k | 0 <= k < |cat.chains[g]| ensures v'.fat[cat.chains[g][k]] == v.fat[cat.chains[g][k]] {
        assert cat.owner[cat.chains[g][k]] == g;
      }
      ChainKept(v.fat, v'.fat, geo.MaxCluster(), cat.chains[g]);
    }
  }

  /** The old entries of a grown directory are what they were, the new ones are blank. */
  lemma GrownEntries(v: Vol, geo: Geometry, cat: Catalog, d: nat, c: nat, g: nat, q: Pos)
    requires geo.Ok() && ChainsOk(v, geo, cat) && d in cat.chains && g in cat.chains
    requires 2 <= c < geo.MaxCluster() && v.fat[c] == 0
    requires InDir(WithGrown(cat, d, c).chains[g], geo.sectorsPerCluster, q)
    ensures At(Grown(v, geo, cat.chains[d], c), WithGrown(cat, d, c).chains[g], q) ==
      if InDir(cat.chains[g], geo.sectorsPerCluster, q) then At(v, cat.chains[g], q) else Blank()
  {
    hide At, Chain, InDir, ChainsOk;
    GrowFits(v, geo, cat, d, c);
    GrowKeepsChains(v, geo, cat, d, c);
    forall k | 0 <= k < |cat.chains[g]| ensures cat.chains[g][k] != c && cat.chains[g][k] < |v.data| {
      OwnedInside(v, geo, cat, g, k);
    }
    EntriesGrown(v, Grown(v, geo, cat.chains[d], c), cat.chains[g], WithGrown(cat, d, c).chains[g], c,
                 geo.sectorsPerCluster, q);
  }

  lemma OwnedInside(v: Vol, geo: Geometry, cat: Catalog, g: nat, k: nat)
    requires geo.Ok() && ChainsOk(v, geo, cat) && g in cat.chains && k < |cat.chains[g]|
    ensures cat.chains[g][k] < |v.data| && cat.chains[g][k] in cat.owner
  {
  }

  lemma GrowFits(v: Vol, geo: Geometry, cat: Catalog, d: nat, c: nat)
    requires geo.Ok() && ChainsOk(v, geo, cat) && d in cat.chains && c < geo.MaxCluster()
    ensures var cs := cat.chains[d]; cs != [] && cs[|cs| - 1] < ENTRIES && c < ENTRIES && c < |v.data|
  {
  }

  lemma EntriesGrown(v: Vol, v': Vol, cs: seq<nat>, cs': seq<nat>, c: nat, spc: nat, q: Pos)
    requires c < |v.data| && v'.data == v.data[c := ZeroCluster(spc)] && (cs' == cs || cs' == cs + [c])
    requires forall k :: 0 <= k < |cs| ==> cs[k] != c && cs[k] < |v.data|
    requires InDir(cs', spc, q)
    ensures At(v', cs', q) == if InDir(cs, spc, q) then At(v, cs, q) else Blank()
  {
    hide EntryAt;
    if q.k < |cs| {
      assert v'.data[cs[q.k]] == v.data[cs[q.k]];
    } else {
      assert cs'[q.k] == c;
      assert ZeroCluster(spc)[q.s] == ZeroSector();
      BlankEntry(q.i);
    }
  }

  lemma BlankEntry(i: nat)
    requires i < 16
    ensures EntryAt(ZeroSector(), i) == Blank()
  {
  }

  lemma GrowKeepsConsistent(v: Vol, geo: Geometry, cat: Catalog, d: nat, c: nat, hole: Option<Place>)
    requires geo.Ok() && ConsistentBut(v, geo, cat, hole) && d in cat.dirs
    requires 2 <= c < geo.MaxCluster() && v.fat[c] == 0
    requires FindsNothing(v, cat.chains[d], geo.sectorsPerCluster, AnyFree)
    ensures ConsistentBut(Grown(v, geo, cat.chains[d], c), geo, WithGrown(cat, d, c), hole)
  {
    hide DirOk, At, ChainsOk, FindsNothing, InDir;
    GrowFits(v, geo, cat, d, c);
    GrowKeepsChains(v, geo, cat, d, c);
    var v', cat', spc := Grown(v, geo, cat.chains[d], c), WithGrown(cat, d, c), geo.sectorsPerCluster;
    forall g | g in cat'.dirs
      ensures DirOk(v', geo, cat', g, hole)
    {
      assert DirOk(v, geo, cat, g, hole);
      forall q: Pos | InDir(cat'.chains[g], spc, q)
        ensures At(v', cat'.chains[g], q) == if InDir(cat.chains[g], spc, q) then At(v, cat.chains[g], q) else Blank()
      {
        GrownEntries(v, geo, cat, d, c, g, q);
      }
      GrownDirOk(v, v', geo, cat, cat', g, hole);
    }
  }

  /** The first entry of the new cluster is the first free one. */
  lemma GrownPasses(v: Vol, geo: Geometry, cat: Catalog, d: nat, c: nat)
    requires geo.Ok() && ChainsOk(v, geo, cat) && d in cat.chains
    requires 2 <= c < geo.MaxCluster() && v.fat[c] == 0
    requires FindsNothing(v, cat.chains[d], geo.sectorsPerCluster, AnyFree)
    ensures PassesTo(Grown(v, geo, cat.chains[d], c), WithGrown(cat, d, c).chains[d], geo.sectorsPerCluster, AnyFree,
                     Pos(|cat.chains[d]|, 0, 0))
  {
    hide At;
    var v', cat', spc := Grown(v, geo, cat.chains[d], c), WithGrown(cat, d, c), geo.sectorsPerCluster;
    forall q: Pos | InDir(cat'.chains[d], spc, q) && Before(q, Pos(|cat.chains[d]|, 0, 0))
      ensures !Hit(At(v', cat'.chains[d], q), AnyFree)
    {
      GrownEntries(v, geo, cat, d, c, d, q);
    }
  }

  lemma GrownDirOk(v: Vol, v': Vol, geo: Geometry, cat: Catalog, cat': Catalog, g: nat, hole: Option<Place>)
    requires geo.Ok() && ChainsOk(v, geo, cat) && ChainsOk(v', geo, cat') && g in cat.chains && g in cat'.chains
    requires DirOk(v, geo, cat, g, hole)
    requires cat.chains.Keys <= cat'.chains.Keys && cat'.dirs == cat.dirs && cat'.home == cat.home
      && cat'.depth == cat.depth
    requires |cat.chains[g]| <= |cat'.chains[g]|
    requires cat'.chains[g] == cat.chains[g] || FindsNothing(v, cat.chains[g], geo.sectorsPerCluster, AnyFree)
    requires forall q: Pos :: InDir(cat'.chains[g], geo.sectorsPerCluster, q) ==>
      At(v', cat'.chains[g], q) ==
      if InDir(cat.chains[g], geo.sectorsPerCluster, q) then At(v, cat.chains[g], q) else Blank()
    ensures DirOk(v', geo, cat', g, hole)
  {
    hide ChainsOk, At, SameKeys;
    var spc, cs, cs' := geo.sectorsPerCluster, cat.chains[g], cat'.chains[g];
    forall t: Pos, r: Pos | InDir(cs', spc, t) && InDir(cs', spc, r) && Before(t, r) && First(At(v', cs', t)) == 0
      ensures !Occupied(At(v', cs', r))
    {
      if InDir(cs, spc, r) {
        assert InDir(cs, spc, t);
      }
    }
    forall p: Pos, q: Pos | InDir(cs', spc, p) && InDir(cs', spc, q) && Visible(At(v', cs', p))
      && Visible(At(v', cs', q)) && p != q
      ensures !SameKeys(At(v', cs', p), At(v', cs', q))
    {
    }
  }
}
