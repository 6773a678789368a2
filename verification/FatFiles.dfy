/** The file operations of the FAT32 driver on a mounted volume. */
module FatFiles {
  import opened Words
  import opened FatTable
  import opened FatVolume
  import opened FatDir
  import opened FatCatalog
  import opened FatSteps
  import opened FatUpdates

  ghost predicate HasChain(vol: Volume, cs: seq<nat>)
    requires vol.Valid()
    reads vol.fat, vol.disk
  {
    Chain(vol.State().fat, vol.geo.MaxCluster(), cs) && Inside(vol.State(), cs, vol.geo.sectorsPerCluster)
  }

  /** What the table says behind cluster k of a chain. */
  lemma NextInChain(f: Fat, max: nat, cs: seq<nat>, k: nat, next: nat)
    requires Chain(f, max, cs) && k < |cs| && next == Next(f, cs[k])
    ensures if k + 1 < |cs| then next == cs[k + 1] else !Follows(next)
  {
    assert LinkAt(f, cs, k);
  }

  class FileSystem {
    const vol: Volume
    var cwd: nat                // fat32_cwd_cluster, 0 for the root directory

    constructor (vol: Volume)
      ensures this.vol == vol && cwd == 0
    {
      this.vol := vol;
      this.cwd := 0;
    }

    /** cwd_cluster. */
    function Dir(): nat
      reads this
    {
      if cwd == 0 then vol.geo.root else cwd
    }

    /** The innermost loop of fat32_find_entry, over the sector in g_io_buf. */
    method SearchSector(q: Query, ghost cs: seq<nat>, ghost k: nat, ghost s: nat)
      returns (hit: bool, stop: bool, i: nat)
      requires vol.Valid() && HasChain(vol, cs) && k < |cs| && s < vol.geo.sectorsPerCluster
      requires cs[k] < |vol.State().data| && s < |vol.State().data[cs[k]]| && vol.ioBuf == vol.State().data[cs[k]][s]
      requires PassesTo(vol.State(), cs, vol.geo.sectorsPerCluster, q, Pos(k, s, 0))
      ensures hit ==> FindsAt(vol.State(), cs, vol.geo.sectorsPerCluster, q, Pos(k, s, i))
      ensures stop ==> FindsNothing(vol.State(), cs, vol.geo.sectorsPerCluster, q)
      ensures !hit && !stop ==> PassesTo(vol.State(), cs, vol.geo.sectorsPerCluster, q, Pos(k, s + 1, 0))
    {
      hide PassesTo, FindsNothing, Table, AllData, Hit, Stop, Distinct, Chain;
      ghost var v, spc := vol.State(), vol.geo.sectorsPerCluster;
      hit, stop, i := false, false, 0;
      while i < 16
        invariant 0 <= i <= 16 && PassesTo(v, cs, spc, q, Pos(k, s, i))
      {
        var e := EntryAt(vol.ioBuf, i);
        assert At(v, cs, Pos(k, s, i)) == e;
        if Hit(e, q) {
          hit := true;
          return;
        }
        if Stop(e, q) {
          StoppedAt(v, cs, spc, q, Pos(k, s, i));
          stop := true;
          return;
        }
        PassEntry(v, cs, spc, q, k, s, i);
        i := i + 1;
      }
      PassSector(v, cs, spc, q, k, s);
    }

    /** fat32_find_entry over the directory whose chain is cs. */
    method FindEntry(dir: nat, q: Query, ghost cs: seq<nat>) returns (found: bool, lba: nat, idx: nat, ghost p: Pos)
      requires vol.Valid() && HasChain(vol, cs) && cs[0] == dir
      modifies vol`ioBuf
      ensures found ==>
        && FindsAt(vol.State(), cs, vol.geo.sectorsPerCluster, q, p)
        && lba == vol.geo.Lba(cs[p.k]) + p.s && idx == p.i
      ensures !found ==> FindsNothing(vol.State(), cs, vol.geo.sectorsPerCluster, q)
    {
      hide PassesTo, FindsNothing, FindsAt, Table, AllData, Hit, Stop, Distinct, LinkAt, Next;
      ghost var v, spc := vol.State(), vol.geo.sectorsPerCluster;
      ghost var k := 0;
      var cur: nat, limit: nat := dir, 65536;
      found, lba, idx, p := false, 0, 0, Pos(0, 0, 0);
      PassNothing(v, cs, spc, q);
      ChainLength(v.fat, vol.geo.MaxCluster(), cs);
      while Follows(cur) && limit > 0
        invariant vol.State() == v && k <= |cs| && limit == 65536 - k && cur < U32
        invariant if k < |cs| then cur == cs[k] else !Follows(cur)
        invariant PassesTo(v, cs, spc, q, Pos(k, 0, 0))
        decreases limit
      {
        limit := limit - 1;
        var base := vol.geo.Lba(cur);
        var s := 0;
        while s < vol.geo.sectorsPerCluster
          invariant 0 <= s <= vol.geo.sectorsPerCluster
          invariant vol.State() == v && PassesTo(v, cs, spc, q, Pos(k, s, 0))
        {
          vol.SectorAt(cur, s);
          vol.ReadSector(base + s);
          var hit, stop, i := SearchSector(q, cs, k, s);
          if hit {
            return true, base + s, i, Pos(k, s, i);
          }
          if stop {
            return;
          }
          s := s + 1;
        }
        PassCluster(v, cs, spc, q, k);
        cur := vol.NextCluster(cur);
        NextInChain(v.fat, vol.geo.MaxCluster(), cs, k, cur);
        k := k + 1;
      }
      PassedAll(v, cs, spc, q);
    }

    /** The last cluster of the chain cs. */
    method LastCluster(first: nat, ghost cs: seq<nat>) returns (last: nat)
      requires vol.Valid() && HasChain(vol, cs) && cs[0] == first
      ensures last == cs[|cs| - 1]
    {
      ghost var f := vol.State().fat;
      ChainLength(f, vol.geo.MaxCluster(), cs);
      ghost var k := 0;
      var limit := 65536;
      last := first;
      while true
        invariant k < |cs| && last == cs[k] && limit == 65536 - k
        decreases limit
      {
        assert LinkAt(f, cs, k);
        var next := vol.NextCluster(last);
        if next >= EOC {
          break;
        }
        last := next;
        k := k + 1;
        limit := limit - 1;
      }
    }

    /** Writes zeros to every sector of cluster c. */
    method ZeroFill(c: nat)
      requires vol.Valid() && 2 <= c < vol.geo.MaxCluster()
      modifies vol.disk
      ensures |old(vol.State()).data| == vol.geo.MaxCluster()
      ensures vol.State() == Vol(old(vol.State()).fat,
                                 old(vol.State()).data[c := ZeroCluster(vol.geo.sectorsPerCluster)])
      ensures old(vol.Flushed()) ==> vol.Flushed()
    {
      hide Table, AllData, Volume.Flushed;
      vol.StateSized();
      ghost var v, spc := vol.State(), vol.geo.sectorsPerCluster;
      var lba := vol.geo.Lba(c);
      var s := 0;
      while s < vol.geo.sectorsPerCluster
        invariant 0 <= s <= spc && |v.data| == |vol.State().data| == vol.geo.MaxCluster() && vol.State().fat == v.fat
        invariant forall d :: 0 <= d < |v.data| && d != c ==> vol.State().data[d] == v.data[d]
        invariant |vol.State().data[c]| == spc && forall t :: 0 <= t < s ==> vol.State().data[c][t] == ZeroSector()
        invariant old(vol.Flushed()) ==> vol.Flushed()
      {
        vol.WriteData(lba + s, ZeroSector(), c, s);
        s := s + 1;
      }
      assert vol.State().data[c] == ZeroCluster(spc);
      assert vol.State().data == v.data[c := ZeroCluster(spc)];
    }

    /** Links a zeroed cluster behind the directory; 0 when no cluster is free. */
    method GrowDirectory(dir: nat, ghost cat: Catalog) returns (c: nat)
      requires vol.Valid() && ChainsOk(vol.State(), vol.geo, cat) && dir in cat.chains
      modifies vol.fat, vol.disk
      ensures Tops(vol.fat[..]) == old(Tops(vol.fat[..])) && (old(vol.Flushed()) ==> vol.Flushed())
      ensures c != 0 <==> FreeBelow(old(vol.State()).fat, vol.geo.MaxCluster()) > 0
      ensures c == 0 ==> vol.State() == old(vol.State())
      ensures c != 0 ==>
        && 2 <= c < vol.geo.MaxCluster() && old(vol.State()).fat[c] == 0
        && |old(vol.State()).data| == vol.geo.MaxCluster()
        && cat.chains[dir][|cat.chains[dir]| - 1] < ENTRIES
        && vol.State() == Grown(old(vol.State()), vol.geo, cat.chains[dir], c)
    {
      hide Table, AllData, Tops, Volume.Flushed, FreeBelow, ChainsOk, Chain, Inside;
      ghost var v, cs := vol.State(), cat.chains[dir];
      DirChain(v, vol.geo, cat, dir);
      var last := LastCluster(dir, cs);
      c := vol.AllocCluster();
      if c == 0 {
        NoneFree(v.fat, vol.geo.MaxCluster());
        return;
      }
      FreeAfterSet(v.fat, vol.geo.MaxCluster(), c, EOC_MARK);
      vol.SetCluster(last, c);
      vol.SetCluster(c, EOC_MARK);
      vol.FlushFat();
      ZeroFill(c);
    }

    /** fat32_find_free_slot: the first free entry of the directory, in a new cluster when there is none. */
    method FindFreeSlot(dir: nat, ghost cat: Catalog)
      returns (ok: bool, lba: nat, idx: nat, ghost grew: Option<nat>, ghost p: Pos)
      requires vol.Valid() && ChainsOk(vol.State(), vol.geo, cat) && dir in cat.chains
      modifies vol`ioBuf, vol.fat, vol.disk
      ensures Tops(vol.fat[..]) == old(Tops(vol.fat[..])) && (old(vol.Flushed()) ==> vol.Flushed())
      ensures ok <==>
        || HasFree(old(vol.State()), vol.geo, cat, dir)
        || FreeBelow(old(vol.State()).fat, vol.geo.MaxCluster()) > 0
      ensures !ok ==> vol.State() == old(vol.State())
      ensures ok ==>
        && FirstFree(old(vol.State()), vol.geo, cat, dir, grew, p)
        && (grew.None? <==> HasFree(old(vol.State()), vol.geo, cat, dir))
        && vol.State() == Extended(old(vol.State()), vol.geo, cat, dir, grew)
        && var cs := ExtendedCatalog(cat, dir, grew).chains[dir];
           cs[p.k] >= 2 && lba == vol.geo.Lba(cs[p.k]) + p.s && idx == p.i
    {
      hide Table, AllData, Tops, Volume.Flushed, PassesTo, FindsNothing, LinkAt, Distinct, FreeBelow, At,
        Grown;
      ghost var v, cs, geo := vol.State(), cat.chains[dir], vol.geo;
      ok, lba, idx, p := FindEntry(dir, AnyFree, cs);
      grew := None;
      if ok {
        FreeFound(v, cs, geo.sectorsPerCluster, p);
        return;
      }
      var c := GrowDirectory(dir, cat);
      if c != 0 {
        ok, lba, idx := true, vol.geo.Lba(c), 0;
        grew, p := Some(c), Pos(|cs|, 0, 0);
        GrownPasses(v, geo, cat, dir, c);
        GrownEntries(v, geo, cat, dir, c, dir, p);
      }
    }
  }

  lemma FreeFound(v: Vol, cs: seq<nat>, spc: nat, p: Pos)
    requires FindsAt(v, cs, spc, AnyFree, p)
    ensures !FindsNothing(v, cs, spc, AnyFree)
  {
  }

  /** Directory d has a free entry. */
  ghost predicate HasFree(v: Vol, geo: Geometry, cat: Catalog, d: nat)
    requires d in cat.chains
  {
    !FindsNothing(v, cat.chains[d], geo.sectorsPerCluster, AnyFree)
  }
}
