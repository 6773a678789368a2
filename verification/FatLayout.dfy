/** Files as they lie on the disk: which byte of which sector is byte x of a file. */
module FatLayout {
  import opened Words
  import opened FatTable
  import opened FatVolume
  import opened FatDir
  import opened FatBytes
  import opened FatCatalog
  import opened FatFinds

  lemma {:induction false} SectorByteAt(sectors: seq<Sector>, x: nat)
    requires x < 512 * |sectors|
    ensures x < |SectorBytes(sectors)| && SectorBytes(sectors)[x] == sectors[x / 512][x % 512]
  {
    var last := |sectors| - 1;
    if x < 512 * last {
      SectorByteAt(sectors[..last], x);
    } else {
      assert x / 512 == last && x % 512 == x - 512 * last;
    }
  }

  lemma {:induction false} Row(w: nat, k: nat, y: nat, n: nat)
    requires k < n && y < w
    ensures w * k + y < w * n
    decreases n
  {
    if k + 1 < n {
      Row(w, k, y, n - 1);
    }
  }

  /** With w bytes to a cluster, byte y of cluster k of the chain. */
  lemma {:induction false} StreamByteAt(v: Vol, cs: seq<nat>, spc: nat, w: nat, k: nat, y: nat)
    requires forall i :: 0 <= i < |cs| ==> cs[i] < |v.data| && |v.data[cs[i]]| == spc
    requires w == 512 * spc && k < |cs| && y < w
    ensures InRange(v, cs) && w * k + y < |Stream(v, cs)|
    ensures Stream(v, cs)[w * k + y] == v.data[cs[k]][y / 512][y % 512]
    decreases |cs|
  {
    var last := |cs| - 1;
    StreamLength(v, cs, spc);
    StreamLength(v, cs[..last], spc);
    Row(w, k, y, |cs|);
    if k < last {
      StreamByteAt(v, cs[..last], spc, w, k, y);
      Row(w, k, y, last);
    } else {
      SectorByteAt(v.data[cs[last]], y);
    }
  }

  /** A chain in the bytes of the table: the low 28 bits of each entry name the next cluster, and the last
      one is an end-of-chain mark. */
  lemma ChainBytes(vol: Volume, cs: seq<nat>, k: nat)
    requires vol.Valid() && Chain(vol.State().fat, vol.geo.MaxCluster(), cs) && k < |cs|
    ensures 4 * cs[k] + 3 < vol.fat.Length
    ensures var b := vol.fat[4 * cs[k]..4 * cs[k] + 4];
      var next: nat := b[0] as nat + 0x100 * b[1] as nat + 0x1_0000 * b[2] as nat + 0x100_0000 * (b[3] % 16) as nat;
      if k + 1 < |cs| then next == cs[k + 1] else next >= 0x0FFF_FFF8
  {
    assert LinkAt(vol.State().fat, cs, k);
  }

  /** Byte y of cluster k of this chain is b, on the disk. */
  ghost predicate HoldsByte(disk: seq<Sector>, geo: Geometry, cs: seq<nat>, k: nat, y: nat, b: Byte)
  {
    && k < |cs| && cs[k] >= 2
    && var lba := geo.firstData + (cs[k] - 2) * geo.sectorsPerCluster + y / 512;
    && lba < |disk| && disk[lba][y % 512] == b
  }

  ghost predicate IsFile(v: Vol, geo: Geometry, cat: Catalog, d: nat, name: seq<Byte>, ext: seq<Byte>, o: Object)
  {
    geo.Ok() && Consistent(v, geo, cat) && d in cat.dirs && o == Find(v, geo, cat, d, name, ext) && o.File?
  }

  /** A file that has bytes has a chain, and they are the first of its clusters. */
  lemma FileIsStream(v: Vol, geo: Geometry, cat: Catalog, d: nat, name: seq<Byte>, ext: seq<Byte>, o: Object)
    requires IsFile(v, geo, cat, d, name, ext, o) && o.bytes != []
    ensures o.File? && geo.Ok() && o.first in cat.chains
    ensures var cs := cat.chains[o.first];
      && cs != [] && cs[0] == o.first && Chain(v.fat, geo.MaxCluster(), cs) && Inside(v, cs, geo.sectorsPerCluster)
      && InRange(v, cs) && o.bytes <= Stream(v, cs)
  {
    hide DirOk, At, Lookup, Stream, ClusterOf, SizeOf, IsDirectory, Chain;
    DirChain(v, geo, cat, o.first);
  }

  lemma StreamOnDisk(vol: Volume, cs: seq<nat>, w: nat, k: nat, y: nat, x: nat)
    requires vol.Valid() && Chain(vol.State().fat, vol.geo.MaxCluster(), cs)
    requires Inside(vol.State(), cs, vol.geo.sectorsPerCluster) && InRange(vol.State(), cs)
    requires w == 512 * vol.geo.sectorsPerCluster && y < w && x == w * k + y && x < |Stream(vol.State(), cs)|
    ensures HoldsByte(vol.disk[..], vol.geo, cs, k, y, Stream(vol.State(), cs)[x])
  {
    hide Table, AllData, Stream, SectorBytes, LinkAt, Distinct;
    ghost var v, spc := vol.State(), vol.geo.sectorsPerCluster;
    StreamLength(v, cs, spc);
    InTheChain(w, k, y, |cs|);
    StreamByteAt(v, cs, spc, w, k, y);
    vol.SectorAt(cs[k], y / 512);
  }

  /** The bytes of a file are those of the clusters of its chain, in order: sector after sector, behind the
      first data sector. */
  lemma FileOnDisk(vol: Volume, cat: Catalog, d: nat, name: seq<Byte>, ext: seq<Byte>, o: Object, w: nat, k: nat,
                   y: nat, x: nat)
    requires vol.Valid() && IsFile(vol.State(), vol.geo, cat, d, name, ext, o)
    requires w == 512 * vol.geo.sectorsPerCluster && y < w && x == w * k + y && x < |o.bytes|
    ensures o.first in cat.chains && cat.chains[o.first] != [] && cat.chains[o.first][0] == o.first
    ensures HoldsByte(vol.disk[..], vol.geo, cat.chains[o.first], k, y, o.bytes[x])
  {
    hide Table, AllData, IsFile, HoldsByte, Stream, Chain, Inside;
    FileIsStream(vol.State(), vol.geo, cat, d, name, ext, o);
    StreamOnDisk(vol, cat.chains[o.first], w, k, y, x);
  }

  lemma {:induction false} InTheChain(w: nat, k: nat, y: nat, n: nat)
    requires w * k + y < w * n
    ensures k < n
  {
    if n <= k {
      MoreRows(w, n, k);
    }
  }
}
