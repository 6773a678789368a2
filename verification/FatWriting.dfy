/** Building the chain of a new file, and putting entries into directories. */
module FatWriting {
  import opened Words
  import opened FatTable
  import opened FatVolume
  import opened FatDir
  import opened FatBytes
  import opened FatCatalog
  import opened FatFinds
  import opened FatSteps
  import opened FatUpdates
  import opened FatFiles

  /** The sector buffer of write_file: n bytes of the source, then zeros. */
  method FillSector(src: array<Byte>, off: nat, n: nat) returns (x: Sector)
    requires off + n <= src.Length && n <= SECTOR
    ensures x == Padded(src[off..off + n], SECTOR)
  {
    var wr := new Byte[SECTOR];
    var b := 0;
    while b < n
      invariant 0 <= b <= n && wr[..b] == src[off..off + b]
    {
      wr[b] := src[off + b];
      b := b + 1;
    }
    while b < SECTOR
      invariant n <= b <= SECTOR && wr[..n] == src[off..off + n] && forall i :: n <= i < b ==> wr[i] == 0
    {
      wr[b] := 0;
      b := b + 1;
    }
    x := wr[..];
    assert x == wr[..n] + wr[n..];
  }

  /** Writes the next bytes of the source to cluster c; `pre` is what the clusters before it hold. */
  method WriteCluster(vol: Volume, src: array<Byte>, len: nat, before: nat, c: nat, ghost pre: seq<Byte>)
    returns (off: nat)
    requires vol.Valid() && 2 <= c < vol.geo.MaxCluster() && len <= src.Length
    requires src != vol.fat && src as object != vol.disk as object
    requires pre == Padded(src[..len], |pre|) && before == Min(len, |pre|)
    modifies vol.disk
    ensures vol.State().fat == old(vol.State()).fat
      && |vol.State().data| == |old(vol.State()).data| == vol.geo.MaxCluster()
    ensures forall d :: 0 <= d < vol.geo.MaxCluster() && d != c ==> vol.State().data[d] == old(vol.State()).data[d]
    ensures |vol.State().data[c]| == vol.geo.sectorsPerCluster
    ensures pre + SectorBytes(vol.State().data[c]) == Padded(src[..len], |pre| + SECTOR * vol.geo.sectorsPerCluster)
    ensures off == Min(len, |pre| + SECTOR * vol.geo.sectorsPerCluster)
  {
    hide Table, AllData, SectorBytes, Padded;
    vol.StateSized();
    ghost var v, b, spc := vol.State(), src[..len], vol.geo.sectorsPerCluster;
    var lba := vol.geo.Lba(c);
    off := before;
    var remaining, s := len - off, 0;
    ghost var written: seq<Sector> := [];
    NoSectors(pre);
    while s < vol.geo.sectorsPerCluster
      invariant 0 <= s <= spc && |written| == s && src[..len] == b
      invariant vol.State().fat == v.fat && |vol.State().data| == |v.data| == vol.geo.MaxCluster()
      invariant forall d :: 0 <= d < |v.data| && d != c ==> vol.State().data[d] == v.data[d]
      invariant |vol.State().data[c]| == spc && vol.State().data[c][..s] == written
      invariant pre + SectorBytes(written) == Padded(b, |pre| + SECTOR * s)
      invariant off == Min(len, |pre| + SECTOR * s) && remaining == len - off
    {
      var n := if remaining > SECTOR then SECTOR else remaining;
      var x := FillSector(src, off, n);
      assert src[off..off + n] == b[off..off + n];
      PadMore(b, |pre| + SECTOR * s);
      OneMore(pre, written, x);
      vol.WriteData(lba + s, x, c, s);
      written := written + [x];
      off := off + n;
      remaining := remaining - n;
      s := s + 1;
    }
    assert vol.State().data[c] == written;
  }

  lemma NoSectors(pre: seq<Byte>)
    ensures pre + SectorBytes([]) == pre
  {
  }

  lemma OneMore(pre: seq<Byte>, sectors: seq<Sector>, x: Sector)
    ensures pre + SectorBytes(sectors + [x]) == pre + SectorBytes(sectors) + x
  {
    assert (sectors + [x])[..|sectors|] == sectors;
  }

  // ----- the chain of a new file

  /** v holds the chain nc, built since v0, and nothing else is new; with nc empty nothing is. */
  ghost predicate BuiltSoFar(v0: Vol, v: Vol, geo: Geometry, nc: seq<nat>)
    requires geo.Ok()
  {
    if nc == [] then v == v0 && |v.data| == geo.MaxCluster() && Sized(v, geo.sectorsPerCluster)
      else Built(v0, v, geo, nc)
  }

  /** The table with free cluster c linked behind the chain nc. */
  ghost function Linked(f: Fat, nc: seq<nat>, c: nat): Fat
    requires c < ENTRIES && (nc != [] ==> nc[|nc| - 1] < ENTRIES)
  {
    if nc == [] then f[c := EOC_MARK] else f[c := EOC_MARK][nc[|nc| - 1] := c]
  }

  lemma BuiltMore(v0: Vol, v: Vol, v': Vol, geo: Geometry, nc: seq<nat>, c: nat)
    requires geo.Ok() && BuiltSoFar(v0, v, geo, nc) && 2 <= c < geo.MaxCluster() && v.fat[c] == 0
    requires nc != [] ==> nc[|nc| - 1] < ENTRIES
    requires v'.fat == Linked(v.fat, nc, c)
    requires |v'.data| == |v.data| && |v'.data[c]| == geo.sectorsPerCluster
    requires forall d :: 0 <= d < |v.data| && d != c ==> v'.data[d] == v.data[d]
    ensures Built(v0, v', geo, nc + [c]) && c !in nc
  {
    var ds := nc + [c];
    if nc == [] {
      assert Chain(v'.fat, geo.MaxCluster(), ds);
    } else {
      NotFree(v.fat, geo.MaxCluster(), nc);
      assert v'.fat == v.fat[nc[|nc| - 1] := c][c := EOC_MARK];
      ChainExtended(v.fat, v'.fat, geo.MaxCluster(), nc, c);
    }
  }

  /** The clusters of a chain are in use. */
  lemma NotFree(f: Fat, max: nat, cs: seq<nat>)
    requires Chain(f, max, cs)
    ensures forall k :: 0 <= k < |cs| ==> f[cs[k]] != 0
  {
    forall k | 0 <= k < |cs| ensures f[cs[k]] != 0 {
      assert LinkAt(f, cs, k);
    }
  }

  lemma BuiltStream(v: Vol, v': Vol, nc: seq<nat>, c: nat)
    requires InRange(v, nc) && c !in nc && |v'.data| == |v.data| && c < |v.data|
    requires forall d :: 0 <= d < |v.data| && d != c ==> v'.data[d] == v.data[d]
    ensures InRange(v', nc + [c]) && Stream(v', nc + [c]) == Stream(v, nc) + SectorBytes(v'.data[c])
  {
    StreamKept(v, v', nc);
    assert (nc + [c])[..|nc|] == nc;
  }

  lemma BuiltInRange(v0: Vol, v: Vol, geo: Geometry, nc: seq<nat>)
    requires geo.Ok() && BuiltSoFar(v0, v, geo, nc)
    ensures InRange(v, nc) && |v.data| == geo.MaxCluster() && Sized(v, geo.sectorsPerCluster)
    ensures nc != [] ==> nc[0] < ENTRIES && 2 <= nc[|nc| - 1] < ENTRIES && v.fat[nc[|nc| - 1]] != 0
  {
    if nc != [] {
      NotFree(v.fat, geo.MaxCluster(), nc);
    }
  }

  /** Linking a free cluster uses up one free cluster. */
  lemma LinkedFree(f: Fat, max: nat, nc: seq<nat>, c: nat)
    requires max <= ENTRIES && 2 <= c < max && f[c] == 0
    requires nc != [] ==> 2 <= nc[|nc| - 1] < ENTRIES && f[nc[|nc| - 1]] != 0
    ensures FreeBelow(Linked(f, nc, c), max) + 1 == FreeBelow(f, max)
  {
    FreeAfterSet(f, max, c, EOC_MARK);
    if nc != [] {
      FreeAfterSet(f[c := EOC_MARK], max, nc[|nc| - 1], c);
    }
  }

  /** The allocation loop of write_file: a chain of free clusters that holds the data, zero-padded. */
  method BuildChain(vol: Volume, src: array<Byte>, len: nat) returns (first: nat, ghost nc: seq<nat>)
    requires vol.Valid() && len <= src.Length && len < U32
    requires src != vol.fat && src as object != vol.disk as object
    modifies vol.fat, vol.disk
    ensures Tops(vol.fat[..]) == old(Tops(vol.fat[..]))
    ensures first != 0 <==> FreeBelow(old(vol.State()).fat, vol.geo.MaxCluster()) >= ClustersFor(len,
      vol.geo.sectorsPerCluster)
    ensures first != 0 ==>
      && Built(old(vol.State()), vol.State(), vol.geo, nc) && nc != [] && first == nc[0] && first < ENTRIES
      && |nc| == ClustersFor(len, vol.geo.sectorsPerCluster) && InRange(vol.State(), nc)
      && Stream(vol.State(), nc) == Padded(src[..len], |Stream(vol.State(), nc)|)
      && FreeBelow(vol.State().fat, vol.geo.MaxCluster()) + |nc| ==
        FreeBelow(old(vol.State()).fat, vol.geo.MaxCluster())
  {
    hide Table, AllData, Tops, BuiltSoFar, Built, Stream, SectorBytes, Padded, InRange, FreeBelow, Linked,
      Sized, ClustersFor;
    vol.StateSized();
    ghost var v0, geo := vol.State(), vol.geo;
    SizedNow(vol);
    nc := [];
    first := 0;
    var needed := ClustersFor(len, vol.geo.sectorsPerCluster);
    var prev, off, ci := 0, 0, 0;
    ghost var pre: seq<Byte> := [];
    NothingYet(v0, geo, src[..len]);
    while ci < needed
      invariant 0 <= ci <= needed && |nc| == ci
      invariant Tops(vol.fat[..]) == old(Tops(vol.fat[..]))
      invariant if ci == 0 then first == prev == 0
        else first == nc[0] && prev == nc[ci - 1] && first != 0 && prev != 0
      invariant BuiltSoFar(v0, vol.State(), geo, nc) && InRange(vol.State(), nc)
      invariant pre == Stream(vol.State(), nc) && pre == Padded(src[..len], |pre|) && off == Min(len, |pre|)
      invariant FreeBelow(vol.State().fat, geo.MaxCluster()) + ci == FreeBelow(v0.fat, geo.MaxCluster())
    {
      ghost var v := vol.State();
      BuiltInRange(v0, v, geo, nc);
      var c := vol.AllocCluster();
      if c == 0 {
        NoneFree(v.fat, geo.MaxCluster());
        return 0, [];
      }
      LinkedFree(v.fat, geo.MaxCluster(), nc, c);
      if prev != 0 {
        vol.SetCluster(prev, c);
      }
      if first == 0 {
        first := c;
      }
      prev := c;
      LinkedIs(v.fat, nc, c);
      assert vol.State() == Vol(Linked(v.fat, nc, c), v.data);
      off := WriteCluster(vol, src, len, off, c, pre);
      BuiltMore(v0, v, vol.State(), geo, nc, c);
      BuiltStream(v, vol.State(), nc, c);
      nc := nc + [c];
      pre := Stream(vol.State(), nc);
      BuiltIsSoFar(v0, vol.State(), geo, nc);
      ci := ci + 1;
    }
    BuiltNow(v0, vol.State(), geo, nc);
    BuiltInRange(v0, vol.State(), geo, nc);
  }

  lemma SizedNow(vol: Volume)
    requires vol.Valid()
    ensures Sized(vol.State(), vol.geo.sectorsPerCluster) && |vol.State().data| == vol.geo.MaxCluster()
  {
    vol.StateSized();
  }

  lemma NothingYet(v: Vol, geo: Geometry, b: seq<Byte>)
    requires geo.Ok() && |v.data| == geo.MaxCluster() && Sized(v, geo.sectorsPerCluster)
    ensures BuiltSoFar(v, v, geo, []) && InRange(v, []) && Stream(v, []) == [] && Padded(b, 0) == []
  {
  }

  lemma LinkedIs(f: Fat, nc: seq<nat>, c: nat)
    requires c < ENTRIES && (nc != [] ==> nc[|nc| - 1] < ENTRIES)
    ensures Linked(f, nc, c) == if nc == [] then f[c := EOC_MARK] else f[c := EOC_MARK][nc[|nc| - 1] := c]
  {
  }

  lemma BuiltIsSoFar(v0: Vol, v: Vol, geo: Geometry, nc: seq<nat>)
    requires geo.Ok() && Built(v0, v, geo, nc) && nc != []
    ensures BuiltSoFar(v0, v, geo, nc)
  {
  }

  lemma BuiltNow(v0: Vol, v: Vol, geo: Geometry, nc: seq<nat>)
    requires geo.Ok() && BuiltSoFar(v0, v, geo, nc) && nc != []
    ensures Built(v0, v, geo, nc)
  {
  }
}
