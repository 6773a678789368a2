/** Reading a whole file: fat32_read_file. */
module FatReading {
  import opened Words
  import opened FatTable
  import opened FatVolume
  import opened FatDir
  import opened FatBytes
  import opened FatCatalog
  import opened FatFinds
  import opened FatFiles

  lemma InsideAt(v: Vol, cs: seq<nat>, geo: Geometry, k: nat)
    requires geo.Ok() && Chain(v.fat, geo.MaxCluster(), cs) && Inside(v, cs, geo.sectorsPerCluster) && k < |cs|
    ensures 2 <= cs[k] < geo.MaxCluster() && cs[k] < |v.data|
  {
  }

  /** A stream is so much shorter than 4 GB that read_file's 32-bit sums do not wrap. */
  lemma StreamFits(v: Vol, cs: seq<nat>, geo: Geometry)
    requires geo.Ok() && |v.data| == geo.MaxCluster()
    requires cs == [] || (Chain(v.fat, geo.MaxCluster(), cs) && Inside(v, cs, geo.sectorsPerCluster))
    ensures |cs| <= 65534 && InRange(v, cs)
    ensures |Stream(v, cs)| + SECTOR <= U32
  {
    var spc := geo.sectorsPerCluster;
    StreamLength(v, cs, spc);
    if cs != [] {
      ChainLength(v.fat, geo.MaxCluster(), cs);
      Monotone(spc, 128, |cs|);
      assert SECTOR * spc * |cs| == SECTOR * (spc * |cs|) <= SECTOR * (128 * |cs|);
    }
  }

  /** b1 is b0 with the first n bytes of x written at `at`. */
  predicate Copied(b1: seq<Byte>, b0: seq<Byte>, at: nat, x: seq<Byte>, n: nat)
  {
    at + n <= |b0| && n <= |x| && b1 == b0[..at] + x[..n] + b0[at + n..]
  }

  lemma CopiedYet(b0: seq<Byte>, at: nat, x: seq<Byte>)
    requires at <= |b0|
    ensures Copied(b0, b0, at, x, 0)
  {
  }

  lemma CopiedOne(b1: seq<Byte>, b0: seq<Byte>, at: nat, x: seq<Byte>, n: nat)
    requires Copied(b1, b0, at, x, n) && at + n < |b0| == |b1| && n < |x|
    ensures Copied(b1[at + n := x[n]], b0, at, x, n + 1)
  {
  }

  lemma CopiedNothing(b1: seq<Byte>, b0: seq<Byte>, at: nat, x: seq<Byte>)
    requires Copied(b1, b0, at, x, 0)
    ensures b1 == b0
  {
  }

  /** b is `start` with its first n bytes replaced by the first n bytes of s. */
  predicate StartsWith(b: seq<Byte>, start: seq<Byte>, s: seq<Byte>, n: nat)
  {
    n <= |s| && n <= |start| && b == s[..n] + start[n..]
  }

  lemma StartsNothing(start: seq<Byte>, s: seq<Byte>)
    ensures StartsWith(start, start, s, 0)
  {
  }

  lemma StartsLonger(b: seq<Byte>, start: seq<Byte>, pre: seq<Byte>, s: seq<Byte>, n: nat)
    requires pre <= s && StartsWith(b, start, pre, n)
    ensures StartsWith(b, start, s, n)
  {
    assert s[..n] == pre[..n];
  }

  lemma StartsShorter(b: seq<Byte>, start: seq<Byte>, pre: seq<Byte>, s: seq<Byte>, n: nat)
    requires pre <= s && n <= |pre| && StartsWith(b, start, s, n)
    ensures StartsWith(b, start, pre, n)
  {
    assert s[..n] == pre[..n];
  }

  lemma StartsMore(b1: seq<Byte>, b0: seq<Byte>, start: seq<Byte>, s: seq<Byte>, at: nat, x: seq<Byte>, n: nat)
    requires StartsWith(b0, start, s, at) && Copied(b1, b0, at, x, n)
    requires at + |x| <= |s| && s[at..at + |x|] == x
    ensures StartsWith(b1, start, s, at + n)
  {
    assert s[at..at + |x|][..n] == s[at..at + n];
    assert s[..at] + x[..n] == s[..at + n];
    assert b0[..at] == s[..at] && b0[at + n..] == start[at + n..];
  }

  lemma FullSector(pre: seq<Byte>, bytes: seq<Byte>, at: nat, x: Sector)
    requires at + SECTOR <= |bytes| && bytes[at..at + SECTOR] == x
    ensures (pre + bytes)[|pre| + at..|pre| + at + SECTOR] == x
  {
    assert (pre + bytes)[|pre| + at..|pre| + at + SECTOR] == bytes[at..at + SECTOR];
  }

  lemma NextLink(f: Fat, max: nat, cs: seq<nat>, k: nat)
    requires Chain(f, max, cs) && k < |cs|
    ensures Next(f, cs[k]) < U28
    ensures if k + 1 < |cs| then Next(f, cs[k]) == cs[k + 1] else !Follows(Next(f, cs[k]))
  {
    assert LinkAt(f, cs, k);
  }

  // ----- reading

  /** Copies what is wanted of sector x behind the `got` bytes already in the buffer. */
  method CopySector(x: Sector, buf: array<Byte>, got: nat, bufSize: nat, remaining: nat) returns (n: nat)
    requires got <= bufSize <= buf.Length && got + SECTOR < U32
    modifies buf
    ensures n == Min(Min(SECTOR, remaining), bufSize - got)
    ensures Copied(buf[..], old(buf[..]), got, x, n)
  {
    hide Copied;
    ghost var b0 := buf[..];
    CopiedYet(b0, got, x);
    n := SECTOR;
    if n > remaining {
      n := remaining;
    }
    if (got + n) % U32 > bufSize {
      n := bufSize - got;
    }
    var b := 0;
    while b < n
      invariant 0 <= b <= n
      invariant Copied(buf[..], b0, got, x, b)
    {
      ghost var b1 := buf[..];
      CopiedOne(b1, b0, got, x, b);
      buf[got + b] := x[b];
      assert buf[..] == b1[got + b := x[b]];
      b := b + 1;
    }
  }

  /** One cluster of the loop of fat32_read_file; `pre` is the part of the file before it. */
  method ReadCluster(vol: Volume, c: nat, before: nat, buf: array<Byte>, bufSize: nat, size: nat,
                     ghost pre: seq<Byte>, ghost start: seq<Byte>) returns (got: nat)
    requires vol.Valid() && 2 <= c < vol.geo.MaxCluster() && c < |vol.State().data| && bufSize <= buf.Length
    requires |pre| + |SectorBytes(vol.State().data[c])| + SECTOR <= U32
    requires before == Min(Min(size, bufSize), |pre|)
    requires StartsWith(buf[..], start, pre, before)
    requires buf != vol.fat && buf as object != vol.disk as object
    modifies vol`ioBuf, buf
    ensures vol.State() == old(vol.State())
    ensures var full := pre + SectorBytes(vol.State().data[c]);
      got == Min(Min(size, bufSize), |full|) && StartsWith(buf[..], start, full, got)
  {
    hide Table, AllData, SectorBytes, StartsWith, Copied;
    ghost var v := vol.State();
    ghost var full := pre + SectorBytes(v.data[c]);
    vol.StateSized();
    StartsLonger(buf[..], start, pre, full, before);
    got := before;
    var lba := vol.geo.Lba(c);
    var remaining, s := size - got, 0;
    while s < vol.geo.sectorsPerCluster && remaining > 0
      invariant 0 <= s <= vol.geo.sectorsPerCluster && vol.State() == v
      invariant got == Min(Min(size, bufSize), |pre| + SECTOR * s) && remaining == size - got
      invariant StartsWith(buf[..], start, full, got)
    {
      ghost var b0 := buf[..];
      vol.SectorAt(c, s);
      vol.ReadSector(lba + s);
      SectorWithin(v.data[c], s);
      var n := CopySector(vol.ioBuf, buf, got, bufSize, remaining);
      if got == |pre| + SECTOR * s {
        FullSector(pre, SectorBytes(v.data[c]), SECTOR * s, vol.ioBuf);
        StartsMore(buf[..], b0, start, full, got, vol.ioBuf, n);
      } else {
        CopiedNothing(buf[..], b0, got, vol.ioBuf);
      }
      if n == 0 {
        break;
      }
      got := got + n;
      remaining := remaining - n;
      s := s + 1;
    }
  }

  /** The loop of fat32_read_file: copies the stream of the chain cs until `size` bytes are read or
      the buffer is full. */
  method ReadChain(vol: Volume, first: nat, size: nat, buf: array<Byte>, bufSize: nat, ghost cs: seq<nat>)
    returns (got: nat)
    requires vol.Valid() && first < U32 && size < U32 && bufSize <= buf.Length && bufSize < U32
    requires if cs == [] then first < 2 else HasChain(vol, cs) && cs[0] == first
    requires buf != vol.fat && buf as object != vol.disk as object
    modifies vol`ioBuf, buf
    ensures vol.State() == old(vol.State())
    ensures InRange(vol.State(), cs)
    ensures var s := Stream(vol.State(), cs);
      got == Min(Min(size, bufSize), |s|) && StartsWith(buf[..], old(buf[..]), s, got)
  {
    hide Table, AllData, Stream, SectorBytes, Chain, InRange, Upto, StartsWith;
    ghost var v, start, spc := vol.State(), buf[..], vol.geo.sectorsPerCluster;
    vol.StateSized();
    StreamFits(v, cs, vol.geo);
    ghost var s := Stream(v, cs);
    StartsNothing(start, s);
    UptoEnds(v, cs);
    ghost var k := 0;
    var cur: nat, remaining, limit := first, size, 65536;
    got := 0;
    while Follows(cur) && remaining > 0 && limit > 0
      invariant vol.State() == v && k <= |cs| && limit == 65536 - k && cur < U32
      invariant if k < |cs| then cur == cs[k] else !Follows(cur)
      invariant Upto(v, cs, k) <= s
      invariant got == Min(Min(size, bufSize), |Upto(v, cs, k)|) && remaining == size - got
      invariant StartsWith(buf[..], start, s, got)
      decreases limit
    {
      limit := limit - 1;
      UptoNext(v, cs, k);
      StartsShorter(buf[..], start, Upto(v, cs, k), s, got);
      InsideAt(v, cs, vol.geo, k);
      got := ReadCluster(vol, cur, got, buf, bufSize, size, Upto(v, cs, k), start);
      StartsLonger(buf[..], start, Upto(v, cs, k + 1), s, got);
      remaining := size - got;
      NextLink(v.fat, vol.geo.MaxCluster(), cs, k);
      cur := vol.NextCluster(cur);
      k := k + 1;
    }
  }

  /** fat32_read_file: the contents of the file the name stands for, as far as the buffer holds them. */
  method ReadFile(fs: FileSystem, name: seq<Byte>, ext: seq<Byte>, buf: array<Byte>, bufSize: nat, ghost cat: Catalog)
    returns (ok: bool, bytesRead: nat)
    requires fs.vol.Valid() && Consistent(fs.vol.State(), fs.vol.geo, cat) && fs.Dir() in cat.dirs
    requires bufSize <= buf.Length && bufSize < U32 && buf != fs.vol.fat && buf as object != fs.vol.disk as object
    modifies fs.vol`ioBuf, buf
    ensures ok <==> Find(fs.vol.State(), fs.vol.geo, cat, fs.Dir(), name, ext).File?
    ensures !ok ==> bytesRead == 0 && buf[..] == old(buf[..])
    ensures ok ==>
      var bytes := Find(fs.vol.State(), fs.vol.geo, cat, fs.Dir(), name, ext).bytes;
      bytesRead == Min(|bytes|, bufSize) && StartsWith(buf[..], old(buf[..]), bytes, bytesRead)
  {
    hide Table, AllData, Hit, Chain, At, DirOk, EntryOk, EntryAt, StartsWith, Stream, Inside, FileBytes,
      SizeOf, ClusterOf, IsDirectory, Find, FindsNothing, PassesTo, InRange;
    bytesRead := 0;
    var vol := fs.vol;
    ghost var v, geo, d, start := vol.State(), vol.geo, fs.Dir(), buf[..];
    DirChain(v, geo, cat, d);
    var found, lba, idx, p := fs.FindEntry(fs.Dir(), Named(name, ext), cat.chains[d]);
    if !found {
      NothingFound(v, geo, cat, d, name, ext);
      return false, 0;
    }
    FoundEntry(v, geo, cat, d, name, ext, p);
    EntryIs(v, cat.chains[d], geo, p);
    vol.SectorAt(cat.chains[d][p.k], p.s);
    vol.ReadSector(lba);
    var e := EntryAt(vol.ioBuf, idx);
    if IsDirectory(e) {
      return false, 0;
    }
    FileChain(v, geo, cat, Place(d, p), e);
    bytesRead := ReadChain(vol, ClusterOf(e), SizeOf(e), buf, bufSize, ChainOf(cat, e));
    StartsShorter(buf[..], start, FileBytes(v, geo, cat, e), Stream(v, ChainOf(cat, e)), bytesRead);
    ok := true;
  }
}
