/** A mounted FAT32 volume: the in-memory table, the sectors of the disk, and the primitive
    operations on them. Sector reads and writes always succeed here. */
module FatVolume {
  import opened Words
  import opened FatTable

  const U32 := 0x1_0000_0000
  const SECTOR := 512

  type Sector = s: seq<Byte> | |s| == SECTOR witness seq(SECTOR, _ => 0)

  function ZeroSector(): Sector
  {
    seq(SECTOR, _ => 0)
  }

  /** What the volume stores, free of its layout: the table and the sectors of every cluster. */
  datatype Vol = Vol(fat: Fat, data: seq<seq<Sector>>)

  /** Where things are on the disk, as the boot sector says. */
  datatype Geometry = Geometry(sectorsPerCluster: nat, fatCount: nat, sectorsPerFat: nat, firstFat: nat,
                               firstData: nat, totalSectors: nat, root: nat)
  {
    /** One past the last cluster number in use. */
    function MaxCluster(): (m: nat)
      requires sectorsPerCluster > 0
    {
      if totalSectors <= firstData then 2
      else
        var m := (totalSectors - firstData) / sectorsPerCluster + 2;
        if m > ENTRIES then ENTRIES else m
    }

    /** fat32_cluster_to_lba. */
    function Lba(c: nat): nat
      requires c >= 2
    {
      firstData + (c - 2) * sectorsPerCluster
    }

    ghost predicate Ok()
    {
      && 1 <= sectorsPerCluster <= 128
      && 1 <= fatCount && firstData == firstFat + fatCount * sectorsPerFat
      && firstData < totalSectors < U32
      && MaxCluster() <= 128 * sectorsPerFat
      && 2 <= root < MaxCluster()
    }

    lemma ClusterOnDisk(c: nat)
      requires Ok() && 2 <= c < MaxCluster()
      ensures firstData <= Lba(c) && Lba(c) + sectorsPerCluster <= totalSectors
    {
      FitsInRoom(c - 2, totalSectors - firstData, sectorsPerCluster);
    }

    /** The clusters in use are those that lie on the volume as a whole, as far as the table goes. */
    lemma ClustersInUse(c: nat)
      requires Ok() && 2 <= c < ENTRIES
      ensures c < MaxCluster() <==> firstData + (c - 2) * sectorsPerCluster + sectorsPerCluster <= totalSectors
    {
      var n, room := (totalSectors - firstData) / sectorsPerCluster, totalSectors - firstData;
      if c - 2 < n {
        FitsInRoom(c - 2, room, sectorsPerCluster);
      } else {
        TooFar(c - 2, room, sectorsPerCluster);
      }
    }

    /** Different sectors of clusters have different addresses. */
    lemma LbaInjective(c: nat, s: nat, d: nat, t: nat)
      requires c >= 2 && d >= 2 && s < sectorsPerCluster && t < sectorsPerCluster
      requires Lba(c) + s == Lba(d) + t
      ensures c == d && s == t
    {
      if c < d {
        BlocksApart(c - 2, s, d - 2, t, sectorsPerCluster);
        assert false;
      } else if d < c {
        BlocksApart(d - 2, t, c - 2, s, sectorsPerCluster);
        assert false;
      }
    }
  }

  lemma TooFar(k: nat, room: nat, n: nat)
    requires n > 0 && k >= room / n
    ensures k * n + n > room
  {
    assert room == room / n * n + room % n;
    assert k * n >= room / n * n;
  }

  lemma FitsInRoom(k: nat, room: nat, size: nat)
    requires size > 0 && k < room / size
    ensures k * size + size <= room
  {
    assert room == size * (room / size) + room % size;
    assert (k + 1) * size <= (room / size) * size by {
      Monotone(k + 1, room / size, size);
    }
    assert (k + 1) * size == k * size + size;
  }

  lemma Monotone(a: nat, b: nat, n: nat)
    requires a <= b
    ensures a * n <= b * n
  {
  }

  lemma BlocksApart(i: nat, s: nat, j: nat, t: nat, size: nat)
    requires i < j && s < size
    ensures i * size + s < j * size + t
  {
    Monotone(i + 1, j, size);
    assert (i + 1) * size == i * size + size;
  }

  /** The sectors of cluster c. */
  ghost function ClusterData(disk: seq<Sector>, geo: Geometry, c: nat): seq<Sector>
    requires geo.Ok() && geo.totalSectors <= |disk| && c < geo.MaxCluster()
  {
    if c < 2 then [] else
      geo.ClusterOnDisk(c);
      disk[geo.Lba(c)..geo.Lba(c) + geo.sectorsPerCluster]
  }

  ghost function AllData(disk: seq<Sector>, geo: Geometry): seq<seq<Sector>>
    requires geo.Ok() && geo.totalSectors <= |disk|
  {
    seq(geo.MaxCluster(), c requires 0 <= c < geo.MaxCluster() => ClusterData(disk, geo, c))
  }

  lemma DataAt(disk: seq<Sector>, geo: Geometry, c: nat, s: nat)
    requires geo.Ok() && geo.totalSectors <= |disk| && 2 <= c < geo.MaxCluster() && s < geo.sectorsPerCluster
    ensures geo.Lba(c) + s < geo.totalSectors && |AllData(disk, geo)[c]| == geo.sectorsPerCluster
    ensures AllData(disk, geo)[c][s] == disk[geo.Lba(c) + s]
  {
    geo.ClusterOnDisk(c);
  }

  /** The data with one sector replaced. */
  function WithSector(data: seq<seq<Sector>>, c: nat, s: nat, x: Sector): seq<seq<Sector>>
    requires c < |data| && s < |data[c]|
  {
    var cluster: seq<Sector> := data[c];
    data[c := cluster[s := x]]
  }

  lemma DataSet(disk: seq<Sector>, geo: Geometry, c: nat, s: nat, x: Sector)
    requires geo.Ok() && geo.totalSectors <= |disk| && 2 <= c < geo.MaxCluster() && s < geo.sectorsPerCluster
    ensures geo.Lba(c) + s < geo.totalSectors && |AllData(disk, geo)[c]| == geo.sectorsPerCluster
    ensures AllData(disk[geo.Lba(c) + s := x], geo) == WithSector(AllData(disk, geo), c, s, x)
  {
    DataAt(disk, geo, c, s);
    var disk' := disk[geo.Lba(c) + s := x];
    assert |AllData(disk, geo)[c]| == geo.sectorsPerCluster;
    forall d: nat | d < geo.MaxCluster()
      ensures ClusterData(disk', geo, d) == WithSector(AllData(disk, geo), c, s, x)[d]
    {
      ClusterSet(disk, geo, c, s, x, d);
    }
    assert AllData(disk', geo) == WithSector(AllData(disk, geo), c, s, x);
  }

  lemma ClusterSet(disk: seq<Sector>, geo: Geometry, c: nat, s: nat, x: Sector, d: nat)
    requires geo.Ok() && geo.totalSectors <= |disk| && 2 <= c < geo.MaxCluster() && s < geo.sectorsPerCluster
    requires d < geo.MaxCluster() && geo.Lba(c) + s < |disk|
    ensures |ClusterData(disk, geo, c)| == geo.sectorsPerCluster
    ensures ClusterData(disk[geo.Lba(c) + s := x], geo, d) ==
      if d == c then ClusterData(disk, geo, c)[s := x] else ClusterData(disk, geo, d)
  {
    geo.ClusterOnDisk(c);
    var disk' := disk[geo.Lba(c) + s := x];
    if d >= 2 {
      geo.ClusterOnDisk(d);
      forall t | 0 <= t < geo.sectorsPerCluster
        ensures ClusterData(disk', geo, d)[t] == if d == c && t == s then x else ClusterData(disk, geo, d)[t]
      {
        if geo.Lba(c) + s == geo.Lba(d) + t {
          geo.LbaInjective(c, s, d, t);
        }
      }
    }
  }

  /** Sectors before the data area do not matter to the data. */
  lemma DataKept(disk: seq<Sector>, disk': seq<Sector>, geo: Geometry)
    requires geo.Ok() && geo.totalSectors <= |disk| == |disk'|
    requires forall l :: geo.firstData <= l < |disk| ==> disk'[l] == disk[l]
    ensures AllData(disk', geo) == AllData(disk, geo)
  {
    forall d | 0 <= d < geo.MaxCluster()
      ensures AllData(disk', geo)[d] == AllData(disk, geo)[d]
    {
      if d >= 2 {
        geo.ClusterOnDisk(d);
      }
    }
  }

  /** Sector i of the table in memory is what both copies on disk hold. */
  ghost predicate CopiesMatch(disk: seq<Sector>, fat: seq<Byte>, geo: Geometry, i: nat)
    requires geo.Ok() && geo.totalSectors <= |disk| && |fat| == 4 * ENTRIES && i < 512 && i < geo.sectorsPerFat
  {
    InFatArea(geo, i);
    && disk[geo.firstFat + i] == fat[SECTOR * i..SECTOR * i + SECTOR]
    && (geo.fatCount >= 2 ==> disk[geo.firstFat + geo.sectorsPerFat + i] == fat[SECTOR * i..SECTOR * i + SECTOR])
  }

  lemma InFatArea(geo: Geometry, i: nat)
    requires geo.Ok() && i < geo.sectorsPerFat
    ensures geo.firstFat + i < geo.firstData
    ensures geo.fatCount >= 2 ==> geo.firstFat + geo.sectorsPerFat + i < geo.firstData
  {
    MoreRows(geo.sectorsPerFat, 1, geo.fatCount);
    if geo.fatCount >= 2 {
      MoreRows(geo.sectorsPerFat, 2, geo.fatCount);
    }
  }

  lemma {:induction false} MoreRows(w: nat, n: nat, k: nat)
    requires n <= k
    ensures w * n <= w * k
    decreases k
  {
    if n < k {
      MoreRows(w, n, k - 1);
    }
  }

  class Volume {
    const geo: Geometry
    const fat: array<Byte>      // g_fat_buf
    const disk: array<Sector>
    var ioBuf: Sector           // g_io_buf

    constructor (geo: Geometry, fat: array<Byte>, disk: array<Sector>)
      requires geo.Ok() && fat.Length == 4 * ENTRIES && geo.totalSectors <= disk.Length
      requires fat as object != disk as object
      ensures Valid() && this.geo == geo && this.fat == fat && this.disk == disk
    {
      this.geo := geo;
      this.fat := fat;
      this.disk := disk;
      this.ioBuf := ZeroSector();
    }

    ghost predicate Valid()
    {
      geo.Ok() && fat.Length == 4 * ENTRIES && geo.totalSectors <= disk.Length && fat as object != disk as object
    }

    ghost function State(): Vol
      requires Valid()
      reads fat, disk
    {
      Vol(Table(fat[..]), AllData(disk[..], geo))
    }

    /** ata_read_sector into g_io_buf. */
    method ReadSector(lba: nat)
      requires Valid() && lba < geo.totalSectors
      modifies this`ioBuf
      ensures ioBuf == disk[lba]
    {
      ioBuf := disk[lba];
    }

    /** ata_write_sector of sector s of cluster c. */
    method WriteData(lba: nat, x: Sector, ghost c: nat, ghost s: nat)
      requires Valid() && 2 <= c < geo.MaxCluster() && s < geo.sectorsPerCluster && lba == geo.Lba(c) + s
      modifies disk
      ensures |old(State()).data| == geo.MaxCluster() && |old(State()).data[c]| == geo.sectorsPerCluster
      ensures State() == Vol(old(State()).fat, WithSector(old(State()).data, c, s, x))
      ensures old(Flushed()) ==> Flushed()
    {
      hide AllData, Table;
      StateSized();
      DataSet(disk[..], geo, c, s, x);
      geo.ClusterOnDisk(c);
      disk[lba] := x;
      assert disk[..] == old(disk[..])[lba := x];
      if old(Flushed()) {
        forall i | 0 <= i < 512 && i < geo.sectorsPerFat ensures CopiesMatch(disk[..], fat[..], geo, i) {
          assert CopiesMatch(old(disk[..]), old(fat[..]), geo, i);
          InFatArea(geo, i);
        }
      }
    }

    lemma StateSized()
      requires Valid()
      ensures |State().data| == geo.MaxCluster()
      ensures forall c :: 2 <= c < geo.MaxCluster() ==> |State().data[c]| == geo.sectorsPerCluster
    {
      forall c | 2 <= c < geo.MaxCluster() ensures |State().data[c]| == geo.sectorsPerCluster {
        geo.ClusterOnDisk(c);
      }
    }

    /** The sector at the address of sector s of cluster c. */
    lemma SectorAt(c: nat, s: nat)
      requires Valid() && 2 <= c < geo.MaxCluster() && s < geo.sectorsPerCluster
      ensures |State().data| == geo.MaxCluster() && |State().data[c]| == geo.sectorsPerCluster
      ensures geo.Lba(c) + s < geo.totalSectors && disk[geo.Lba(c) + s] == State().data[c][s]
    {
      DataAt(disk[..], geo, c, s);
    }

    /** Four bits of the highest byte belong to the entry. */
    lemma LowBits(low: nat, b3: nat)
      requires low < 0x100_0000
      ensures (low + 0x100_0000 * b3) % U28 == low + 0x100_0000 * (b3 % 16)
    {
      assert low + 0x100_0000 * b3 == low + 0x100_0000 * (b3 % 16) + U28 * (b3 / 16);
    }

    /** fat32_next_cluster. */
    method NextCluster(c: nat) returns (next: nat)
      requires Valid() && c < U32
      ensures next == Next(State().fat, c) && next < U28
    {
      hide AllData;
      var off := 4 * c % U32;
      assert off == 4 * Slot(c);
      if off + 3 >= fat.Length {
        return EOC;
      }
      var b0: nat, b1: nat, b2: nat, b3: nat := fat[off], fat[off + 1], fat[off + 2], fat[off + 3];
      var val := b0 + 0x100 * b1 + 0x1_0000 * b2 + 0x100_0000 * b3;
      next := val % U28;
      LowBits(b0 + 0x100 * b1 + 0x1_0000 * b2, b3);
      assert next == Entry(fat[..], Slot(c));
    }

    /** fat32_set_cluster. */
    method SetCluster(c: nat, val: nat)
      requires Valid() && c < U32
      modifies fat
      ensures State().data == old(State()).data && Tops(fat[..]) == old(Tops(fat[..]))
      ensures State().fat == if Slot(c) < ENTRIES then old(State()).fat[Slot(c) := val % U28] else old(State()).fat
    {
      hide Table, Tops, AllData, Entry;
      var off := 4 * c % U32;
      assert off == 4 * Slot(c);
      if off + 3 >= fat.Length {
        return;
      }
      TableSet(fat[..], Slot(c), val);
      var top := fat[off + 3] / 16 * 16;
      fat[off] := val % 256;
      fat[off + 1] := val / 0x100 % 256;
      fat[off + 2] := val / 0x1_0000 % 256;
      fat[off + 3] := top + val / 0x100_0000 % 16;
      assert fat[..] == WithEntry(old(fat[..]), Slot(c), val);
    }

    /** fat32_alloc_cluster: the lowest free cluster, marked end-of-chain; 0 when there is none. */
    method AllocCluster() returns (c: nat)
      requires Valid()
      modifies fat
      ensures State().data == old(State()).data && Tops(fat[..]) == old(Tops(fat[..]))
      ensures c == 0 ==>
        fat[..] == old(fat[..]) && forall d :: 2 <= d < geo.MaxCluster() ==> old(State()).fat[d] != 0
      ensures c == 0 && old(Flushed()) ==> Flushed()
      ensures c != 0 ==>
        && 2 <= c < geo.MaxCluster() && old(State()).fat[c] == 0 && State().fat == old(State()).fat[c := EOC_MARK]
        && forall d :: 2 <= d < c ==> old(State()).fat[d] != 0
    {
      hide Table, AllData, Tops;
      c := 2;
      while c < geo.MaxCluster()
        invariant 2 <= c && c <= geo.MaxCluster()
        invariant fat[..] == old(fat[..])
        invariant forall d :: 2 <= d < c ==> State().fat[d] != 0
      {
        var next := NextCluster(c);
        if next == 0 {
          SetCluster(c, EOC_MARK);
          return;
        }
        c := c + 1;
      }
      c := 0;
    }

    /** fat32_free_chain: on any table, cyclic or not, it stops before the limit does. */
    method FreeChain(first: nat)
      requires Valid() && first < U32
      modifies fat
      ensures State().data == old(State()).data && Tops(fat[..]) == old(Tops(fat[..]))
      ensures State().fat == FreedFrom(old(State()).fat, first)
    {
      hide Table, AllData, Tops, FreedFrom, InUse;
      var c: nat, limit: nat := first, 65536;
      InUseBound(State().fat, ENTRIES);
      ghost var done := false;
      while Follows(c) && limit > 0
        invariant c < U32 && (done ==> !Follows(c))
        invariant State().data == old(State()).data && Tops(fat[..]) == old(Tops(fat[..]))
        invariant FreedFrom(old(State()).fat, first) == FreedFrom(State().fat, c)
        invariant limit >= InUse(State().fat, ENTRIES) || done
        invariant 0 <= limit
        decreases limit
      {
        ghost var f := State().fat;
        var next := NextCluster(c);
        SetCluster(c, 0);
        if Slot(c) >= ENTRIES || f[Slot(c)] == 0 {
          done := true;
          FreedNothing(f, c);
        } else {
          InUseDrops(f, ENTRIES, Slot(c));
          FreedOne(f, c);
        }
        c := next;
        limit := limit - 1;
      }
      NothingInUse(State().fat, c);
    }

    /** Both copies of the table on disk are the table in memory. */
    ghost predicate Flushed()
      requires Valid()
      reads fat, disk
    {
      forall i :: 0 <= i < 512 && i < geo.sectorsPerFat ==> CopiesMatch(disk[..], fat[..], geo, i)
    }

    /** Sector i of the table goes to both copies. */
    method FlushSector(i: nat)
      requires Valid() && i < 512 && i < geo.sectorsPerFat
      modifies disk
      ensures Valid() && CopiesMatch(disk[..], fat[..], geo, i)
      ensures forall l :: geo.firstData <= l < disk.Length ==> disk[l] == old(disk[l])
      ensures forall k :: 0 <= k < i && CopiesMatch(old(disk[..]), fat[..], geo, k) ==>
        CopiesMatch(disk[..], fat[..], geo, k)
    {
      ghost var before := disk[..];
      InFatArea(geo, i);
      var src := fat[SECTOR * i..SECTOR * i + SECTOR];
      disk[geo.firstFat + i] := src;
      if geo.fatCount >= 2 {
        disk[geo.firstFat + geo.sectorsPerFat + i] := src;
      }
      forall k | 0 <= k < i && CopiesMatch(before, fat[..], geo, k) ensures CopiesMatch(disk[..], fat[..], geo, k) {
        InFatArea(geo, k);
      }
    }

    /** fat32_flush_fat. */
    method FlushFat()
      requires Valid()
      modifies disk
      ensures State() == old(State()) && Flushed()
    {
      hide CopiesMatch, AllData;
      var sectors := if geo.sectorsPerFat > 512 then 512 else geo.sectorsPerFat;
      var i := 0;
      while i < sectors
        invariant 0 <= i <= sectors
        invariant forall l :: geo.firstData <= l < disk.Length ==> disk[l] == old(disk[l])
        invariant forall k :: 0 <= k < i ==> CopiesMatch(disk[..], fat[..], geo, k)
      {
        FlushSector(i);
        i := i + 1;
      }
      DataKept(old(disk[..]), disk[..], geo);
    }
  }
}
