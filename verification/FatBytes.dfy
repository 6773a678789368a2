/** The bytes stored in the sectors of a chain. */
module FatBytes {
  import opened Words
  import opened FatTable
  import opened FatVolume

  function SectorBytes(sectors: seq<Sector>): (b: seq<Byte>)
    ensures |b| == SECTOR * |sectors|
  {
    if sectors == [] then [] else SectorBytes(sectors[..|sectors| - 1]) + sectors[|sectors| - 1]
  }

  ghost predicate InRange(v: Vol, cs: seq<nat>)
  {
    forall k :: 0 <= k < |cs| ==> cs[k] < |v.data|
  }

  /** All bytes of the clusters of a chain, in order. */
  ghost function Stream(v: Vol, cs: seq<nat>): seq<Byte>
    requires InRange(v, cs)
  {
    if cs == [] then [] else Stream(v, cs[..|cs| - 1]) + SectorBytes(v.data[cs[|cs| - 1]])
  }

  lemma {:induction false} StreamKept(v: Vol, v': Vol, cs: seq<nat>)
    requires forall k :: 0 <= k < |cs| ==> cs[k] < |v.data| && cs[k] < |v'.data| && v'.data[cs[k]] == v.data[cs[k]]
    ensures Stream(v', cs) == Stream(v, cs)
  {
    if cs != [] {
      var init := cs[..|cs| - 1];
      assert forall k :: 0 <= k < |init| ==> init[k] == cs[k];
      StreamKept(v, v', init);
    }
  }

  lemma {:induction false} StreamLength(v: Vol, cs: seq<nat>, spc: nat)
    requires forall k :: 0 <= k < |cs| ==> cs[k] < |v.data| && |v.data[cs[k]]| == spc
    ensures |Stream(v, cs)| == SECTOR * spc * |cs|
  {
    if cs != [] {
      StreamLength(v, cs[..|cs| - 1], spc);
    }
  }

  /** The stream of the first k clusters of a chain. */
  ghost function Upto(v: Vol, cs: seq<nat>, k: nat): seq<Byte>
    requires InRange(v, cs) && k <= |cs|
  {
    Stream(v, cs[..k])
  }

  lemma UptoEnds(v: Vol, cs: seq<nat>)
    requires InRange(v, cs)
    ensures Upto(v, cs, 0) == [] && Upto(v, cs, |cs|) == Stream(v, cs)
  {
    assert cs[..|cs|] == cs;
  }

  /** Cluster k comes next in the stream. */
  lemma {:induction false} UptoNext(v: Vol, cs: seq<nat>, k: nat)
    requires InRange(v, cs) && k < |cs|
    ensures Upto(v, cs, k + 1) == Upto(v, cs, k) + SectorBytes(v.data[cs[k]])
    ensures Upto(v, cs, k + 1) <= Stream(v, cs)
    decreases |cs|
  {
    assert cs[..k + 1][..k] == cs[..k];
    if k + 1 == |cs| {
      assert cs[..k + 1] == cs;
    } else {
      var init := cs[..|cs| - 1];
      UptoNext(v, init, k);
      assert init[..k + 1] == cs[..k + 1];
    }
  }

  /** Sector s of a cluster. */
  lemma {:induction false} SectorWithin(sectors: seq<Sector>, s: nat)
    requires s < |sectors|
    ensures SectorBytes(sectors)[SECTOR * s..SECTOR * s + SECTOR] == sectors[s]
    decreases |sectors|
  {
    var init := sectors[..|sectors| - 1];
    if s + 1 < |sectors| {
      SectorWithin(init, s);
      assert SectorBytes(sectors)[SECTOR * s..SECTOR * s + SECTOR] ==
        SectorBytes(init)[SECTOR * s..SECTOR * s + SECTOR];
    }
  }

  // ----- what write_file lays down

  /** b cut or zero-padded to n bytes. */
  function Padded(b: seq<Byte>, n: nat): (p: seq<Byte>)
    ensures |p| == n
  {
    if n <= |b| then b[..n] else b + seq(n - |b|, _ => 0)
  }

  function Min(a: nat, b: nat): nat
  {
    if a < b then a else b
  }

  /** The next sector continues the padded data. */
  lemma PadMore(b: seq<Byte>, n: nat)
    ensures Padded(b, n + SECTOR) == Padded(b, n) + Padded(b[Min(|b|, n)..Min(|b|, n + SECTOR)], SECTOR)
  {
  }

  /** The number of clusters write_file allocates for len bytes: len + bytes-per-cluster - 1 is
      computed in 32 bits. */
  function ClustersFor(len: nat, spc: nat): (n: nat)
    requires 1 <= spc
    ensures n >= 1
  {
    var n := (len + SECTOR * spc - 1) % U32 / (SECTOR * spc);
    if n == 0 then 1 else n
  }

  /** Without wrap-around these are the fewest clusters that hold the data; with it, a single one. */
  lemma ClustersHold(len: nat, spc: nat)
    requires 1 <= spc <= 128 && len < U32
    ensures var n, size := ClustersFor(len, spc), SECTOR * spc;
      if len + size <= U32 then len <= size * n && (n == 1 || size * (n - 1) < len) else n == 1 && size < len
  {
    var size := SECTOR * spc;
    RoundUp(len, size);
    if len + size > U32 {
      SmallQuotient((len + size - 1) % U32, size);
    }
  }

  lemma RoundUp(len: nat, size: nat)
    requires size > 0
    ensures var q := (len + size - 1) / size;
      len <= size * q && size * q < len + size && (q == 0 ==> len == 0) && size * q - size == size * (q - 1)
  {
    var sum := len + size - 1;
    assert sum == size * (sum / size) + sum % size;
  }

  lemma SmallQuotient(a: nat, b: nat)
    requires a < b
    ensures a / b == 0
  {
  }
}
