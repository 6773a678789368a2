/** The file allocation table: its bytes, the 28-bit entries they encode, and cluster chains. */
module FatTable {

  import opened Words

  const ENTRIES := 65536            // what g_fat_buf holds
  const U28 := 0x1000_0000
  const EOC := 0x0FFF_FFF8          // end-of-chain threshold
  const EOC_MARK := 0x0FFF_FFFF

  /** The entries as numbers. */
  type Fat = f: seq<nat> | |f| == ENTRIES witness seq(ENTRIES, _ => 0)

  // ----- bytes

  /** Entry c without its top nibble. */
  function Entry(b: seq<Byte>, c: nat): (v: nat)
    requires 4 * c + 3 < |b|
    ensures v < U28
  {
    var b0: nat, b1: nat, b2: nat, b3: nat := b[4 * c], b[4 * c + 1], b[4 * c + 2], b[4 * c + 3];
    b0 + 0x100 * b1 + 0x1_0000 * b2 + 0x100_0000 * (b3 % 16)
  }

  /** The four reserved bits of entry c. */
  function Top(b: seq<Byte>, c: nat): nat
    requires 4 * c + 3 < |b|
  {
    b[4 * c + 3] / 16
  }

  /** The bytes with entry c set to the low 28 bits of v, its top nibble kept. */
  function WithEntry(b: seq<Byte>, c: nat, v: nat): (b': seq<Byte>)
    requires 4 * c + 3 < |b|
    ensures |b'| == |b|
  {
    b[4 * c := v % 256][4 * c + 1 := v / 0x100 % 256][4 * c + 2 := v / 0x1_0000 % 256]
     [4 * c + 3 := 16 * (b[4 * c + 3] / 16) + v / 0x100_0000 % 16]
  }

  lemma WithEntrySets(b: seq<Byte>, c: nat, v: nat, d: nat)
    requires 4 * c + 3 < |b| && 4 * d + 3 < |b|
    ensures Entry(WithEntry(b, c, v), d) == if d == c then v % U28 else Entry(b, d)
    ensures Top(WithEntry(b, c, v), d) == Top(b, d)
  {
    if d == c {
      Digits(v);
    }
  }

  lemma Digits(v: nat)
    ensures v % U28 ==
      v % 256 + 0x100 * (v / 0x100 % 256) + 0x1_0000 * (v / 0x1_0000 % 256) + 0x100_0000 * (v / 0x100_0000 % 16)
  {
    assert v / 0x100 / 0x100 == v / 0x1_0000 && v / 0x1_0000 / 0x100 == v / 0x100_0000;
    assert v / 0x100_0000 / 16 == v / U28;
  }

  ghost function Table(b: seq<Byte>): Fat
    requires |b| == 4 * ENTRIES
  {
    seq(ENTRIES, c requires 0 <= c < ENTRIES => Entry(b, c))
  }

  ghost function Tops(b: seq<Byte>): Fat
    requires |b| == 4 * ENTRIES
  {
    seq(ENTRIES, c requires 0 <= c < ENTRIES => Top(b, c))
  }

  lemma TableSet(b: seq<Byte>, c: nat, v: nat)
    requires |b| == 4 * ENTRIES && c < ENTRIES
    ensures Table(WithEntry(b, c, v)) == Table(b)[c := v % U28]
    ensures Tops(WithEntry(b, c, v)) == Tops(b)
  {
    forall d | 0 <= d < ENTRIES
      ensures Table(WithEntry(b, c, v))[d] == Table(b)[c := v % U28][d]
      ensures Tops(WithEntry(b, c, v))[d] == Tops(b)[d]
    {
      WithEntrySets(b, c, v, d);
    }
  }

  /** Entries and top nibbles determine every byte of the table. */
  lemma BytesFromEntries(a: seq<Byte>, b: seq<Byte>)
    requires |a| == |b| == 4 * ENTRIES && Table(a) == Table(b) && Tops(a) == Tops(b)
    ensures a == b
  {
    forall i | 0 <= i < |a| ensures a[i] == b[i] {
      var c := i / 4;
      assert Table(a)[c] == Table(b)[c] && Tops(a)[c] == Tops(b)[c];
      SameEntrySameBytes(a, b, c);
      assert i == 4 * c || i == 4 * c + 1 || i == 4 * c + 2 || i == 4 * c + 3;
    }
  }

  lemma EntryDigits(b: seq<Byte>, c: nat)
    requires 4 * c + 3 < |b|
    ensures Entry(b, c) % 256 == b[4 * c]
    ensures Entry(b, c) / 0x100 % 256 == b[4 * c + 1]
    ensures Entry(b, c) / 0x1_0000 % 256 == b[4 * c + 2]
    ensures Entry(b, c) / 0x100_0000 == b[4 * c + 3] % 16
  {
    var b0: nat, b1: nat, b2: nat, b3: nat := b[4 * c], b[4 * c + 1], b[4 * c + 2], b[4 * c + 3] % 16;
    assert Entry(b, c) / 0x100 == b1 + 0x100 * b2 + 0x1_0000 * b3;
    assert Entry(b, c) / 0x1_0000 == b2 + 0x100 * b3;
  }

  lemma SameEntrySameBytes(a: seq<Byte>, b: seq<Byte>, c: nat)
    requires 4 * c + 3 < |a| && 4 * c + 3 < |b| && Entry(a, c) == Entry(b, c) && Top(a, c) == Top(b, c)
    ensures a[4 * c] == b[4 * c] && a[4 * c + 1] == b[4 * c + 1]
    ensures a[4 * c + 2] == b[4 * c + 2] && a[4 * c + 3] == b[4 * c + 3]
  {
    EntryDigits(a, c);
    EntryDigits(b, c);
  }

  // ----- chains

  /** The table slot next_cluster looks at: c * 4 is computed in 32 bits. */
  function Slot(c: nat): nat
  {
    c % 0x4000_0000
  }

  /** fat32_next_cluster: the entry of c, end-of-chain when c is beyond the table. */
  function Next(f: Fat, c: nat): nat
  {
    if Slot(c) < ENTRIES then f[Slot(c)] else EOC
  }

  /** Does a chain walk visit c? */
  predicate Follows(c: nat)
  {
    c >= 2 && c % U28 < EOC
  }

  /** Link k of the chain cs is as the table says. */
  predicate LinkAt(f: Fat, cs: seq<nat>, k: nat)
    requires k < |cs|
  {
    cs[k] < ENTRIES && if k + 1 < |cs| then f[cs[k]] == cs[k + 1] else EOC <= f[cs[k]] < U28
  }

  /** cs is the chain that starts at its first cluster: in range, linked, end-of-chain at the end,
      no cluster twice. */
  ghost predicate Chain(f: Fat, max: nat, cs: seq<nat>)
  {
    && cs != [] && max <= ENTRIES
    && (forall k :: 0 <= k < |cs| ==> 2 <= cs[k] < max)
    && (forall k :: 0 <= k < |cs| ==> LinkAt(f, cs, k))
    && Distinct(cs)
  }

  ghost predicate Distinct(cs: seq<nat>)
  {
    forall i, j :: 0 <= i < j < |cs| ==> cs[i] != cs[j]
  }

  /** The chain from a cluster is the only one from it. */
  lemma {:induction false} ChainUnique(f: Fat, max: nat, a: seq<nat>, b: seq<nat>)
    requires Chain(f, max, a) && Chain(f, max, b) && a[0] == b[0]
    ensures a == b
  {
    assert LinkAt(f, a, 0) && LinkAt(f, b, 0);
    if |a| > 1 && |b| > 1 {
      ChainTail(f, max, a);
      ChainTail(f, max, b);
      ChainUnique(f, max, a[1..], b[1..]);
    }
  }

  lemma ChainTail(f: Fat, max: nat, cs: seq<nat>)
    requires Chain(f, max, cs) && |cs| > 1
    ensures Chain(f, max, cs[1..])
  {
    forall k | 0 <= k < |cs[1..]| ensures LinkAt(f, cs[1..], k) {
      assert LinkAt(f, cs, k + 1);
    }
  }

  ghost function Clusters(cs: seq<nat>): set<nat>
  {
    set k | 0 <= k < |cs| :: cs[k]
  }

  /** A chain is shorter than the 65536 steps every walk allows itself. */
  lemma ChainLength(f: Fat, max: nat, cs: seq<nat>)
    requires Chain(f, max, cs)
    ensures |cs| <= max - 2
  {
    DistinctSize(cs);
    SmallSet(Clusters(cs), max);
  }

  lemma {:induction false} DistinctSize(cs: seq<nat>)
    requires Distinct(cs)
    ensures |Clusters(cs)| == |cs|
  {
    if cs != [] {
      DistinctSize(cs[1..]);
      assert Clusters(cs) == {cs[0]} + Clusters(cs[1..]) by {
        forall c | c in Clusters(cs) ensures c in {cs[0]} + Clusters(cs[1..]) {
          var k :| 0 <= k < |cs| && cs[k] == c;
          if k > 0 {
            assert cs[1..][k - 1] == c;
          }
        }
      }
      assert cs[0] !in Clusters(cs[1..]);
    }
  }

  lemma {:induction false} SmallSet(s: set<nat>, n: nat)
    requires n >= 2 && forall c :: c in s ==> 2 <= c < n
    ensures |s| <= n - 2
  {
    if n > 2 {
      SmallSet(s - {n - 1}, n - 1);
      if n - 1 in s {
        assert s == s - {n - 1} + {n - 1};
      } else {
        assert s == s - {n - 1};
      }
    } else {
      assert s == {};
    }
  }

  /** Changing entries outside a chain does not affect it. */
  lemma ChainKept(f: Fat, g: Fat, max: nat, cs: seq<nat>)
    requires Chain(f, max, cs) && forall k :: 0 <= k < |cs| ==> g[cs[k]] == f[cs[k]]
    ensures Chain(g, max, cs)
  {
    forall k | 0 <= k < |cs| ensures LinkAt(g, cs, k) {
      assert LinkAt(f, cs, k);
    }
  }

  /** Linking a new last cluster behind a chain. */
  lemma ChainExtended(f: Fat, g: Fat, max: nat, cs: seq<nat>, c: nat)
    requires Chain(f, max, cs) && 2 <= c < max && c !in cs
    requires g == f[cs[|cs| - 1] := c][c := EOC_MARK]
    ensures Chain(g, max, cs + [c])
  {
    var ds := cs + [c];
    forall k | 0 <= k < |ds| ensures LinkAt(g, ds, k) {
      if k < |cs| {
        assert LinkAt(f, cs, k);
      }
    }
  }

  // ----- counting free clusters

  /** How many of the clusters 2..n-1 are free. */
  ghost function FreeBelow(f: Fat, n: nat): nat
    requires n <= ENTRIES
  {
    if n <= 2 then 0 else FreeBelow(f, n - 1) + if f[n - 1] == 0 then 1 else 0
  }

  lemma {:induction false} NoneFree(f: Fat, n: nat)
    requires n <= ENTRIES && forall c :: 2 <= c < n ==> f[c] != 0
    ensures FreeBelow(f, n) == 0
  {
    if n > 2 {
      NoneFree(f, n - 1);
    }
  }

  /** Setting one entry changes the count by that entry alone. */
  lemma {:induction false} FreeAfterSet(f: Fat, n: nat, c: nat, x: nat)
    requires n <= ENTRIES && 2 <= c < ENTRIES
    ensures c < n ==> FreeBelow(f[c := x], n) + (if f[c] == 0 then 1 else 0) == FreeBelow(f, n) + if x == 0 then 1
      else 0
    ensures c >= n ==> FreeBelow(f[c := x], n) == FreeBelow(f, n)
  {
    if n > 2 {
      FreeAfterSet(f, n - 1, c, x);
    }
  }

  // ----- freeing a chain

  ghost function InUse(f: Fat, n: nat): nat
    requires n <= ENTRIES
  {
    if n == 0 then 0 else InUse(f, n - 1) + if f[n - 1] != 0 then 1 else 0
  }

  lemma {:induction false} InUseDrops(f: Fat, n: nat, c: nat)
    requires n <= ENTRIES && c < ENTRIES && f[c] != 0
    ensures InUse(f[c := 0], n) == InUse(f, n) - if c < n then 1 else 0
  {
    if n > 0 {
      InUseDrops(f, n - 1, c);
    }
  }

  lemma {:induction false} InUseBound(f: Fat, n: nat)
    requires n <= ENTRIES
    ensures InUse(f, n) <= n
  {
    if n > 0 {
      InUseBound(f, n - 1);
    }
  }

  /** The table after fat32_free_chain from c, whatever the table holds: every visited entry is
      cleared, so a second visit ends the walk. */
  ghost function FreedFrom(f: Fat, c: nat): Fat
    decreases InUse(f, ENTRIES)
  {
    if !Follows(c) || Slot(c) >= ENTRIES || f[Slot(c)] == 0 then f
    else
      InUseDrops(f, ENTRIES, Slot(c));
      FreedFrom(f[Slot(c) := 0], f[Slot(c)])
  }

  lemma FreedOne(f: Fat, c: nat)
    requires Follows(c) && Slot(c) < ENTRIES && f[Slot(c)] != 0
    ensures FreedFrom(f, c) == FreedFrom(f[Slot(c) := 0], f[Slot(c)])
  {
  }

  lemma FreedEnd(f: Fat, c: nat)
    requires !Follows(c)
    ensures FreedFrom(f, c) == f
  {
  }

  /** The last step of a walk: it clears nothing, and the walk ends. */
  lemma FreedNothing(f: Fat, c: nat)
    requires Follows(c) && (Slot(c) >= ENTRIES || f[Slot(c)] == 0)
    ensures FreedFrom(f, c) == f && FreedFrom(f, Next(f, c)) == f
    ensures !Follows(Next(f, c))
    ensures Slot(c) < ENTRIES && f[Slot(c)] == 0 ==> f[Slot(c) := 0] == f
  {
  }

  /** With no entry in use left, every walk is over. */
  lemma NothingInUse(f: Fat, c: nat)
    ensures InUse(f, ENTRIES) == 0 || !Follows(c) ==> FreedFrom(f, c) == f
  {
    if Slot(c) < ENTRIES && f[Slot(c)] != 0 {
      InUseDrops(f, ENTRIES, Slot(c));
    }
  }

  /** The table with all entries of cs cleared. */
  ghost function Cleared(f: Fat, cs: seq<nat>): Fat
  {
    seq(ENTRIES, c requires 0 <= c < ENTRIES => if c in cs then 0 else f[c])
  }

  /** On a well-formed chain exactly its entries are cleared. */
  lemma {:induction false} FreesExactlyTheChain(f: Fat, max: nat, cs: seq<nat>)
    requires Chain(f, max, cs)
    ensures FreedFrom(f, cs[0]) == Cleared(f, cs)
    decreases cs
  {
    hide FreedFrom;
    var c := cs[0];
    assert LinkAt(f, cs, 0);
    var g: Fat := f[c := 0];
    FreedOne(f, c);
    if |cs| == 1 {
      FreedEnd(g, f[c]);
      assert Cleared(f, cs) == g;
    } else {
      assert LinkAt(f, cs, 1);
      ChainTail(f, max, cs);
      forall k | 0 <= k < |cs[1..]| ensures g[cs[1..][k]] == f[cs[1..][k]] {
        assert cs[1..][k] == cs[k + 1];
      }
      ChainKept(f, g, max, cs[1..]);
      FreesExactlyTheChain(g, max, cs[1..]);
      assert forall d :: d in cs <==> d == c || d in cs[1..];
      assert Cleared(g, cs[1..]) == Cleared(f, cs);
    }
  }
}
