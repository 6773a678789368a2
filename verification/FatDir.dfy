/** Directories: 32-byte entries in the sectors of a cluster chain, and the search through them. */
module FatDir {
  import opened Words
  import opened FatTable
  import opened FatVolume

  const SPACE := 0x20
  const DELETED := 0xE5
  const DOT := 0x2E
  const ATTR_LFN := 0x0F
  const ATTR_DIRECTORY := 0x10
  const ATTR_ARCHIVE := 0x20

  type Dirent = e: seq<Byte> | |e| == 32 witness seq(32, _ => 0)

  // ----- names

  function Upper(c: Byte): Byte
  {
    if 0x61 <= c <= 0x7A then c - 32 else c
  }

  /** What position i of a name field holds for this name: upper case, padded with spaces. */
  function KeyAt(name: seq<Byte>, i: nat): Byte
  {
    if i < |name| then Upper(name[i]) else SPACE
  }

  predicate SameKey(a: seq<Byte>, b: seq<Byte>, w: nat)
  {
    forall i: nat :: i < w ==> KeyAt(a, i) == KeyAt(b, i)
  }

  /** match_name83 and match_ext83: does the w-byte field match the name, case ignored? */
  predicate FieldMatches(raw: seq<Byte>, name: seq<Byte>, w: nat)
    requires |raw| == w
  {
    forall i: nat :: i < w ==> Upper(raw[i]) == KeyAt(name, i)
  }

  /** encode_name83: upper case up to the first space, then spaces. */
  function EncodeName(name: seq<Byte>, w: nat): (field: seq<Byte>)
    ensures |field| == w
  {
    EncodeFrom(name, 0, w)
  }

  function EncodeFrom(name: seq<Byte>, i: nat, w: nat): (field: seq<Byte>)
    requires i <= w
    ensures |field| == w - i
    decreases w - i
  {
    if i == w then []
    else if i < |name| && name[i] != SPACE then [Upper(name[i])] + EncodeFrom(name, i + 1, w)
    else seq(w - i, _ => SPACE)
  }

  /** No space inside the first w bytes of the name, only behind it. */
  predicate NoInnerSpace(name: seq<Byte>, w: nat)
  {
    forall i, j :: 0 <= i < j < |name| && j < w && name[i] == SPACE ==> name[j] == SPACE
  }

  lemma {:induction false} EncodedAt(name: seq<Byte>, i: nat, w: nat, k: nat)
    requires i <= k < w
    ensures EncodeFrom(name, i, w)[k - i] ==
      if exists j: nat :: i <= j <= k && j < |name| && name[j] == SPACE then SPACE else KeyAt(name, k)
    decreases w - i
  {
    if i < |name| && name[i] != SPACE && k > i {
      EncodedAt(name, i + 1, w, k);
    }
  }

  /** An encoded name matches exactly the names with its key. */
  lemma EncodedMatches(name: seq<Byte>, other: seq<Byte>, w: nat)
    requires NoInnerSpace(name, w)
    ensures FieldMatches(EncodeName(name, w), other, w) <==> SameKey(name, other, w)
  {
    forall k: nat | k < w
      ensures EncodeName(name, w)[k] == KeyAt(name, k) && Upper(EncodeName(name, w)[k]) == KeyAt(name, k)
    {
      EncodedAt(name, 0, w, k);
    }
  }

  /** A name finds the field it was encoded into exactly when it has no space inside: encoding cuts
      the name at a space, matching does not. */
  lemma EncodedMatchesItself(name: seq<Byte>, w: nat)
    ensures FieldMatches(EncodeName(name, w), name, w) <==> NoInnerSpace(name, w)
  {
    if NoInnerSpace(name, w) {
      EncodedMatches(name, name, w);
    } else {
      var i, j :| 0 <= i < j < |name| && j < w && name[i] == SPACE && name[j] != SPACE;
      EncodedAt(name, 0, w, j);
      assert Upper(EncodeName(name, w)[j]) == SPACE && KeyAt(name, j) != SPACE;
    }
  }

  /** "A B" is stored as "A", and not found again. */
  lemma InnerSpaceIsCut()
    ensures var name: seq<Byte> := [0x41, SPACE, 0x42];
      !FieldMatches(EncodeName(name, 8), name, 8) && FieldMatches(EncodeName(name, 8), [0x41], 8)
  {
    var name: seq<Byte> := [0x41, SPACE, 0x42];
    assert !NoInnerSpace(name, 8) by {
      assert name[1] == SPACE && name[2] != SPACE;
    }
    EncodedMatchesItself(name, 8);
    forall i: nat | i < 8 ensures Upper(EncodeName(name, 8)[i]) == KeyAt([0x41], i) {
      EncodedAt(name, 0, 8, i);
    }
  }

  // ----- entries

  function Blank(): Dirent
  {
    seq(32, _ => 0)
  }

  function First(e: Dirent): Byte { e[0] }
  function Attr(e: Dirent): Byte { e[11] }

  function Le16(a: Byte, b: Byte): nat
  {
    var x: nat, y: nat := a, b;
    x + 0x100 * y
  }

  /** dirent_cluster. */
  function ClusterOf(e: Dirent): (c: nat)
    ensures c < U32
  {
    0x1_0000 * Le16(e[20], e[21]) + Le16(e[26], e[27])
  }

  function SizeOf(e: Dirent): (n: nat)
    ensures n < U32
  {
    Le16(e[28], e[29]) + 0x1_0000 * Le16(e[30], e[31])
  }

  /** dirent_set_cluster. */
  function WithCluster(e: Dirent, c: nat): Dirent
    requires c < U32
  {
    e[20 := c / 0x1_0000 % 256][21 := c / 0x100_0000][26 := c % 256][27 := c / 0x100 % 256]
  }

  function WithSize(e: Dirent, n: nat): Dirent
    requires n < U32
  {
    e[28 := n % 256][29 := n / 0x100 % 256][30 := n / 0x1_0000 % 256][31 := n / 0x100_0000]
  }

  lemma FieldsSet(e: Dirent, c: nat, n: nat)
    requires c < U32 && n < U32
    ensures ClusterOf(WithSize(WithCluster(e, c), n)) == c
    ensures SizeOf(WithSize(WithCluster(e, c), n)) == n
    ensures WithSize(WithCluster(e, c), n)[..12] == e[..12]
  {
    FourDigits(c);
    FourDigits(n);
  }

  lemma FourDigits(c: nat)
    requires c < U32
    ensures c % 256 + 0x100 * (c / 0x100 % 256) + 0x1_0000 * (c / 0x1_0000 % 256) + 0x100_0000 * (c / 0x100_0000) == c
  {
    assert c / 0x100 / 0x100 == c / 0x1_0000 && c / 0x1_0000 / 0x100 == c / 0x100_0000;
  }

  /** The bytes of an entry that hold its first cluster, the low half behind the high one, and its size. */
  predicate Records(e: Dirent, c: nat, n: nat)
  {
    && e[26] == c % 256 && e[27] == c / 0x100 % 256 && e[20] == c / 0x1_0000 % 256 && e[21] == c / 0x100_0000
    && e[28] == n % 256 && e[29] == n / 0x100 % 256 && e[30] == n / 0x1_0000 % 256 && e[31] == n / 0x100_0000
  }

  /** What is read from an entry is what these bytes say, for every entry. */
  lemma RecordsIff(e: Dirent, c: nat, n: nat)
    requires c < U32 && n < U32
    ensures Records(e, c, n) <==> ClusterOf(e) == c && SizeOf(e) == n
  {
    FourDigits(c);
    FourDigits(n);
    DigitsOf(e[26], e[27], e[20], e[21]);
    DigitsOf(e[28], e[29], e[30], e[31]);
  }

  lemma DigitsOf(b0: Byte, b1: Byte, b2: Byte, b3: Byte)
    ensures var x: nat := b0 as nat + 0x100 * b1 as nat + 0x1_0000 * b2 as nat + 0x100_0000 * b3 as nat;
      x % 256 == b0 && x / 0x100 % 256 == b1 && x / 0x1_0000 % 256 == b2 && x / 0x100_0000 == b3
  {
    var y: nat := b1 as nat + 0x100 * b2 as nat + 0x1_0000 * b3 as nat;
    var x: nat := b0 as nat + 0x100 * y;
    assert x / 0x100 == y;
    assert y / 0x100 == b2 as nat + 0x100 * b3 as nat;
    assert x / 0x1_0000 == y / 0x100 && x / 0x100_0000 == y / 0x1_0000;
  }

  /** The entry write_file and mkdir put into a slot: everything set but the date of last access. */
  function NewEntry(was: Dirent, name: seq<Byte>, ext: seq<Byte>, attr: Byte, c: nat, size: nat): Dirent
    requires |name| == 8 && |ext| == 3 && c < U32 && size < U32
  {
    WithSize(WithCluster(name + ext + [attr] + [0, 0, 0, 0, 0, 0] + was[18..22] + [0, 0, 0, 0] + was[26..], c), size)
  }

  lemma NewEntryFields(was: Dirent, name: seq<Byte>, ext: seq<Byte>, attr: Byte, c: nat, size: nat)
    requires |name| == 8 && |ext| == 3 && c < U32 && size < U32
    ensures var e := NewEntry(was, name, ext, attr, c, size);
      && ClusterOf(e) == c && SizeOf(e) == size && Attr(e) == attr && First(e) == name[0]
      && e[..8] == name && e[8..11] == ext && e[11] == attr && Records(e, c, size)
      && e[12..18] == [0, 0, 0, 0, 0, 0] && e[18..20] == was[18..20] && e[22..26] == [0, 0, 0, 0]
  {
    var e0 := name + ext + [attr] + [0, 0, 0, 0, 0, 0] + was[18..22] + [0, 0, 0, 0] + was[26..];
    FieldsSet(e0, c, size);
    OtherBytes(e0, c, size);
    var e := NewEntry(was, name, ext, attr, c, size);
    RecordsIff(e, c, size);
    hide ClusterOf, SizeOf, Records, NewEntry;
    assert e0[..8] == name && e0[8..11] == ext && e0[11] == attr;
    assert e0[12..18] == [0, 0, 0, 0, 0, 0] && e0[18..20] == was[18..20] && e0[22..26] == [0, 0, 0, 0];
    assert e[..8] == e[..12][..8] && e[8..11] == e[..12][8..11] && e[11] == e[..12][11] && e[0] == e[..12][0];
  }

  lemma OtherBytes(e: Dirent, c: nat, n: nat)
    requires c < U32 && n < U32
    ensures var e' := WithSize(WithCluster(e, c), n);
      e'[..12] == e[..12] && e'[12..18] == e[12..18] && e'[18..20] == e[18..20] && e'[22..26] == e[22..26]
  {
  }

  /** What makes an entry count, in its bytes: deleted entries begin with 0xE5, long-name parts have the
      attribute 0x0F, volume labels have bit 3 and directories bit 4 of it. */
  lemma EntryKinds(e: Dirent, name: seq<Byte>, ext: seq<Byte>)
    ensures Hit(e, AnyFree) <==> e[0] == 0 || e[0] == 0xE5
    ensures Visible(e) <==> e[0] != 0 && e[0] != 0xE5 && e[11] != 0x0F && e[11] / 8 % 2 == 0
    ensures IsDirectory(e) <==> e[11] / 16 % 2 == 1
    ensures Hit(e, Named(name, ext)) <==>
      Visible(e) && FieldSays(e, 0, 8, name) && FieldSays(e, 8, 3, ext)
  {
    FieldLetters(e, 0, 8, name);
    FieldLetters(e, 8, 3, ext);
    assert e[0..8] == e[..8];
    hide FieldMatches, FieldSays;
  }

  /** The w bytes from `at` on are the name, but for case, padded with spaces. */
  ghost predicate FieldSays(e: Dirent, at: nat, w: nat, name: seq<Byte>)
    requires at + w <= 32
  {
    forall i: nat :: i < w ==> SameLetter(e[at + i], if i < |name| then name[i] else 0x20)
  }

  lemma FieldLetters(e: Dirent, at: nat, w: nat, name: seq<Byte>)
    requires at + w <= 32
    ensures FieldMatches(e[at..at + w], name, w) <==> FieldSays(e, at, w, name)
  {
    var raw := e[at..at + w];
    forall i: nat | i < w
      ensures Upper(raw[i]) == KeyAt(name, i) <==> SameLetter(e[at + i], if i < |name| then name[i] else 0x20)
    {
      assert raw[i] == e[at + i];
    }
  }

  /** The same but for case. */
  predicate SameLetter(a: Byte, b: Byte)
  {
    a == b || (0x41 <= a <= 0x5A && b == a + 0x20) || (0x61 <= a <= 0x7A && b == a - 0x20)
  }

  predicate IsDirectory(e: Dirent)
  {
    Attr(e) / 16 % 2 == 1
  }

  /** Neither never-used nor deleted. */
  predicate Occupied(e: Dirent)
  {
    First(e) != 0 && First(e) != DELETED
  }

  /** An entry a lookup considers: occupied, not a long-name part, not a volume label. */
  predicate Visible(e: Dirent)
  {
    Occupied(e) && Attr(e) != ATTR_LFN && Attr(e) / 8 % 2 == 0
  }

  /** The two modes of fat32_find_entry. */
  datatype Query = AnyFree | Named(name: seq<Byte>, ext: seq<Byte>)

  predicate Hit(e: Dirent, q: Query)
  {
    match q
    case AnyFree => !Occupied(e)
    case Named(name, ext) => Visible(e) && FieldMatches(e[..8], name, 8) && FieldMatches(e[8..11], ext, 3)
  }

  /** A search for a name ends at the first never-used entry. */
  predicate Stop(e: Dirent, q: Query)
  {
    q.Named? && First(e) == 0
  }

  function EntryAt(x: Sector, i: nat): Dirent
    requires i < 16
  {
    x[32 * i..32 * i + 32]
  }

  function WithEntryAt(x: Sector, i: nat, e: Dirent): (y: Sector)
    requires i < 16
  {
    x[..32 * i] + e + x[32 * i + 32..]
  }

  lemma EntrySet(x: Sector, i: nat, e: Dirent, j: nat)
    requires i < 16 && j < 16
    ensures EntryAt(WithEntryAt(x, i, e), j) == if j == i then e else EntryAt(x, j)
  {
    var y := WithEntryAt(x, i, e);
    if j < i {
      assert y[32 * j..32 * j + 32] == x[32 * j..32 * j + 32];
    } else if j > i {
      assert y[32 * j..32 * j + 32] == x[32 * j..32 * j + 32];
    }
  }

  // ----- the entries of a directory

  /** Entry i of sector s of cluster k of a chain. */
  datatype Pos = Pos(k: nat, s: nat, i: nat)

  predicate Before(p: Pos, q: Pos)
  {
    p.k < q.k || (p.k == q.k && (p.s < q.s || (p.s == q.s && p.i < q.i)))
  }

  predicate Sized(v: Vol, spc: nat)
  {
    |v.data| <= ENTRIES && forall c :: 2 <= c < |v.data| ==> |v.data[c]| == spc
  }

  predicate InDir(cs: seq<nat>, spc: nat, p: Pos)
  {
    p.k < |cs| && p.s < spc && p.i < 16
  }

  ghost function At(v: Vol, cs: seq<nat>, p: Pos): Dirent
  {
    if p.k < |cs| && cs[p.k] < |v.data| && p.s < |v.data[cs[p.k]]| && p.i < 16 then
      EntryAt(v.data[cs[p.k]][p.s], p.i)
    else Blank()
  }

  lemma EntryIs(v: Vol, cs: seq<nat>, geo: Geometry, p: Pos)
    requires InDir(cs, geo.sectorsPerCluster, p) && Inside(v, cs, geo.sectorsPerCluster)
    ensures 2 <= cs[p.k] < |v.data| && |v.data[cs[p.k]]| == geo.sectorsPerCluster
    ensures At(v, cs, p) == EntryAt(v.data[cs[p.k]][p.s], p.i)
  {
  }

  /** The chain lies inside the volume. */
  ghost predicate Inside(v: Vol, cs: seq<nat>, spc: nat)
  {
    Sized(v, spc) && forall k :: 0 <= k < |cs| ==> 2 <= cs[k] < |v.data|
  }

  /** The search stops at p with a hit. */
  ghost predicate FindsAt(v: Vol, cs: seq<nat>, spc: nat, q: Query, p: Pos)
  {
    && InDir(cs, spc, p) && Hit(At(v, cs, p), q)
    && PassesTo(v, cs, spc, q, p)
  }

  /** No hit and no stop before p. */
  ghost predicate PassesTo(v: Vol, cs: seq<nat>, spc: nat, q: Query, p: Pos)
  {
    forall r: Pos :: InDir(cs, spc, r) && Before(r, p) ==> !Hit(At(v, cs, r), q) && !Stop(At(v, cs, r), q)
  }

  /** The search ends without a hit: at a stop, or at the end of the chain. */
  ghost predicate FindsNothing(v: Vol, cs: seq<nat>, spc: nat, q: Query)
  {
    forall r: Pos :: InDir(cs, spc, r) && Hit(At(v, cs, r), q) ==>
      exists t: Pos :: InDir(cs, spc, t) && Before(t, r) && Stop(At(v, cs, t), q)
  }

  /** No entry behind a never-used one is occupied. */
  ghost predicate TailUnused(v: Vol, cs: seq<nat>, spc: nat)
  {
    forall t: Pos, r: Pos :: InDir(cs, spc, t) && InDir(cs, spc, r) && Before(t, r) && First(At(v, cs, t)) == 0 ==>
      !Occupied(At(v, cs, r))
  }

  /** The early stop loses nothing: a name is found exactly when some visible entry matches it. */
  lemma EarlyStopComplete(v: Vol, cs: seq<nat>, spc: nat, name: seq<Byte>, ext: seq<Byte>)
    requires TailUnused(v, cs, spc)
    ensures FindsNothing(v, cs, spc, Named(name, ext)) <==>
      forall r: Pos :: InDir(cs, spc, r) ==> !Hit(At(v, cs, r), Named(name, ext))
  {
  }

  // ----- the search

  lemma PassEntry(v: Vol, cs: seq<nat>, spc: nat, q: Query, k: nat, s: nat, i: nat)
    requires InDir(cs, spc, Pos(k, s, i)) && PassesTo(v, cs, spc, q, Pos(k, s, i))
    requires !Hit(At(v, cs, Pos(k, s, i)), q) && !Stop(At(v, cs, Pos(k, s, i)), q)
    ensures PassesTo(v, cs, spc, q, Pos(k, s, i + 1))
  {
    forall r: Pos | InDir(cs, spc, r) && Before(r, Pos(k, s, i + 1))
      ensures !Hit(At(v, cs, r), q) && !Stop(At(v, cs, r), q)
    {
      assert r == Pos(k, s, i) || Before(r, Pos(k, s, i));
    }
  }

  lemma PassSector(v: Vol, cs: seq<nat>, spc: nat, q: Query, k: nat, s: nat)
    requires PassesTo(v, cs, spc, q, Pos(k, s, 16))
    ensures PassesTo(v, cs, spc, q, Pos(k, s + 1, 0))
  {
    forall r: Pos | InDir(cs, spc, r) && Before(r, Pos(k, s + 1, 0))
      ensures Before(r, Pos(k, s, 16))
    {
    }
  }

  lemma PassCluster(v: Vol, cs: seq<nat>, spc: nat, q: Query, k: nat)
    requires PassesTo(v, cs, spc, q, Pos(k, spc, 0))
    ensures PassesTo(v, cs, spc, q, Pos(k + 1, 0, 0))
  {
    forall r: Pos | InDir(cs, spc, r) && Before(r, Pos(k + 1, 0, 0))
      ensures Before(r, Pos(k, spc, 0))
    {
    }
  }

  lemma PassNothing(v: Vol, cs: seq<nat>, spc: nat, q: Query)
    ensures PassesTo(v, cs, spc, q, Pos(0, 0, 0))
  {
    forall r: Pos ensures !Before(r, Pos(0, 0, 0)) {
    }
  }

  /** The search has passed every entry. */
  lemma PassedAll(v: Vol, cs: seq<nat>, spc: nat, q: Query)
    requires PassesTo(v, cs, spc, q, Pos(|cs|, 0, 0))
    ensures FindsNothing(v, cs, spc, q)
  {
    forall r: Pos | InDir(cs, spc, r) ensures Before(r, Pos(|cs|, 0, 0)) {
    }
  }

  /** The search has reached a stop. */
  lemma StoppedAt(v: Vol, cs: seq<nat>, spc: nat, q: Query, p: Pos)
    requires InDir(cs, spc, p) && PassesTo(v, cs, spc, q, p)
    requires Stop(At(v, cs, p), q) && !Hit(At(v, cs, p), q)
    ensures FindsNothing(v, cs, spc, q)
  {
    forall r: Pos | InDir(cs, spc, r) && Hit(At(v, cs, r), q)
      ensures Before(p, r)
    {
    }
  }
}
