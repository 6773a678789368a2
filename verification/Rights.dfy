/** What the processor lets ring 3 do at an address: the USER and RW bits of every entry on the way. */
module Rights {
  import opened Words
  import opened PageTables
  import opened UserSpaces

  /** The entry lets a user access pass, and a user store if `write`. */
  predicate Lets(e: Word, write: bool)
  {
    e.flags.present && e.flags.user && (write ==> e.flags.rw)
  }

  /** Ring 3 may load from address v in the space rooted at r, or store if `write`: all entries read on
      the way, four or fewer when a large page ends it, let it pass. */
  ghost predicate UserMay(m: Memory, r: nat, v: nat, write: bool)
  {
    r < |m| && LetsRoot(m, m[r][v / 0x80_0000_0000 % 512], v, write)
  }

  ghost predicate LetsRoot(m: Memory, e: Word, v: nat, write: bool)
  {
    Lets(e, write) && e.frame < |m| && LetsPdpt(m, m[e.frame][v / 0x4000_0000 % 512], v, write)
  }

  ghost predicate LetsPdpt(m: Memory, e: Word, v: nat, write: bool)
  {
    && Lets(e, write)
    && (e.flags.huge || (e.frame < |m| && LetsDirectory(m, m[e.frame][v / 0x20_0000 % 512], v, write)))
  }

  ghost predicate LetsDirectory(m: Memory, e: Word, v: nat, write: bool)
  {
    && Lets(e, write)
    && (e.flags.huge || (e.frame < |m| && Lets(m[e.frame][v / 0x1000 % 512], write)))
  }

  /** The user page that holds address v. */
  ghost function PageAt(m: Memory, r: nat, v: nat): Option<Word>
  {
    if v < 0x4000_0000 then UserEntry(m, DirOf(m, r), v / 0x20_0000 % 512, v / 0x1000 % 512) else None
  }

  /** In a user space ring 3 may load exactly where the space has a user page, which lies below 1 GB, and
      store exactly where that page is writable. */
  lemma RightsInSpace(m: Memory, r: nat, role: map<nat, Role>, kernel: set<nat>, v: nat, write: bool)
    requires Space(m, r, role, kernel) && v < 0x1_0000_0000_0000
    ensures UserMay(m, r, v, write) <==> PageAt(m, r, v).Some? && (write ==> PageAt(m, r, v).value.flags.rw)
  {
    SkeletonPath(m, r, role, kernel);
    var i4: Index, i3: Index := v / 0x80_0000_0000 % 512, v / 0x4000_0000 % 512;
    assert v < 0x4000_0000 <==> i4 == 0 && i3 == 0;
    assert m[r][0].frame == PdptOf(m, r) && m[PdptOf(m, r)][0].frame == DirOf(m, r);
  }

  /** The byte ring 3 loads from address v, if it may. */
  ghost function UserByteAt(m: Memory, r: nat, v: nat): Option<Byte>
  {
    match PageAt(m, r, v)
    case None => None
    case Some(w) => if w.frame < |m| then Some(ByteAt(m[w.frame], v % 0x1000)) else None
  }

  /** A space with exactly the rights of another. */
  ghost predicate SameRights(m: Memory, r: nat, m': Memory, r': nat)
  {
    forall v: nat, write: bool :: v < 0x1_0000_0000_0000 ==> (UserMay(m', r', v, write) <==> UserMay(m, r, v, write))
  }

  /** Ring 3 may nothing. */
  ghost predicate NoRights(m: Memory, r: nat)
  {
    forall v: nat :: v < 0x1_0000_0000_0000 ==> !UserMay(m, r, v, false)
  }

  /** Ring 3 may load from page p as well, and store there if `rw`; elsewhere its rights are what they were. */
  ghost predicate GainsPage(m: Memory, m': Memory, r: nat, p: nat, rw: bool)
  {
    forall v: nat, write: bool :: v < 0x1_0000_0000_0000 ==>
      (UserMay(m', r, v, write) <==> if v / 0x1000 == p then write ==> rw else UserMay(m, r, v, write))
  }

  lemma NoPageNoRights(m: Memory, r: nat, role: map<nat, Role>, kernel: set<nat>)
    requires Space(m, r, role, kernel)
    requires forall i: Index, j: Index :: UserEntry(m, DirOf(m, r), i, j) == None
    ensures NoRights(m, r)
  {
    hide Space, UserEntry, UserMay;
    forall v: nat | v < 0x1_0000_0000_0000 ensures !UserMay(m, r, v, false) {
      RightsInSpace(m, r, role, kernel, v, false);
    }
  }

  lemma OnePageMore(m: Memory, m': Memory, r: nat, role: map<nat, Role>, role': map<nat, Role>, kernel: set<nat>,
                    i: Index, j: Index, w: Word)
    requires Space(m, r, role, kernel) && Space(m', r, role', kernel) && OnlySlot(m, m', r, i, j, w)
    ensures GainsPage(m, m', r, 512 * i + j, w.flags.rw)
  {
    hide Space, UserEntry, UserMay;
    forall v: nat, write: bool | v < 0x1_0000_0000_0000
      ensures UserMay(m', r, v, write) <==>
        if v / 0x1000 == 512 * i + j then write ==> w.flags.rw else UserMay(m, r, v, write)
    {
      RightsInSpace(m, r, role, kernel, v, write);
      RightsInSpace(m', r, role', kernel, v, write);
      AddressPage(v);
    }
  }

  lemma AddressPage(v: nat)
    ensures v < 0x4000_0000 ==> v / 0x1000 == 512 * (v / 0x20_0000 % 512) + v / 0x1000 % 512
    ensures v >= 0x4000_0000 ==> v / 0x1000 >= 262144
  {
    assert v / 0x20_0000 == v / 0x1000 / 512;
  }

  lemma SamePagesSameRights(m: Memory, m': Memory, r: nat, r': nat, role: map<nat, Role>, role': map<nat, Role>,
                            kernel: set<nat>)
    requires Space(m, r, role, kernel) && Space(m', r', role', kernel)
    requires forall i: Index, j: Index ::
      SameAccess(UserEntry(m, DirOf(m, r), i, j), UserEntry(m', DirOf(m', r'), i, j))
    ensures SameRights(m, r, m', r')
  {
    hide Space, UserEntry, UserMay;
    forall v: nat, write: bool | v < 0x1_0000_0000_0000
      ensures UserMay(m', r', v, write) <==> UserMay(m, r, v, write)
    {
      RightsInSpace(m, r, role, kernel, v, write);
      RightsInSpace(m', r', role', kernel, v, write);
    }
  }

  predicate SameAccess(e: Option<Word>, e': Option<Word>)
  {
    e.Some? == e'.Some? && (e.Some? && e'.Some? ==> e.value.flags.rw == e'.value.flags.rw)
  }
}
