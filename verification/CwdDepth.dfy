/** A chain of nine directories, made and entered one by one: the record of the working directory is exact
    down to the eighth and wrong in the ninth. */
module CwdDepth {
  import opened Words
  import opened FatTable
  import opened FatVolume
  import opened FatDir
  import opened FatCatalog
  import opened FatFinds
  import opened FatSteps
  import opened FatFiles
  import opened FatOperations
  import opened CwdPath
  import opened Cwd

  /** The names are A, B, C and so on. */
  function Letter(k: nat): (name: seq<Byte>)
    requires k <= STACK_DEPTH
  {
    [(0x41 + k) as Byte]
  }

  lemma LetterFacts(k: nat)
    requires k <= STACK_DEPTH
    ensures IsName(Letter(k)) && KeyAt(Letter(k), 0) != DOT && LegalPiece(Letter(k))
    ensures var n8 := EncodeName(Letter(k), 8);
      n8[0] != 0 && n8[0] != DELETED && n8[0] != DOT && KeyAt(n8, 0) != DOT && SameName(Letter(k), SPACES, n8, SPACES)
    ensures !IsDotPiece(Letter(k)) && !IsDotDotPiece(Letter(k))
  {
    forall i: nat | i < 8 ensures KeyAt(Letter(k), i) == KeyAt(EncodeName(Letter(k), 8), i) {
      EncodedAt(Letter(k), 0, 8, i);
    }
  }

  lemma LettersDiffer(i: nat, k: nat, name: seq<Byte>)
    requires i < k <= STACK_DEPTH && SameKey(name, Letter(i), 8)
    ensures !SameName(EncodeName(Letter(k), 8), SPACES, name, SPACES)
  {
    LetterFacts(k);
    assert KeyAt(name, 0) == KeyAt(Letter(i), 0) == (0x41 + i) as Byte;
    assert KeyAt(EncodeName(Letter(k), 8), 0) == KeyAt(Letter(k), 0) == (0x41 + k) as Byte;
  }

  /** The components of the path are the first letters. */
  ghost predicate Letters(cs: Path)
  {
    |cs| <= STACK_DEPTH + 1 && forall i :: 0 <= i < |cs| ==> SameKey(cs[i], Letter(i), 8)
  }

  /** The way down is still there after the next letter has been made. */
  lemma {:induction false} DescendKept(v: Vol, v': Vol, geo: Geometry, cat: Catalog, cat': Catalog, d: nat, cs: Path,
                                       k: nat)
    requires geo.Ok() && Consistent(v, geo, cat) && Consistent(v', geo, cat') && cat.dirs <= cat'.dirs
    requires k <= STACK_DEPTH && |cs| <= k && Letters(cs)
    requires OthersSame(v, v', geo, cat, cat', d, EncodeName(Letter(k), 8), SPACES)
    ensures Descend(v, geo, cat, cs).Some? ==>
      Descend(v', geo, cat', cs) == Descend(v, geo, cat, cs) && Descend(v, geo, cat, cs).value in cat.dirs
  {
    hide Consistent, Find, EncodeName;
    if cs != [] && Descend(v, geo, cat, cs).Some? {
      var init, last := cs[..|cs| - 1], cs[|cs| - 1];
      DescendKept(v, v', geo, cat, cat', d, init, k);
      LettersDiffer(|cs| - 1, k, last);
      EnteredIsDirectory(v, geo, cat, Descend(v, geo, cat, init).value, last);
    } else {
      RootIsDirectory(v, geo, cat);
    }
  }

  lemma RootIsDirectory(v: Vol, geo: Geometry, cat: Catalog)
    requires geo.Ok() && Consistent(v, geo, cat)
    ensures geo.root in cat.dirs
  {
  }

  lemma EnteredIsDirectory(v: Vol, geo: Geometry, cat: Catalog, d: nat, name: seq<Byte>)
    requires geo.Ok() && Consistent(v, geo, cat) && Enter(v, geo, cat, d, name).Some? && KeyAt(name, 0) != DOT
    ensures Enter(v, geo, cat, d, name).value in cat.dirs
  {
    hide Consistent, Find;
    FindDetermined(v, geo, cat, cat, d, name, SPACES);
  }

  lemma TracksKept(v: Vol, v': Vol, geo: Geometry, cat: Catalog, cat': Catalog, d: nat, s: State, cs: Path)
    requires geo.Ok() && Consistent(v, geo, cat) && Consistent(v', geo, cat') && cat.dirs <= cat'.dirs
    requires |cs| <= STACK_DEPTH && Letters(cs) && Sound(geo, cat, s) && Tracks(v, geo, cat, s, cs)
    requires OthersSame(v, v', geo, cat, cat', d, EncodeName(Letter(|cs|), 8), SPACES)
    ensures Sound(geo, cat', s) && Tracks(v', geo, cat', s, cs)
  {
    hide Consistent, Descend, EncodeName, OthersSame, Render, IsComponent;
    forall i: nat | i <= s.depth ensures Descend(v', geo, cat', cs[..i]) == Some(s.Place(geo.root, i)) {
      assert Descend(v, geo, cat, cs[..i]) == Some(s.Place(geo.root, i));
      DescendKept(v, v', geo, cat, cat', d, cs[..i], |cs|);
    }
  }

  /** Make the next directory and enter it. */
  method Deeper(cwd: Cwd, k: nat, ghost cat: Catalog, ghost cs: Path) returns (ghost cat': Catalog, ghost cs': Path)
    requires k <= STACK_DEPTH && |cs| == k && Letters(cs)
    requires cwd.fs.vol.Valid() && Consistent(cwd.fs.vol.State(), cwd.fs.vol.geo, cat)
    requires Sound(cwd.fs.vol.geo, cat, cwd.Now()) && Tracks(cwd.fs.vol.State(), cwd.fs.vol.geo, cat, cwd.Now(), cs)
    requires cwd.fs.Dir() in cat.dirs
    requires Find(cwd.fs.vol.State(), cwd.fs.vol.geo, cat, cwd.fs.Dir(), EncodeName(Letter(k), 8), SPACES) == Absent
    requires FreeBelow(cwd.fs.vol.State().fat, cwd.fs.vol.geo.MaxCluster()) >= 2
    modifies cwd, cwd.fs`cwd, cwd.fs.vol`ioBuf, cwd.fs.vol.fat, cwd.fs.vol.disk, cwd.stack
    ensures Consistent(cwd.fs.vol.State(), cwd.fs.vol.geo, cat') && Sound(cwd.fs.vol.geo, cat', cwd.Now())
    ensures |cs'| == k + 1 && Letters(cs') && Descend(cwd.fs.vol.State(), cwd.fs.vol.geo, cat', cs').Some?
    ensures Tracks(cwd.fs.vol.State(), cwd.fs.vol.geo, cat', cwd.Now(), cs') <==> k < STACK_DEPTH
    ensures k < STACK_DEPTH ==>
      cwd.fs.Dir() in cat'.dirs &&
      Find(cwd.fs.vol.State(), cwd.fs.vol.geo, cat', cwd.fs.Dir(), EncodeName(Letter(k + 1), 8), SPACES) == Absent
    ensures old(FreeBelow(cwd.fs.vol.State().fat, cwd.fs.vol.geo.MaxCluster())) <=
      FreeBelow(cwd.fs.vol.State().fat, cwd.fs.vol.geo.MaxCluster()) + 2
  {
    hide Table, AllData, Consistent, Find, Descend, EncodeName, OthersSame, FreeBelow, Tracks, Sound, Tops,
      Volume.Flushed, EmptyDirectory, HasFree, Shown, Letters, Move;
    ghost var v, geo, s, d := cwd.fs.vol.State(), cwd.fs.vol.geo, cwd.Now(), cwd.fs.Dir();
    LetterFacts(k);
    var made;
    ghost var c;
    made, cat', c := Mkdir(cwd.fs, Letter(k), cat);
    ghost var v' := cwd.fs.vol.State();
    TracksKept(v, v', geo, cat, cat', d, s, cs);
    NewDirectoryEntered(v', geo, cat', s, cs, d, c, k);
    var ok;
    ok, cs' := cwd.ChdirOne(Letter(k), cat', cs);
    if k < STACK_DEPTH {
      NowThere(v', geo, cat', cwd.Now(), cs', c, d, k);
    }
  }

  lemma NewDirectoryEntered(v: Vol, geo: Geometry, cat: Catalog, s: State, cs: Path, d: nat, c: nat, k: nat)
    requires geo.Ok() && Consistent(v, geo, cat) && Sound(geo, cat, s) && Tracks(v, geo, cat, s, cs)
    requires k <= STACK_DEPTH && |cs| == k && Letters(cs) && d == (if s.cluster == 0 then geo.root else s.cluster)
      && d in cat.dirs
    requires Find(v, geo, cat, d, EncodeName(Letter(k), 8), SPACES) == Directory(c)
    ensures Move(v, geo, cat, cs, Letter(k)) == Some(cs + [Shown(Letter(k))])
    ensures Letters(cs + [Shown(Letter(k))])
    ensures Descend(v, geo, cat, cs + [Shown(Letter(k))]) == Some(c)
  {
    hide Consistent, Find, Descend, EncodeName, Shown;
    LetterFacts(k);
    assert cs[..s.depth] == cs;
    assert Descend(v, geo, cat, cs[..s.depth]) == Some(s.Place(geo.root, s.depth));
    DirIsChain(v, geo, cat, d);
    SameNameSameFind(v, geo, cat, d, Letter(k), SPACES, EncodeName(Letter(k), 8), SPACES);
    assert Enter(v, geo, cat, d, Letter(k)) == Some(c);
    EnterShown(v, geo, cat, cs, d, Letter(k));
    ShownLetter(k);
  }

  lemma DirIsChain(v: Vol, geo: Geometry, cat: Catalog, d: nat)
    requires geo.Ok() && Consistent(v, geo, cat) && d in cat.dirs
    ensures ChainsOk(v, geo, cat) && d in cat.chains
  {
  }

  lemma ShownLetter(k: nat)
    requires k <= STACK_DEPTH
    ensures SameKey(Shown(Letter(k)), Letter(k), 8)
  {
    forall i: nat | i < 8 ensures KeyAt(Shown(Letter(k)), i) == KeyAt(Letter(k), i) {
      ShownKey(Letter(k), 0, i);
    }
  }

  lemma NowThere(v: Vol, geo: Geometry, cat: Catalog, s: State, cs: Path, c: nat, parent: nat, k: nat)
    requires geo.Ok() && Consistent(v, geo, cat) && Tracks(v, geo, cat, s, cs) && Sound(geo, cat, s)
    requires Descend(v, geo, cat, cs) == Some(c) && k < STACK_DEPTH && EmptyDirectory(v, geo, cat, c, parent)
    ensures var dir := if s.cluster == 0 then geo.root else s.cluster;
      dir in cat.dirs && Find(v, geo, cat, dir, EncodeName(Letter(k + 1), 8), SPACES) == Absent
  {
    hide Consistent, Find, Descend, EncodeName;
    LetterFacts(k + 1);
    assert cs[..s.depth] == cs;
    assert Descend(v, geo, cat, cs[..s.depth]) == Some(s.Place(geo.root, s.depth));
  }

  /** On a volume with eighteen free clusters and no A in the root directory. */
  method NineLevels(cwd: Cwd, ghost cat0: Catalog) returns (ghost cat: Catalog, ghost cs: Path)
    requires cwd.fs.vol.Valid() && Consistent(cwd.fs.vol.State(), cwd.fs.vol.geo, cat0) && cwd.fs.cwd == 0
    requires cwd.Now() == State([SLASH], 0, seq(STACK_DEPTH, _ => 0), 0)
    requires Find(cwd.fs.vol.State(), cwd.fs.vol.geo, cat0, cwd.fs.vol.geo.root, EncodeName(Letter(0), 8), SPACES) ==
      Absent
    requires FreeBelow(cwd.fs.vol.State().fat, cwd.fs.vol.geo.MaxCluster()) >= 2 * (STACK_DEPTH + 1)
    modifies cwd, cwd.fs`cwd, cwd.fs.vol`ioBuf, cwd.fs.vol.fat, cwd.fs.vol.disk, cwd.stack
    ensures Consistent(cwd.fs.vol.State(), cwd.fs.vol.geo, cat) && Sound(cwd.fs.vol.geo, cat, cwd.Now())
    ensures |cs| == STACK_DEPTH + 1 && Descend(cwd.fs.vol.State(), cwd.fs.vol.geo, cat, cs).Some?
    ensures !Tracks(cwd.fs.vol.State(), cwd.fs.vol.geo, cat, cwd.Now(), cs)
  {
    hide Table, AllData, DirOk, Find, Descend, EncodeName, FreeBelow, Tracks, Sound;
    cat, cs := cat0, [];
    AtRoot(cwd.fs.vol.State(), cwd.fs.vol.geo, cat, cwd.Now());
    RootIsDirectory(cwd.fs.vol.State(), cwd.fs.vol.geo, cat);
    var k := 0;
    while k < STACK_DEPTH
      invariant 0 <= k <= STACK_DEPTH && |cs| == k && Letters(cs) && cwd.fs.vol.Valid()
      invariant Consistent(cwd.fs.vol.State(), cwd.fs.vol.geo, cat) && Sound(cwd.fs.vol.geo, cat, cwd.Now())
      invariant Tracks(cwd.fs.vol.State(), cwd.fs.vol.geo, cat, cwd.Now(), cs) && cwd.fs.Dir() in cat.dirs
      invariant Find(cwd.fs.vol.State(), cwd.fs.vol.geo, cat, cwd.fs.Dir(), EncodeName(Letter(k), 8), SPACES) ==
        Absent
      invariant FreeBelow(cwd.fs.vol.State().fat, cwd.fs.vol.geo.MaxCluster()) >= 2 * (STACK_DEPTH + 1 - k)
    {
      cat, cs := Deeper(cwd, k, cat, cs);
      k := k + 1;
    }
    cat, cs := Deeper(cwd, k, cat, cs);
  }
}
