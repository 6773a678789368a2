/** The working directory: fat32_chdir and its helpers. */
module Cwd {
  import opened Words
  import opened FatTable
  import opened FatVolume
  import opened FatDir
  import opened FatCatalog
  import opened FatFinds
  import opened FatSteps
  import opened FatFiles
  import opened FatOperations
  import opened CwdPath

  const STACK_DEPTH := 8            // FAT32_STACK_DEPTH

  type Path = seq<seq<Byte>>

  /** The directory a list of components leads to from the root. */
  ghost function Descend(v: Vol, geo: Geometry, cat: Catalog, cs: Path): Option<nat>
    requires geo.Ok() && Consistent(v, geo, cat)
  {
    if cs == [] then Some(geo.root)
    else
      match Descend(v, geo, cat, cs[..|cs| - 1])
      case None => None
      case Some(d) => Enter(v, geo, cat, d, cs[|cs| - 1])
  }

  /** The directory a name stands for in directory d. */
  ghost function Enter(v: Vol, geo: Geometry, cat: Catalog, d: nat, name: seq<Byte>): Option<nat>
    requires geo.Ok() && Consistent(v, geo, cat)
  {
    if d !in cat.dirs then None
    else
      match Find(v, geo, cat, d, name, SPACES)
      case Directory(c) => Some(c)
      case File(_, _) => None
      case Absent => None
  }

  predicate IsDotPiece(p: seq<Byte>)
  {
    p != [] && p[0] == DOT && (|p| == 1 || p[1] == SPACE)
  }

  predicate IsDotDotPiece(p: seq<Byte>)
  {
    |p| >= 2 && p[0] == DOT && p[1] == DOT && (|p| == 2 || p[2] == SPACE)
  }

  predicate LegalPiece(p: seq<Byte>)
  {
    IsDotPiece(p) || IsDotDotPiece(p) || IsName(p)
  }

  /** Where one component leads, and None when it names no directory. */
  ghost function Move(v: Vol, geo: Geometry, cat: Catalog, cs: Path, piece: seq<Byte>): Option<Path>
    requires geo.Ok() && Consistent(v, geo, cat)
  {
    if IsDotPiece(piece) then Some(cs)
    else if IsDotDotPiece(piece) then Some(if cs == [] then [] else cs[..|cs| - 1])
    else
      match Descend(v, geo, cat, cs)
      case None => None
      case Some(d) => if Enter(v, geo, cat, d, piece).Some? then Some(cs + [Shown(piece)]) else None
  }

  lemma DotPieces(piece: seq<Byte>)
    ensures IsDotPiece([0x2E]) && !IsDotPiece([0x2E, 0x2E]) && IsDotDotPiece([0x2E, 0x2E])
    ensures IsName(piece) ==> !IsDotPiece(piece) && !IsDotDotPiece(piece)
  {
    assert [0x2E, 0x2E][1] == 0x2E;
  }

  /** "." stays, ".." goes to the parent, and any other name to the directory it stands for, if it does. */
  lemma MoveLeads(v: Vol, geo: Geometry, cat: Catalog, cs: Path, d: nat, piece: seq<Byte>)
    requires geo.Ok() && Consistent(v, geo, cat) && Descend(v, geo, cat, cs) == Some(d)
    ensures Move(v, geo, cat, cs, [0x2E]) == Some(cs)
    ensures Move(v, geo, cat, cs, [0x2E, 0x2E]) == Some(if cs == [] then [] else cs[..|cs| - 1])
    ensures IsName(piece) ==>
      Move(v, geo, cat, cs, piece) == if Enter(v, geo, cat, d, piece).Some? then Some(cs + [Shown(piece)]) else None
    ensures IsName(piece) ==> Descend(v, geo, cat, cs + [Shown(piece)]) == Enter(v, geo, cat, d, piece)
  {
    hide Consistent, Enter, Descend, IsDotPiece, IsDotDotPiece, IsName;
    DotPieces(piece);
    if IsName(piece) {
      EnterShown(v, geo, cat, cs, d, piece);
    }
  }

  /** A component and what it shows in the path lead to the same directory, and the way there goes on. */
  lemma EnterShown(v: Vol, geo: Geometry, cat: Catalog, cs: Path, d: nat, piece: seq<Byte>)
    requires geo.Ok() && Consistent(v, geo, cat) && Descend(v, geo, cat, cs) == Some(d) && IsName(piece)
    ensures Enter(v, geo, cat, d, Shown(piece)) == Enter(v, geo, cat, d, piece)
    ensures Descend(v, geo, cat, cs + [Shown(piece)]) == Enter(v, geo, cat, d, piece)
    ensures Enter(v, geo, cat, d, piece).Some? ==> Enter(v, geo, cat, d, piece).value in cat.dirs
  {
    hide DirOk, ChainsOk, Find;
    assert (cs + [Shown(piece)])[..|cs|] == cs;
    if d in cat.dirs {
      forall i: nat | i < 8 ensures KeyAt(Shown(piece), i) == KeyAt(piece, i) {
        ShownKey(piece, 0, i);
      }
      FindSameKey(v, geo, cat, d, Shown(piece), piece);
      FindDetermined(v, geo, cat, cat, d, piece, SPACES);
    }
  }

  lemma FindSameKey(v: Vol, geo: Geometry, cat: Catalog, d: nat, n: seq<Byte>, n': seq<Byte>)
    requires geo.Ok() && ChainsOk(v, geo, cat) && d in cat.chains && SameKey(n, n', 8)
    ensures Find(v, geo, cat, d, n, SPACES) == Find(v, geo, cat, d, n', SPACES)
  {
    SameNameSameFind(v, geo, cat, d, n, SPACES, n', SPACES);
  }

  /** fat32_cwd_state_t. */
  datatype State = State(path: seq<Byte>, cluster: nat, stack: seq<nat>, depth: nat)
  {
    /** The cluster recorded for the first i components. */
    function Slot(i: nat): nat
    {
      if i < depth && i < |stack| then stack[i] else cluster
    }

    /** A recorded 0 stands for the root directory. */
    function Place(root: nat, i: nat): nat
    {
      if Slot(i) == 0 then root else Slot(i)
    }
  }

  /** What always holds, however deep the path. */
  ghost predicate Sound(geo: Geometry, cat: Catalog, s: State)
  {
    && |s.stack| == STACK_DEPTH && s.depth <= STACK_DEPTH && 1 <= |s.path| < PATH_MAX
    && forall i: nat :: i <= s.depth ==> s.Place(geo.root, i) in cat.dirs
  }

  /** Path, depth, stack and cluster all say the same: the way cs. */
  ghost predicate Tracks(v: Vol, geo: Geometry, cat: Catalog, s: State, cs: Path)
    requires geo.Ok() && Consistent(v, geo, cat)
  {
    && |cs| == s.depth && AreComponents(cs) && s.path == Render(cs)
    && forall i: nat :: i <= s.depth ==> Descend(v, geo, cat, cs[..i]) == Some(s.Place(geo.root, i))
  }

  /** Resolving the path string from the root reaches the current cluster; its components are as many
      as the depth says; and slot i of the stack is the cluster the first i of them lead to. */
  lemma PathLeadsHere(v: Vol, geo: Geometry, cat: Catalog, s: State, cs: Path)
    requires geo.Ok() && Consistent(v, geo, cat) && Sound(geo, cat, s) && Tracks(v, geo, cat, s, cs)
    ensures |Split(s.path)| == s.depth <= STACK_DEPTH
    ensures Descend(v, geo, cat, Split(s.path)) == Some(if s.cluster == 0 then geo.root else s.cluster)
    ensures forall i: nat :: i < s.depth ==>
      Descend(v, geo, cat, Split(s.path)[..i]) == Some(if s.stack[i] == 0 then geo.root else s.stack[i])
  {
    hide Descend, Consistent, Split;
    SplitRender(cs);
    assert cs[..s.depth] == cs;
    assert Descend(v, geo, cat, cs[..s.depth]) == Some(s.Place(geo.root, s.depth));
    forall i: nat | i < s.depth
      ensures Descend(v, geo, cat, cs[..i]) == Some(if s.stack[i] == 0 then geo.root else s.stack[i])
    {
      assert Descend(v, geo, cat, cs[..i]) == Some(s.Place(geo.root, i));
    }
  }

  function Popped(s: State): State
    requires 0 < s.depth <= |s.stack| && s.path != []
  {
    State(Trimmed(s.path), s.stack[s.depth - 1], s.stack, s.depth - 1)
  }

  function Pushed(s: State, c: nat, path: seq<Byte>): State
    requires s.depth <= STACK_DEPTH == |s.stack|
  {
    if s.depth < STACK_DEPTH then State(path, c, s.stack[s.depth := s.cluster], s.depth + 1)
      else State(path, c, s.stack, s.depth)
  }

  lemma PoppedOk(v: Vol, geo: Geometry, cat: Catalog, s: State, cs: Path)
    requires geo.Ok() && Consistent(v, geo, cat) && Sound(geo, cat, s) && s.depth > 0
    ensures Sound(geo, cat, Popped(s))
    ensures Tracks(v, geo, cat, s, cs) ==> Tracks(v, geo, cat, Popped(s), cs[..|cs| - 1])
  {
    hide Descend, Consistent, Trimmed, Tail, IsComponent;
    var t := Popped(s);
    forall i: nat | i <= t.depth ensures t.Place(geo.root, i) == s.Place(geo.root, i) {
    }
    if Tracks(v, geo, cat, s, cs) {
      var init := cs[..|cs| - 1];
      TrimRender(cs);
      forall i: nat | i <= t.depth ensures Descend(v, geo, cat, init[..i]) == Some(t.Place(geo.root, i)) {
        assert init[..i] == cs[..i];
        assert Descend(v, geo, cat, cs[..i]) == Some(s.Place(geo.root, i));
      }
    }
  }

  lemma PushedSound(geo: Geometry, cat: Catalog, s: State, c: nat, path: seq<Byte>)
    requires Sound(geo, cat, s) && c in cat.dirs && c != 0 && 1 <= |path| < PATH_MAX
    ensures Sound(geo, cat, Pushed(s, c, path))
  {
    var t := Pushed(s, c, path);
    forall i: nat | i <= t.depth ensures t.Place(geo.root, i) in cat.dirs {
      if i < t.depth {
        assert t.Place(geo.root, i) == s.Place(geo.root, i);
      }
    }
  }

  /** Entering keeps the record exact, down to the eighth level. */
  lemma PushedTracks(v: Vol, geo: Geometry, cat: Catalog, s: State, cs: Path, piece: seq<Byte>, c: nat,
                     path: seq<Byte>)
    requires geo.Ok() && Consistent(v, geo, cat) && Sound(geo, cat, s) && Tracks(v, geo, cat, s, cs)
    requires IsName(piece) && Enter(v, geo, cat, s.Place(geo.root, s.depth), piece) == Some(c) && c != 0
    requires path == (if |s.path| > 1 then s.path + [SLASH] else s.path) + Shown(piece)
    ensures Tracks(v, geo, cat, Pushed(s, c, path), cs + [Shown(piece)]) <==> s.depth < STACK_DEPTH
  {
    hide Descend, Consistent, Shown, IsComponent, Enter;
    var t, ds := Pushed(s, c, path), cs + [Shown(piece)];
    assert cs[..s.depth] == cs;
    assert Descend(v, geo, cat, cs[..s.depth]) == Some(s.Place(geo.root, s.depth));
    if s.depth < STACK_DEPTH {
      EnterShown(v, geo, cat, cs, s.Place(geo.root, s.depth), piece);
      ShownIsComponent(piece);
      RenderMore(cs, Shown(piece));
      forall i: nat | i <= t.depth ensures Descend(v, geo, cat, ds[..i]) == Some(t.Place(geo.root, i)) {
        if i < t.depth {
          assert ds[..i] == cs[..i];
          assert Descend(v, geo, cat, cs[..i]) == Some(s.Place(geo.root, i));
          assert t.Slot(i) == s.Slot(i);
        } else {
          assert ds[..i] == ds;
        }
      }
    }
  }

  lemma RenderMore(cs: Path, c: seq<Byte>)
    requires AreComponents(cs)
    ensures Render(cs + [c]) == (if |Render(cs)| > 1 then Render(cs) + [SLASH] else Render(cs)) + c
  {
    assert (cs + [c])[..|cs|] == cs;
    TailLength(cs);
    if cs == [] {
      assert Tail([]) == [];
    }
  }

  lemma RenderShort(cs: Path)
    requires AreComponents(cs)
    ensures |Render(cs)| <= 1 + 9 * |cs|
  {
    TailLength(cs);
  }

  /** Entering a directory and going up again restores the record, but for a dead slot of the stack, exactly
      when there was room on the stack: at depth eight only the path comes back. */
  lemma UpUndoesDown(s: State, c: nat, path: seq<Byte>, cs: Path, piece: seq<Byte>)
    requires s.depth <= STACK_DEPTH == |s.stack| && AreComponents(cs) && s.path == Render(cs) && IsName(piece)
    requires path == (if |s.path| > 1 then s.path + [SLASH] else s.path) + Shown(piece)
    ensures Pushed(s, c, path).depth > 0 && path != []
    ensures var t := Popped(Pushed(s, c, path));
      && t.path == s.path
      && (t.cluster == s.cluster && t.depth == s.depth && t.stack[..t.depth] == s.stack[..s.depth] <==>
            s.depth < STACK_DEPTH)
  {
    hide Trimmed, Shown, IsComponent;
    ShownIsComponent(piece);
    RenderMore(cs, Shown(piece));
    TrimRender(cs + [Shown(piece)]);
    assert (cs + [Shown(piece)])[..|cs|] == cs;
  }

  // ----- the argument of chdir

  const DASH := 0x2D
  const PIECE_MAX := 11

  predicate IsDash(name: seq<Byte>)
  {
    name != [] && name[0] == DASH && (|name| == 1 || name[1] == SPACE)
  }

  predicate IsRoot(name: seq<Byte>)
  {
    name == [] || name[0] == SPACE || (name[0] == SLASH && (|name| == 1 || name[1] == SPACE))
  }

  predicate Absolute(name: seq<Byte>)
  {
    IsRoot(name) || name[0] == SLASH
  }

  /** How far the first component goes: to a slash, or for eleven bytes. */
  function FirstRun(p: seq<Byte>, n: nat): (k: nat)
    requires n <= |p| && n <= PIECE_MAX
    ensures n <= k <= |p| && k <= 11 && forall i :: n <= i < k ==> p[i] != 0x2F
    ensures k == |p| || p[k] == 0x2F || k == 11
    decreases |p| - n
  {
    if n < |p| && p[n] != SLASH && n < PIECE_MAX then FirstRun(p, n + 1) else n
  }

  function AfterRun(p: seq<Byte>, n: nat): (r: seq<Byte>)
    requires n <= |p|
  {
    if n < |p| && p[n] == SLASH then p[n + 1..] else p[n..]
  }

  /** The components a path is walked in: a longer run is cut into pieces of eleven. */
  function Pieces(p: seq<Byte>): seq<seq<Byte>>
    decreases |p|
  {
    if p == [] then []
    else
      var n := FirstRun(p, 0);
      if n == 0 then Pieces(AfterRun(p, n)) else [p[..n]] + Pieces(AfterRun(p, n))
  }

  lemma NoPieces()
    ensures Pieces([]) == []
  {
  }

  lemma PiecesNext(p: seq<Byte>)
    requires p != []
    ensures var n := FirstRun(p, 0);
      && (n == 0 ==> p[0] == SLASH && Pieces(p) == Pieces(AfterRun(p, n)))
      && (n > 0 ==> Pieces(p) == [p[..n]] + Pieces(AfterRun(p, n)))
  {
  }

  /** No run between slashes has more than eleven bytes. */
  ghost predicate ShortRuns(p: seq<Byte>)
  {
    forall i, j :: 0 <= i <= j <= |p| && NoSlash(p[i..j]) ==> j - i <= 11
  }

  lemma ShortRest(p: seq<Byte>, n: nat)
    requires ShortRuns(p) && n <= |p|
    ensures ShortRuns(p[n..])
  {
    forall i, j | 0 <= i <= j <= |p| - n && NoSlash(p[n..][i..j]) ensures j - i <= 11 {
      assert p[n..][i..j] == p[n + i..n + j];
    }
  }

  lemma LongerRun(p: seq<Byte>, n: nat)
    requires n < |p| && NoSlash(p[0..n]) && p[n] != 0x2F
    ensures NoSlash(p[0..n + 1])
  {
    assert p[0..n + 1] == p[0..n] + [p[n]];
  }

  /** Then the pieces are the runs between the slashes. */
  lemma {:induction false} PiecesSplit(p: seq<Byte>)
    requires ShortRuns(p)
    ensures Pieces(p) == Split(p)
    decreases |p|
  {
    hide Split;
    SplitNothing();
    if p != [] {
      var n := FirstRun(p, 0);
      assert NoSlash(p[0..n]) && p[0..n] == p[..n];
      if n == |p| {
        SplitRun(p);
        assert p[..n] == p && AfterRun(p, n) == [];
        NoPieces();
      } else {
        if p[n] != 0x2F {
          LongerRun(p, n);
          assert false;
        }
        SplitFront(p[..n], p[n + 1..]);
        assert p[..n] + [0x2F] + p[n + 1..] == p;
        ShortRest(p, n + 1);
        PiecesSplit(p[n + 1..]);
      }
    }
  }

  function Joined(pieces: seq<seq<Byte>>): seq<Byte>
  {
    if pieces == [] then [] else pieces[0] + Joined(pieces[1..])
  }

  function WithoutSlashes(p: seq<Byte>): seq<Byte>
  {
    if p == [] then [] else (if p[0] == 0x2F then [] else [p[0]]) + WithoutSlashes(p[1..])
  }

  lemma {:induction false} RunWithoutSlashes(c: seq<Byte>, q: seq<Byte>)
    requires NoSlash(c)
    ensures WithoutSlashes(c + q) == c + WithoutSlashes(q)
  {
    if c == [] {
      assert c + q == q;
    } else {
      RunWithoutSlashes(c[1..], q);
      assert (c + q)[1..] == c[1..] + q;
    }
  }

  lemma JoinedNext(c: seq<Byte>, pieces: seq<seq<Byte>>)
    ensures Joined([c] + pieces) == c + Joined(pieces)
  {
    assert ([c] + pieces)[1..] == pieces;
  }

  /** Whatever the path, its pieces in order are its bytes without the slashes ... */
  lemma {:induction false} PiecesJoin(p: seq<Byte>)
    ensures Joined(Pieces(p)) == WithoutSlashes(p)
    decreases |p|
  {
    if p != [] {
      var n := FirstRun(p, 0);
      var rest := AfterRun(p, n);
      PiecesJoin(rest);
      JoinedNext(p[..n], Pieces(rest));
      assert NoSlash(p[..n]);
      RunWithoutSlashes(p[..n], p[n..]);
      assert p[..n] + p[n..] == p;
      PiecesNext(p);
      RestWithoutSlashes(p, n);
      hide Joined, Pieces, WithoutSlashes, AfterRun, FirstRun, NoSlash;
    }
  }

  lemma RestWithoutSlashes(p: seq<Byte>, n: nat)
    requires n <= |p|
    ensures WithoutSlashes(p[n..]) == WithoutSlashes(AfterRun(p, n))
  {
    if n < |p| && p[n] == 0x2F {
      assert p[n..][1..] == p[n + 1..];
    }
  }

  /** ... one to eleven at a time. */
  lemma {:induction false} PieceSizes(p: seq<Byte>, i: nat)
    requires i < |Pieces(p)|
    ensures 1 <= |Pieces(p)[i]| <= 11 && NoSlash(Pieces(p)[i])
    decreases |p|
  {
    var n := FirstRun(p, 0);
    var rest := AfterRun(p, n);
    NoPieces();
    PiecesNext(p);
    hide Pieces;
    if n == 0 {
      PieceSizes(rest, i);
    } else if i > 0 {
      PieceSizes(rest, i - 1);
      assert ([p[..n]] + Pieces(rest))[i] == Pieces(rest)[i - 1];
    }
  }

  /** What a chdir asks for: nothing for an empty path, a dash, the root, or a path that begins with a space;
      otherwise the components of the path. */
  lemma RequestedIs(name: seq<Byte>)
    requires ShortRuns(name)
    ensures Requested(name) ==
      if name == [] || name[0] == 0x20 || (name[0] in {0x2D, 0x2F} && (|name| == 1 || name[1] == 0x20)) then []
      else Split(name)
  {
    if name != [] && name[0] == 0x2F {
      ShortRest(name, 1);
      PiecesSplit(name[1..]);
      SplitFront([], name[1..]);
      assert [] + [0x2F] + name[1..] == name;
    } else {
      PiecesSplit(name);
    }
  }

  predicate AllLegal(pieces: seq<seq<Byte>>)
  {
    forall i :: 0 <= i < |pieces| ==> LegalPiece(pieces[i])
  }

  lemma FirstLegal(piece: seq<Byte>, pieces: seq<seq<Byte>>)
    requires AllLegal([piece] + pieces)
    ensures LegalPiece(piece) && AllLegal(pieces)
  {
    assert LegalPiece(([piece] + pieces)[0]);
    forall i | 0 <= i < |pieces| ensures LegalPiece(pieces[i]) {
      assert LegalPiece(([piece] + pieces)[i + 1]);
    }
  }

  function Requested(name: seq<Byte>): seq<seq<Byte>>
  {
    if IsDash(name) || IsRoot(name) then [] else Pieces(if name[0] == SLASH then name[1..] else name)
  }

  /** Where a list of components leads, and whether all of them could be followed. */
  ghost function Course(v: Vol, geo: Geometry, cat: Catalog, cs: Path, pieces: seq<seq<Byte>>): (Path, bool)
    requires geo.Ok() && Consistent(v, geo, cat)
    decreases |pieces|
  {
    if pieces == [] then (cs, true)
    else
      match Move(v, geo, cat, cs, pieces[0])
      case None => (cs, false)
      case Some(ds) => Course(v, geo, cat, ds, pieces[1..])
  }

  /** The way never goes deeper than the stack. */
  ghost predicate Shallow(v: Vol, geo: Geometry, cat: Catalog, cs: Path, pieces: seq<seq<Byte>>)
    requires geo.Ok() && Consistent(v, geo, cat)
    decreases |pieces|
  {
    |cs| <= STACK_DEPTH && (pieces != [] ==>
      match Move(v, geo, cat, cs, pieces[0])
      case None => true
      case Some(ds) => Shallow(v, geo, cat, ds, pieces[1..]))
  }

  /** A path of few enough components is shallow. */
  lemma {:induction false} FewPiecesShallow(v: Vol, geo: Geometry, cat: Catalog, cs: Path, pieces: seq<seq<Byte>>)
    requires geo.Ok() && Consistent(v, geo, cat) && |cs| + |pieces| <= STACK_DEPTH
    ensures Shallow(v, geo, cat, cs, pieces)
    decreases |pieces|
  {
    hide Consistent, Descend, Enter;
    if pieces != [] {
      match Move(v, geo, cat, cs, pieces[0]) {
        case None =>
        case Some(ds) => FewPiecesShallow(v, geo, cat, ds, pieces[1..]);
      }
    }
  }

  lemma AtRoot(v: Vol, geo: Geometry, cat: Catalog, s: State)
    requires geo.Ok() && Consistent(v, geo, cat) && s.path == [SLASH] && s.cluster == 0 && s.depth == 0
      && |s.stack| == STACK_DEPTH
    ensures Sound(geo, cat, s) && Tracks(v, geo, cat, s, [])
  {
  }

  class Cwd {
    const fs: FileSystem            // fs.cwd is fat32_cwd_cluster
    const stack: array<nat>         // g_parent_stack
    var path: seq<Byte>             // fat32_cwd
    var depth: nat                  // g_cwd_depth

    constructor (fs: FileSystem)
      requires fs.cwd == 0
      ensures this.fs == fs && fresh(stack) && Now() == State([SLASH], 0, seq(STACK_DEPTH, _ => 0), 0)
    {
      this.fs := fs;
      this.stack := new nat[STACK_DEPTH](_ => 0);
      this.path := [SLASH];
      this.depth := 0;
    }

    function Now(): State
      reads this, fs, stack
    {
      State(path, fs.cwd, stack[..], depth)
    }

    /** The ".." of fat32_chdir_one. */
    method Up()
      requires 0 < depth <= stack.Length && path != []
      modifies this, fs`cwd
      ensures Now() == Popped(old(Now()))
    {
      depth := depth - 1;
      fs.cwd := stack[depth];
      path := TrimLast(path);
    }

    /** The end of fat32_chdir_one: the directory entry `raw` with cluster c is entered. */
    method Down(c: nat, raw: seq<Byte>)
      requires depth <= STACK_DEPTH == stack.Length && 1 <= |path| < PATH_MAX && |raw| == 8
      modifies this, fs`cwd, stack
      ensures Now() == Pushed(old(Now()), c, path) && 1 <= |path| < PATH_MAX
      ensures |old(path)| + 9 < PATH_MAX ==>
        path == (if |old(path)| > 1 then old(path) + [SLASH] else old(path)) + Shown(raw)
    {
      if depth < STACK_DEPTH {
        stack[depth] := fs.cwd;
        depth := depth + 1;
      }
      path := AppendName(path, raw);
      fs.cwd := c;
    }

    /** fat32_chdir_one: if the record is exact before, it is exact afterwards unless a ninth level was
        entered; and it fails, changing nothing, exactly when there is no such directory. */
    method ChdirOne(piece: seq<Byte>, ghost cat: Catalog, ghost cs: Path) returns (ok: bool, ghost cs': Path)
      requires fs.vol.Valid() && Consistent(fs.vol.State(), fs.vol.geo, cat) && Sound(fs.vol.geo, cat, Now())
        && LegalPiece(piece)
      modifies this, fs`cwd, fs.vol`ioBuf, stack
      ensures fs.vol.State() == old(fs.vol.State()) && Sound(fs.vol.geo, cat, Now())
      ensures !ok ==> Now() == old(Now()) && cs' == cs
      ensures Tracks(old(fs.vol.State()), fs.vol.geo, cat, old(Now()), cs) ==>
        var m := Move(fs.vol.State(), fs.vol.geo, cat, cs, piece);
        && (ok <==> m.Some?) && (ok ==> cs' == m.value)
        && (Tracks(fs.vol.State(), fs.vol.geo, cat, Now(), cs') <==> |cs'| <= STACK_DEPTH)
    {
      hide Table, AllData, Consistent, Find, Descend, At, EntryAt, Tail, Trimmed, Shown, ChainsOk, Chain,
        Tracks, Sound, Popped, Pushed, IsDirectory, ClusterOf, FindsNothing, PassesTo, FieldMatches;
      ghost var v, geo, s := fs.vol.State(), fs.vol.geo, Now();
      cs' := cs;
      SoundHere(geo, cat, s);
      TracksBasics(v, geo, cat, s, cs);
      if IsDotPiece(piece) {
        return true, cs;
      }
      if IsDotDotPiece(piece) {
        if depth > 0 {
          PoppedOk(v, geo, cat, s, cs);
          Up();
          cs' := if cs == [] then [] else cs[..|cs| - 1];
        }
        return true, cs';
      }
      var dir := fs.Dir();
      ConsistentChains(v, geo, cat);
      DirChain(v, geo, cat, dir);
      ghost var p;
      var lba, idx;
      ok, lba, idx, p := fs.FindEntry(dir, Named(piece, SPACES), cat.chains[dir]);
      if !ok {
        NothingFound(v, geo, cat, dir, piece, SPACES);
        return;
      }
      FoundEntry(v, geo, cat, dir, piece, SPACES, p);
      EntryIs(v, cat.chains[dir], geo, p);
      fs.vol.SectorAt(cat.chains[dir][p.k], p.s);
      fs.vol.ReadSector(lba);
      var e := EntryAt(fs.vol.ioBuf, idx);
      if !IsDirectory(e) {
        return false, cs;
      }
      FoundDirectory(v, geo, cat, dir, piece, p, e);
      Down(ClusterOf(e), e[..8]);
      cs' := cs + [Shown(piece)];
      PushedSound(geo, cat, s, ClusterOf(e), path);
      if Tracks(v, geo, cat, s, cs) {
        PushedTracks(v, geo, cat, s, cs, piece, ClusterOf(e), path);
      }
    }

    /** fat32_chdir. "cd -" swaps the record with the copy just taken of it, which changes nothing. If
        the record is exact before and no more than eight levels are ever entered, it is exact
        afterwards, also when a component in the middle fails, and it is where the components lead. */
    method Chdir(name: seq<Byte>, ghost cat: Catalog, ghost cs: Path) returns (ok: bool, ghost cs': Path)
      requires fs.vol.Valid() && Consistent(fs.vol.State(), fs.vol.geo, cat) && Sound(fs.vol.geo, cat, Now())
      requires AllLegal(Requested(name))
      modifies this, fs`cwd, fs.vol`ioBuf, stack
      ensures fs.vol.State() == old(fs.vol.State()) && Sound(fs.vol.geo, cat, Now())
      ensures
        var start := if name == [] || name[0] in {0x20, 0x2F} then [] else cs;
        && Tracks(old(fs.vol.State()), fs.vol.geo, cat, old(Now()), cs)
        && Shallow(fs.vol.State(), fs.vol.geo, cat, start, Requested(name))
        ==>
          && (cs', ok) == Course(fs.vol.State(), fs.vol.geo, cat, start, Requested(name))
          && Tracks(fs.vol.State(), fs.vol.geo, cat, Now(), cs')
    {
      hide Table, AllData, Consistent, Find, Descend, Tail, Tracks, Sound, Move, AllLegal, LegalPiece, Pieces;
      ghost var v, geo := fs.vol.State(), fs.vol.geo;
      cs' := cs;
      if IsDash(name) {
        return true, cs;
      }
      SoundHere(geo, cat, Now());
      if Absolute(name) {
        path := [SLASH];
        fs.cwd := 0;
        depth := 0;
        cs' := [];
        AtRoot(v, geo, cat, Now());
      }
      if IsRoot(name) {
        return true, cs';
      }
      ok, cs' := Follow(if name[0] == SLASH then name[1..] else name, cat, cs');
    }

    /** The loop of fat32_chdir over the components of a path. */
    method Follow(rest: seq<Byte>, ghost cat: Catalog, ghost cs: Path) returns (ok: bool, ghost cs': Path)
      requires fs.vol.Valid() && Consistent(fs.vol.State(), fs.vol.geo, cat) && Sound(fs.vol.geo, cat, Now())
      requires AllLegal(Pieces(rest)) && stack.Length == STACK_DEPTH
      modifies this, fs`cwd, fs.vol`ioBuf, stack
      ensures fs.vol.State() == old(fs.vol.State()) && Sound(fs.vol.geo, cat, Now())
      ensures
        && Tracks(old(fs.vol.State()), fs.vol.geo, cat, old(Now()), cs)
        && Shallow(fs.vol.State(), fs.vol.geo, cat, cs, Pieces(rest))
        ==>
          && (cs', ok) == Course(fs.vol.State(), fs.vol.geo, cat, cs, Pieces(rest))
          && Tracks(fs.vol.State(), fs.vol.geo, cat, Now(), cs')
    {
      hide Table, AllData, Consistent, Find, Descend, Tail, Tracks, Sound, Move, AllLegal, LegalPiece, Pieces;
      ghost var v, geo, good := fs.vol.State(), fs.vol.geo, Tracks(fs.vol.State(), fs.vol.geo, cat, Now(), cs);
      ghost var shallow := Shallow(v, geo, cat, cs, Pieces(rest));
      cs' := cs;
      var p := rest;
      while p != []
        invariant fs.vol.State() == v && Sound(geo, cat, Now()) && stack.Length == STACK_DEPTH
        invariant AllLegal(Pieces(p))
        invariant good && shallow ==>
          && Shallow(v, geo, cat, cs', Pieces(p)) && Tracks(v, geo, cat, Now(), cs')
          && Course(v, geo, cat, cs', Pieces(p)) == Course(v, geo, cat, cs, Pieces(rest))
        decreases |p|
      {
        PiecesNext(p);
        var n := 0;
        while n < |p| && p[n] != SLASH && n < PIECE_MAX
          invariant 0 <= n <= |p| && n <= PIECE_MAX && FirstRun(p, 0) == FirstRun(p, n)
        {
          n := n + 1;
        }
        var piece := p[..n];
        p := if n < |p| && p[n] == SLASH then p[n + 1..] else p[n..];
        if n > 0 {
          FirstLegal(piece, Pieces(p));
          ok, cs' := ChdirOne(piece, cat, cs');
          if !ok {
            return;
          }
        }
      }
      NoPieces();
      ok := true;
    }
  }

  lemma SoundHere(geo: Geometry, cat: Catalog, s: State)
    requires Sound(geo, cat, s)
    ensures |s.stack| == STACK_DEPTH && s.depth <= STACK_DEPTH && 1 <= |s.path| < PATH_MAX
    ensures (if s.cluster == 0 then geo.root else s.cluster) in cat.dirs
  {
    assert s.Place(geo.root, s.depth) in cat.dirs;
  }

  lemma TracksBasics(v: Vol, geo: Geometry, cat: Catalog, s: State, cs: Path)
    requires geo.Ok() && Consistent(v, geo, cat) && Sound(geo, cat, s)
    ensures Tracks(v, geo, cat, s, cs) ==>
      |cs| == s.depth && |s.path| <= 73 && Descend(v, geo, cat, cs) == Some(s.Place(geo.root, s.depth))
  {
    hide Descend, Consistent;
    if Tracks(v, geo, cat, s, cs) {
      RenderShort(cs);
      assert cs[..s.depth] == cs;
    }
  }

  lemma FoundDirectory(v: Vol, geo: Geometry, cat: Catalog, d: nat, piece: seq<Byte>, p: Pos, e: Dirent)
    requires geo.Ok() && Consistent(v, geo, cat) && d in cat.dirs && IsName(piece)
    requires FindsAt(v, cat.chains[d], geo.sectorsPerCluster, Named(piece, SPACES), p)
    requires e == At(v, cat.chains[d], p) && IsDirectory(e)
    ensures Enter(v, geo, cat, d, piece) == Some(ClusterOf(e)) && ClusterOf(e) in cat.dirs && ClusterOf(e) != 0
    ensures Shown(e[..8]) == Shown(piece)
  {
    hide DirOk, ChainsOk, At, PassesTo;
    FoundEntry(v, geo, cat, d, piece, SPACES, p);
    HitStarts(e, piece, SPACES);
    ShownMatches(e[..8], piece, 0);
  }
}
