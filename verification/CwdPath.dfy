/** Path strings: how the working directory is written, split and trimmed. */
module CwdPath {
  import opened Words
  import opened FatVolume
  import opened FatDir

  const SLASH := 0x2F
  const PATH_MAX := 256             // FAT32_CWD_MAX

  function Lower(c: Byte): Byte
  {
    if 0x41 <= c <= 0x5A then c + 32 else c
  }

  /** How a path component shows in the path: in lower case, up to eight bytes, cut at a space. */
  function Shown(name: seq<Byte>): (s: seq<Byte>)
    ensures |s| <= 8
  {
    ShownFrom(name, 0)
  }

  function ShownFrom(name: seq<Byte>, k: nat): (s: seq<Byte>)
    requires k <= 8
    ensures |s| <= 8 - k
    decreases 8 - k
  {
    if k == 8 || k >= |name| || name[k] == SPACE then [] else [Lower(name[k])] + ShownFrom(name, k + 1)
  }

  /** That is: the bytes of the name up to a space or the eighth, in the same letters but never in upper case. */
  lemma {:induction false} ShownFromIs(name: seq<Byte>, k: nat, i: nat)
    requires k <= 8 && k <= |name|
    ensures var s := ShownFrom(name, k);
      && k + |s| <= |name| && (|s| == 8 - k || k + |s| == |name| || name[k + |s|] == 0x20)
      && (i < |s| ==> k + i < |name| && name[k + i] != 0x20 && SameLetter(s[i], name[k + i])
                        && !(0x41 <= s[i] <= 0x5A))
    decreases 8 - k
  {
    if k < 8 && k < |name| && name[k] != SPACE {
      ShownFromIs(name, k + 1, if i > 0 then i - 1 else 0);
    }
  }

  lemma ShownIs(name: seq<Byte>, i: nat)
    ensures var s := Shown(name);
      && |s| <= |name| && (|s| == 8 || |s| == |name| || name[|s|] == 0x20)
      && (i < |s| ==> name[i] != 0x20 && SameLetter(s[i], name[i]) && !(0x41 <= s[i] <= 0x5A))
  {
    ShownFromIs(name, 0, i);
    if Shown(name) != [] {
      ShownFromIs(name, 0, |Shown(name)| - 1);
    }
  }

  /** A component as it stands in the path. */
  predicate IsComponent(c: seq<Byte>)
  {
    && 1 <= |c| <= 8 && c[0] != DOT
    && forall i :: 0 <= i < |c| ==> c[i] != SLASH && c[i] != 0 && c[i] != SPACE
  }

  predicate AreComponents(cs: seq<seq<Byte>>)
  {
    forall i :: 0 <= i < |cs| ==> IsComponent(cs[i])
  }

  function Tail(cs: seq<seq<Byte>>): seq<Byte>
  {
    if cs == [] then [] else Tail(cs[..|cs| - 1]) + [SLASH] + cs[|cs| - 1]
  }

  /** The path string of a list of components. */
  function Render(cs: seq<seq<Byte>>): seq<Byte>
  {
    if cs == [] then [SLASH] else Tail(cs)
  }

  lemma {:induction false} TailLength(cs: seq<seq<Byte>>)
    requires AreComponents(cs)
    ensures |Tail(cs)| <= 9 * |cs| && (cs != [] ==> |Tail(cs)| >= 2 && Tail(cs)[0] == SLASH)
  {
    if cs != [] {
      TailLength(cs[..|cs| - 1]);
    }
  }

  // ----- splitting a path

  /** One more byte: a slash ends a component, any other byte continues or begins one. */
  function WithByte(cs: seq<seq<Byte>>, path: seq<Byte>, b: Byte): seq<seq<Byte>>
  {
    if b == SLASH then cs
    else if path == [] || path[|path| - 1] == SLASH || cs == [] then cs + [[b]]
    else cs[..|cs| - 1] + [cs[|cs| - 1] + [b]]
  }

  /** The components of a path string: the runs between slashes. */
  function Split(path: seq<Byte>): seq<seq<Byte>>
  {
    if path == [] then [] else WithByte(Split(path[..|path| - 1]), path[..|path| - 1], path[|path| - 1])
  }

  lemma SplitByte(path: seq<Byte>, b: Byte)
    ensures Split(path + [b]) == WithByte(Split(path), path, b)
  {
    assert (path + [b])[..|path|] == path;
  }

  lemma {:induction false} SplitMore(path: seq<Byte>, cs: seq<seq<Byte>>, c: seq<Byte>)
    requires Split(path) == cs && c != [] && forall i :: 0 <= i < |c| ==> c[i] != SLASH
    ensures Split(path + [SLASH] + c) == cs + [c]
    decreases |c|
  {
    hide Split;
    var d, b := c[..|c| - 1], c[|c| - 1];
    SplitByte(path, SLASH);
    SplitByte(path + [SLASH] + d, b);
    assert path + [SLASH] + d + [b] == path + [SLASH] + c;
    if |c| == 1 {
      assert path + [SLASH] + d == path + [SLASH] && c == [b];
    } else {
      SplitMore(path, cs, d);
      assert (cs + [d])[..|cs|] == cs;
      assert d + [b] == c;
    }
  }

  lemma {:induction false} SplitTail(cs: seq<seq<Byte>>)
    requires AreComponents(cs)
    ensures Split(Tail(cs)) == cs
  {
    if cs != [] {
      var init := cs[..|cs| - 1];
      SplitTail(init);
      SplitMore(Tail(init), init, cs[|cs| - 1]);
      assert init + [cs[|cs| - 1]] == cs;
    }
  }

  predicate NoSlash(s: seq<Byte>)
  {
    forall i :: 0 <= i < |s| ==> s[i] != 0x2F
  }

  lemma OneRunMore(init: seq<Byte>, b: Byte)
    requires init != [] && init[|init| - 1] != SLASH && b != SLASH
    ensures WithByte([init], init, b) == [init + [b]]
  {
    var cs := [init];
    assert cs[..|cs| - 1] + [cs[|cs| - 1] + [b]] == [init + [b]];
  }

  lemma {:induction false} SplitRun(c: seq<Byte>)
    requires NoSlash(c)
    ensures Split(c) == if c == [] then [] else [c]
    decreases |c|
  {
    hide Split;
    SplitNothing();
    if c != [] {
      var init, b := c[..|c| - 1], c[|c| - 1];
      SplitRun(init);
      SplitByte(init, b);
      assert init + [b] == c;
      if init != [] {
        OneRunMore(init, b);
      } else {
        assert c == [b];
      }
    }
  }

  /** A run, a slash and the rest. */
  lemma {:induction false} SplitFront(c: seq<Byte>, q: seq<Byte>)
    requires NoSlash(c)
    ensures Split(c + [0x2F] + q) == (if c == [] then [] else [c]) + Split(q)
    decreases |q|
  {
    hide Split;
    var first := if c == [] then [] else [c];
    SplitRun(c);
    SplitByte(c, SLASH);
    SplitNothing();
    if q == [] {
      assert c + [0x2F] + q == c + [SLASH];
    } else {
      var init, b := q[..|q| - 1], q[|q| - 1];
      SplitFront(c, init);
      SplitByte(c + [SLASH] + init, b);
      SplitByte(init, b);
      assert c + [SLASH] + init + [b] == c + [0x2F] + q && init + [b] == q;
      SplitEnds(init);
    }
  }

  lemma SplitNothing()
    ensures Split([]) == []
  {
  }

  lemma SplitEnds(q: seq<Byte>)
    ensures q != [] && q[|q| - 1] != SLASH ==> Split(q) != []
  {
  }

  /** Splitting a rendered path gives its components back. */
  lemma SplitRender(cs: seq<seq<Byte>>)
    requires AreComponents(cs)
    ensures Split(Render(cs)) == cs
  {
    SplitTail(cs);
    if cs == [] {
      assert [SLASH][..0] == [];
    }
  }

  // ----- trimming the last component

  /** From j back over the bytes that are slashes (or are not). */
  function Back(path: seq<Byte>, j: nat, slashes: bool): (k: nat)
    requires j < |path|
    ensures k <= j
  {
    if j > 0 && (path[j] == SLASH) == slashes then Back(path, j - 1, slashes) else j
  }

  function Trimmed(path: seq<Byte>): (t: seq<Byte>)
    requires path != []
    ensures t != [] && |t| <= |path|
  {
    var j := Back(path, Back(path, |path| - 1, true), false);
    if j == 0 then [SLASH] else path[..j]
  }

  lemma {:induction false} BackTo(path: seq<Byte>, j: nat, k: nat)
    requires k <= j < |path| && path[k] == SLASH && forall i :: k < i <= j ==> path[i] != SLASH
    ensures Back(path, j, false) == k
  {
    if j > k {
      BackTo(path, j - 1, k);
    }
  }

  lemma TrimTail(t: seq<Byte>, c: seq<Byte>)
    requires c != [] && SLASH !in c
    ensures Trimmed(t + [SLASH] + c) == if t == [] then [SLASH] else t
  {
    hide Back;
    var path := t + [SLASH] + c;
    forall i | |t| < i < |path| ensures path[i] != SLASH {
      assert path[i] == c[i - |t| - 1];
    }
    BackTo(path, |path| - 1, |t|);
    NoSlashesBack(path, |path| - 1);
    assert path[..|t|] == t;
  }

  lemma NoSlashesBack(path: seq<Byte>, j: nat)
    requires j < |path| && path[j] != SLASH
    ensures Back(path, j, true) == j
  {
  }

  /** Trimming takes off the last component. */
  lemma TrimRender(cs: seq<seq<Byte>>)
    requires AreComponents(cs) && cs != []
    ensures Trimmed(Render(cs)) == Render(cs[..|cs| - 1])
  {
    var init := cs[..|cs| - 1];
    TailLength(init);
    TrimTail(Tail(init), cs[|cs| - 1]);
  }

  /** cwd_path_trim_last. */
  method TrimLast(path: seq<Byte>) returns (t: seq<Byte>)
    requires path != []
    ensures t == Trimmed(path)
  {
    var j := |path| - 1;
    while j > 0 && path[j] == SLASH
      invariant 0 <= j < |path| && Back(path, |path| - 1, true) == Back(path, j, true)
    {
      j := j - 1;
    }
    while j > 0 && path[j] != SLASH
      invariant 0 <= j < |path| && Back(path, Back(path, |path| - 1, true), false) == Back(path, j, false)
    {
      j := j - 1;
    }
    t := if j == 0 then [SLASH] else path[..j];
  }

  // ----- entering a component

  /** Appends the name of an entry to the path, as far as the path may get. */
  method AppendName(path: seq<Byte>, name: seq<Byte>) returns (p: seq<Byte>)
    requires 1 <= |path| < PATH_MAX && |name| == 8
    ensures path <= p && |p| < PATH_MAX
    ensures |path| + 9 < PATH_MAX ==> p == (if |path| > 1 then path + [SLASH] else path) + Shown(name)
  {
    p := path;
    if |p| > 1 && |p| < PATH_MAX - 1 {
      p := p + [SLASH];
    }
    ghost var start := p;
    var k := 0;
    while k < 8 && name[k] != SPACE && |p| < PATH_MAX - 1
      invariant 0 <= k <= 8 && path <= p && |p| < PATH_MAX && |p| == |start| + k
      invariant p + ShownFrom(name, k) == start + Shown(name)
    {
      assert p + ShownFrom(name, k) == p + [Lower(name[k])] + ShownFrom(name, k + 1);
      p := p + [Lower(name[k])];
      k := k + 1;
    }
  }

  /** Entering shows the component that was asked for, whatever its case. */
  lemma {:induction false} ShownMatches(raw: seq<Byte>, piece: seq<Byte>, k: nat)
    requires |raw| == 8 && k <= 8 && FieldMatches(raw, piece, 8) && NoInnerSpace(piece, 8)
    ensures ShownFrom(raw, k) == ShownFrom(piece, k)
    decreases 8 - k
  {
    if k < 8 {
      assert Upper(raw[k]) == KeyAt(piece, k);
      ShownMatches(raw, piece, k + 1);
    }
  }

  /** A piece that names a directory, as opposed to "." and "..". */
  predicate IsName(piece: seq<Byte>)
  {
    && piece != [] && piece[0] != DOT && piece[0] != SPACE && NoInnerSpace(piece, 8)
    && forall i :: 0 <= i < |piece| ==> piece[i] != SLASH && piece[i] != 0
  }

  lemma {:induction false} ShownBytes(piece: seq<Byte>, k: nat)
    requires IsName(piece) && k <= 8
    ensures forall i :: 0 <= i < |ShownFrom(piece, k)| ==>
      var b := ShownFrom(piece, k)[i]; b != SLASH && b != 0 && b != SPACE
    decreases 8 - k
  {
    if k < 8 && k < |piece| && piece[k] != SPACE {
      ShownBytes(piece, k + 1);
    }
  }

  lemma ShownIsComponent(piece: seq<Byte>)
    requires IsName(piece)
    ensures IsComponent(Shown(piece))
  {
    ShownBytes(piece, 0);
  }

  /** What a component shows finds what the component finds. */
  lemma {:induction false} ShownKey(piece: seq<Byte>, k: nat, i: nat)
    requires k <= i < 8 && NoInnerSpace(piece, 8)
    ensures KeyAt(ShownFrom(piece, k), i - k) == KeyAt(piece, i)
    decreases 8 - k
  {
    if k < |piece| && piece[k] != SPACE {
      if i > k {
        ShownKey(piece, k + 1, i);
      }
    } else if i < |piece| {
      assert piece[i] == SPACE;
    }
  }
}
