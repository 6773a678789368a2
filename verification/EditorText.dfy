/** The editor's buffer as a list of lines with a cursor, the flat text it stands for, and what each key
    does to the two. */
module EditorText {
  import opened Words

  const MAX_LINES := 256
  const LINE_MAX := 128
  const NL: Byte := 10
  const CR: Byte := 13

  const K_UP := 0x01
  const K_DOWN := 0x02
  const K_LEFT := 0x03
  const K_RIGHT := 0x04
  const K_BACK := 0x08
  const K_ENTER := 0x0A

  datatype Buffer = Buffer(text: seq<seq<Byte>>, row: nat, col: nat)

  predicate LineOk(s: seq<Byte>)
  {
    |s| < LINE_MAX && NL !in s && CR !in s
  }

  predicate BufferOk(b: Buffer)
  {
    && 1 <= |b.text| <= MAX_LINES && (forall i :: 0 <= i < |b.text| ==> LineOk(b.text[i]))
    && b.row < |b.text| && b.col <= |b.text[b.row]|
  }

  // ----- what the keys do to lines

  function Least(a: nat, b: nat): nat
  {
    if a < b then a else b
  }

  predicate Printable(k: int)
  {
    0x20 <= k < 0x7F
  }

  function Inserted(b: Buffer, ch: Byte): Buffer
    requires BufferOk(b)
  {
    var line := b.text[b.row];
    Buffer(b.text[b.row := line[..b.col] + [ch] + line[b.col..]], b.row, b.col + 1)
  }

  function SplitLine(b: Buffer): Buffer
    requires BufferOk(b)
  {
    var line := b.text[b.row];
    Buffer(b.text[..b.row] + [line[..b.col], line[b.col..]] + b.text[b.row + 1..], b.row + 1, 0)
  }

  function Erased(b: Buffer): Buffer
    requires BufferOk(b) && b.col > 0
  {
    var line := b.text[b.row];
    Buffer(b.text[b.row := line[..b.col - 1] + line[b.col..]], b.row, b.col - 1)
  }

  function Joined(b: Buffer): Buffer
    requires BufferOk(b) && b.row > 0
  {
    var above := b.text[b.row - 1];
    Buffer(b.text[..b.row - 1] + [above + b.text[b.row]] + b.text[b.row + 1..], b.row - 1, |above|)
  }

  /** The edit a key asks for is refused for lack of room. */
  predicate Refused(b: Buffer, k: int)
    requires BufferOk(b)
  {
    if k == K_ENTER then |b.text| >= MAX_LINES - 1
    else if k == K_BACK then b.col == 0 && b.row > 0 && |b.text[b.row - 1]| + |b.text[b.row]| >= LINE_MAX - 1
    else Printable(k) && |b.text[b.row]| >= LINE_MAX - 1
  }

  /** The buffer after a key. */
  function Typed(b: Buffer, k: int): Buffer
    requires BufferOk(b)
  {
    if Refused(b, k) then b
    else if k == K_UP then (if b.row > 0 then Buffer(b.text, b.row - 1, Least(b.col, |b.text[b.row - 1]|)) else b)
    else if k == K_DOWN then
      (if b.row + 1 < |b.text| then Buffer(b.text, b.row + 1, Least(b.col, |b.text[b.row + 1]|)) else b)
    else if k == K_LEFT then
      (if b.col > 0 then b.(col := b.col - 1)
       else if b.row > 0 then Buffer(b.text, b.row - 1, |b.text[b.row - 1]|) else b)
    else if k == K_RIGHT then
      (if b.col < |b.text[b.row]| then b.(col := b.col + 1)
       else if b.row + 1 < |b.text| then Buffer(b.text, b.row + 1, 0) else b)
    else if k == K_BACK then (if b.col > 0 then Erased(b) else if b.row > 0 then Joined(b) else b)
    else if k == K_ENTER then SplitLine(b)
    else if Printable(k) then Inserted(b, k as Byte)
    else b
  }

  /** Does the key change the text? */
  predicate Edits(b: Buffer, k: int)
    requires BufferOk(b)
  {
    !Refused(b, k) && (k == K_ENTER || Printable(k) || (k == K_BACK && (b.col > 0 || b.row > 0)))
  }

  lemma TypedOk(b: Buffer, k: int)
    requires BufferOk(b)
    ensures BufferOk(Typed(b, k))
  {
    var b' := Typed(b, k);
    forall i | 0 <= i < |b'.text| ensures LineOk(b'.text[i]) {
      if Edits(b, k) {
        EditedLine(b, k, i);
      }
    }
  }

  lemma EditedLine(b: Buffer, k: int, i: nat)
    requires BufferOk(b) && Edits(b, k) && i < |Typed(b, k).text|
    ensures LineOk(Typed(b, k).text[i])
  {
    hide SplitLine, Joined, Erased, Inserted, LineOk;
    if k == K_ENTER {
      SplitOk(b, i);
    } else if k == K_BACK && b.col == 0 {
      JoinedOk(b, i);
    } else if k == K_BACK {
      ErasedOk(b, i);
    } else {
      InsertedOk(b, k as Byte, i);
    }
  }

  lemma SplitOk(b: Buffer, i: nat)
    requires BufferOk(b) && i < |SplitLine(b).text|
    ensures LineOk(SplitLine(b).text[i])
  {
    PartsOk(b.text[b.row], b.col);
    assert i > b.row + 1 ==> SplitLine(b).text[i] == b.text[i - 1];
  }

  lemma JoinedOk(b: Buffer, i: nat)
    requires BufferOk(b) && b.row > 0 && |b.text[b.row - 1]| + |b.text[b.row]| < LINE_MAX - 1
    requires i < |Joined(b).text|
    ensures LineOk(Joined(b).text[i])
  {
    assert LineOk(b.text[b.row - 1]) && LineOk(b.text[b.row]);
    assert i > b.row - 1 ==> Joined(b).text[i] == b.text[i + 1];
  }

  lemma ErasedOk(b: Buffer, i: nat)
    requires BufferOk(b) && b.col > 0 && i < |Erased(b).text|
    ensures LineOk(Erased(b).text[i])
  {
    PartsOk(b.text[b.row], b.col);
    PartsOk(b.text[b.row], b.col - 1);
  }

  lemma InsertedOk(b: Buffer, ch: Byte, i: nat)
    requires BufferOk(b) && Printable(ch as int) && |b.text[b.row]| < LINE_MAX - 1 && i < |Inserted(b, ch).text|
    ensures LineOk(Inserted(b, ch).text[i])
  {
    PartsOk(b.text[b.row], b.col);
  }

  lemma PartsOk(line: seq<Byte>, c: nat)
    requires LineOk(line) && c <= |line|
    ensures LineOk(line[..c]) && LineOk(line[c..])
  {
  }

  // ----- the flat text

  /** The lines with a newline between each two. */
  function Flat(text: seq<seq<Byte>>): (s: seq<Byte>)
    requires text != []
  {
    if |text| == 1 then text[0] else Flat(text[..|text| - 1]) + [NL] + text[|text| - 1]
  }

  function Before(text: seq<seq<Byte>>, r: nat): seq<Byte>
    requires r < |text|
  {
    if r == 0 then [] else Flat(text[..r]) + [NL]
  }

  function After(text: seq<seq<Byte>>, r: nat): seq<Byte>
    requires r < |text|
  {
    if r + 1 == |text| then [] else [NL] + Flat(text[r + 1..])
  }

  lemma AfterGrows(text: seq<seq<Byte>>, r: nat)
    requires r + 1 < |text|
    ensures After(text, r) == After(text[..|text| - 1], r) + [NL] + text[|text| - 1]
  {
    var init, rest := text[..|text| - 1], text[r + 1..];
    if r + 2 < |text| {
      RestGrows(text, r);
      assert Flat(rest) == Flat(rest[..|rest| - 1]) + [NL] + rest[|rest| - 1];
    } else {
      assert rest == [text[|text| - 1]];
    }
  }

  lemma RestGrows(text: seq<seq<Byte>>, r: nat)
    requires r + 2 < |text|
    ensures var init, rest := text[..|text| - 1], text[r + 1..];
      init[r + 1..] == rest[..|rest| - 1] && rest[|rest| - 1] == text[|text| - 1]
  {
  }

  lemma {:induction false} FlatParts(text: seq<seq<Byte>>, r: nat)
    requires r < |text|
    ensures Flat(text) == Before(text, r) + text[r] + After(text, r)
    decreases |text|
  {
    if r + 1 < |text| {
      var init, last := text[..|text| - 1], text[|text| - 1];
      FlatParts(init, r);
      assert Flat(text) == Flat(init) + [NL] + last;
      assert init[..r] == text[..r];
      AfterGrows(text, r);
    } else {
      assert text[..r] == text[..|text| - 1];
    }
  }

  /** The cursor's place in the flat text. */
  function Offset(b: Buffer): nat
    requires BufferOk(b)
  {
    |Before(b.text, b.row)| + b.col
  }

  lemma OffsetInside(b: Buffer)
    requires BufferOk(b)
    ensures Offset(b) <= |Flat(b.text)|
  {
    FlatParts(b.text, b.row);
  }

  /** A line changed in place: what is before and after it stays. */
  lemma LineChanged(text: seq<seq<Byte>>, r: nat, line: seq<Byte>)
    requires r < |text|
    ensures var t := text[r := line];
      && Before(t, r) == Before(text, r) && After(t, r) == After(text, r)
      && Flat(t) == Before(text, r) + line + After(text, r)
  {
    var t := text[r := line];
    assert t[..r] == text[..r] && t[r + 1..] == text[r + 1..];
    FlatParts(t, r);
  }

  /** A line split in two: a newline appears between the halves. */
  lemma LineSplit(text: seq<seq<Byte>>, r: nat, a: seq<Byte>, z: seq<Byte>)
    requires r < |text|
    ensures var t := text[..r] + [a, z] + text[r + 1..];
      && Before(t, r + 1) == Before(text, r) + a + [NL]
      && Flat(t) == Before(text, r) + a + [NL] + z + After(text, r)
  {
    var t := text[..r] + [a, z] + text[r + 1..];
    FlatParts(t, r + 1);
    assert t[..r + 1] == text[..r] + [a];
    assert t[r + 2..] == text[r + 1..];
    assert (text[..r] + [a])[..r] == text[..r];
  }

  function Put(s: seq<Byte>, at: nat, ch: Byte): seq<Byte>
    requires at <= |s|
  {
    s[..at] + [ch] + s[at..]
  }

  function Drop(s: seq<Byte>, at: nat): seq<Byte>
    requires at < |s|
  {
    s[..at] + s[at + 1..]
  }

  /** A printable key inserts its character at the cursor. */
  lemma InsertRefines(b: Buffer, k: int)
    requires BufferOk(b) && BufferOk(Typed(b, k)) && Printable(k) && !Refused(b, k)
    ensures Offset(b) <= |Flat(b.text)|
    ensures Flat(Typed(b, k).text) == Put(Flat(b.text), Offset(b), k as Byte) && Offset(Typed(b, k)) == Offset(b) + 1
  {
    OffsetInside(b);
    FlatParts(b.text, b.row);
    var line := b.text[b.row];
    var line' := line[..b.col] + [k as Byte] + line[b.col..];
    LineChanged(b.text, b.row, line');
    PutInside(Before(b.text, b.row), line, After(b.text, b.row), b.col, k as Byte);
  }

  lemma PutInside(p: seq<Byte>, s: seq<Byte>, q: seq<Byte>, at: nat, ch: Byte)
    requires at <= |s|
    ensures Put(p + s + q, |p| + at, ch) == p + (s[..at] + [ch] + s[at..]) + q
  {
    var f := p + s + q;
    assert f[..|p| + at] == p + s[..at] && f[|p| + at..] == s[at..] + q;
  }

  lemma DropInside(p: seq<Byte>, s: seq<Byte>, q: seq<Byte>, at: nat)
    requires at < |s|
    ensures Drop(p + s + q, |p| + at) == p + (s[..at] + s[at + 1..]) + q
  {
    var f := p + s + q;
    assert f[..|p| + at] == p + s[..at] && f[|p| + at + 1..] == s[at + 1..] + q;
  }

  /** Enter inserts a newline at the cursor. */
  lemma EnterRefines(b: Buffer)
    requires BufferOk(b) && BufferOk(Typed(b, K_ENTER)) && !Refused(b, K_ENTER)
    ensures Offset(b) <= |Flat(b.text)|
    ensures Flat(Typed(b, K_ENTER).text) == Put(Flat(b.text), Offset(b), NL)
      && Offset(Typed(b, K_ENTER)) == Offset(b) + 1
  {
    hide Flat, After, Before;
    OffsetInside(b);
    FlatParts(b.text, b.row);
    var line, p, q := b.text[b.row], Before(b.text, b.row), After(b.text, b.row);
    LineSplit(b.text, b.row, line[..b.col], line[b.col..]);
    PutInside(p, line, q, b.col, NL);
    assert p + line[..b.col] + [NL] + line[b.col..] + q == p + (line[..b.col] + [NL] + line[b.col..]) + q;
  }

  lemma ErasedRefines(b: Buffer)
    requires BufferOk(b) && b.col > 0 && BufferOk(Erased(b))
    ensures 0 < Offset(b) <= |Flat(b.text)|
    ensures Flat(Erased(b).text) == Drop(Flat(b.text), Offset(b) - 1) && Offset(Erased(b)) == Offset(b) - 1
  {
    hide Flat, After;
    OffsetInside(b);
    FlatParts(b.text, b.row);
    var line := b.text[b.row];
    LineChanged(b.text, b.row, line[..b.col - 1] + line[b.col..]);
    DropInside(Before(b.text, b.row), line, After(b.text, b.row), b.col - 1);
  }

  lemma JoinedRefines(b: Buffer)
    requires BufferOk(b) && b.col == 0 && b.row > 0 && BufferOk(Joined(b))
    ensures 0 < Offset(b) <= |Flat(b.text)|
    ensures Flat(Joined(b).text) == Drop(Flat(b.text), Offset(b) - 1) && Offset(Joined(b)) == Offset(b) - 1
  {
    hide Flat, After, Before;
    OffsetInside(b);
    var t, above, line := Joined(b).text, b.text[b.row - 1], b.text[b.row];
    assert t[..b.row - 1] + [above, line] + t[b.row..] == b.text;
    LineSplit(t, b.row - 1, above, line);
    FlatParts(t, b.row - 1);
    NewlineDropped(Before(t, b.row - 1), above, line, After(t, b.row - 1));
    SamePrefix(t, b.text, b.row - 1);
    NextRow(b.text, b.row - 1);
  }

  lemma SamePrefix(t: seq<seq<Byte>>, u: seq<seq<Byte>>, r: nat)
    requires r < |t| && r < |u| && t[..r] == u[..r]
    ensures Before(t, r) == Before(u, r)
  {
  }

  lemma NewlineDropped(p: seq<Byte>, above: seq<Byte>, line: seq<Byte>, q: seq<Byte>)
    ensures Drop(p + above + [NL] + line + q, |p| + |above|) == p + (above + line) + q
  {
    var s := above + [NL] + line;
    DropInside(p, s, q, |above|);
    assert p + above + [NL] + line + q == p + s + q;
    assert s[..|above|] == above && s[|above| + 1..] == line;
  }

  /** Backspace deletes the character before the cursor, at a line's start the newline above it; at the
      start of the text it does nothing. */
  lemma BackspaceRefines(b: Buffer)
    requires BufferOk(b) && BufferOk(Typed(b, K_BACK)) && !Refused(b, K_BACK)
    ensures Offset(b) <= |Flat(b.text)|
    ensures if Offset(b) > 0 then
              Flat(Typed(b, K_BACK).text) == Drop(Flat(b.text), Offset(b) - 1)
                && Offset(Typed(b, K_BACK)) == Offset(b) - 1
            else Typed(b, K_BACK) == b
  {
    hide Flat, Before, Drop;
    OffsetInside(b);
    if b.col > 0 {
      ErasedRefines(b);
    } else if b.row > 0 {
      JoinedRefines(b);
    } else {
      FirstRow(b.text);
    }
  }

  /** The cursor is in the given row, in its old column or at the end of a shorter line; it has not moved
      if there is no such row. */
  predicate MovedTo(b: Buffer, b': Buffer, row: int)
  {
    if 0 <= row < |b.text| then b'.row == row && b'.col == Least(b.col, |b.text[row]|)
    else b' == b
  }

  lemma FirstRow(text: seq<seq<Byte>>)
    requires text != []
    ensures Before(text, 0) == []
  {
  }

  /** Arrow keys leave the text alone; left and right move the offset by one, up and down change the row
      by one and keep the column as far as the line goes. */
  lemma ArrowsRefine(b: Buffer, k: int)
    requires BufferOk(b) && BufferOk(Typed(b, k)) && K_UP <= k <= K_RIGHT
    ensures Typed(b, k).text == b.text
    ensures k == K_LEFT ==> Offset(Typed(b, k)) == if Offset(b) > 0 then Offset(b) - 1 else 0
    ensures k == K_RIGHT ==> Offset(Typed(b, k)) == if Offset(b) < |Flat(b.text)| then Offset(b) + 1 else Offset(b)
    ensures k == K_UP ==> MovedTo(b, Typed(b, k), b.row - 1)
    ensures k == K_DOWN ==> MovedTo(b, Typed(b, k), b.row + 1)
    ensures k == K_UP && b.row > 0 ==> Offset(Typed(b, k)) < Offset(b)
    ensures k == K_DOWN && b.row + 1 < |b.text| ==> Offset(b) < Offset(Typed(b, k))
  {
    hide Flat, Before;
    FlatParts(b.text, b.row);
    FirstRow(b.text);
    if b.row > 0 {
      NextRow(b.text, b.row - 1);
    }
    if b.row + 1 < |b.text| {
      NextRow(b.text, b.row);
    }
  }

  lemma NextRow(text: seq<seq<Byte>>, r: nat)
    requires r + 1 < |text|
    ensures Before(text, r + 1) == Before(text, r) + text[r] + [NL]
  {
    var t := text[..r + 1];
    FlatParts(t, r);
    assert t[..r] == text[..r];
  }

  /** An edit that is refused changes nothing, and keys without an effect do neither. */
  lemma OnlyEditsChange(b: Buffer, k: int)
    requires BufferOk(b)
    ensures Refused(b, k) ==> Typed(b, k) == b
    ensures !Edits(b, k) ==> Typed(b, k).text == b.text
    ensures Edits(b, k) ==> |Flat(Typed(b, k).text)| != |Flat(b.text)|
  {
    if Edits(b, k) {
      TypedOk(b, k);
      if k == K_ENTER {
        EnterRefines(b);
      } else if k == K_BACK {
        BackspaceRefines(b);
      } else {
        InsertRefines(b, k);
      }
    }
  }

  /** There is room on a line of fewer than 127 characters, for a new line below 255, and for a join of two
      lines of fewer than 127 together. */
  predicate Changes(b: Buffer, k: int)
    requires BufferOk(b)
  {
    || (k == 0x0A && |b.text| < 255)
    || (0x20 <= k < 0x7F && |b.text[b.row]| < 127)
    || (k == 0x08 && (b.col > 0 || (b.row > 0 && |b.text[b.row - 1]| + |b.text[b.row]| < 127)))
  }

  lemma ChangesAreEdits(b: Buffer, k: int)
    requires BufferOk(b)
    ensures Changes(b, k) <==> Edits(b, k)
  {
    assert LineOk(b.text[b.row]);
  }

  /** What every key does to the flat text: Enter puts a newline at the cursor, a character itself, and
      Backspace takes the character before it, exactly when there is room; no other key changes it. */
  lemma KeyEffect(b: Buffer, k: int)
    requires BufferOk(b)
    ensures Offset(b) <= |Flat(b.text)|
    ensures
      var flat, now, at := Flat(b.text), Flat(Typed(b, k).text), Offset(b);
      if !Changes(b, k) then now == flat
      else if k == 0x08 then at > 0 && now == flat[..at - 1] + flat[at..]
      else now == flat[..at] + [if k == 0x0A then 10 else k as Byte] + flat[at..]
  {
    hide Flat, Typed, Offset;
    OffsetInside(b);
    OnlyEditsChange(b, k);
    ChangesAreEdits(b, k);
    if Edits(b, k) {
      TypedOk(b, k);
      if k == K_ENTER {
        EnterRefines(b);
      } else if k == K_BACK {
        BackspaceRefines(b);
        NotAtStart(b);
      } else {
        InsertRefines(b, k);
      }
    }
  }

  lemma NotAtStart(b: Buffer)
    requires BufferOk(b) && (b.col > 0 || b.row > 0)
    ensures Offset(b) > 0
  {
  }

  // ----- saving and loading

  function Cut127(s: seq<Byte>): seq<Byte>
  {
    if |s| <= 127 then s else s[..127]
  }

  /** A line of any length is loaded as its first 127 bytes. */
  lemma {:induction false} ScanRun(rest: seq<Byte>, done: seq<seq<Byte>>, line: seq<Byte>, more: seq<Byte>)
    requires |done| < 255 && |line| <= 127 && forall i :: 0 <= i < |more| ==> more[i] != 10 && more[i] != 13
    ensures Scan(more + rest, done, line) == Scan(rest, done, Cut127(line + more))
    decreases |more|
  {
    if more == [] {
      assert more + rest == rest && line + more == line;
    } else {
      assert (more + rest)[1..] == more[1..] + rest;
      var next := if |line| < 127 then line + [more[0]] else line;
      ScanRun(rest, done, next, more[1..]);
      assert Cut127(next + more[1..]) == Cut127(line + more) by {
        if |line| < 127 {
          assert next + more[1..] == line + more;
        } else {
          assert (next + more[1..])[..127] == line[..127] && (line + more)[..127] == line[..127];
        }
      }
    }
  }

  lemma ScanNextLine(rest: seq<Byte>, done: seq<seq<Byte>>, more: seq<Byte>)
    requires |done| < 255 && forall i :: 0 <= i < |more| ==> more[i] != 10 && more[i] != 13
    ensures Scan(more + [10] + rest, done, []) == Scan(rest, done + [Cut127(more)], [])
  {
    hide Scan, Cut127;
    assert more + ([10] + rest) == more + [10] + rest && [] + more == more;
    ScanRun([10] + rest, done, [], more);
    LineEnds(rest, done, Cut127(more));
  }

  lemma LineEnds(rest: seq<Byte>, done: seq<seq<Byte>>, line: seq<Byte>)
    requires |done| < 255
    ensures Scan([10] + rest, done, line) == Scan(rest, done + [line], [])
  {
    assert ([10] + rest)[1..] == rest;
  }

  function WithoutReturns(bytes: seq<Byte>): seq<Byte>
  {
    if bytes == [] then []
    else (if bytes[0] == 13 then [] else [bytes[0]]) + WithoutReturns(bytes[1..])
  }

  /** Loading ignores carriage returns. */
  lemma {:induction false} ScanIgnoresReturns(bytes: seq<Byte>, done: seq<seq<Byte>>, line: seq<Byte>)
    ensures Scan(WithoutReturns(bytes), done, line) == Scan(bytes, done, line)
    decreases |bytes|
  {
    if bytes != [] && |done| < 255 {
      var rest := bytes[1..];
      if bytes[0] == 13 {
        assert WithoutReturns(bytes) == WithoutReturns(rest);
        ScanIgnoresReturns(rest, done, line);
      } else {
        assert WithoutReturns(bytes)[1..] == WithoutReturns(rest);
        if bytes[0] == 10 {
          ScanIgnoresReturns(rest, done + [line], []);
        } else if |line| < 127 {
          ScanIgnoresReturns(rest, done, line + [bytes[0]]);
        } else {
          ScanIgnoresReturns(rest, done, line);
        }
      }
    }
  }

  /** The lines load_file makes of the rest of the bytes, with `done` complete and `line` begun. */
  function Scan(bytes: seq<Byte>, done: seq<seq<Byte>>, line: seq<Byte>): (t: seq<seq<Byte>>)
    ensures |t| >= 1
    decreases |bytes|
  {
    if bytes == [] || |done| >= MAX_LINES - 1 then done + [line]
    else if bytes[0] == CR then Scan(bytes[1..], done, line)
    else if bytes[0] == NL then Scan(bytes[1..], done + [line], [])
    else if |line| < LINE_MAX - 1 then Scan(bytes[1..], done, line + [bytes[0]])
    else Scan(bytes[1..], done, line)
  }

  lemma {:induction false} ScanLine(rest: seq<Byte>, done: seq<seq<Byte>>, line: seq<Byte>, more: seq<Byte>)
    requires LineOk(line + more) && |done| < MAX_LINES - 1
    ensures Scan(more + rest, done, line) == Scan(rest, done, line + more)
    decreases |more|
  {
    if more == [] {
      assert more + rest == rest && line + more == line;
    } else {
      assert (more + rest)[1..] == more[1..] + rest;
      assert line + more == line + [more[0]] + more[1..];
      assert more[0] in line + more;
      ScanLine(rest, done, line + [more[0]], more[1..]);
    }
  }

  /** The first of several lines is read, with the newline behind it. */
  lemma ScanFirst(done: seq<seq<Byte>>, text: seq<seq<Byte>>)
    requires |text| > 1 && |done| < MAX_LINES - 1 && LineOk(text[0])
    ensures Scan(Flat(text), done, []) == Scan(Flat(text[1..]), done + [text[0]], [])
  {
    hide Flat;
    var rest := [NL] + Flat(text[1..]);
    FlatParts(text, 0);
    FirstRow(text);
    assert Flat(text) == text[0] + rest && [] + text[0] == text[0];
    ScanLine(rest, done, [], text[0]);
    assert rest[0] == NL && rest[1..] == Flat(text[1..]);
  }

  lemma {:induction false} ScanLines(done: seq<seq<Byte>>, text: seq<seq<Byte>>)
    requires text != [] && |done| + |text| <= MAX_LINES && forall i :: 0 <= i < |text| ==> LineOk(text[i])
    ensures Scan(Flat(text), done, []) ==
      if |done| + |text| < MAX_LINES then done + text else done + text[..|text| - 1] + [[]]
    decreases |text|
  {
    if |done| == MAX_LINES - 1 {
      assert text[..0] == [];
    } else if |text| == 1 {
      ScanLine([], done, [], text[0]);
      assert text[0] + [] == text[0] && [] + text[0] == text[0];
      assert done + [text[0]] == done + text;
    } else {
      var tail := text[1..];
      hide Flat, LineOk;
      ScanFirst(done, text);
      ScanLines(done + [text[0]], tail);
      assert done + [text[0]] + tail == done + text;
      assert done + [text[0]] + tail[..|tail| - 1] == done + text[..|text| - 1];
    }
  }

  /** Saving and loading rebuilds the lines exactly when there are at most 255 or the 256th is empty. */
  lemma SaveLoad(text: seq<seq<Byte>>)
    requires 1 <= |text| <= MAX_LINES && forall i :: 0 <= i < |text| ==> LineOk(text[i])
    ensures Scan(Flat(text), [], []) == text <==> |text| < MAX_LINES || text[MAX_LINES - 1] == []
  {
    hide Scan, Flat, LineOk;
    ScanLines([], text);
    SameButLast(text);
  }

  /** 256 lines with a letter each do not survive. */
  lemma FullBufferLosesLine()
    ensures var text := seq(MAX_LINES, _ => [0x41 as Byte]);
      Scan(Flat(text), [], []) != text
  {
    SaveLoad(seq(MAX_LINES, _ => [0x41 as Byte]));
  }

  lemma SameButLast(text: seq<seq<Byte>>)
    requires text != []
    ensures [] + text == text
    ensures [] + text[..|text| - 1] + [[]] == text <==> text[|text| - 1] == []
  {
    var t, n := [] + text[..|text| - 1] + [[]], |text|;
    assert |t| == n && t[n - 1] == [];
    assert forall i :: 0 <= i < n - 1 ==> t[i] == text[i];
  }

  lemma {:induction false} FlatLength(text: seq<seq<Byte>>)
    requires text != [] && forall i :: 0 <= i < |text| ==> |text[i]| < LINE_MAX
    ensures |Flat(text)| < LINE_MAX * |text|
  {
    if |text| > 1 {
      FlatLength(text[..|text| - 1]);
    }
  }
}
