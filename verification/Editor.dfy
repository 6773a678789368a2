/** The pixel editor's line array: handle_key, load_file and save_file. */
module Editor {
  import opened Words
  import opened EditorText

  const ROWS_VIS := 56
  const FILE_CAP := 0x7FFF          // sizeof(filebuf) - 1

  /** The first row shown once row `row` has to be: as near to `top` as can be. */
  function Window(top: nat, row: nat): nat
  {
    if row < top then row else if row < top + ROWS_VIS then top else row - ROWS_VIS + 1
  }

  class Editor {
    const lines: array2<Byte>
    const llen: array<nat>
    var nlines: nat
    var curR: nat
    var curC: nat
    var topR: nat
    var modified: bool
    ghost var text: seq<seq<Byte>>

    ghost predicate Shape()
      reads this
    {
      lines.Length0 == MAX_LINES && lines.Length1 == LINE_MAX && llen.Length == MAX_LINES
    }

    /** Row r of the array holds the line s and its terminator. */
    ghost predicate RowIs(r: nat, s: seq<Byte>)
      requires Shape()
      reads this, lines, llen
    {
      && r < MAX_LINES && |s| < LINE_MAX && llen[r] == |s|
      && (forall j :: 0 <= j < |s| ==> lines[r, j] == s[j]) && lines[r, |s|] == 0
    }

    ghost predicate Rows()
      requires Shape()
      reads this, lines, llen
    {
      |text| == nlines && forall r: nat :: r < nlines ==> RowIs(r, text[r])
    }

    ghost function Now(): Buffer
      reads this
    {
      Buffer(text, curR, curC)
    }

    ghost predicate Valid()
      reads this, lines, llen
    {
      Shape() && Rows() && BufferOk(Now()) && topR <= curR < topR + ROWS_VIS
    }

    constructor ()
      ensures Valid() && Now() == Buffer([[]], 0, 0) && topR == 0 && !modified && fresh(lines) && fresh(llen)
    {
      lines := new Byte[MAX_LINES, LINE_MAX]((_, _) => 0);
      llen := new nat[MAX_LINES](_ => 0);
      nlines, curR, curC, topR, modified, text := 1, 0, 0, 0, false, [[]];
    }

    /** The copy of a whole line, terminator included, that the shifting loops make. */
    method CopyLine(from: nat, to: nat, ghost s: seq<Byte>)
      requires Shape() && RowIs(from, s) && to < MAX_LINES && to != from
      modifies lines, llen
      ensures RowIs(to, s)
      ensures forall q: nat, t: seq<Byte> :: q != to && old(RowIs(q, t)) ==> RowIs(q, t)
    {
      label Entry:
      var j := 0;
      while j <= llen[from]
        modifies lines
        invariant 0 <= j <= |s| + 1
        invariant forall q, i :: 0 <= q < MAX_LINES && q != to && 0 <= i < LINE_MAX ==>
          lines[q, i] == old(lines[q, i])
        invariant forall i :: 0 <= i < j ==> lines[to, i] == lines[from, i]
      {
        lines[to, j] := lines[from, j];
        j := j + 1;
      }
      llen[to] := llen[from];
      KeepOthers@Entry(to);
    }

    /** Rows whose words are unchanged hold the same lines. */
    twostate lemma KeepOthers(row: nat)
      requires old(Shape()) && Shape()
      requires forall q, k :: 0 <= q < MAX_LINES && q != row && 0 <= k < LINE_MAX ==> lines[q, k] == old(lines[q, k])
      requires forall q :: 0 <= q < MAX_LINES && q != row ==> llen[q] == old(llen[q])
      ensures forall q: nat, t: seq<Byte> :: q != row && old(RowIs(q, t)) ==> RowIs(q, t)
    {
    }

    /** The insertion of a printable character. */
    method InsertChar(ch: Byte)
      requires Valid() && |text[curR]| < LINE_MAX - 1 && BufferOk(Inserted(Now(), ch))
      modifies this, lines, llen
      ensures Valid() && Now() == Inserted(old(Now()), ch) && modified
    {
      InsertInRow(ch);
      text := text[curR := text[curR][..curC] + [ch] + text[curR][curC..]];
      curC := curC + 1;
      modified := true;
    }

    /** The rest of the row moves right, and the character goes to the cursor. */
    method InsertInRow(ch: Byte)
      requires Valid() && |text[curR]| < LINE_MAX - 1
      modifies lines, llen
      ensures Shape() && RowIs(curR, text[curR][..curC] + [ch] + text[curR][curC..])
      ensures forall q: nat, t: seq<Byte> :: q != curR && old(RowIs(q, t)) ==> RowIs(q, t)
    {
      label Entry:
      ghost var s, c := text[curR], curC;
      var l := llen[curR];
      assert RowIs(curR, s);
      var i := l;
      while i > curC
        modifies lines
        invariant curC <= i <= l
        invariant forall q, k :: 0 <= q < MAX_LINES && q != curR && 0 <= k < LINE_MAX ==>
          lines[q, k] == old(lines[q, k])
        invariant forall k :: 0 <= k < i ==> lines[curR, k] == s[k]
        invariant forall k :: i < k <= l ==> lines[curR, k] == s[k - 1]
      {
        lines[curR, i] := lines[curR, i - 1];
        i := i - 1;
      }
      lines[curR, curC] := ch;
      lines[curR, l + 1] := 0;
      llen[curR] := l + 1;
      RowInserted(curR, s, c, ch);
      KeepOthers@Entry(curR);
    }

    lemma RowInserted(r: nat, s: seq<Byte>, c: nat, ch: Byte)
      requires Shape() && r < MAX_LINES && c <= |s| < LINE_MAX - 1 && llen[r] == |s| + 1 && lines[r, |s| + 1] == 0
      requires forall k :: 0 <= k < c ==> lines[r, k] == s[k]
      requires lines[r, c] == ch && forall k :: c < k <= |s| ==> lines[r, k] == s[k - 1]
      ensures RowIs(r, s[..c] + [ch] + s[c..])
    {
    }

    /** Backspace inside a line. */
    method DeleteChar()
      requires Valid() && curC > 0 && BufferOk(Erased(Now()))
      modifies this, lines, llen
      ensures Valid() && Now() == Erased(old(Now())) && modified
    {
      DeleteInRow();
      text := text[curR := text[curR][..curC - 1] + text[curR][curC..]];
      curC := curC - 1;
      modified := true;
    }

    /** The rest of the row moves left, over the character before the cursor. */
    method DeleteInRow()
      requires Valid() && curC > 0
      modifies lines, llen
      ensures Shape() && RowIs(curR, text[curR][..curC - 1] + text[curR][curC..])
      ensures forall q: nat, t: seq<Byte> :: q != curR && old(RowIs(q, t)) ==> RowIs(q, t)
    {
      label Entry:
      ghost var s, c := text[curR], curC;
      var l := llen[curR];
      assert RowIs(curR, s);
      var i := curC - 1;
      while i < l - 1
        modifies lines
        invariant curC - 1 <= i <= l - 1
        invariant forall q, k :: 0 <= q < MAX_LINES && q != curR && 0 <= k < LINE_MAX ==>
          lines[q, k] == old(lines[q, k])
        invariant forall k :: i <= k < l ==> lines[curR, k] == s[k]
        invariant forall k :: 0 <= k < c - 1 ==> lines[curR, k] == s[k]
        invariant forall k :: c - 1 <= k < i ==> lines[curR, k] == s[k + 1]
      {
        lines[curR, i] := lines[curR, i + 1];
        i := i + 1;
      }
      lines[curR, l - 1] := 0;
      llen[curR] := l - 1;
      KeepOthers@Entry(curR);
    }

    /** Moves the lines behind line r up by one. */
    method ShiftUp(r: nat, ghost t: seq<seq<Byte>>)
      requires Shape() && r < nlines <= MAX_LINES && |t| == nlines && forall q: nat :: r < q < nlines ==>
        RowIs(q, t[q])
      modifies lines, llen
      ensures forall q: nat :: r <= q < nlines - 1 ==> RowIs(q, t[1..][q])
      ensures forall q: nat, u: seq<Byte> :: q < r && old(RowIs(q, u)) ==> RowIs(q, u)
    {
      ghost var up := t[1..];
      var i := r;
      while i < nlines - 1
        modifies lines, llen
        invariant r <= i <= nlines - 1
        invariant forall q: nat, u: seq<Byte> :: q < r && old(RowIs(q, u)) ==> RowIs(q, u)
        invariant forall q: nat :: r <= q < i ==> RowIs(q, up[q])
        invariant forall q: nat :: i < q < nlines ==> RowIs(q, t[q])
      {
        CopyLine(i + 1, i, t[i + 1]);
        assert up[i] == t[i + 1];
        i := i + 1;
      }
    }

    /** Backspace at the start of a line: it is appended to the one above, and the rest move up. */
    method JoinLines()
      requires Valid() && curC == 0 && curR > 0 && |text[curR - 1]| + |text[curR]| < LINE_MAX - 1
        && BufferOk(Joined(Now()))
      modifies this, lines, llen
      ensures Valid() && Now() == Joined(old(Now())) && modified
    {
      ghost var t, above, line := text, text[curR - 1], text[curR];
      var prev := curR - 1;
      assert RowIs(prev, above) && RowIs(curR, line);
      var plen := llen[prev];
      AppendTo(prev, curR, above, line);
      ShiftUp(curR, t);
      text := t[..prev] + [above + line] + t[curR + 1..];
      nlines := nlines - 1;
      forall q: nat | q < nlines ensures RowIs(q, text[q]) {
        if q < prev {
          assert old(RowIs(q, t[q]));
        } else if q > prev {
          assert text[q] == t[1..][q];
        }
      }
      curR := curR - 1;
      curC := plen;
      ScrollToCursor();
      modified := true;
    }

    /** Appends line `from` to line `to`. */
    method AppendTo(to: nat, from: nat, ghost s: seq<Byte>, ghost t: seq<Byte>)
      requires Shape() && RowIs(to, s) && RowIs(from, t) && to != from && |s| + |t| < LINE_MAX - 1
      modifies lines, llen
      ensures RowIs(to, s + t)
      ensures forall q: nat, u: seq<Byte> :: q != to && old(RowIs(q, u)) ==> RowIs(q, u)
    {
      label Entry:
      var plen, clen := llen[to], llen[from];
      var i := 0;
      while i < clen
        modifies lines
        invariant 0 <= i <= clen
        invariant forall q, k :: 0 <= q < MAX_LINES && q != to && 0 <= k < LINE_MAX ==>
          lines[q, k] == old(lines[q, k])
        invariant forall k :: 0 <= k < plen ==> lines[to, k] == s[k]
        invariant forall k :: plen <= k < plen + i ==> lines[to, k] == t[k - plen]
      {
        lines[to, plen + i] := lines[from, i];
        i := i + 1;
      }
      llen[to] := plen + clen;
      lines[to, plen + clen] := 0;
      KeepOthers@Entry(to);
    }

    /** Moves the lines behind line r down by one. */
    method ShiftDown(r: nat, ghost t: seq<seq<Byte>>)
      requires Shape() && r < nlines < MAX_LINES && |t| == nlines && forall q: nat :: q < nlines ==> RowIs(q, t[q])
      modifies lines, llen
      ensures forall q: nat :: q <= r ==> RowIs(q, t[q])
      ensures forall q: nat :: r + 1 < q <= nlines ==> RowIs(q, ([[]] + t)[q])
    {
      ghost var down := [[]] + t;
      var i := nlines - 1;
      while i > r
        modifies lines, llen
        invariant r <= i <= nlines - 1
        invariant forall q: nat :: q <= i ==> RowIs(q, t[q])
        invariant forall q: nat :: i + 1 < q <= nlines ==> RowIs(q, down[q])
      {
        CopyLine(i, i + 1, t[i]);
        assert down[i + 1] == t[i];
        i := i - 1;
      }
    }

    /** Enter: the lines below move down and the cursor's line is split. */
    method SplitAtCursor()
      requires Valid() && nlines < MAX_LINES - 1 && BufferOk(SplitLine(Now()))
      modifies this, lines, llen
      ensures Valid() && Now() == SplitLine(old(Now())) && modified
    {
      ghost var t, line, c := text, text[curR], curC;
      ShiftDown(curR, t);
      label Shifted:
      CutLine(curR, curC, line);
      text := t[..curR] + [line[..c], line[c..]] + t[curR + 1..];
      ghost var t2 := text;
      nlines := nlines + 1;
      forall q: nat | q < nlines ensures RowIs(q, t2[q]) {
        if q < curR {
          assert old@Shifted(RowIs(q, t[q]));
        } else if q > curR + 1 {
          assert t2[q] == ([[]] + t)[q];
          assert old@Shifted(RowIs(q, t2[q]));
        }
      }
      curR := curR + 1;
      curC := 0;
      ScrollToCursor();
      modified := true;
    }

    /** Moves the end of line r from column c to line r + 1. */
    method CutLine(r: nat, c: nat, ghost line: seq<Byte>)
      requires Shape() && r + 1 < MAX_LINES && RowIs(r, line) && c <= |line|
      modifies lines, llen
      ensures RowIs(r, line[..c]) && RowIs(r + 1, line[c..])
      ensures forall q: nat, u: seq<Byte> :: q != r && q != r + 1 && old(RowIs(q, u)) ==> RowIs(q, u)
    {
      label Entry:
      var rest := llen[r] - c;
      ghost var z := line[c..];
      var i := 0;
      while i < rest
        modifies lines
        invariant 0 <= i <= rest
        invariant forall q, k :: 0 <= q < MAX_LINES && q != r + 1 && 0 <= k < LINE_MAX ==>
          lines[q, k] == old(lines[q, k])
        invariant forall k :: 0 <= k < i ==> lines[r + 1, k] == z[k]
      {
        lines[r + 1, i] := lines[r, c + i];
        i := i + 1;
      }
      lines[r + 1, rest] := 0;
      llen[r + 1] := rest;
      KeepOthers@Entry(r + 1);
      label Cut:
      lines[r, c] := 0;
      llen[r] := c;
      KeepOthers@Cut(r);
    }

    /** scroll_to_cursor. */
    method ScrollToCursor()
      modifies this`topR
      ensures topR <= curR < topR + ROWS_VIS
      ensures topR == Window(old(topR), curR)
    {
      if curR < topR {
        topR := curR;
      }
      if curR >= topR + ROWS_VIS {
        topR := curR - ROWS_VIS + 1;
      }
    }

    /** clamp_col. */
    method ClampCol()
      requires Shape() && curR < MAX_LINES
      modifies this`curC
      ensures curC == Least(old(curC), llen[curR])
    {
      if curC > llen[curR] {
        curC := llen[curR];
      }
    }

    /** handle_key: the buffer becomes what the key makes of it, and `modified` remembers edits. */
    method HandleKey(k: int)
      requires Valid()
      modifies this, lines, llen
      ensures Valid() && Now() == Typed(old(Now()), k)
      ensures modified <==> old(modified) || Edits(old(Now()), k)
    {
      hide Inserted, SplitLine, Erased, Joined, LineOk;
      TypedOk(Now(), k);
      assert RowIs(curR, text[curR]);
      assert curR > 0 ==> RowIs(curR - 1, text[curR - 1]);
      assert curR + 1 < nlines ==> RowIs(curR + 1, text[curR + 1]);
      if k == K_UP {
        if curR > 0 {
          curR := curR - 1;
          ClampCol();
          ScrollToCursor();
        }
      } else if k == K_DOWN {
        if curR < nlines - 1 {
          curR := curR + 1;
          ClampCol();
          ScrollToCursor();
        }
      } else if k == K_LEFT {
        if curC > 0 {
          curC := curC - 1;
        } else if curR > 0 {
          curR := curR - 1;
          curC := llen[curR];
          ScrollToCursor();
        }
      } else if k == K_RIGHT {
        if curC < llen[curR] {
          curC := curC + 1;
        } else if curR < nlines - 1 {
          curR := curR + 1;
          curC := 0;
          ScrollToCursor();
        }
      } else if k == K_BACK {
        if curC > 0 {
          DeleteChar();
        } else if curR > 0 && llen[curR - 1] + llen[curR] < LINE_MAX - 1 {
          JoinLines();
        }
      } else if k == K_ENTER {
        if nlines < MAX_LINES - 1 {
          SplitAtCursor();
        }
      } else if k >= 0x20 && k < 0x7F && llen[curR] < LINE_MAX - 1 {
        InsertChar(k as Byte);
      }
    }

    /** The inner loop of save_file: line i, between what comes before and after it. */
    method SaveLine(i: nat, filebuf: array<Byte>, start: nat, ghost p: seq<Byte>, ghost q: seq<Byte>)
      returns (pos: nat)
      requires Valid() && i < nlines && filebuf.Length == FILE_CAP + 1
      requires start == |p| && |p + text[i] + q| <= FILE_CAP && filebuf[..start] == p
      modifies filebuf
      ensures pos == |p| + |text[i]| && filebuf[..pos] == p + text[i]
    {
      assert RowIs(i, text[i]);
      pos := start;
      var j := 0;
      while j < llen[i] && pos < FILE_CAP
        invariant 0 <= j <= |text[i]| && pos == |p| + j && filebuf[..pos] == p + text[i][..j]
        decreases llen[i] - j
      {
        filebuf[pos] := lines[i, j];
        pos := pos + 1;
        j := j + 1;
      }
    }

    /** save_file: the file gets the flat text; it always fits. */
    method SaveFile() returns (file: seq<Byte>)
      requires Valid()
      modifies this`modified
      ensures Valid() && file == Flat(text) && !modified
    {
      hide Flat, Before, After;
      FlatLength(text);
      FirstRow(text);
      var filebuf := new Byte[FILE_CAP + 1];
      var pos: nat, i: nat := 0, 0;
      while i < nlines
        invariant 0 <= i <= nlines && pos <= FILE_CAP
        invariant filebuf[..pos] == if i < nlines then Before(text, i) else Flat(text)
      {
        FlatParts(text, i);
        pos := SaveLine(i, filebuf, pos, Before(text, i), After(text, i));
        SavedRow(text, i);
        if i < nlines - 1 && pos < FILE_CAP {
          filebuf[pos] := NL;
          pos := pos + 1;
        }
        i := i + 1;
      }
      file := filebuf[..pos];
      modified := false;
    }

    /** load_file with the bytes of the file: the first 32767 of them are read. */
    method LoadFile(file: seq<Byte>)
      requires Valid() && curR == 0 && curC == 0 && topR == 0
      modifies this, lines, llen
      ensures Valid() && text == Scan(if |file| <= FILE_CAP then file else file[..FILE_CAP], [], [])
    {
      hide Scan;
      var bytes := if |file| <= FILE_CAP then file else file[..FILE_CAP];
      nlines := 1;
      llen[0] := 0;
      lines[0, 0] := 0;
      var r, c, i := 0, 0, 0;
      ghost var done, line: seq<Byte> := [], [];
      while i < |bytes| && r < MAX_LINES - 1
        modifies lines, llen
        invariant 0 <= i <= |bytes| && Shape()
        invariant |done| == r < MAX_LINES && |line| == c < LINE_MAX
        invariant (forall k :: 0 <= k < r ==> LineOk(done[k])) && LineOk(line)
        invariant forall k: nat :: k < r ==> RowIs(k, done[k])
        invariant forall k :: 0 <= k < c ==> lines[r, k] == line[k]
        invariant Scan(bytes, [], []) == Scan(bytes[i..], done, line)
      {
        label Entry:
        var ch := bytes[i];
        ScanStep(bytes[i..], done, line);
        assert bytes[i..][1..] == bytes[i + 1..];
        if ch == CR {
        } else if ch == NL {
          lines[r, c] := 0;
          llen[r] := c;
          assert RowIs(r, line);
          KeepOthers@Entry(r);
          done := done + [line];
          label Next:
          r := r + 1;
          c := 0;
          lines[r, 0] := 0;
          llen[r] := 0;
          KeepOthers@Next(r);
          line := [];
        } else if c < LINE_MAX - 1 {
          lines[r, c] := ch;
          KeepOthers@Entry(r);
          line := line + [ch];
          c := c + 1;
        }
        i := i + 1;
      }
      label End:
      lines[r, c] := 0;
      llen[r] := c;
      KeepOthers@End(r);
      assert RowIs(r, line);
      ScanEnd(bytes[i..], done, line);
      text := done + [line];
      nlines := r + 1;
    }
  }

  lemma SavedRow(text: seq<seq<Byte>>, r: nat)
    requires r < |text|
    ensures r + 1 < |text| ==> Before(text, r + 1) == Before(text, r) + text[r] + [NL] && |After(text, r)| >= 1
    ensures r + 1 == |text| ==> Flat(text) == Before(text, r) + text[r]
  {
    FlatParts(text, r);
    if r + 1 < |text| {
      NextRow(text, r);
    }
  }

  lemma ScanStep(bytes: seq<Byte>, done: seq<seq<Byte>>, line: seq<Byte>)
    requires bytes != [] && |done| < MAX_LINES - 1
    ensures Scan(bytes, done, line) ==
      if bytes[0] == CR then Scan(bytes[1..], done, line)
      else if bytes[0] == NL then Scan(bytes[1..], done + [line], [])
      else if |line| < LINE_MAX - 1 then Scan(bytes[1..], done, line + [bytes[0]])
      else Scan(bytes[1..], done, line)
  {
  }

  lemma ScanEnd(bytes: seq<Byte>, done: seq<seq<Byte>>, line: seq<Byte>)
    requires bytes == [] || |done| >= MAX_LINES - 1
    ensures Scan(bytes, done, line) == done + [line]
  {
  }
}
