/** DNS names on the wire: section 3.1 of RFC 1035, with the compression pointers of section 4.1.4. */
module Dns {
  import opened Words

  const U16 := 0x1_0000
  const DOT: Byte := 0x2E
  const MAX_HOPS := 16
  const MAX_LABEL := 63

  /** A host name as a list of labels. */
  type Labels = seq<seq<Byte>>

  predicate LabelOk(l: seq<Byte>)
  {
    1 <= |l| <= MAX_LABEL && DOT !in l && 0 !in l
  }

  predicate LabelsOk(ls: Labels)
  {
    forall i :: 0 <= i < |ls| ==> LabelOk(ls[i])
  }

  /** The host name: labels with dots between them. */
  function Host(ls: Labels): seq<Byte>
  {
    if ls == [] then [] else if |ls| == 1 then ls[0] else ls[0] + [DOT] + Host(ls[1..])
  }

  /** The wire format: length-prefixed labels and a zero byte. */
  function Wire(ls: Labels): (w: seq<Byte>)
    requires LabelsOk(ls)
    ensures |w| >= 1
  {
    if ls == [] then [0] else [|ls[0]| as Byte] + ls[0] + Wire(ls[1..])
  }

  /** Length of the first run without a dot. */
  function Run(host: seq<Byte>, i: nat): (k: nat)
    requires i <= |host|
    ensures i <= k <= |host|
    ensures forall j :: i <= j < k ==> host[j] != DOT
    ensures k < |host| ==> host[k] == DOT
    decreases |host| - i
  {
    if i < |host| && host[i] != DOT then Run(host, i + 1) else i
  }

  /** What dns_encode_name writes for any host; label lengths and positions are cut to 8 and 16 bits. */
  function Encoded(host: seq<Byte>): (w: seq<Byte>)
    decreases |host|
  {
    if host == [] then [0]
    else
      var k := Run(host, 0);
      var n := k % 0x100;
      [n as Byte] + host[..n] + Encoded(if k < |host| then host[k + 1..] else [])
  }

  lemma {:induction false} RunIs(host: seq<Byte>, i: nat, k: nat)
    requires i <= k <= |host| && (forall j :: i <= j < k ==> host[j] != DOT) && (k < |host| ==> host[k] == DOT)
    ensures Run(host, i) == k
    decreases k - i
  {
    if i < k {
      RunIs(host, i + 1, k);
    }
  }

  lemma EncodedStep(l: seq<Byte>, tail: seq<Byte>)
    requires LabelOk(l) && (tail != [] ==> tail[0] == DOT)
    ensures Encoded(l + tail) == [|l| as Byte] + l + Encoded(if tail == [] then [] else tail[1..])
  {
    hide Encoded;
    var host, k := l + tail, |l|;
    assert forall j :: 0 <= j < k ==> host[j] == l[j];
    RunIs(host, 0, k);
    EncodedNext(host);
    assert k % 0x100 == k;
    assert host[..k] == l;
    assert (if k < |host| then host[k + 1..] else []) == (if tail == [] then [] else tail[1..]);
  }

  /** Encoding a host of proper labels gives its wire format. */
  lemma {:induction false} EncodedIsWire(ls: Labels)
    requires LabelsOk(ls)
    ensures Encoded(Host(ls)) == Wire(ls)
    decreases |ls|
  {
    if ls != [] {
      var tail := if |ls| == 1 then [] else [DOT] + Host(ls[1..]);
      assert Host(ls) == ls[0] + tail;
      EncodedStep(ls[0], tail);
      EncodedIsWire(ls[1..]);
    }
  }

  lemma {:induction false} EncodedLength(host: seq<Byte>)
    ensures |Encoded(host)| <= |host| + 2
    decreases |host|
  {
    if host != [] {
      var k := Run(host, 0);
      if k < |host| {
        EncodedLength(host[k + 1..]);
      }
    }
  }

  /** One label: its length and its bytes. */
  method WriteLabel(host: seq<Byte>, h: nat, n: nat, out: array<Byte>, p: nat, ghost end: nat)
    requires n < 0x100 && h + n <= |host| && p + 1 + n <= end <= out.Length
    modifies out
    ensures out[..p + 1 + n] == old(out[..p]) + [n as Byte] + host[h..h + n]
    ensures out[end..] == old(out[end..])
  {
    out[p] := n as Byte;
    var i := 0;
    while i < n
      invariant 0 <= i <= n && out[..p + 1 + i] == old(out[..p]) + [n as Byte] + host[h..h + i]
      invariant out[end..] == old(out[end..])
    {
      out[p + 1 + i] := host[h + i];
      i := i + 1;
    }
  }

  lemma EncodedEmpty()
    ensures Encoded([]) == [0]
  {
  }

  lemma EncodedNext(host: seq<Byte>)
    requires host != []
    ensures var k := Run(host, 0); var n := k % 0x100;
      Encoded(host) == [n as Byte] + host[..n] + Encoded(if k < |host| then host[k + 1..] else [])
  {
  }

  method FindDot(host: seq<Byte>, h: nat) returns (dot: nat)
    requires h <= |host|
    ensures h <= dot <= |host| && dot - h == Run(host[h..], 0)
  {
    dot := h;
    while dot < |host| && host[dot] != DOT
      invariant h <= dot <= |host| && forall j :: h <= j < dot ==> host[j] != DOT
    {
      dot := dot + 1;
    }
    RunIs(host[h..], 0, dot - h);
  }

  /** Where the next label goes in the text to be written. */
  lemma NextLabel(target: seq<Byte>, p: nat, host: seq<Byte>, h: nat, dot: nat)
    requires h < |host| && h <= dot <= |host| && dot - h == Run(host[h..], 0)
    requires p <= |target| && target[p..] == Encoded(host[h..])
    ensures var n, next := (dot - h) % 0x100, if dot < |host| then dot + 1 else dot;
      && p + 1 + n <= |target|
      && target[..p + 1 + n] == target[..p] + [n as Byte] + host[h..h + n]
      && target[p + 1 + n..] == Encoded(host[next..])
  {
    hide Run, Encoded;
    var n, rest := (dot - h) % 0x100, host[h..];
    EncodedNext(rest);
    var after := if dot - h < |rest| then rest[dot - h + 1..] else [];
    assert host[if dot < |host| then dot + 1 else dot..] == after;
    assert host[h..h + n] == rest[..n];
    PartsOf(target, p, n as Byte, rest[..n], Encoded(after));
  }

  lemma PartsOf(target: seq<Byte>, p: nat, n: Byte, l: seq<Byte>, rest: seq<Byte>)
    requires p <= |target| && target[p..] == [n] + l + rest
    ensures p + 1 + |l| <= |target|
    ensures target[..p + 1 + |l|] == target[..p] + [n] + l && target[p + 1 + |l|..] == rest
  {
    assert target == target[..p] + target[p..];
  }

  /** Of the text `target` the bytes up to p are written, and the rest stands for host from h on. */
  ghost predicate EncodedTo(out: seq<Byte>, target: seq<Byte>, p: nat, host: seq<Byte>, h: nat)
  {
    p <= |out| && p <= |target| && h <= |host| && out[..p] == target[..p] && target[p..] == Encoded(host[h..])
  }

  lemma LabelEncoded(was: seq<Byte>, out: seq<Byte>, target: seq<Byte>, p: nat, host: seq<Byte>, h: nat, dot: nat)
    requires EncodedTo(was, target, p, host, h) && h < |host| && h <= dot <= |host| && dot - h == Run(host[h..], 0)
    requires var n := (dot - h) % 0x100;
      p + 1 + n <= |out| && out[..p + 1 + n] == was[..p] + [n as Byte] + host[h..h + n]
    ensures EncodedTo(out, target, p + 1 + (dot - h) % 0x100, host, if dot < |host| then dot + 1 else dot)
  {
    hide Run, Encoded;
    NextLabel(target, p, host, h, dot);
  }

  /** dns_encode_name into a buffer with room for it. */
  method EncodeName(host: seq<Byte>, out: array<Byte>, at: nat) returns (pos: nat)
    requires at + |host| + 2 <= out.Length && |host| + 2 < U16
    modifies out
    ensures pos == |Encoded(host)| && at + pos <= out.Length
    ensures out[..at + pos] == old(out[..at]) + Encoded(host)
    ensures out[at + |host| + 2..] == old(out[at + |host| + 2..])
  {
    hide Encoded, Run, EncodedTo;
    pos := 0;
    var h := 0;
    ghost var end, target := at + |host| + 2, out[..at] + Encoded(host);
    NothingEncoded(out[..], at, host);
    while h < |host|
      invariant 0 <= h <= |host| && pos <= h + 1 && (h < |host| ==> pos <= h)
      invariant EncodedTo(out[..], target, at + pos, host, h) && out[end..] == old(out[end..])
      decreases |host| - h
    {
      var dot := FindDot(host, h);
      var n := (dot - h) % 0x100;
      assert n <= dot - h;
      ghost var was := out[..];
      WriteLabel(host, h, n, out, at + pos, end);
      LabelEncoded(was, out[..], target, at + pos, host, h, dot);
      pos := pos + 1 + n;
      h := if dot < |host| then dot + 1 else dot;
    }
    ghost var was := out[..];
    out[at + pos] := 0;
    AllEncoded(was, out[..], target, at + pos, host);
    pos := pos + 1;
  }

  lemma NothingEncoded(out: seq<Byte>, at: nat, host: seq<Byte>)
    requires at <= |out|
    ensures EncodedTo(out, out[..at] + Encoded(host), at, host, 0)
  {
    assert host[0..] == host;
  }

  lemma AllEncoded(was: seq<Byte>, out: seq<Byte>, target: seq<Byte>, p: nat, host: seq<Byte>)
    requires EncodedTo(was, target, p, host, |host|) && p < |was| && out == was[p := 0]
    ensures out[..p + 1] == target
  {
    assert host[|host|..] == [];
    EncodedEmpty();
    assert target == target[..p] + [0];
  }

  // ----- skipping a name

  /** The offset behind the name at off: behind its zero byte or its first pointer. */
  function SkipTo(buf: seq<Byte>, off: nat, len: nat): nat
    requires len <= |buf|
    decreases if off < len then len - off else 0
  {
    if off >= len then off
    else if buf[off] == 0 then off + 1
    else if buf[off] >= 0xC0 then off + 2
    else SkipTo(buf, off + 1 + buf[off] as nat, len)
  }

  // The offset of dns_skip_name is a 16-bit number.

  /** The loop stops here: behind the message, at a zero byte, or at a pointer. */
  predicate Stops(buf: seq<Byte>, off: nat, len: nat)
    requires len <= |buf|
  {
    off >= len || buf[off] == 0 || buf[off] >= 0xC0
  }

  /** Where the loop is after n labels. */
  function Skipping(buf: seq<Byte>, off: nat, len: nat, n: nat): nat
    requires len <= |buf|
    decreases n
  {
    if n == 0 || Stops(buf, off, len) then off
    else Skipping(buf, (off + 1 + buf[off] as nat) % U16, len, n - 1)
  }

  ghost predicate Ends(buf: seq<Byte>, off: nat, len: nat)
    requires len <= |buf|
  {
    exists n: nat :: Stops(buf, Skipping(buf, off, len, n), len)
  }

  /** The result, once the loop has stopped at off. */
  function Behind(buf: seq<Byte>, off: nat, len: nat): nat
    requires len <= |buf|
  {
    if off >= len then off else if buf[off] == 0 then (off + 1) % U16 else (off + 2) % U16
  }

  lemma {:induction false} OneMoreLabel(buf: seq<Byte>, off: nat, len: nat, n: nat)
    requires len <= |buf|
    ensures var at := Skipping(buf, off, len, n);
      Skipping(buf, off, len, n + 1) == if Stops(buf, at, len) then at else (at + 1 + buf[at] as nat) % U16
    decreases n
  {
    if n > 0 && !Stops(buf, off, len) {
      OneMoreLabel(buf, (off + 1 + buf[off] as nat) % U16, len, n - 1);
    }
  }

  const SAFE_LENGTH := 65344   // 2^16 - 192: behind it a label can take the offset past 2^16

  /** Up to this length no label does, and the loop ends behind the name. */
  lemma {:induction false} ShortEnds(buf: seq<Byte>, off: nat, len: nat) returns (n: nat)
    requires len <= |buf| && len <= SAFE_LENGTH && off < U16
    ensures var at := Skipping(buf, off, len, n);
      Stops(buf, at, len) && Behind(buf, at, len) == SkipTo(buf, off, len)
    decreases if off < len then len - off else 0
  {
    n := 0;
    if !Stops(buf, off, len) {
      var rest := ShortEnds(buf, off + 1 + buf[off] as nat, len);
      n := rest + 1;
    }
  }

  const LAST_FULL := 65280   // 340 * 192

  /** Labels of 191 bytes, but for one of 63 that leads to the last byte at which a label still wraps. */
  function Cycling(len: nat): (buf: seq<Byte>)
    ensures |buf| == len
  {
    seq(len, i => if i == LAST_FULL then 63 else 191)
  }

  /** The k-th of the 342 offsets on the way round. */
  function Station(k: nat): nat
  {
    if k <= 340 then 192 * k else SAFE_LENGTH
  }

  lemma NextStation(len: nat, k: nat)
    requires SAFE_LENGTH < len < U16 && k <= 341
    ensures !Stops(Cycling(len), Station(k), len)
    ensures (Station(k) + 1 + Cycling(len)[Station(k)] as nat) % U16 == Station(if k < 341 then k + 1 else 0)
  {
  }

  lemma {:induction false} CycleGoesOn(len: nat, k: nat, n: nat)
    requires SAFE_LENGTH < len < U16 && k <= 341
    ensures !Stops(Cycling(len), Skipping(Cycling(len), Station(k), len, n), len)
    decreases n
  {
    hide Stops, Station;
    NextStation(len, k);
    if n > 0 {
      CycleGoesOn(len, if k < 341 then k + 1 else 0, n - 1);
    }
  }

  /** The loop ends on every message of this length exactly up to 65344 bytes. */
  lemma EndsIff(len: nat)
    requires len < U16
    ensures (forall buf: seq<Byte>, off: nat :: |buf| == len && off < U16 ==> Ends(buf, off, len)) <==>
      len <= SAFE_LENGTH
  {
    if len <= SAFE_LENGTH {
      forall buf: seq<Byte>, off: nat | |buf| == len && off < U16 ensures Ends(buf, off, len) {
        var n := ShortEnds(buf, off, len);
      }
    } else {
      forall n: nat ensures !Stops(Cycling(len), Skipping(Cycling(len), 0, len, n), len) {
        CycleGoesOn(len, 0, n);
      }
      assert !Ends(Cycling(len), 0, len);
    }
  }

  /** Once stopped, the loop stays where it is, so the result does not depend on when one looks. */
  lemma {:induction false} StopsOnce(buf: seq<Byte>, off: nat, len: nat, n: nat, m: nat)
    requires len <= |buf| && Stops(buf, Skipping(buf, off, len, n), len) && Stops(buf, Skipping(buf, off, len, m), len)
    ensures Skipping(buf, off, len, n) == Skipping(buf, off, len, m)
    decreases n
  {
    if n > 0 && m > 0 && !Stops(buf, off, len) {
      StopsOnce(buf, (off + 1 + buf[off] as nat) % U16, len, n - 1, m - 1);
    }
  }

  /** Up to this length any end found is the end of the name. */
  lemma SkippedName(buf: seq<Byte>, off: nat, len: nat, labels: nat)
    requires len <= |buf| && off < U16 && Stops(buf, Skipping(buf, off, len, labels), len)
    ensures len <= SAFE_LENGTH ==> Behind(buf, Skipping(buf, off, len, labels), len) == SkipTo(buf, off, len)
  {
    if len <= SAFE_LENGTH {
      var n := ShortEnds(buf, off, len);
      StopsOnce(buf, off, len, n, labels);
    }
  }

  /** dns_skip_name, on every message on which it ends. */
  method SkipName(buf: array<Byte>, start: nat, len: nat) returns (off: nat, ghost labels: nat)
    requires len <= buf.Length && len < U16 && start < U16 && Ends(buf[..], start, len)
    ensures var at := Skipping(buf[..], start, len, labels);
      Stops(buf[..], at, len) && off == Behind(buf[..], at, len) < U16
    ensures len <= SAFE_LENGTH ==> off == SkipTo(buf[..], start, len)
  {
    ghost var b := buf[..];
    ghost var steps: nat :| Stops(b, Skipping(b, start, len, steps), len);
    off, labels := start, 0;
    while off < len
      invariant off < U16 && off == Skipping(b, start, len, labels) && labels <= steps
      invariant labels == steps ==> Stops(b, off, len)
      decreases steps - labels
    {
      var c: nat := buf[off] as nat;
      if c == 0 {
        SkippedName(b, start, len, labels);
        off := (off + 1) % U16;
        return;
      }
      if c >= 0xC0 {
        SkippedName(b, start, len, labels);
        off := (off + 2) % U16;
        return;
      }
      OneMoreLabel(b, start, len, labels);
      off := (off + 1 + c) % U16;
      labels := labels + 1;
    }
    SkippedName(b, start, len, labels);
  }

  /** The name ls is on the wire at off. */
  predicate OnWire(buf: seq<Byte>, off: nat, ls: Labels)
    requires LabelsOk(ls)
  {
    off + |Wire(ls)| <= |buf| && buf[off..off + |Wire(ls)|] == Wire(ls)
  }

  lemma FirstLabel(buf: seq<Byte>, off: nat, ls: Labels)
    requires LabelsOk(ls) && OnWire(buf, off, ls)
    ensures off < |buf| && (ls == [] ==> buf[off] == 0)
    ensures ls != [] ==>
      var n := |ls[0]|;
      && LabelOk(ls[0]) && LabelsOk(ls[1..]) && OnWire(buf, off + 1 + n, ls[1..])
      && |Wire(ls)| == 1 + n + |Wire(ls[1..])|
      && buf[off] as nat == n && buf[off + 1..off + 1 + n] == ls[0]
  {
    var w := Wire(ls);
    if ls == [] {
      assert buf[off] == buf[off..off + |w|][0];
    } else {
      assert LabelOk(ls[0]);
      forall i | 0 <= i < |ls[1..]| ensures LabelOk(ls[1..][i]) {
        assert ls[1..][i] == ls[i + 1];
      }
      SliceParts(buf, off, |ls[0]| as Byte, ls[0], Wire(ls[1..]));
    }
  }

  lemma SliceParts(buf: seq<Byte>, off: nat, a: Byte, l: seq<Byte>, rest: seq<Byte>)
    requires off + 1 + |l| + |rest| <= |buf| && buf[off..off + 1 + |l| + |rest|] == [a] + l + rest
    ensures buf[off] == a && buf[off + 1..off + 1 + |l|] == l && buf[off + 1 + |l|..off + 1 + |l| + |rest|] == rest
  {
    var s := buf[off..off + 1 + |l| + |rest|];
    assert buf[off] == s[0];
    assert s[1..1 + |l|] == l && s[1 + |l|..] == rest;
    forall i | 0 <= i < |l| ensures buf[off + 1..off + 1 + |l|][i] == l[i] {
      assert s[1 + i] == l[i];
    }
    forall i | 0 <= i < |rest| ensures buf[off + 1 + |l|..off + 1 + |l| + |rest|][i] == rest[i] {
      assert s[1 + |l| + i] == rest[i];
    }
  }

  /** Skipping an uncompressed name lands just past it. */
  lemma {:induction false} SkipsWire(buf: seq<Byte>, off: nat, len: nat, ls: Labels)
    requires LabelsOk(ls) && OnWire(buf, off, ls) && off + |Wire(ls)| <= len <= |buf|
    ensures SkipTo(buf, off, len) == off + |Wire(ls)|
    decreases |ls|
  {
    hide OnWire;
    FirstLabel(buf, off, ls);
    if ls != [] {
      SkipsWire(buf, off + 1 + |ls[0]|, len, ls[1..]);
    }
  }

  // ----- expanding a name

  function Least(a: nat, b: nat): nat
  {
    if a < b then a else b
  }

  function Pointer(b: Byte, c: Byte): nat
  {
    (b as nat) % 0x40 * 0x100 + c as nat
  }

  function WithDot(text: seq<Byte>): seq<Byte>
  {
    if text == [] then [] else text + [DOT]
  }

  /** The name at off, behind `text`, if at most 16 pointers are followed in all. Every pointer uses up a
      hop and every label moves on, so this ends on any bytes. */
  function Expanded(buf: seq<Byte>, off: nat, len: nat, hops: nat, text: seq<Byte>): seq<Byte>
    requires len < |buf|
    decreases MAX_HOPS - hops, len - off
  {
    if off >= len || hops >= MAX_HOPS || buf[off] == 0 then text
    else if buf[off] >= 0xC0 then Expanded(buf, Pointer(buf[off], buf[off + 1]), len, hops + 1, text)
    else
      var end := Least(off + 1 + buf[off] as nat, len);
      Expanded(buf, end, len, hops, WithDot(text) + buf[off + 1..end])
  }

  /** What fits of the text. */
  function Cut(text: seq<Byte>, limit: nat): seq<Byte>
  {
    text[..Least(|text|, limit)]
  }

  /** outmax - 1 as a 16-bit number. */
  function Limit(outmax: nat): nat
    requires outmax < U16
  {
    (outmax + U16 - 1) % U16
  }

  lemma CutMore(text: seq<Byte>, limit: nat, c: Byte)
    ensures Cut(text + [c], limit) == if |Cut(text, limit)| < limit then Cut(text, limit) + [c] else Cut(text, limit)
  {
  }

  /** The characters of one label, as many as fit. */
  method CopyLabel(buf: array<Byte>, off: nat, end: nat, out: array<Byte>, written: nat, limit: nat,
                   ghost text: seq<Byte>)
    returns (w: nat)
    requires off <= end <= buf.Length && written <= limit <= out.Length && out != buf
      && out[..written] == Cut(text, limit)
    modifies out
    ensures w <= limit && out[..w] == Cut(text + buf[off..end], limit) && out[limit..] == old(out[limit..])
      && w >= written
    ensures forall i :: w <= i < out.Length ==> out[i] == old(out[i])
  {
    hide Cut;
    w := written;
    var i := off;
    assert text + buf[off..off] == text;
    while i < end
      invariant off <= i <= end && written <= w <= limit && out[..w] == Cut(text + buf[off..i], limit)
      invariant forall k :: w <= k < out.Length ==> out[k] == old(out[k])
    {
      CutMore(text + buf[off..i], limit, buf[i]);
      assert text + buf[off..i] + [buf[i]] == text + buf[off..i + 1];
      if w < limit {
        out[w] := buf[i];
        w := w + 1;
      }
      i := i + 1;
    }
  }

  /** dns_expand_name: on any bytes it ends, and the output is the expanded name as far as it fits below
      outmax, then a zero byte. The byte behind the message is readable. With outmax 0 the limit is
      65535, and there is no zero byte. */
  method ExpandName(buf: array<Byte>, start: nat, len: nat, out: array<Byte>, outmax: nat) returns (written: nat)
    requires len < buf.Length && start < U16 && len < U16 && outmax < U16 && out != buf
    requires out.Length >= outmax && out.Length >= Limit(outmax)
    modifies out
    ensures written == |Cut(Expanded(buf[..], start, len, 0, []), Limit(outmax))| <= out.Length
    ensures out[..written] == Cut(Expanded(buf[..], start, len, 0, []), Limit(outmax))
    ensures outmax > 0 ==> written < outmax && out[written] == 0
    ensures forall i :: (if outmax > 0 then written < i else written <= i) && 0 <= i < out.Length ==>
      out[i] == old(out[i])
  {
    hide Cut, WithDot, Expanded;
    var limit := Limit(outmax);
    ghost var b := buf[..];
    ghost var text: seq<Byte> := [];
    written := 0;
    CutNothing(limit);
    var off: nat, hops: nat := start, 0;
    while off < len && hops < MAX_HOPS
      invariant buf[..] == b && off < U16 && 0 <= hops && written <= limit
      invariant out[..written] == Cut(text, limit)
        && Expanded(b, off, len, hops, text) == Expanded(b, start, len, 0, [])
      invariant forall i :: written <= i < out.Length ==> out[i] == old(out[i])
      decreases MAX_HOPS - hops, len - off
    {
      var c := buf[off];
      ExpandedStep(b, off, len, hops, text);
      if c == 0 {
        break;
      }
      if c >= 0xC0 {
        off := Pointer(c, buf[off + 1]);
        hops := hops + 1;
        continue;
      }
      var end := Least(off + 1 + c as nat, len);
      CutDot(text, limit);
      if written > 0 && written < limit {
        out[written] := DOT;
        written := written + 1;
      }
      assert out[..written] == Cut(WithDot(text), limit);
      written := CopyLabel(buf, off + 1, end, out, written, limit, WithDot(text));
      assert buf[off + 1..end] == b[off + 1..end];
      text := WithDot(text) + b[off + 1..end];
      off := end;
    }
    ExpandedStep(b, off, len, hops, text);
    CutSize(text, limit);
    if outmax > 0 {
      out[written] := 0;
    }
  }

  lemma ExpandedStep(buf: seq<Byte>, off: nat, len: nat, hops: nat, text: seq<Byte>)
    requires len < |buf|
    ensures Expanded(buf, off, len, hops, text) ==
      if off >= len || hops >= MAX_HOPS || buf[off] == 0 then text
      else if buf[off] >= 0xC0 then Expanded(buf, Pointer(buf[off], buf[off + 1]), len, hops + 1, text)
      else
        var end := Least(off + 1 + buf[off] as nat, len);
        Expanded(buf, end, len, hops, WithDot(text) + buf[off + 1..end])
  {
  }

  lemma CutNothing(limit: nat)
    ensures Cut([], limit) == []
  {
  }

  lemma CutSize(text: seq<Byte>, limit: nat)
    ensures |Cut(text, limit)| <= limit
  {
  }

  lemma CutDot(text: seq<Byte>, limit: nat)
    ensures Cut(WithDot(text), limit) ==
      if 0 < |Cut(text, limit)| < limit then Cut(text, limit) + [DOT] else Cut(text, limit)
  {
  }

  /** Expanding an uncompressed name gives the host back. */
  lemma {:induction false} ExpandsWire(buf: seq<Byte>, off: nat, len: nat, hops: nat, text: seq<Byte>, ls: Labels)
    requires LabelsOk(ls) && OnWire(buf, off, ls) && off + |Wire(ls)| <= len < |buf| && hops < MAX_HOPS
    ensures Expanded(buf, off, len, hops, text) == if ls == [] then text else WithDot(text) + Host(ls)
    decreases |ls|
  {
    hide OnWire, LabelsOk, Wire, Expanded, Host, WithDot;
    FirstLabel(buf, off, ls);
    ExpandedStep(buf, off, len, hops, text);
    if ls != [] {
      HostNext(text, ls);
      ExpandsWire(buf, off + 1 + |ls[0]|, len, hops, WithDot(text) + ls[0], ls[1..]);
    }
  }

  lemma HostNext(text: seq<Byte>, ls: Labels)
    requires ls != [] && ls[0] != []
    ensures WithDot(text) + Host(ls) ==
      if ls[1..] == [] then WithDot(text) + ls[0] else WithDot(WithDot(text) + ls[0]) + Host(ls[1..])
  {
  }

  /** The labels ls are in the message from off on, each behind its length. */
  predicate LabelsAt(buf: seq<Byte>, off: nat, ls: Labels)
    decreases |ls|
  {
    ls == [] ||
    (&& off + 1 + |ls[0]| <= |buf| && buf[off] as nat == |ls[0]| && buf[off + 1..off + 1 + |ls[0]|] == ls[0]
     && LabelsAt(buf, off + 1 + |ls[0]|, ls[1..]))
  }

  /** A name on the wire is these labels and a zero byte. */
  lemma {:induction false} WireIs(buf: seq<Byte>, off: nat, ls: Labels)
    requires LabelsOk(ls) && OnWire(buf, off, ls)
    ensures LabelsAt(buf, off, ls) && |Wire(ls)| == LabelBytes(ls) + 1
    ensures off + LabelBytes(ls) < |buf| && buf[off + LabelBytes(ls)] == 0
    decreases |ls|
  {
    FirstLabel(buf, off, ls);
    if ls == [] {
      assert Wire(ls) == [0];
    } else {
      hide Wire, OnWire, LabelOk, LabelsOk;
      WireIs(buf, off + 1 + |ls[0]|, ls[1..]);
    }
  }

  function LabelBytes(ls: Labels): nat
  {
    if ls == [] then 0 else 1 + |ls[0]| + LabelBytes(ls[1..])
  }

  function Longer(text: seq<Byte>, ls: Labels): seq<Byte>
  {
    if ls == [] then text else WithDot(text) + Host(ls)
  }

  lemma {:induction false} ExpandsLabels(buf: seq<Byte>, off: nat, len: nat, hops: nat, text: seq<Byte>, ls: Labels)
    requires LabelsOk(ls) && LabelsAt(buf, off, ls) && off + LabelBytes(ls) <= len < |buf| && hops < MAX_HOPS
    ensures Expanded(buf, off, len, hops, text) ==
      Expanded(buf, off + LabelBytes(ls), len, hops, Longer(text, ls))
    decreases |ls|
  {
    hide LabelsOk, LabelsAt, LabelBytes, Expanded, Host, WithDot, Longer;
    LongerNothing(text, ls);
    LabelAt(buf, off, ls);
    if ls != [] {
      RestOk(ls);
      ExpandedStep(buf, off, len, hops, text);
      LongerNext(text, ls);
      ExpandsLabels(buf, off + 1 + |ls[0]|, len, hops, WithDot(text) + ls[0], ls[1..]);
    }
  }

  lemma LongerNothing(text: seq<Byte>, ls: Labels)
    ensures ls == [] ==> Longer(text, ls) == text
  {
  }

  lemma LabelAt(buf: seq<Byte>, off: nat, ls: Labels)
    requires LabelsOk(ls) && LabelsAt(buf, off, ls)
    ensures if ls == [] then LabelBytes(ls) == 0
      else
        && 1 <= |ls[0]| <= 63 && off + 1 + |ls[0]| <= |buf| && buf[off] as nat == |ls[0]|
        && buf[off + 1..off + 1 + |ls[0]|] == ls[0] && LabelsAt(buf, off + 1 + |ls[0]|, ls[1..])
        && LabelBytes(ls) == 1 + |ls[0]| + LabelBytes(ls[1..])
  {
    if ls != [] {
      assert LabelOk(ls[0]);
    }
  }

  lemma RestOk(ls: Labels)
    requires LabelsOk(ls) && ls != []
    ensures LabelsOk(ls[1..])
  {
  }

  lemma BothOk(ls: Labels, more: Labels)
    requires LabelsOk(ls) && LabelsOk(more)
    ensures LabelsOk(ls + more)
    ensures ls != [] ==> ls + more != [] && (ls + more)[0] == ls[0] && (ls + more)[1..] == ls[1..] + more
  {
  }

  lemma LongerNext(text: seq<Byte>, ls: Labels)
    requires LabelsOk(ls) && ls != []
    ensures Longer(text, ls) == Longer(WithDot(text) + ls[0], ls[1..])
  {
    assert LabelOk(ls[0]);
    hide Host, WithDot;
    HostNext(text, ls);
  }

  lemma {:induction false} HostOfBoth(ls: Labels, more: Labels)
    requires LabelsOk(ls) && LabelsOk(more)
    ensures Longer(Longer([], ls), more) == Host(ls + more)
  {
    LongerTwice([], ls, more);
    assert WithDot([]) + Host(ls + more) == Host(ls + more);
  }

  lemma {:induction false} LongerTwice(text: seq<Byte>, ls: Labels, more: Labels)
    requires LabelsOk(ls) && LabelsOk(more)
    ensures Longer(Longer(text, ls), more) == Longer(text, ls + more)
    decreases |ls|
  {
    BothOk(ls, more);
    hide Longer, LabelsOk, WithDot, Host;
    if ls == [] {
      LongerNothing(text, ls);
      assert ls + more == more;
    } else {
      RestOk(ls);
      LongerNext(text, ls);
      LongerNext(text, ls + more);
      LongerTwice(WithDot(text) + ls[0], ls[1..], more);
    }
  }

  lemma PointerFollowed(buf: seq<Byte>, at: nat, len: nat, hops: nat, text: seq<Byte>)
    requires at < len < |buf| && buf[at] >= 192 && hops < 16
    ensures Expanded(buf, at, len, hops, text) ==
      Expanded(buf, 256 * (buf[at] as nat - 192) + buf[at + 1] as nat, len, hops + 1, text)
  {
  }

  /** Labels followed by a pointer, two bytes of which the first has its two high bits set, expand to these
      labels and the name at the offset that the other fourteen bits say. */
  lemma ExpandsThroughPointer(buf: seq<Byte>, at: nat, len: nat, ls: Labels, high: nat, low: nat, more: Labels)
    requires LabelsOk(ls) && LabelsAt(buf, at, ls) && LabelsOk(more) && high < 64 && low < 256
    requires var p := at + LabelBytes(ls);
      p < len < |buf| && buf[p] as nat == 192 + high && buf[p + 1] as nat == low
    requires var off := 256 * high + low; OnWire(buf, off, more) && off + |Wire(more)| <= len
    ensures Expanded(buf, at, len, 0, []) == Host(ls + more)
  {
    hide LabelsAt, OnWire, Longer, Wire, LabelsOk, Host, WithDot, Expanded, LabelBytes;
    var p, off := at + LabelBytes(ls), 256 * high + low;
    ExpandsLabels(buf, at, len, 0, [], ls);
    PointerFollowed(buf, p, len, 0, Longer([], ls));
    ExpandsWire(buf, off, len, 1, Longer([], ls), more);
    LongerIs(Longer([], ls), more);
    HostOfBoth(ls, more);
  }

  /** offs[0], offs[1] and so on to the last but one each hold a pointer to the next. */
  ghost predicate PointersTo(buf: seq<Byte>, offs: seq<nat>, len: nat)
    requires len < |buf|
  {
    forall i {:trigger offs[i]} :: 0 <= i < |offs| - 1 ==>
      && offs[i] < len && buf[offs[i]] >= 192
      && offs[i + 1] == 256 * (buf[offs[i]] as nat - 192) + buf[offs[i] + 1] as nat
  }

  /** A name behind pointers, one after the other, expands if and only if there are fewer than sixteen. */
  lemma {:induction false} FifteenPointers(buf: seq<Byte>, offs: seq<nat>, len: nat, hops: nat, more: Labels)
    requires len < |buf| && offs != [] && PointersTo(buf, offs, len) && LabelsOk(more) && hops <= 16
    requires var off := offs[|offs| - 1]; OnWire(buf, off, more) && off + |Wire(more)| <= len
    ensures Expanded(buf, offs[0], len, hops, []) == if hops + |offs| <= 16 then Host(more) else []
    decreases |offs|
  {
    hide OnWire, Wire, LabelsOk;
    if |offs| == 1 && hops < 16 {
      ExpandsWire(buf, offs[0], len, hops, [], more);
      assert WithDot([]) + Host(more) == Host(more);
    } else if hops < 16 {
      assert Pointer(buf[offs[0]], buf[offs[0] + 1]) == offs[1];
      FifteenPointers(buf, offs[1..], len, hops + 1, more);
    }
  }

  lemma LongerIs(text: seq<Byte>, ls: Labels)
    ensures Longer(text, ls) == if ls == [] then text else WithDot(text) + Host(ls)
  {
  }

  /** A pointer to itself expands to nothing more. */
  lemma {:induction false} LoopEnds(buf: seq<Byte>, at: nat, len: nat, hops: nat, text: seq<Byte>)
    requires at < len < |buf| && buf[at] >= 192 && 256 * (buf[at] as nat - 192) + buf[at + 1] as nat == at
      && hops <= MAX_HOPS
    ensures Expanded(buf, at, len, hops, text) == text
    decreases MAX_HOPS - hops
  {
    if hops < MAX_HOPS {
      LoopEnds(buf, at, len, hops + 1, text);
    }
  }

  /** Encoding a host and expanding the result gives the host back, and skipping it lands behind it. */
  lemma RoundTrip(ls: Labels, buf: seq<Byte>, off: nat, len: nat)
    requires LabelsOk(ls)
    requires off + |Encoded(Host(ls))| <= len < |buf| && buf[off..off + |Encoded(Host(ls))|] == Encoded(Host(ls))
    ensures Expanded(buf, off, len, 0, []) == Host(ls)
    ensures SkipTo(buf, off, len) == off + |Encoded(Host(ls))|
  {
    hide Encoded, Expanded, SkipTo;
    EncodedIsWire(ls);
    assert WithDot([]) + Host(ls) == Host(ls);
    ExpandsWire(buf, off, len, 0, [], ls);
    SkipsWire(buf, off, len, ls);
  }

  /** The output stays below outmax exactly when outmax is positive or the name is empty: with outmax 0
      the limit wraps to 65535. */
  lemma StaysBelowOutmax(text: seq<Byte>, outmax: nat)
    requires outmax < U16
    ensures |Cut(text, Limit(outmax))| <= outmax <==> outmax > 0 || text == []
  {
  }
}
