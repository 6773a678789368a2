/** TCP segments as they are built and retransmitted, and their checksums. */
module Tcp {
  import opened Words
  import opened Checksum

  const MAX_SEG := 1480
  const HEADER := 20
  const RTO_TICKS := 100
  const MAX_RETX := 5
  const FLAG_ACK := 0x10

  type Ip = s: seq<Byte> | |s| == 4 witness [0, 0, 0, 0]

  /** The pseudo-header: both addresses, the protocol number and the length of the segment. */
  function PseudoSum(src: Ip, dst: Ip, len: nat): nat
  {
    WordAt(src, 0) + WordAt(src, 2) + WordAt(dst, 0) + WordAt(dst, 2) + 6 + len
  }

  /** What tcp_cksum computes of a segment; 0 means that the segment checks out. */
  ghost function SegmentChecksum(src: Ip, dst: Ip, seg: seq<Byte>): nat
  {
    Complement(Folded((PseudoSum(src, dst, |seg|) + SumWords(seg)) % U32))
  }

  /** It is the checksum of the pseudo-header of section 3.1 of RFC 793, followed by the segment. */
  lemma SegmentIsNet(src: Ip, dst: Ip, seg: seq<Byte>)
    requires |seg| < U16
    ensures SegmentChecksum(src, dst, seg) ==
      NetChecksum(src + dst + [0, 6, |seg| / 256, |seg| % 256] + seg)
  {
    hide SumWords, Folded, Complement;
    var front := [src[0], src[1], src[2], src[3], dst[0], dst[1], dst[2], dst[3], 0, 6, |seg| / 256, |seg| % 256];
    assert src + dst + [0, 6, |seg| / 256, |seg| % 256] == front;
    SumBoth(front, seg);
    FrontSum(front, src, dst, |seg|);
  }

  lemma FrontSum(front: seq<Byte>, src: Ip, dst: Ip, len: nat)
    requires len < U16
    requires front == [src[0], src[1], src[2], src[3], dst[0], dst[1], dst[2], dst[3], 0, 6, len / 256, len % 256]
    ensures SumWords(front) == PseudoSum(src, dst, len)
  {
    hide SumWords;
    var f2, f4, f6, f8, f10 := front[2..], front[4..], front[6..], front[8..], front[10..];
    SumOfRest(front);
    SumOfRest(f2);
    SumOfRest(f4);
    SumOfRest(f6);
    SumOfRest(f8);
    SumOfRest(f10);
    SumOfRest(f10[2..]);
    assert f2[2..] == f4 && f4[2..] == f6 && f6[2..] == f8 && f8[2..] == f10;
  }

  /** The bytes of a segment at their offsets (section 3.1 of RFC 793): ports, numbers, a header of five words
      without options, flags, a window of 4096, no urgent pointer, and the data. */
  predicate Carries(s: seq<Byte>, srcPort: nat, dstPort: nat, sequence: nat, ack: nat, flags: Byte, data: seq<Byte>)
  {
    && |s| == 20 + |data|
    && s[0] == srcPort / 256 && s[1] == srcPort % 256 && s[2] == dstPort / 256 && s[3] == dstPort % 256
    && HoldsBig(s, 4, sequence) && HoldsBig(s, 8, ack)
    && s[12] == 0x50 && s[13] == flags && s[14] == 0x10 && s[15] == 0 && s[18] == 0 && s[19] == 0
    && s[20..] == data
  }

  /** A 32-bit number, its highest byte first. */
  predicate HoldsBig(s: seq<Byte>, k: nat, v: nat)
    requires k + 3 < |s|
  {
    && s[k] == v / 0x100_0000 && s[k + 1] == v / 0x1_0000 % 256 && s[k + 2] == v / 0x100 % 256 && s[k + 3] == v % 256
  }

  lemma UnsignedCarries(srcPort: nat, dstPort: nat, sequence: nat, ack: nat, flags: Byte, data: seq<Byte>, ck: nat)
    requires srcPort < U16 && dstPort < U16 && sequence < U32 && ack < U32 && ck < U16
    ensures var u := Unsigned(srcPort, dstPort, sequence, ack, flags, data);
      |u| == 20 + |data| && Carries(Put16(u, 16, ck), srcPort, dstPort, sequence, ack, flags, data)
  {
    var head := Be16(srcPort) + Be16(dstPort) + Be32(sequence) + Be32(ack) + [0x50, flags, 0x10, 0x00, 0, 0, 0, 0];
    var u := Unsigned(srcPort, dstPort, sequence, ack, flags, data);
    assert u == head + data;
    assert Put16(u, 16, ck)[20..] == data;
  }

  lemma SegmentSumBound(src: Ip, dst: Ip, seg: seq<Byte>)
    requires |seg| < U16
    ensures PseudoSum(src, dst, |seg|) + SumWords(seg) < U32 - U16
  {
    SumBound(seg);
  }

  /** A segment with its checksum stored checks out. */
  lemma SegmentVerifies(src: Ip, dst: Ip, seg: seq<Byte>, k: nat)
    requires |seg| < U16 && k % 2 == 0 && k + 1 < |seg| && seg[k] == 0 && seg[k + 1] == 0
    ensures SegmentChecksum(src, dst, Put16(seg, k, SegmentChecksum(src, dst, seg))) == 0
  {
    hide Folded, Complement, SumWords, Put16, PseudoSum;
    var ck := SegmentChecksum(src, dst, seg);
    SegmentSumBound(src, dst, seg);
    SegmentSumBound(src, dst, Put16(seg, k, ck));
    SumPut(seg, k, ck);
    CompletedSum(PseudoSum(src, dst, |seg|) + SumWords(seg));
  }

  function Be16(v: nat): (b: seq<Byte>)
    requires v < U16
    ensures |b| == 2
  {
    [v / 0x100, v % 0x100]
  }

  function Be32(v: nat): (b: seq<Byte>)
    requires v < U32
    ensures |b| == 4
  {
    [v / 0x100_0000, v / 0x1_0000 % 0x100, v / 0x100 % 0x100, v % 0x100]
  }

  /** A segment with 20 bytes of header, its checksum field zero. */
  function Unsigned(srcPort: nat, dstPort: nat, sequence: nat, ack: nat, flags: Byte, data: seq<Byte>): seq<Byte>
    requires srcPort < U16 && dstPort < U16 && sequence < U32 && ack < U32
  {
    Be16(srcPort) + Be16(dstPort) + Be32(sequence) + Be32(ack) + [0x50, flags, 0x10, 0x00, 0, 0, 0, 0] + data
  }

  datatype Sent = Nothing | Segment(bytes: seq<Byte>)

  class Connection {
    var netIp: Ip                   // g_net_ip
    var dstIp: Ip
    var dstPort: nat
    var srcPort: nat
    var sequence: nat
    var ack: nat
    var established: bool
    const seg: array<Byte>          // g_retx.seg
    var segLen: nat
    var seqEnd: nat
    var sentTick: nat
    var active: bool
    var retries: nat

    /** A segment kept for retransmission is one that checks out. */
    ghost predicate Valid()
      reads this, seg
    {
      && srcPort < U16 && dstPort < U16 && sequence < U32 && ack < U32 && sentTick < U32
      && seg.Length == MAX_SEG && HEADER <= segLen <= MAX_SEG
      && (active ==> SegmentChecksum(netIp, dstIp, seg[..segLen]) == 0)
    }

    constructor (netIp: Ip, dstIp: Ip, dstPort: nat, srcPort: nat, sequence: nat)
      requires dstPort < U16 && srcPort < U16 && sequence < U32
      ensures Valid() && !active && this.netIp == netIp && this.dstIp == dstIp
    {
      this.netIp, this.dstIp, this.dstPort, this.srcPort, this.sequence := netIp, dstIp, dstPort, srcPort, sequence;
      ack, established, segLen, seqEnd, sentTick, active, retries := 0, false, HEADER, 0, 0, false, 0;
      seg := new Byte[MAX_SEG](_ => 0);
    }

    /** tcp_cksum. */
    method Cksum(s: array<Byte>, len: nat) returns (ck: nat)
      requires len <= s.Length && len < U16
      ensures ck == SegmentChecksum(netIp, dstIp, s[..len]) && ck < U16
    {
      SegmentSumBound(netIp, dstIp, s[..len]);
      var start := PseudoSum(netIp, dstIp, len);
      var sum := AddWords(s, len, start);
      var f := Fold(sum);
      ck := ONES - f;
    }

    /** tcp_tx, with the clock and the outcome of ip_send: the segment handed to IP has the fields asked
        for and checks out, and one that carries data is kept for retransmission. */
    method Tx(flags: Byte, data: array<Byte>, dlen: nat, now: nat, sendOk: bool) returns (ok: bool, sent: Sent)
      requires Valid() && dlen <= data.Length && HEADER + dlen < U16 && now < U32 && data != seg
      modifies this, seg
      ensures Valid()
      ensures dlen > 1460 <==> sent.Nothing?
      ensures sent.Nothing? ==> !ok && seg[..] == old(seg[..]) && active == old(active)
      ensures sent.Segment? ==>
        && ok == sendOk
        && sent.bytes == Put16(Header(flags, data[..dlen]), 16,
                               SegmentChecksum(netIp, dstIp, Header(flags, data[..dlen])))
        && SegmentChecksum(netIp, dstIp, sent.bytes) == 0
        && Carries(sent.bytes, srcPort, dstPort, sequence, if flags / 16 % 2 == 1 then ack else 0, flags, data[..dlen])
      ensures sent.Segment? && sendOk && dlen > 0 ==>
        active && seg[..segLen] == sent.bytes && retries == 0 && sentTick == now && seqEnd == (sequence + dlen) % U32
      ensures netIp == old(netIp) && dstIp == old(dstIp) && sequence == old(sequence) && ack == old(ack)
      ensures srcPort == old(srcPort) && dstPort == old(dstPort)
    {
      hide SegmentChecksum, Put16, Unsigned, Carries;
      if HEADER + dlen > MAX_SEG {
        return false, Nothing;
      }
      var s := Build(flags, data, dlen);
      HeaderField(flags, data[..dlen]);
      sent := Segment(s[..HEADER + dlen]);
      UnsignedCarries(srcPort, dstPort, sequence, if flags / 16 % 2 == 1 then ack else 0, flags, data[..dlen],
                      SegmentChecksum(netIp, dstIp, Header(flags, data[..dlen])));
      ok := sendOk;
      if sendOk && dlen > 0 {
        Keep(s, HEADER + dlen, now);
        seqEnd := (sequence + dlen) % U32;
      }
    }

    /** Header, data and checksum of a segment. */
    method Build(flags: Byte, data: array<Byte>, dlen: nat) returns (s: array<Byte>)
      requires srcPort < U16 && dstPort < U16 && sequence < U32 && ack < U32 && dlen <= data.Length
        && HEADER + dlen <= MAX_SEG
      ensures fresh(s) && s.Length == MAX_SEG && |Header(flags, data[..dlen])| == HEADER + dlen
      ensures SegmentChecksum(netIp, dstIp, Header(flags, data[..dlen])) < U16
      ensures s[..HEADER + dlen] ==
        Put16(Header(flags, data[..dlen]), 16, SegmentChecksum(netIp, dstIp, Header(flags, data[..dlen])))
      ensures SegmentChecksum(netIp, dstIp, s[..HEADER + dlen]) == 0
    {
      hide SegmentChecksum, Unsigned, Put16;
      s := new Byte[MAX_SEG];
      WriteHeader(s, flags);
      var i := 0;
      while i < dlen
        modifies s
        invariant 0 <= i <= dlen && s[..HEADER] == Header(flags, []) && s[HEADER..HEADER + i] == data[..i]
      {
        s[HEADER + i] := data[i];
        i := i + 1;
      }
      HeaderWithData(flags, data[..dlen]);
      HeaderField(flags, data[..dlen]);
      ghost var u := s[..HEADER + dlen];
      assert u == s[..HEADER] + s[HEADER..HEADER + dlen];
      var ck := Cksum(s, HEADER + dlen);
      SegmentVerifies(netIp, dstIp, u, 16);
      Put16At(s, 16, ck);
      assert s[..HEADER + dlen][16..18] == s[16..18];
      Put16Bytes(u, s[..HEADER + dlen], 16, ck);
    }

    /** Arms retransmission. */
    method Keep(s: array<Byte>, len: nat, now: nat)
      requires Valid() && s.Length == MAX_SEG && HEADER <= len <= MAX_SEG && s != seg && now < U32
      requires SegmentChecksum(netIp, dstIp, s[..len]) == 0
      modifies this`segLen, this`sentTick, this`active, this`retries, seg
      ensures Valid() && active && segLen == len && seg[..len] == s[..len] && retries == 0 && sentTick == now
    {
      hide SegmentChecksum;
      var k := 0;
      while k < len
        modifies seg
        invariant 0 <= k <= len && seg[..k] == s[..k]
      {
        seg[k] := s[k];
        k := k + 1;
      }
      segLen := len;
      sentTick := now;
      active := true;
      retries := 0;
    }

    /** The header of this connection's segments, checksum field zero. */
    ghost function Header(flags: Byte, data: seq<Byte>): seq<Byte>
      requires srcPort < U16 && dstPort < U16 && sequence < U32 && ack < U32
      reads this
    {
      Unsigned(srcPort, dstPort, sequence, if flags / FLAG_ACK % 2 == 1 then ack else 0, flags, data)
    }

    lemma HeaderWithData(flags: Byte, data: seq<Byte>)
      requires srcPort < U16 && dstPort < U16 && sequence < U32 && ack < U32
      ensures |Header(flags, [])| == HEADER && Header(flags, data) == Header(flags, []) + data
    {
    }

    lemma HeaderField(flags: Byte, data: seq<Byte>)
      requires srcPort < U16 && dstPort < U16 && sequence < U32 && ack < U32
      ensures |Header(flags, data)| == HEADER + |data| && Header(flags, data)[16] == 0 && Header(flags, data)[17] == 0
    {
    }

    /** The header fields, stored one by one. */
    method WriteHeader(s: array<Byte>, flags: Byte)
      requires s.Length >= HEADER && srcPort < U16 && dstPort < U16 && sequence < U32 && ack < U32
      modifies s
      ensures s[..HEADER] == Header(flags, [])
    {
      hide Be16, Be32;
      var a := if flags / FLAG_ACK % 2 == 1 then ack else 0;
      Put16At(s, 0, srcPort);
      Put16At(s, 2, dstPort);
      Put32At(s, 4, sequence);
      Put32At(s, 8, a);
      ghost var front := Be16(srcPort) + Be16(dstPort) + Be32(sequence) + Be32(a);
      assert s[..12] == s[0..2] + s[2..4] + s[4..8] + s[8..12] == front;
      WriteRest(s, flags);
      ghost var rest: seq<Byte> := [0x50, flags, 0x10, 0x00, 0, 0, 0, 0];
      assert s[..HEADER] == s[..12] + s[12..20] == front + rest;
      assert Header(flags, []) == front + rest + [];
    }

    method WriteRest(s: array<Byte>, flags: Byte)
      requires s.Length >= HEADER
      modifies s
      ensures s[..12] == old(s[..12]) && s[12..20] == [0x50, flags, 0x10, 0x00, 0, 0, 0, 0]
    {
      s[12] := 0x50;
      s[13] := flags;
      Put16At(s, 14, 4096);
      s[16], s[17], s[18], s[19] := 0, 0, 0, 0;
      assert s[14] == s[14..16][0] && s[15] == s[14..16][1];
    }

    /** retx_check: a segment that is sent again carries the current acknowledgement number, is otherwise
        the same, and checks out. */
    method RetxCheck(now: nat) returns (sent: Sent)
      requires Valid() && now < U32
      modifies this`active, this`established, this`sentTick, this`retries, seg
      ensures Valid()
      ensures sent.Segment? <==>
        old(active) && old(established) && (now - old(sentTick)) % 0x1_0000_0000 >= 100 && old(retries) < 5
      ensures sent.Segment? ==>
        && sent.bytes == seg[..segLen] && SegmentChecksum(netIp, dstIp, sent.bytes) == 0
        && seg[..8] == old(seg[..8]) && HoldsBig(seg[..], 8, ack) && seg[12..16] == old(seg[12..16])
        && seg[18..segLen] == old(seg[18..segLen])
        && active && sentTick == now && retries == old(retries) + 1
      ensures sent.Nothing? ==> seg[..] == old(seg[..])
      ensures established ==> old(established)
      ensures old(established) && !established <==>
        old(active) && old(established) && (now - old(sentTick)) % 0x1_0000_0000 >= 100 && old(retries) >= 5
    {
      hide SegmentChecksum;
      if !active {
        return Nothing;
      }
      if !established {
        active := false;
        return Nothing;
      }
      if (now - sentTick) % U32 < RTO_TICKS {
        return Nothing;
      }
      retries := retries + 1;
      if retries > MAX_RETX {
        established := false;
        active := false;
        return Nothing;
      }
      Resend();
      sent := Segment(seg[..segLen]);
      sentTick := now;
    }

    /** The acknowledgement number is brought up to date, and the checksum with it. */
    method Resend()
      requires Valid()
      modifies seg
      ensures Valid() && SegmentChecksum(netIp, dstIp, seg[..segLen]) == 0
      ensures seg[..8] == old(seg[..8]) && HoldsBig(seg[..], 8, ack) && seg[12..16] == old(seg[12..16])
      ensures seg[18..segLen] == old(seg[18..segLen])
    {
      hide SegmentChecksum;
      ghost var w := seg[..segLen];
      Put32At(seg, 8, ack);
      seg[16], seg[17] := 0, 0;
      ghost var u := seg[..segLen];
      var ck := Cksum(seg, segLen);
      SegmentVerifies(netIp, dstIp, u, 16);
      Put16At(seg, 16, ck);
      ghost var t := seg[..segLen];
      SliceOf(seg[..], segLen, 16, 18);
      Put16Bytes(u, t, 16, ck);
      SliceOf(seg[..], segLen, 8, 12);
      AckChanged(w, t, ack);
      assert seg[..8] == t[..8] && w[..8] == old(seg[..8]);
      assert seg[12..16] == t[12..16] && w[12..16] == old(seg[12..16]);
    }
  }

  lemma SliceOf(s: seq<Byte>, n: nat, i: nat, j: nat)
    requires i <= j <= n <= |s|
    ensures s[..n][i..j] == s[i..j]
  {
  }

  lemma Put16Bytes(u: seq<Byte>, t: seq<Byte>, k: nat, v: nat)
    requires k + 1 < |u| == |t| && v < U16 && t[k..k + 2] == Be16(v)
    requires forall i :: 0 <= i < |u| && i != k && i != k + 1 ==> t[i] == u[i]
    ensures t == Put16(u, k, v)
  {
    assert t[k] == t[k..k + 2][0] && t[k + 1] == t[k..k + 2][1];
  }

  /** Only the acknowledgement and the checksum of a segment have changed. */
  lemma AckChanged(w: seq<Byte>, t: seq<Byte>, ack: nat)
    requires |w| == |t| >= HEADER && ack < U32 && t[8..12] == Be32(ack)
    requires forall i :: 0 <= i < |w| && !(8 <= i < 12) && i != 16 && i != 17 ==> t[i] == w[i]
    ensures t[..8] == w[..8] && HoldsBig(t, 8, ack) && t[12..16] == w[12..16] && t[18..] == w[18..]
  {
    forall i | 0 <= i < 4 ensures t[8 + i] == Be32(ack)[i] {
      assert t[8 + i] == t[8..12][i];
    }
  }

  /** A 16-bit store of a little-endian machine. */
  method Store16(s: array<Byte>, k: nat, v: nat)
    requires k + 1 < s.Length && v < U16
    modifies s
    ensures s[k] == v % 0x100 && s[k + 1] == v / 0x100
    ensures forall i :: 0 <= i < s.Length && i != k && i != k + 1 ==> s[i] == old(s[i])
  {
    s[k] := v % 0x100;
    s[k + 1] := v / 0x100;
  }

  method Store32(s: array<Byte>, k: nat, v: nat)
    requires k + 3 < s.Length && v < U32
    modifies s
    ensures s[k] == v % 0x100 && s[k + 1] == v / 0x100 % 0x100 && s[k + 2] == v / 0x1_0000 % 0x100
      && s[k + 3] == v / 0x100_0000
    ensures forall i :: 0 <= i < s.Length && !(k <= i < k + 4) ==> s[i] == old(s[i])
  {
    s[k] := v % 0x100;
    s[k + 1] := v / 0x100 % 0x100;
    s[k + 2] := v / 0x1_0000 % 0x100;
    s[k + 3] := v / 0x100_0000;
  }

  /** Storing htons(v) leaves v in network order. */
  method Put16At(s: array<Byte>, k: nat, v: nat)
    requires k + 1 < s.Length && v < U16
    modifies s
    ensures s[k..k + 2] == Be16(v)
    ensures forall i :: 0 <= i < s.Length && i != k && i != k + 1 ==> s[i] == old(s[i])
  {
    hide Htons;
    HtonsStores(v);
    Store16(s, k, Htons(v));
  }

  method Put32At(s: array<Byte>, k: nat, v: nat)
    requires k + 3 < s.Length && v < U32
    modifies s
    ensures s[k..k + 4] == Be32(v)
    ensures forall i :: 0 <= i < s.Length && !(k <= i < k + 4) ==> s[i] == old(s[i])
  {
    hide Htonl;
    HtonlStores(v);
    Store32(s, k, Htonl(v));
  }
}
