/** 64-bit words of physical memory, seen as page-table entries and as bytes. */
module Words {

  const U52 := 0x10_0000_0000_0000
  const U64 := 0x1_0000_0000_0000_0000

  type FrameNo = f: nat | f < U52
  type Nibble = n: nat | n < 16
  type Byte = b: nat | b < 256

  datatype Option<+T> = None | Some(value: T)

  /** The low twelve bits of an entry: bits 0, 1, 2, 3-6, 7 and 8-11. */
  datatype Flags = Flags(present: bool, rw: bool, user: bool, mid: Nibble, huge: bool, high: Nibble)

  /** Bits 12-63 of an entry and its flags. A 64-bit word is exactly one such pair. */
  datatype Word = Word(frame: FrameNo, flags: Flags)

  const NO_FLAGS := Flags(false, false, false, 0, false, 0)
  const TABLE_FLAGS := Flags(true, true, true, 0, false, 0)  // PRESENT | RW | USER
  const ZERO := Word(0, NO_FLAGS)

  type Page = p: seq<Word> | |p| == 512 witness seq(512, _ => ZERO)

  // ----- a word as a number

  function Bit(b: bool): nat
  {
    if b then 1 else 0
  }

  function FlagBits(f: Flags): nat
  {
    Bit(f.present) + 2 * Bit(f.rw) + 4 * Bit(f.user) + 8 * f.mid + 128 * Bit(f.huge) + 256 * f.high
  }

  function ToFlags(x: nat): Flags
    requires x < 4096
  {
    Flags(x % 2 == 1, x / 2 % 2 == 1, x / 4 % 2 == 1, x / 8 % 16, x / 128 % 2 == 1, x / 256)
  }

  function Encode(w: Word): (x: nat)
    ensures x < U64
  {
    4096 * w.frame + FlagBits(w.flags)
  }

  function Decode(x: nat): Word
    requires x < U64
  {
    Word(x / 4096, ToFlags(x % 4096))
  }

  lemma Shifts(x: nat)
    ensures x / 4 == x / 2 / 2 && x / 8 == x / 4 / 2 && x / 128 == x / 8 / 16 && x / 256 == x / 128 / 2
  {
  }

  lemma FlagsRoundTrip(f: Flags)
    ensures FlagBits(f) < 4096 && ToFlags(FlagBits(f)) == f
  {
    SixDigits(Bit(f.present), Bit(f.rw), Bit(f.user), f.mid, Bit(f.huge), f.high);
  }

  lemma SixDigits(p: nat, r: nat, u: nat, m: nat, h: nat, g: nat)
    requires p < 2 && r < 2 && u < 2 && m < 16 && h < 2 && g < 16
    ensures var x := p + 2 * r + 4 * u + 8 * m + 128 * h + 256 * g;
      && x < 4096 && x % 2 == p && x / 2 % 2 == r && x / 4 % 2 == u
      && x / 8 % 16 == m && x / 128 % 2 == h && x / 256 == g
  {
    var x := p + 2 * r + 4 * u + 8 * m + 128 * h + 256 * g;
    Shifts(x);
    DigitOff(x, 2, p, r + 2 * u + 4 * m + 64 * h + 128 * g);
    DigitOff(x / 2, 2, r, u + 2 * m + 32 * h + 64 * g);
    DigitOff(x / 4, 2, u, m + 16 * h + 32 * g);
    DigitOff(x / 8, 16, m, h + 2 * g);
    DigitOff(x / 128, 2, h, g);
  }

  lemma DigitOff(x: nat, base: nat, digit: nat, rest: nat)
    requires base in {2, 16} && digit < base && x == digit + base * rest
    ensures x % base == digit && x / base == rest
  {
  }

  lemma BitsRoundTrip(x: nat)
    requires x < 4096
    ensures FlagBits(ToFlags(x)) == x
  {
    Shifts(x);
    var x1, x2, x3, x7 := x / 2, x / 4, x / 8, x / 128;
    assert x == x % 2 + 2 * x1;
    assert x1 == x1 % 2 + 2 * x2;
    assert x2 == x2 % 2 + 2 * x3;
    assert x3 == x3 % 16 + 16 * x7;
    assert x7 == x7 % 2 + 2 * (x / 256);
    OddBit(x);
    OddBit(x1);
    OddBit(x2);
    OddBit(x7);
  }

  lemma OddBit(x: nat)
    ensures Bit(x % 2 == 1) == x % 2
  {
  }

  /** Entries and 64-bit numbers correspond one to one, so the model loses no bit of a word. */
  lemma WordRoundTrip(w: Word, x: nat)
    requires x < U64
    ensures Decode(Encode(w)) == w
    ensures Encode(Decode(x)) == x
  {
    FlagsRoundTrip(w.flags);
    BitsRoundTrip(x % 4096);
  }

  /** The bits of an entry: PRESENT, RW, USER and HUGE are bits 0, 1, 2 and 7, the frame starts at bit 12. */
  lemma EntryBits(w: Word)
    ensures var x := Encode(w);
      && (w.flags.present <==> x % 2 == 1) && (w.flags.rw <==> x / 2 % 2 == 1) && (w.flags.user <==> x / 4 % 2 == 1)
      && (w.flags.huge <==> x / 128 % 2 == 1) && w.frame == x / 4096
  {
    var f, y := w.flags, FlagBits(w.flags);
    SixDigits(Bit(f.present), Bit(f.rw), Bit(f.user), f.mid, Bit(f.huge), f.high);
    hide FlagBits;
    var x := 4096 * w.frame + y;
    assert x / 4096 == w.frame;
    assert x / 2 == 2048 * w.frame + y / 2;
    assert x / 4 == 1024 * w.frame + y / 4;
    assert x / 128 == 32 * w.frame + y / 128;
    EvenPart(1024 * w.frame, y / 2);
    EvenPart(512 * w.frame, y / 4);
    EvenPart(16 * w.frame, y / 128);
    EvenPart(2048 * w.frame, y);
  }

  lemma EvenPart(a: nat, y: nat)
    ensures (2 * a + y) % 2 == y % 2
  {
  }

  // ----- a word as eight bytes, least significant first

  function Bytes(x: nat, n: nat): (s: seq<Byte>)
    ensures |s| == n
  {
    if n == 0 then [] else [x % 256] + Bytes(x / 256, n - 1)
  }

  function Number(s: seq<Byte>): nat
  {
    if s == [] then 0 else s[0] + 256 * Number(s[1..])
  }

  function Pow256(n: nat): (p: nat)
    ensures p > 0
  {
    if n == 0 then 1 else 256 * Pow256(n - 1)
  }

  lemma {:induction false} NumberOfBytes(x: nat, n: nat)
    requires x < Pow256(n)
    ensures Number(Bytes(x, n)) == x
  {
    if n > 0 {
      NumberOfBytes(x / 256, n - 1);
      assert Bytes(x, n)[1..] == Bytes(x / 256, n - 1);
    }
  }

  lemma {:induction false} BytesOfNumber(s: seq<Byte>)
    ensures Number(s) < Pow256(|s|) && Bytes(Number(s), |s|) == s
  {
    if s != [] {
      BytesOfNumber(s[1..]);
      assert Number(s) / 256 == Number(s[1..]);
    }
  }

  lemma EightBytes()
    ensures Pow256(8) == U64
  {
    assert Pow256(4) == 0x1_0000_0000;
    assert Pow256(6) == 0x1_0000_0000_0000;
  }

  function WordBytes(w: Word): (s: seq<Byte>)
    ensures |s| == 8
  {
    Bytes(Encode(w), 8)
  }

  /** The eight bytes of an entry, the lowest first. */
  lemma WordBytesAre(w: Word)
    ensures var x, s := Encode(w), WordBytes(w);
      && s[0] == x % 256 && s[1] == x / 0x100 % 256 && s[2] == x / 0x1_0000 % 256 && s[3] == x / 0x100_0000 % 256
      && s[4] == x / 0x1_0000_0000 % 256 && s[5] == x / 0x100_0000_0000 % 256
      && s[6] == x / 0x1_0000_0000_0000 % 256 && s[7] == x / 0x100_0000_0000_0000 % 256
  {
    hide Encode, Bytes;
    var x := Encode(w);
    forall k: nat | k < 8 ensures Bytes(x, 8)[k] == Shifted(x, k) % 256 {
      ByteIsDigit(x, 8, k);
    }
    assert WordBytes(w) == Bytes(x, 8);
    ShiftedLow(x);
    ShiftedHigh(x);
  }

  /** x without its k lowest bytes. */
  function Shifted(x: nat, k: nat): nat
    decreases k
  {
    if k == 0 then x else Shifted(x / 256, k - 1)
  }

  lemma {:induction false} ByteIsDigit(x: nat, n: nat, k: nat)
    requires k < n
    ensures Bytes(x, n)[k] == Shifted(x, k) % 256
    decreases k
  {
    if k > 0 {
      ByteIsDigit(x / 256, n - 1, k - 1);
    }
  }

  lemma ShiftedLow(x: nat)
    ensures Shifted(x, 0) == x && Shifted(x, 1) == x / 0x100 && Shifted(x, 2) == x / 0x1_0000
    ensures Shifted(x, 3) == x / 0x100_0000 && Shifted(x, 4) == x / 0x1_0000_0000
  {
    var x2 := x / 256 / 256;
    assert x2 == x / 0x1_0000;
    assert x2 / 256 == x / 0x100_0000;
    assert x2 / 256 / 256 == x / 0x1_0000_0000;
  }

  lemma {:induction false} ShiftedTwice(x: nat, a: nat, k: nat)
    ensures Shifted(x, a + k) == Shifted(Shifted(x, a), k)
    decreases a
  {
    if a > 0 {
      ShiftedTwice(x / 256, a - 1, k);
    }
  }

  lemma ShiftedHigh(x: nat)
    ensures Shifted(x, 5) == x / 0x100_0000_0000 && Shifted(x, 6) == x / 0x1_0000_0000_0000
    ensures Shifted(x, 7) == x / 0x100_0000_0000_0000
  {
    ShiftedLow(x);
    var y := x / 0x1_0000_0000;
    ShiftedLow(y);
    ShiftedTwice(x, 4, 1);
    ShiftedTwice(x, 4, 2);
    ShiftedTwice(x, 4, 3);
    assert y / 0x100 == x / 0x100_0000_0000;
    assert y / 0x1_0000 == x / 0x1_0000_0000_0000;
    assert y / 0x100_0000 == x / 0x100_0000_0000_0000;
  }

  function BytesWord(s: seq<Byte>): Word
    requires |s| == 8
  {
    BytesOfNumber(s);
    EightBytes();
    Decode(Number(s))
  }

  lemma WordBytesRoundTrip(w: Word, s: seq<Byte>)
    requires |s| == 8
    ensures BytesWord(WordBytes(w)) == w
    ensures WordBytes(BytesWord(s)) == s
  {
    EightBytes();
    BytesOfNumber(s);
    NumberOfBytes(Encode(w), 8);
    WordRoundTrip(w, Number(s));
  }

  // ----- a page as 4096 bytes

  function ByteAt(p: Page, k: nat): Byte
    requires k < 4096
  {
    WordBytes(p[k / 8])[k % 8]
  }

  function SetByte(p: Page, k: nat, b: Byte): Page
    requires k < 4096
  {
    p[k / 8 := BytesWord(WordBytes(p[k / 8])[k % 8 := b])]
  }

  lemma SetByteSets(p: Page, k: nat, b: Byte, j: nat)
    requires k < 4096 && j < 4096
    ensures ByteAt(SetByte(p, k, b), j) == if j == k then b else ByteAt(p, j)
  {
    WordBytesRoundTrip(p[k / 8], WordBytes(p[k / 8])[k % 8 := b]);
  }

  lemma SamePageBytes(p: Page, q: Page)
    requires forall k: nat :: k < 4096 ==> ByteAt(p, k) == ByteAt(q, k)
    ensures p == q
  {
    forall i | 0 <= i < 512 ensures p[i] == q[i] {
      forall j | 0 <= j < 8 ensures WordBytes(p[i])[j] == WordBytes(q[i])[j] {
        var k := 8 * i + j;
        assert k / 8 == i && k % 8 == j;
        assert ByteAt(p, k) == ByteAt(q, k);
      }
      assert WordBytes(p[i]) == WordBytes(q[i]);
      WordBytesRoundTrip(p[i], WordBytes(p[i]));
      WordBytesRoundTrip(q[i], WordBytes(q[i]));
    }
  }
}
