/** The Internet checksum (section 1 of RFC 1071): net_checksum, its fold loop, and what storing its result
    in the data does. */
module Checksum {
  import opened Words

  const U16 := 0x1_0000
  const U32 := 0x1_0000_0000
  const ONES := 0xFFFF

  /** The sum of the big-endian 16-bit words; an odd last byte is the high half of a word. */
  function SumWords(b: seq<Byte>): nat
  {
    if b == [] then 0
    else if |b| == 1 then 0x100 * (b[0] as nat)
    else 0x100 * (b[0] as nat) + b[1] as nat + SumWords(b[2..])
  }

  /** A nonzero sum folds to its residue modulo 65535, with 65535 for the residue 0. */
  function Folded(sum: nat): (f: nat)
    ensures f < U16
  {
    if sum == 0 then 0 else (sum - 1) % ONES + 1
  }

  function Complement(f: nat): (c: nat)
    requires f < U16
    ensures c < U16
  {
    ONES - f
  }

  lemma FoldStep(sum: nat)
    ensures Folded(sum % U16 + sum / U16) == Folded(sum)
  {
    var h, l := sum / U16, sum % U16;
    assert sum == ONES * h + (l + h);
    if sum > 0 {
      assert l + h > 0;
      ModOnes(l + h - 1, h);
    }
  }

  lemma ModOnes(a: nat, k: nat)
    ensures (ONES * k + a) % ONES == a % ONES
  {
  }

  /** Folding keeps the sum modulo 65535. */
  lemma FoldedModulo(sum: nat)
    ensures Folded(sum) % ONES == sum % ONES
    ensures Folded(sum) == 0 <==> sum == 0
    ensures Folded(sum) == ONES <==> sum > 0 && sum % ONES == 0
  {
    if sum > 0 {
      var q, r := (sum - 1) / ONES, (sum - 1) % ONES;
      assert sum == ONES * q + (r + 1);
      ModOnes(r + 1, q);
    }
  }

  /** The fold loop. */
  method Fold(sum: nat) returns (f: nat)
    ensures f == Folded(sum)
  {
    f := sum;
    while f / U16 != 0
      invariant Folded(f) == Folded(sum)
      decreases f
    {
      FoldStep(f);
      f := f % U16 + f / U16;
    }
  }

  ghost function NetChecksum(b: seq<Byte>): nat
  {
    Complement(Folded(SumWords(b) % U32))
  }

  /** The summing loop, with its 32-bit accumulator. */
  method AddWords(data: array<Byte>, len: nat, start: nat) returns (sum: nat)
    requires len <= data.Length && start < U32
    ensures sum == (start + SumWords(data[..len])) % U32
  {
    hide SumWords;
    sum := start;
    var i, rest := 0, len;
    while rest > 1
      invariant i + rest == len
      invariant (sum + SumWords(data[i..len])) % U32 == (start + SumWords(data[..len])) % U32 && sum < U32
      decreases rest
    {
      var b0: nat, b1: nat := data[i], data[i + 1];
      assert data[i..len][2..] == data[i + 2..len];
      SumOfRest(data[i..len]);
      AddMod(sum + 0x100 * b0 + b1, SumWords(data[i + 2..len]));
      sum := (sum + 0x100 * b0 + b1) % U32;
      i := i + 2;
      rest := rest - 2;
    }
    SumOfRest(data[i..len]);
    if rest != 0 {
      var b0: nat := data[i];
      assert data[i..len] == [data[i]];
      sum := (sum + 0x100 * b0) % U32;
    } else {
      assert data[i..len] == [];
    }
  }

  lemma SumOfRest(b: seq<Byte>)
    ensures |b| >= 2 ==> SumWords(b) == 0x100 * (b[0] as nat) + b[1] as nat + SumWords(b[2..])
    ensures |b| == 1 ==> SumWords(b) == 0x100 * (b[0] as nat)
    ensures b == [] ==> SumWords(b) == 0
  {
  }

  /** The words before, at and behind an even place. */
  lemma {:induction false} SumAround(b: seq<Byte>, i: nat)
    requires i % 2 == 0 && i + 1 < |b|
    ensures SumWords(b) == SumWords(b[..i]) + 256 * (b[i] as nat) + b[i + 1] as nat + SumWords(b[i + 2..])
    decreases i
  {
    hide SumWords;
    SumOfRest(b);
    if i == 0 {
      SumOfRest(b[..0]);
    } else {
      SumAround(b[2..], i - 2);
      SumOfRest(b[..i]);
      assert b[..i][2..] == b[2..][..i - 2] && b[i + 2..] == b[2..][i - 2 + 2..];
    }
  }

  lemma {:induction false} SumBoth(a: seq<Byte>, b: seq<Byte>)
    requires |a| % 2 == 0
    ensures SumWords(a + b) == SumWords(a) + SumWords(b)
    decreases |a|
  {
    hide SumWords;
    SumOfRest(a);
    if a == [] {
      assert a + b == b;
    } else {
      SumOfRest(a + b);
      assert (a + b)[2..] == a[2..] + b;
      SumBoth(a[2..], b);
    }
  }

  /** The example of section 3 of RFC 1071: the sum of these bytes is 2DDF0, which folds to DDF2. */
  lemma Rfc1071Example()
    ensures var b: seq<Byte> := [0x00, 0x01, 0xF2, 0x03, 0xF4, 0xF5, 0xF6, 0xF7];
      SumWords(b) == 0x2_DDF0 && Folded(SumWords(b)) == 0xDDF2 && NetChecksum(b) == 0x220D
  {
    var b: seq<Byte> := [0x00, 0x01, 0xF2, 0x03, 0xF4, 0xF5, 0xF6, 0xF7];
    hide SumWords;
    SumOfRest(b);
    assert b[2..] == [0xF2, 0x03, 0xF4, 0xF5, 0xF6, 0xF7];
    SumOfRest(b[2..]);
    assert b[2..][2..] == [0xF4, 0xF5, 0xF6, 0xF7];
    SumOfRest(b[2..][2..]);
    assert b[2..][2..][2..] == [0xF6, 0xF7];
    SumOfRest(b[2..][2..][2..]);
    SumOfRest(b[2..][2..][2..][2..]);
  }

  lemma AddMod(a: nat, b: nat)
    ensures (a % U32 + b) % U32 == (a + b) % U32
  {
    assert a + b == U32 * (a / U32) + (a % U32 + b);
  }

  /** net_checksum. */
  method Net(data: array<Byte>, len: nat) returns (ck: nat)
    requires len <= data.Length
    ensures ck == NetChecksum(data[..len])
  {
    var sum := AddWords(data, len, 0);
    var f := Fold(sum);
    ck := ONES - f;
  }

  // ----- storing a checksum

  /** v stored in network order at k. */
  function Put16(b: seq<Byte>, k: nat, v: nat): (c: seq<Byte>)
    requires k + 1 < |b| && v < U16
    ensures |c| == |b|
  {
    b[k := v / 0x100][k + 1 := v % 0x100]
  }

  function WordAt(b: seq<Byte>, k: nat): nat
    requires k + 1 < |b|
  {
    0x100 * (b[k] as nat) + b[k + 1] as nat
  }

  lemma {:induction false} SumPut(b: seq<Byte>, k: nat, v: nat)
    requires k % 2 == 0 && k + 1 < |b| && v < U16
    ensures SumWords(Put16(b, k, v)) + WordAt(b, k) == SumWords(b) + v
    decreases k
  {
    var c := Put16(b, k, v);
    if k == 0 {
      assert c[2..] == b[2..];
    } else {
      SumPut(b[2..], k - 2, v);
      assert c[2..] == Put16(b[2..], k - 2, v);
    }
  }

  lemma {:induction false} SumBound(b: seq<Byte>)
    ensures SumWords(b) <= ONES * ((|b| + 1) / 2)
    decreases |b|
  {
    if |b| >= 2 {
      SumBound(b[2..]);
      assert (|b| + 1) / 2 == (|b| - 2 + 1) / 2 + 1;
    }
  }

  const LONGEST := 131074

  function AllOnes(n: nat): seq<Byte>
  {
    seq(n, _ => 0xFF)
  }

  lemma {:induction false} OnesSum(n: nat)
    ensures SumWords(AllOnes(n)) == ONES * (n / 2) + if n % 2 == 1 then 0xFF00 else 0
    decreases n
  {
    if n >= 2 {
      assert AllOnes(n)[2..] == AllOnes(n - 2);
      OnesSum(n - 2);
      assert n / 2 == (n - 2) / 2 + 1;
    }
  }

  /** The 32-bit sum cannot wrap, whatever the bytes, exactly for up to 131074 of them. */
  lemma NoWrapIff(n: nat)
    ensures (forall b: seq<Byte> :: |b| == n ==> SumWords(b) < U32) <==> n <= LONGEST
  {
    if n <= LONGEST {
      forall b: seq<Byte> | |b| == n ensures SumWords(b) < U32 {
        SumBound(b);
      }
    } else {
      OnesSum(n);
      assert n / 2 >= 65537;
      assert |AllOnes(n)| == n && SumWords(AllOnes(n)) >= U32;
    }
  }

  lemma NoWrap(b: seq<Byte>)
    requires |b| <= LONGEST
    ensures SumWords(b) < U32
  {
    NoWrapIff(|b|);
  }

  /** A message sum, plus a stored field, checks out exactly when their total is a positive multiple of
      65535. */
  lemma ChecksOut(sum: nat, v: nat)
    requires sum + v < U32
    ensures Complement(Folded((sum + v) % U32)) == 0 <==> sum + v > 0 && (sum + v) % ONES == 0
  {
    FoldedModulo(sum + v);
  }

  /** The complement of the folded sum makes the total a positive multiple of 65535. */
  lemma ComplementCompletes(sum: nat)
    ensures sum + Complement(Folded(sum)) > 0 && (sum + Complement(Folded(sum))) % ONES == 0
  {
    if sum > 0 {
      var q, r := (sum - 1) / ONES, (sum - 1) % ONES;
      assert sum == ONES * q + r + 1;
      ModOnes(0, q + 1);
      assert sum + Complement(Folded(sum)) == ONES * (q + 1);
    }
  }

  /** Adding the complement of the folded sum makes the sum check out ... */
  lemma CompletedSum(s: nat)
    requires s < U32 && s + Complement(Folded(s)) < U32
    ensures Complement(Folded((s + Complement(Folded(s))) % U32)) == 0
  {
    ComplementCompletes(s);
    ChecksOut(s, Complement(Folded(s)));
  }

  /** ... and so does adding anything congruent to it, but nothing else. */
  lemma OnlyThatCompletes(s: nat, v: nat)
    requires 0 < s && s + v < U32 && v < U16
    ensures Complement(Folded((s + v) % U32)) == 0 <==> v % ONES == Complement(Folded(s)) % ONES
  {
    ComplementCompletes(s);
    ChecksOut(s, v);
    SameResidue(s, v, Complement(Folded(s)));
  }

  /** Storing the checksum of data whose field is zero makes the checksum of the whole zero, for even and
      odd lengths. */
  lemma SelfVerifies(b: seq<Byte>, k: nat)
    requires |b| <= LONGEST && k % 2 == 0 && k + 1 < |b| && b[k] == 0 && b[k + 1] == 0
    ensures NetChecksum(Put16(b, k, NetChecksum(b))) == 0
  {
    hide Folded, Complement, SumWords, Put16;
    NoWrap(b);
    NoWrap(Put16(b, k, NetChecksum(b)));
    SumPut(b, k, NetChecksum(b));
    CompletedSum(SumWords(b));
  }

  /** No other value checks out, but for the two representations of zero. */
  lemma OnlyThatVerifies(b: seq<Byte>, k: nat, v: nat)
    requires |b| <= LONGEST && k % 2 == 0 && k + 1 < |b| && b[k] == 0 && b[k + 1] == 0 && v < U16
    requires SumWords(b) > 0
    ensures NetChecksum(Put16(b, k, v)) == 0 <==> v % ONES == NetChecksum(b) % ONES
  {
    hide Folded, Complement, SumWords, Put16;
    NoWrap(b);
    NoWrap(Put16(b, k, v));
    SumPut(b, k, v);
    OnlyThatCompletes(SumWords(b), v);
  }

  lemma SameResidue(s: nat, v: nat, w: nat)
    requires (s + w) % ONES == 0 && v <= ONES && w <= ONES
    ensures (s + v) % ONES == 0 <==> v % ONES == w % ONES
  {
    var q := (s + w) / ONES;
    assert s == ONES * q - w;
  }

  // ----- byte order

  function Htons(v: nat): nat
    requires v < U16
  {
    v / 0x100 + 0x100 * (v % 0x100)
  }

  function Htonl(v: nat): nat
    requires v < U32
  {
    v / 0x100_0000 % 0x100 + v / 0x1_0000 % 0x100 * 0x100 + v / 0x100 % 0x100 * 0x1_0000 + v % 0x100 * 0x100_0000
  }

  /** Storing htons(v) on a little-endian machine writes v in network order, and htons undoes itself. */
  lemma HtonsStores(v: nat)
    requires v < U16
    ensures Htons(v) < U16 && Htons(v) % 0x100 == v / 0x100 && Htons(v) / 0x100 == v % 0x100
    ensures Htons(Htons(v)) == v
  {
  }

  /** The four bytes of a number put together from them. */
  lemma FourBytes(a: nat, b: nat, c: nat, d: nat)
    requires a < 0x100 && b < 0x100 && c < 0x100 && d < 0x100
    ensures var x := a + b * 0x100 + c * 0x1_0000 + d * 0x100_0000;
      x < U32 && x % 0x100 == a && x / 0x100 % 0x100 == b && x / 0x1_0000 % 0x100 == c && x / 0x100_0000 == d
  {
    var x := a + b * 0x100 + c * 0x1_0000 + d * 0x100_0000;
    assert x / 0x100 == b + c * 0x100 + d * 0x1_0000;
    assert x / 0x1_0000 == c + d * 0x100;
  }

  lemma HtonlStores(v: nat)
    requires v < U32
    ensures Htonl(v) < U32
    ensures Htonl(v) % 0x100 == v / 0x100_0000 && Htonl(v) / 0x100 % 0x100 == v / 0x1_0000 % 0x100
    ensures Htonl(v) / 0x1_0000 % 0x100 == v / 0x100 % 0x100 && Htonl(v) / 0x100_0000 == v % 0x100
    ensures Htonl(Htonl(v)) == v
  {
    FourBytes(v / 0x100_0000, v / 0x1_0000 % 0x100, v / 0x100 % 0x100, v % 0x100);
    assert v / 0x100_0000 % 0x100 == v / 0x100_0000;
    FromBytes(v);
  }

  lemma FromBytes(v: nat)
    requires v < U32
    ensures v == v / 0x100_0000 * 0x100_0000 + v / 0x1_0000 % 0x100 * 0x1_0000 + v / 0x100 % 0x100 * 0x100 + v % 0x100
  {
    assert v / 0x100 / 0x100 == v / 0x1_0000 && v / 0x1_0000 / 0x100 == v / 0x100_0000;
  }
}
