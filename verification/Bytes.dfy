/** Bytes, little-endian 32-bit words, and lengths stored in four bytes. */
module Bytes {

  type byte = bv8

  /** The word at a little-endian address. */
  function Word(b0: byte, b1: byte, b2: byte, b3: byte): bv32 {
    (b0 as bv32) | ((b1 as bv32) << 8) | ((b2 as bv32) << 16) | ((b3 as bv32) << 24)
  }

  function WordAt(data: seq<byte>, i: nat): bv32
    requires i + 4 <= |data|
  {
    Word(data[i], data[i + 1], data[i + 2], data[i + 3])
  }

  function WordBytes(w: bv32): (b: seq<byte>)
    ensures |b| == 4
  {
    [(w & 0xFF) as byte, ((w >> 8) & 0xFF) as byte, ((w >> 16) & 0xFF) as byte, ((w >> 24) & 0xFF) as byte]
  }

  lemma WordRoundTrip(w: bv32)
    ensures WordAt(WordBytes(w), 0) == w
  {
  }

  lemma WordParts(b0: byte, b1: byte, b2: byte, b3: byte)
    ensures (Word(b0, b1, b2, b3) & 0xFF) as byte == b0
    ensures ((Word(b0, b1, b2, b3) >> 8) & 0xFF) as byte == b1
    ensures ((Word(b0, b1, b2, b3) >> 16) & 0xFF) as byte == b2
    ensures ((Word(b0, b1, b2, b3) >> 24) & 0xFF) as byte == b3
  {
  }

  lemma BytesRoundTrip(b0: byte, b1: byte, b2: byte, b3: byte)
    ensures WordBytes(Word(b0, b1, b2, b3)) == [b0, b1, b2, b3]
  {
    WordParts(b0, b1, b2, b3);
  }

  /** Equal words are equal bytes. */
  lemma WordInjective(data: seq<byte>, data': seq<byte>, i: nat)
    requires i + 4 <= |data| && i + 4 <= |data'|
    requires WordAt(data, i) == WordAt(data', i)
    ensures data[i..i + 4] == data'[i..i + 4]
  {
    BytesRoundTrip(data[i], data[i + 1], data[i + 2], data[i + 3]);
    BytesRoundTrip(data'[i], data'[i + 1], data'[i + 2], data'[i + 3]);
    assert data[i..i + 4] == [data[i], data[i + 1], data[i + 2], data[i + 3]];
    assert data'[i..i + 4] == [data'[i], data'[i + 1], data'[i + 2], data'[i + 3]];
  }

  ghost predicate AllZero(data: seq<byte>) {
    forall i :: 0 <= i < |data| ==> data[i] == 0
  }

  lemma WordZero(b0: byte, b1: byte, b2: byte, b3: byte)
    ensures Word(b0, b1, b2, b3) == 0 <==> b0 == 0 && b1 == 0 && b2 == 0 && b3 == 0
  {
  }

  /** A zero word extends a zero prefix; any other word ends it. */
  lemma WordIsZero(data: seq<byte>, i: nat)
    requires i + 4 <= |data| && AllZero(data[..i])
    ensures WordAt(data, i) == 0 ==> AllZero(data[..i + 4])
    ensures WordAt(data, i) != 0 ==> !AllZero(data)
  {
    WordZero(data[i], data[i + 1], data[i + 2], data[i + 3]);
    if WordAt(data, i) == 0 {
      var longer := data[..i + 4];
      forall j | 0 <= j < i + 4 ensures longer[j] == 0 {
        if j < i { assert data[..i][j] == 0; }
      }
    }
  }

  /** memzero: word by word in rounds of 128 bytes, then word by word, then byte by byte. */
  method MemZero(data: seq<byte>) returns (zero: bool)
    ensures zero == AllZero(data)
  {
    var cur, bytes := 0, |data|;
    while bytes >= 128
      invariant 0 <= cur && 0 <= bytes && cur + bytes == |data| && AllZero(data[..cur])
    {
      for unroll := 0 to 32
        invariant 0 <= cur && cur + bytes - 4 * unroll == |data| && AllZero(data[..cur])
      {
        WordIsZero(data, cur);
        if WordAt(data, cur) != 0 { return false; }
        cur := cur + 4;
      }
      bytes := bytes - 128;
    }
    while bytes >= 4
      invariant 0 <= cur && 0 <= bytes && cur + bytes == |data| && AllZero(data[..cur])
    {
      WordIsZero(data, cur);
      if WordAt(data, cur) != 0 { return false; }
      cur := cur + 4;
      bytes := bytes - 4;
    }
    while cur < |data|
      invariant 0 <= cur <= |data| && AllZero(data[..cur])
    {
      if data[cur] != 0 { return false; }
      var longer := data[..cur + 1];
      forall j | 0 <= j < cur + 1 ensures longer[j] == 0 {
        if j < cur { assert data[..cur][j] == 0; }
      }
      cur := cur + 1;
    }
    assert data[..cur] == data;
    return true;
  }

  // ---------- 32-bit numbers ----------

  /** A number below 2^32, least significant byte first. */
  function Digits(n: nat): (b: seq<byte>)
    requires n < 0x1_0000_0000
    ensures |b| == 4
  {
    [(n % 256) as byte, (n / 256 % 256) as byte, (n / 65536 % 256) as byte, (n / 16777216) as byte]
  }

  /** A length in 0 .. 2^31 - 1. */
  function LengthBytes(n: nat): (b: seq<byte>)
    requires n < 0x8000_0000
    ensures |b| == 4
  {
    Digits(n)
  }

  predicate IsInt32(x: int) {
    -0x8000_0000 <= x < 0x8000_0000
  }

  /** An int32 in two's complement. */
  function IntBytes(x: int): (b: seq<byte>)
    requires IsInt32(x)
    ensures |b| == 4
  {
    Digits(if x < 0 then x + 0x1_0000_0000 else x)
  }

  /** The int32 stored at these bytes. */
  function LengthAt(data: seq<byte>, i: nat): int
    requires i + 4 <= |data|
  {
    Signed(data[i] as int, data[i + 1] as int, data[i + 2] as int, data[i + 3] as int)
  }

  lemma ByteModulo(x: nat)
    requires x < 256
    ensures (x as byte) as int % 256 == x
  {
  }

  lemma ByteRange(b: byte)
    ensures 0 <= b as int < 256
  {
  }

  lemma SmallModulo(n: int, x: int)
    requires 0 <= n < 256 && n % 256 == x
    ensures n == x
  {
  }

  lemma ByteRoundTrip(x: nat)
    requires x < 256
    ensures (x as byte) as int == x
  {
    ByteModulo(x);
    ByteRange(x as byte);
    SmallModulo((x as byte) as int, x);
  }

  /** The value of four digits in base 256, as a signed 32-bit number. */
  function Signed(d0: int, d1: int, d2: int, d3: int): int {
    Wrap(d0 + 256 * d1 + 65536 * d2 + 16777216 * d3)
  }

  function Wrap(n: int): int {
    if n >= 0x8000_0000 then n - 0x1_0000_0000 else n
  }

  lemma DigitsOf(n: nat, b: seq<byte>)
    requires n < 0x1_0000_0000 && b == Digits(n)
    ensures b[0] as int == n % 256
    ensures b[1] as int == n / 256 % 256
    ensures b[2] as int == n / 65536 % 256
    ensures b[3] as int == n / 16777216
  {
    ByteRoundTrip(n % 256);
    ByteRoundTrip(n / 256 % 256);
    ByteRoundTrip(n / 65536 % 256);
    ByteRoundTrip(n / 16777216);
  }

  lemma DivideTwice(n: nat)
    ensures n / 65536 == n / 256 / 256
  {
  }

  lemma DivideThrice(n: nat)
    ensures n / 16777216 == n / 65536 / 256
  {
  }

  lemma SignedDigits(n: nat)
    ensures Signed(n % 256, n / 256 % 256, n / 65536 % 256, n / 16777216) == Wrap(n)
  {
    DivideTwice(n);
    DivideThrice(n);
    var n1, n2 := n / 256, n / 65536;
    assert n == n % 256 + 256 * n1;
    assert n1 == n1 % 256 + 256 * n2;
    assert n2 == n2 % 256 + 256 * (n / 16777216);
  }

  lemma SameDigits(data: seq<byte>, i: nat, b: seq<byte>)
    requires |b| == 4 && i + 4 <= |data| && data[i..i + 4] == b
    ensures data[i] == b[0] && data[i + 1] == b[1] && data[i + 2] == b[2] && data[i + 3] == b[3]
  {
    assert data[i..i + 4][0] == b[0] && data[i..i + 4][1] == b[1];
    assert data[i..i + 4][2] == b[2] && data[i..i + 4][3] == b[3];
  }

  lemma DigitsRoundTrip(n: nat, data: seq<byte>, i: nat)
    requires n < 0x1_0000_0000 && i + 4 <= |data| && data[i..i + 4] == Digits(n)
    ensures LengthAt(data, i) == Wrap(n)
  {
    var b := Digits(n);
    SameDigits(data, i, b);
    DigitsOf(n, b);
    SignedDigits(n);
  }

  /** A stored length reads back as itself. */
  lemma LengthRoundTrip(n: nat, data: seq<byte>, i: nat)
    requires n < 0x8000_0000 && i + 4 <= |data| && data[i..i + 4] == LengthBytes(n)
    ensures LengthAt(data, i) == n
  {
    DigitsRoundTrip(n, data, i);
  }

  /** So does any int32. */
  lemma IntRoundTrip(x: int, data: seq<byte>, i: nat)
    requires IsInt32(x) && i + 4 <= |data| && data[i..i + 4] == IntBytes(x)
    ensures LengthAt(data, i) == x
  {
    DigitsRoundTrip(if x < 0 then x + 0x1_0000_0000 else x, data, i);
  }

  lemma ByteInjective(a: byte, b: byte)
    requires a as int == b as int
    ensures a == b
  {
  }

  lemma DigitOf(d: nat, n: nat)
    requires d < 256
    ensures (d + 256 * n) % 256 == d && (d + 256 * n) / 256 == n
  {
  }

  lemma DigitsDivide(d0: nat, d1: nat, d2: nat, d3: nat, n: nat)
    requires d0 < 256 && d1 < 256 && d2 < 256 && n == d0 + 256 * d1 + 65536 * d2 + 16777216 * d3
    ensures n % 256 == d0 && n / 256 % 256 == d1 && n / 65536 % 256 == d2 && n / 16777216 == d3
  {
    var n2 := d2 + 256 * d3;
    var n1 := d1 + 256 * n2;
    DigitOf(d0, n1);
    DigitOf(d1, n2);
    DigitOf(d2, d3);
    DivideTwice(n);
    DivideThrice(n);
  }

  /** No other four bytes are the digits of their number. */
  lemma DigitsUnique(d: seq<byte>, n: nat)
    requires |d| == 4 && n < 0x1_0000_0000
    requires n == d[0] as int + 256 * d[1] as int + 65536 * d[2] as int + 16777216 * d[3] as int
    ensures Digits(n) == d
  {
    var b := Digits(n);
    DigitsOf(n, b);
    ByteRange(d[0]);
    ByteRange(d[1]);
    ByteRange(d[2]);
    ByteRange(d[3]);
    DigitsDivide(d[0] as int, d[1] as int, d[2] as int, d[3] as int, n);
    forall i | 0 <= i < 4 ensures b[i] == d[i] { ByteInjective(b[i], d[i]); }
  }

  lemma WrapDigits(n: nat)
    requires n < 0x1_0000_0000
    ensures IsInt32(Wrap(n)) && IntBytes(Wrap(n)) == Digits(n)
  {
  }

  function Sum(d: seq<byte>): int
    requires |d| == 4
  {
    d[0] as int + 256 * d[1] as int + 65536 * d[2] as int + 16777216 * d[3] as int
  }

  lemma SumRange(d: seq<byte>)
    requires |d| == 4
    ensures 0 <= Sum(d) < 0x1_0000_0000
  {
    ByteRange(d[0]);
    ByteRange(d[1]);
    ByteRange(d[2]);
    ByteRange(d[3]);
  }

  lemma LengthIsSum(data: seq<byte>, i: nat, d: seq<byte>)
    requires |d| == 4 && i + 4 <= |data| && data[i..i + 4] == d
    ensures LengthAt(data, i) == Wrap(Sum(d))
  {
    SameDigits(data, i, d);
  }

  lemma ValueOf(data: seq<byte>, i: nat) returns (n: nat)
    requires i + 4 <= |data|
    ensures n < 0x1_0000_0000 && LengthAt(data, i) == Wrap(n) && Digits(n) == data[i..i + 4]
  {
    var d := data[i..i + 4];
    SumRange(d);
    n := Sum(d);
    DigitsUnique(d, n);
    LengthIsSum(data, i, d);
  }

  /** No other four bytes are those of the int32 that they are read as. */
  lemma IntUnique(data: seq<byte>, i: nat)
    requires i + 4 <= |data|
    ensures IsInt32(LengthAt(data, i)) && IntBytes(LengthAt(data, i)) == data[i..i + 4]
  {
    var n := ValueOf(data, i);
    WrapDigits(n);
  }

  // ---------- buffers that grow by whole pages ----------

  function Pages(need: nat, page: nat): nat
    requires page > 0
  {
    need / page + (if need % page != 0 then 1 else 0)
  }

  lemma PageRounding(need: nat, page: nat)
    requires page > 0
    ensures need <= Pages(need, page) * page < need + page
  {
    var q, r := need / page, need % page;
    assert need == q * page + r;
    assert (q + 1) * page == q * page + page;
  }

  // ---------- general helpers ----------

  function Min(a: int, b: int): int {
    if a < b then a else b
  }

  lemma Regroup<T>(a: seq<T>, b: seq<T>, c: seq<T>)
    ensures (a + b) + c == a + (b + c)
  {
  }

  /** memcpy */
  method Copy(to: array<byte>, at: nat, from: array<byte>, start: nat, n: nat)
    requires to != from && at + n <= to.Length && start + n <= from.Length
    modifies to
    ensures to[..at] == old(to[..at]) && to[at + n..] == old(to[at + n..])
    ensures to[at..at + n] == from[start..start + n]
  {
    forall i | 0 <= i < n {
      to[at + i] := from[start + i];
    }
  }
}
