/**
 The record checksum: a slicing-by-8 loop that equals its own byte-at-a-time tail, and what
 the byte step being linear and one-to-one means for damaged records.  The first table is a
 parameter of these definitions; the other seven are derived from it.
 */
module Crc32 {
  import opened Bytes
  import opened Xors

  const ALL_ONES: bv32 := 0xFFFF_FFFF

  /** _crc32[0], indexed by a byte held in a 32-bit word. */
  type Tab = bv32 -> bv32

  // ---------- the specification: one byte at a time ----------

  function Step(t: Tab, c: bv32, b: byte): bv32 {
    (c >> 8) ^ t((c & 0xFF) ^ (b as bv32))
  }

  function Feed(t: Tab, c: bv32, data: seq<byte>): bv32 {
    if data == [] then c else Step(t, Feed(t, c, data[..|data| - 1]), data[|data| - 1])
  }

  // ---------- the program: slicing by 8 ----------

  /** _crc32[k]: each table follows from the one before by z, a step on a zero byte. */
  function Table(t: Tab, z: bv32 -> bv32, k: nat, b: bv32): bv32 {
    if k == 0 then t(b) else z(Table(t, z, k - 1, b))
  }

  /** Lookups of the four bytes of p, highest first, in tables base .. base + 3. */
  function FourTables(t: Tab, z: bv32 -> bv32, base: nat, p: bv32): bv32 {
    Xor4(Table(t, z, base, (p >> 24) & 0xFF), Table(t, z, base + 1, (p >> 16) & 0xFF),
         Table(t, z, base + 2, (p >> 8) & 0xFF), Table(t, z, base + 3, p & 0xFF))
  }

  /** CRC_BLOCK on two little-endian words. */
  function CrcBlock(t: Tab, z: bv32 -> bv32, crc: bv32, w0: bv32, w1: bv32): bv32 {
    FourTables(t, z, 0, w1) ^ FourTables(t, z, 4, w0 ^ crc)
  }

  // ---------- the algebra of the byte step ----------

  /**
   The proofs below name the exclusive or as a function value m, so that equations about it
   and facts about bits are used one at a time.  t is the table and z the step on a zero byte.
   */
  datatype Kit = Kit(m: Mix, t: Tab, z: bv32 -> bv32)

  predicate LinearAt(k: Kit, x: bv32, y: bv32) {
    k.t(k.m(x, y)) == k.m(k.t(x), k.t(y))
  }

  predicate TopByteAt(k: Kit, x: bv32) {
    k.t(x) >> 24 == 0 ==> x & 0xFF == 0
  }

  predicate ZeroAt(k: Kit, c: bv32) {
    k.z(c) == k.m(c >> 8, k.t(c & 0xFF))
  }

  /** The table is linear and its top byte is one-to-one in the index. */
  ghost predicate Good(k: Kit) {
    && IsXor(k.m)
    && (forall x, y :: LinearAt(k, x, y))
    && (forall x :: TopByteAt(k, x))
    && (forall c :: ZeroAt(k, c))
  }

  lemma TableOfZero(k: Kit)
    requires Good(k)
    ensures k.t(0) == 0
  {
    assert LinearAt(k, 0, 0);
    MixZero(k.m, 0);
    MixCancel(k.m, k.t(0), k.t(0));
  }

  /** The zero-byte step is linear. */
  lemma ZeroLinear(k: Kit, x: bv32, y: bv32)
    requires Good(k)
    ensures k.z(k.m(x, y)) == k.m(k.z(x), k.z(y))
  {
    assert ZeroAt(k, k.m(x, y)) && ZeroAt(k, x) && ZeroAt(k, y);
    MixHigh(k.m, x, y);
    MixLow(k.m, x, y);
    assert LinearAt(k, x & 0xFF, y & 0xFF);
    MixSwap(k.m, x >> 8, y >> 8, k.t(x & 0xFF), k.t(y & 0xFF));
  }

  lemma NoBits(d: bv32)
    requires d & 0xFF == 0 && d >> 8 == 0
    ensures d == 0
  {
  }

  lemma TopIsClear(d: bv32)
    ensures (d >> 8) >> 24 == 0
    ensures (d & 0xFF) & 0xFF == d & 0xFF
  {
  }

  /** The zero-byte step maps only zero to zero. */
  lemma ZeroKernel(k: Kit, d: bv32)
    requires Good(k) && k.z(d) == 0
    ensures d == 0
  {
    assert ZeroAt(k, d);
    MixCancel(k.m, d >> 8, k.t(d & 0xFF));
    TopIsClear(d);
    assert TopByteAt(k, d & 0xFF);
    TableOfZero(k);
    NoBits(d);
  }

  lemma ZeroInjective(k: Kit, x: bv32, y: bv32)
    requires Good(k) && k.z(x) == k.z(y)
    ensures x == y
  {
    ZeroLinear(k, x, y);
    MixCancel(k.m, k.z(x), k.z(y));
    ZeroKernel(k, k.m(x, y));
    MixCancel(k.m, x, y);
  }

  lemma UpAndDown(b: bv32)
    requires b <= 0xFF_FFFF
    ensures (b << 8) >> 8 == b && (b << 8) & 0xFF == 0
  {
  }

  /** The zero-byte step moves higher bytes down. */
  lemma ZeroShifts(k: Kit, b: bv32)
    requires Good(k) && b <= 0xFF_FFFF
    ensures k.z(b << 8) == b
  {
    assert ZeroAt(k, b << 8);
    UpAndDown(b);
    TableOfZero(k);
    MixZero(k.m, b);
  }

  lemma OneByte(b: bv32)
    requires b <= 0xFF
    ensures b >> 8 == 0 && b & 0xFF == b
  {
  }

  /** On a single byte it is the table. */
  lemma ZeroOnByte(k: Kit, b: bv32)
    requires Good(k) && b <= 0xFF
    ensures k.z(b) == k.t(b)
  {
    assert ZeroAt(k, b);
    OneByte(b);
    MixZero(k.m, k.t(b));
  }

  lemma ByteParts(c: bv32, x: bv32)
    requires x <= 0xFF
    ensures (c ^ x) >> 8 == c >> 8 && (c ^ x) & 0xFF == (c & 0xFF) ^ x
  {
  }

  lemma ZeroOfMix(k: Kit, c: bv32, x: bv32)
    requires Good(k) && x <= 0xFF
    ensures k.z(k.m(c, x)) == k.m(c >> 8, k.t((c & 0xFF) ^ x))
  {
    ByteParts(c, x);
    MixIs(k.m, c, x);
    assert ZeroAt(k, k.m(c, x));
  }

  lemma StepIsMix(k: Kit, c: bv32, b: byte)
    requires Good(k)
    ensures Step(k.t, c, b) == k.m(c >> 8, k.t((c & 0xFF) ^ (b as bv32)))
  {
    MixIs(k.m, c >> 8, k.t((c & 0xFF) ^ (b as bv32)));
  }

  /** A byte step is a zero-byte step after mixing the byte in. */
  lemma StepIsZero(k: Kit, c: bv32, b: byte)
    requires Good(k)
    ensures Step(k.t, c, b) == k.z(k.m(c, b as bv32))
  {
    StepIsMix(k, c, b);
    ZeroOfMix(k, c, b as bv32);
  }

  // ---------- many zero-byte steps ----------

  function Zeros(k: Kit, c: bv32, n: nat): bv32 {
    if n == 0 then c else k.z(Zeros(k, c, n - 1))
  }

  lemma {:induction false} ZerosLinear(k: Kit, x: bv32, y: bv32, n: nat)
    requires Good(k)
    ensures Zeros(k, k.m(x, y), n) == k.m(Zeros(k, x, n), Zeros(k, y, n))
  {
    if n > 0 {
      ZerosLinear(k, x, y, n - 1);
      ZeroLinear(k, Zeros(k, x, n - 1), Zeros(k, y, n - 1));
    }
  }

  lemma {:induction false} ZerosAdd(k: Kit, c: bv32, m: nat, n: nat)
    ensures Zeros(k, Zeros(k, c, m), n) == Zeros(k, c, m + n)
  {
    if n > 0 { ZerosAdd(k, c, m, n - 1); }
  }

  lemma {:induction false} ZerosInjective(k: Kit, x: bv32, y: bv32, n: nat)
    requires Good(k) && Zeros(k, x, n) == Zeros(k, y, n)
    ensures x == y
  {
    if n > 0 {
      ZeroInjective(k, Zeros(k, x, n - 1), Zeros(k, y, n - 1));
      ZerosInjective(k, x, y, n - 1);
    }
  }

  /** A byte held n bytes higher. */
  function Up(x: bv32, n: nat): bv32 {
    if n == 0 then x else Up(x, n - 1) << 8
  }

  lemma UpByte(x: bv32)
    requires x <= 0xFF
    ensures Up(x, 0) == x && Up(x, 1) == x << 8 && Up(x, 2) == x << 16 && Up(x, 3) == x << 24
    ensures Up(x, 0) <= 0xFF_FFFF && Up(x, 1) <= 0xFF_FFFF && Up(x, 2) <= 0xFF_FFFF
  {
    assert Up(x, 1) == Up(x, 0) << 8;
    assert Up(x, 2) == Up(x, 1) << 8;
    assert Up(x, 3) == Up(x, 2) << 8;
    assert (x << 8) << 8 == x << 16 && (x << 16) << 8 == x << 24;
  }

  lemma UpSmall(x: bv32, n: nat)
    requires x <= 0xFF && n <= 2
    ensures Up(x, n) <= 0xFF_FFFF
  {
    UpByte(x);
    assert n == 0 || n == 1 || n == 2;
  }

  lemma ZerosFirst(k: Kit, c: bv32, n: nat)
    requires Good(k) && n > 0
    ensures Zeros(k, c, n) == Zeros(k, k.z(c), n - 1)
  {
    ZerosAdd(k, c, 1, n - 1);
    assert Zeros(k, c, 1) == k.z(Zeros(k, c, 0));
  }

  /** A zero-byte step moves a raised byte down by one place. */
  lemma ZeroOfUp(k: Kit, x: bv32, n: nat)
    requires Good(k) && x <= 0xFF && 0 < n <= 3
    ensures k.z(Up(x, n)) == Up(x, n - 1)
  {
    UpSmall(x, n - 1);
    ZeroShifts(k, Up(x, n - 1));
  }

  lemma {:induction false} ZerosOfUp(k: Kit, x: bv32, n: nat)
    requires Good(k) && x <= 0xFF && n <= 3
    ensures Zeros(k, Up(x, n), n) == x
  {
    if n > 0 {
      var u, v := Up(x, n), Up(x, n - 1);
      ZeroOfUp(k, x, n);
      ZerosFirst(k, u, n);
      ZerosOfUp(k, x, n - 1);
    }
  }

  /** Feeding a byte after n zero-byte steps is mixing it in n bytes higher before them. */
  lemma MixLater(k: Kit, c: bv32, x: bv32, n: nat)
    requires Good(k) && x <= 0xFF && n <= 3
    ensures k.z(k.m(Zeros(k, c, n), x)) == Zeros(k, k.m(c, Up(x, n)), n + 1)
  {
    ZerosOfUp(k, x, n);
    ZerosLinear(k, c, Up(x, n), n);
  }

  // ---------- four bytes and eight bytes ----------

  /** Feed, written with the zero-byte step. */
  function FeedZ(k: Kit, c: bv32, data: seq<byte>): bv32 {
    if data == [] then c else k.z(k.m(FeedZ(k, c, data[..|data| - 1]), data[|data| - 1] as bv32))
  }

  lemma {:induction false} FeedIsZ(k: Kit, c: bv32, data: seq<byte>)
    requires Good(k)
    ensures Feed(k.t, c, data) == FeedZ(k, c, data)
  {
    if data != [] {
      var n := |data| - 1;
      FeedIsZ(k, c, data[..n]);
      StepIsZero(k, FeedZ(k, c, data[..n]), data[n]);
    }
  }

  /** Words mixed in one after the other. */
  function Mixed(k: Kit, c: bv32, u: seq<bv32>): bv32 {
    if u == [] then c else k.m(Mixed(k, c, u[..|u| - 1]), u[|u| - 1])
  }

  /** After the first bytes of a word, the register is that many zero-byte steps on what was mixed in. */
  /** u[i] is the byte b[i], held i bytes higher. */
  predicate RaisedAt(u: seq<bv32>, b: seq<byte>, i: nat)
    requires i < |u| == |b|
  {
    u[i] == Up(b[i] as bv32, i)
  }

  lemma {:induction false} FeedMixed(k: Kit, c: bv32, b: seq<byte>, u: seq<bv32>)
    requires Good(k) && |b| == |u| <= 4
    requires forall i :: 0 <= i < |b| ==> RaisedAt(u, b, i)
    ensures FeedZ(k, c, b) == Zeros(k, Mixed(k, c, u), |b|)
  {
    if b != [] {
      var n := |b| - 1;
      forall i | 0 <= i < n ensures RaisedAt(u[..n], b[..n], i) { assert RaisedAt(u, b, i); }
      assert RaisedAt(u, b, n);
      FeedMixed(k, c, b[..n], u[..n]);
      MixLater(k, Mixed(k, c, u[..n]), b[n] as bv32, n);
    }
  }

  lemma WordIsXor(b0: byte, b1: byte, b2: byte, b3: byte)
    ensures Xor4(b0 as bv32, (b1 as bv32) << 8, (b2 as bv32) << 16, (b3 as bv32) << 24) == Word(b0, b1, b2, b3)
  {
  }

  lemma MixedUnfolds(k: Kit, c: bv32, u0: bv32, u1: bv32, u2: bv32, u3: bv32)
    ensures Mixed(k, c, [u0, u1, u2, u3]) == k.m(k.m(k.m(k.m(c, u0), u1), u2), u3)
  {
    assert [u0][..0] == [] && [u0, u1][..1] == [u0] && [u0, u1, u2][..2] == [u0, u1];
    assert [u0, u1, u2, u3][..3] == [u0, u1, u2];
    assert Mixed(k, c, [u0]) == k.m(Mixed(k, c, []), u0);
    assert Mixed(k, c, [u0, u1]) == k.m(Mixed(k, c, [u0]), u1);
    assert Mixed(k, c, [u0, u1, u2]) == k.m(Mixed(k, c, [u0, u1]), u2);
  }

  function Ups(b: seq<byte>): seq<bv32>
    requires |b| == 4
  {
    [b[0] as bv32, (b[1] as bv32) << 8, (b[2] as bv32) << 16, (b[3] as bv32) << 24]
  }

  lemma ByteSmall(b: byte)
    ensures b as bv32 <= 0xFF
  {
  }

  lemma UpsAre(b: seq<byte>)
    requires |b| == 4
    ensures forall i :: 0 <= i < 4 ==> RaisedAt(Ups(b), b, i)
  {
    ByteSmall(b[0]);
    ByteSmall(b[1]);
    ByteSmall(b[2]);
    ByteSmall(b[3]);
    UpsOf(b[0] as bv32, b[1] as bv32, b[2] as bv32, b[3] as bv32);
    var u := Ups(b);
    assert RaisedAt(u, b, 0) && RaisedAt(u, b, 1) && RaisedAt(u, b, 2) && RaisedAt(u, b, 3);
  }

  lemma UpsOf(x0: bv32, x1: bv32, x2: bv32, x3: bv32)
    requires x0 <= 0xFF && x1 <= 0xFF && x2 <= 0xFF && x3 <= 0xFF
    ensures x0 == Up(x0, 0) && x1 << 8 == Up(x1, 1) && x2 << 16 == Up(x2, 2) && x3 << 24 == Up(x3, 3)
  {
    UpByte(x0);
    UpByte(x1);
    UpByte(x2);
    UpByte(x3);
  }

  lemma MixWord(k: Kit, b0: byte, b1: byte, b2: byte, b3: byte)
    requires Good(k)
    ensures k.m(k.m(k.m(b0 as bv32, (b1 as bv32) << 8), (b2 as bv32) << 16), (b3 as bv32) << 24) == Word(b0, b1, b2, b3)
  {
    WordIsXor(b0, b1, b2, b3);
    MixChain(k.m, b0 as bv32, (b1 as bv32) << 8, (b2 as bv32) << 16, (b3 as bv32) << 24);
  }

  lemma MixedIsWord(k: Kit, c: bv32, b0: byte, b1: byte, b2: byte, b3: byte)
    requires Good(k)
    ensures Mixed(k, c, [b0 as bv32, (b1 as bv32) << 8, (b2 as bv32) << 16, (b3 as bv32) << 24]) ==
      k.m(c, Word(b0, b1, b2, b3))
  {
    MixWord(k, b0, b1, b2, b3);
    MixNested(k.m, c, b0 as bv32, (b1 as bv32) << 8, (b2 as bv32) << 16, (b3 as bv32) << 24);
    MixedUnfolds(k, c, b0 as bv32, (b1 as bv32) << 8, (b2 as bv32) << 16, (b3 as bv32) << 24);
  }

  /** Four byte steps are one mixing of the little-endian word and four zero-byte steps. */
  lemma FeedFour(k: Kit, c: bv32, b: seq<byte>)
    requires Good(k) && |b| == 4
    ensures Feed(k.t, c, b) == Zeros(k, k.m(c, WordAt(b, 0)), 4)
  {
    FeedIsZ(k, c, b);
    UpsAre(b);
    FeedMixed(k, c, b, Ups(b));
    MixedIsWord(k, c, b[0], b[1], b[2], b[3]);
  }

  lemma {:induction false} TableIsZeros(k: Kit, n: nat, b: bv32)
    requires Good(k) && b <= 0xFF
    ensures Table(k.t, k.z, n, b) == Zeros(k, b, n + 1)
  {
    if n == 0 {
      ZeroOnByte(k, b);
      assert Zeros(k, b, 0) == b;
    } else {
      TableIsZeros(k, n - 1, b);
    }
  }

  /** A lookup in table m - 1 - n is m zero-byte steps on the byte n places higher. */
  lemma LookupAt(k: Kit, x: bv32, m: nat, n: nat)
    requires Good(k) && x <= 0xFF && n <= 3 && n < m
    ensures Table(k.t, k.z, m - 1 - n, x) == Zeros(k, Up(x, n), m)
  {
    TableIsZeros(k, m - 1 - n, x);
    ZerosOfUp(k, x, n);
    ZerosAdd(k, Up(x, n), n, m - n);
  }

  lemma LinearFour(k: Kit, a: bv32, b: bv32, c: bv32, d: bv32, m: nat)
    requires Good(k)
    ensures Zeros(k, k.m(k.m(a, b), k.m(c, d)), m) ==
      k.m(k.m(Zeros(k, a, m), Zeros(k, b, m)), k.m(Zeros(k, c, m), Zeros(k, d, m)))
  {
    ZerosLinear(k, k.m(a, b), k.m(c, d), m);
    ZerosLinear(k, a, b, m);
    ZerosLinear(k, c, d, m);
  }

  lemma SplitWord(p: bv32)
    ensures ((p & 0xFF) ^ (((p >> 8) & 0xFF) << 8)) ^ ((((p >> 16) & 0xFF) << 16) ^ (((p >> 24) & 0xFF) << 24)) == p
  {
  }

  lemma SplitUp(k: Kit, p: bv32)
    requires Good(k)
    ensures k.m(k.m(p & 0xFF, ((p >> 8) & 0xFF) << 8), k.m(((p >> 16) & 0xFF) << 16, ((p >> 24) & 0xFF) << 24)) == p
  {
    SplitWord(p);
    MixPairs(k.m, p & 0xFF, ((p >> 8) & 0xFF) << 8, ((p >> 16) & 0xFF) << 16, ((p >> 24) & 0xFF) << 24);
  }

  lemma Lookup1(k: Kit, x: bv32, m: nat)
    requires Good(k) && m >= 4 && x <= 0xFF
    ensures Table(k.t, k.z, m - 1, x) == Zeros(k, x, m) && Table(k.t, k.z, m - 2, x) == Zeros(k, x << 8, m)
  {
    UpByte(x);
    LookupAt(k, x, m, 0);
    LookupAt(k, x, m, 1);
  }

  lemma Lookup2(k: Kit, x: bv32, m: nat)
    requires Good(k) && m >= 4 && x <= 0xFF
    ensures Table(k.t, k.z, m - 3, x) == Zeros(k, x << 16, m)
  {
    UpByte(x);
    LookupAt(k, x, m, 2);
  }

  lemma Lookup3(k: Kit, x: bv32, m: nat)
    requires Good(k) && m >= 4 && x <= 0xFF
    ensures Table(k.t, k.z, m - 4, x) == Zeros(k, x << 24, m)
  {
    UpByte(x);
    LookupAt(k, x, m, 3);
  }

  lemma BytesSmall(p: bv32)
    ensures p & 0xFF <= 0xFF && (p >> 8) & 0xFF <= 0xFF && (p >> 16) & 0xFF <= 0xFF && (p >> 24) & 0xFF <= 0xFF
  {
  }

  lemma PairLookups(k: Kit, p: bv32, m: nat)
    requires Good(k) && m >= 4
    ensures k.m(k.m(Table(k.t, k.z, m - 1, p & 0xFF), Table(k.t, k.z, m - 2, (p >> 8) & 0xFF)),
                k.m(Table(k.t, k.z, m - 3, (p >> 16) & 0xFF), Table(k.t, k.z, m - 4, (p >> 24) & 0xFF))) == Zeros(k, p, m)
  {
    SplitUp(k, p);
    LinearFour(k, p & 0xFF, ((p >> 8) & 0xFF) << 8, ((p >> 16) & 0xFF) << 16, ((p >> 24) & 0xFF) << 24, m);
    BytesSmall(p);
    Lookup1(k, p & 0xFF, m);
    Lookup1(k, (p >> 8) & 0xFF, m);
    Lookup2(k, (p >> 16) & 0xFF, m);
    Lookup3(k, (p >> 24) & 0xFF, m);
  }

  lemma TablesMixed(k: Kit, base: nat, p: bv32)
    requires Good(k)
    ensures FourTables(k.t, k.z, base, p) ==
      k.m(k.m(k.m(Table(k.t, k.z, base, (p >> 24) & 0xFF), Table(k.t, k.z, base + 1, (p >> 16) & 0xFF)),
              Table(k.t, k.z, base + 2, (p >> 8) & 0xFF)), Table(k.t, k.z, base + 3, p & 0xFF))
  {
    MixChain(k.m, Table(k.t, k.z, base, (p >> 24) & 0xFF), Table(k.t, k.z, base + 1, (p >> 16) & 0xFF),
             Table(k.t, k.z, base + 2, (p >> 8) & 0xFF), Table(k.t, k.z, base + 3, p & 0xFF));
  }

  /** Four lookups in consecutive tables are m zero-byte steps on the whole word. */
  lemma FourLookups(k: Kit, p: bv32, m: nat)
    requires Good(k) && m >= 4
    ensures FourTables(k.t, k.z, m - 4, p) == Zeros(k, p, m)
  {
    TablesMixed(k, m - 4, p);
    MixReversed(k.m, Table(k.t, k.z, m - 4, (p >> 24) & 0xFF), Table(k.t, k.z, m - 3, (p >> 16) & 0xFF),
                Table(k.t, k.z, m - 2, (p >> 8) & 0xFF), Table(k.t, k.z, m - 1, p & 0xFF));
    PairLookups(k, p, m);
  }

  lemma BlockIsMix(k: Kit, c: bv32, w0: bv32, w1: bv32)
    requires Good(k)
    ensures CrcBlock(k.t, k.z, c, w0, w1) == k.m(FourTables(k.t, k.z, 0, w1), FourTables(k.t, k.z, 4, w0 ^ c))
  {
    MixIs(k.m, FourTables(k.t, k.z, 0, w1), FourTables(k.t, k.z, 4, w0 ^ c));
  }

  lemma BlockIsZeros(k: Kit, c: bv32, w0: bv32, w1: bv32)
    requires Good(k)
    ensures CrcBlock(k.t, k.z, c, w0, w1) == k.m(Zeros(k, k.m(c, w0), 8), Zeros(k, w1, 4))
  {
    MixComm(k.m, c, w0);
    MixIs(k.m, w0, c);
    MixComm(k.m, Zeros(k, k.m(c, w0), 8), Zeros(k, w1, 4));
    FourLookups(k, w0 ^ c, 8);
    FourLookups(k, w1, 4);
    BlockIsMix(k, c, w0, w1);
  }

  lemma {:induction false} FeedConcat(t: Tab, c: bv32, a: seq<byte>, b: seq<byte>)
    ensures Feed(t, c, a + b) == Feed(t, Feed(t, c, a), b)
  {
    if b == [] {
      assert a + b == a;
    } else {
      assert (a + b)[..|a + b| - 1] == a + b[..|b| - 1];
      FeedConcat(t, c, a, b[..|b| - 1]);
    }
  }

  /** CRC_BLOCK is eight byte steps. */
  lemma BlockIsEightSteps(k: Kit, c: bv32, b: seq<byte>)
    requires Good(k) && |b| == 8
    ensures CrcBlock(k.t, k.z, c, WordAt(b, 0), WordAt(b, 4)) == Feed(k.t, c, b)
  {
    var w0, w1 := WordAt(b, 0), WordAt(b, 4);
    assert b[..4] + b[4..] == b;
    FeedConcat(k.t, c, b[..4], b[4..]);
    FeedFour(k, c, b[..4]);
    var c4 := Zeros(k, k.m(c, w0), 4);
    FeedFour(k, c4, b[4..]);
    ZerosLinear(k, c4, w1, 4);
    ZerosAdd(k, k.m(c, w0), 4, 4);
    BlockIsZeros(k, c, w0, w1);
  }

  // ---------- checksums and damage, for any good table ----------

  function CrcWith(t: Tab, data: seq<byte>, init: bv32): bv32 {
    !Feed(t, !init, data)
  }

  lemma NotNot(x: bv32)
    ensures !!x == x
  {
  }

  lemma NotCrc(t: Tab, data: seq<byte>, init: bv32)
    ensures !CrcWith(t, data, init) == Feed(t, !init, data)
  {
    NotNot(Feed(t, !init, data));
  }

  lemma CrcFrom(t: Tab, data: seq<byte>, init: bv32, c: bv32)
    requires !init == c
    ensures CrcWith(t, data, init) == !Feed(t, c, data)
  {
  }

  lemma CrcConcatWith(t: Tab, a: seq<byte>, b: seq<byte>, init: bv32)
    ensures CrcWith(t, a + b, init) == CrcWith(t, b, CrcWith(t, a, init))
  {
    NotCrc(t, a, init);
    CrcFrom(t, b, CrcWith(t, a, init), Feed(t, !init, a));
    CrcFrom(t, a + b, init, !init);
    FeedConcat(t, !init, a, b);
  }

  /** The eight bytes at cur, as CRC_BLOCK reads them, continue the byte-at-a-time checksum. */
  lemma FeedBlock(k: Kit, c: bv32, data: seq<byte>, cur: nat)
    requires Good(k) && cur + 8 <= |data|
    ensures CrcBlock(k.t, k.z, Feed(k.t, c, data[..cur]), WordAt(data, cur), WordAt(data, cur + 4)) ==
      Feed(k.t, c, data[..cur + 8])
  {
    var b := data[cur..cur + 8];
    BlockIsEightSteps(k, Feed(k.t, c, data[..cur]), b);
    FeedConcat(k.t, c, data[..cur], b);
    assert data[..cur] + b == data[..cur + 8];
  }

  lemma FeedByte(t: Tab, c: bv32, data: seq<byte>, cur: nat)
    requires cur < |data|
    ensures Feed(t, c, data[..cur + 1]) == Step(t, Feed(t, c, data[..cur]), data[cur])
  {
    assert data[..cur + 1][..cur] == data[..cur];
  }

  /** crc32(): sixteen blocks per round while 128 bytes are left, then blocks, then bytes. */
  method ComputeWith(ghost k: Kit, t: Tab, z: bv32 -> bv32, data: seq<byte>, init: bv32) returns (r: bv32)
    requires Good(k) && k.t == t && k.z == z
    ensures r == CrcWith(t, data, init)
  {
    var crc := !init;
    var cur, bytes := 0, |data|;
    assert data[..0] == [];
    while bytes >= 128
      invariant 0 <= cur && 0 <= bytes && cur + bytes == |data|
      invariant crc == Feed(t, !init, data[..cur])
    {
      crc := SixteenBlocks(k, t, z, data, !init, cur, crc);
      cur, bytes := cur + 128, bytes - 128;
    }
    crc := ComputeTail(k, t, z, data, !init, cur, crc);
    r := !crc;
  }

  /** The unrolled loop: 128 bytes. */
  method SixteenBlocks(ghost k: Kit, t: Tab, z: bv32 -> bv32, data: seq<byte>, ghost start: bv32, at: nat, from: bv32) returns (crc: bv32)
    requires Good(k) && k.t == t && k.z == z && at + 128 <= |data| && from == Feed(t, start, data[..at])
    ensures crc == Feed(t, start, data[..at + 128])
  {
    crc := from;
    var cur := at;
    for unroll := 0 to 16
      invariant cur == at + 8 * unroll && crc == Feed(t, start, data[..cur])
    {
      FeedBlock(k, start, data, cur);
      crc := CrcBlock(t, z, crc, WordAt(data, cur), WordAt(data, cur + 4));
      cur := cur + 8;
    }
  }

  /** Blocks of 8 bytes, then single bytes. */
  method ComputeTail(ghost k: Kit, t: Tab, z: bv32 -> bv32, data: seq<byte>, ghost start: bv32, at: nat, from: bv32) returns (crc: bv32)
    requires Good(k) && k.t == t && k.z == z && at <= |data| && from == Feed(t, start, data[..at])
    ensures crc == Feed(t, start, data)
  {
    crc := from;
    var cur, bytes := at, |data| - at;
    while bytes >= 8
      invariant 0 <= cur && 0 <= bytes && cur + bytes == |data| && crc == Feed(t, start, data[..cur])
    {
      FeedBlock(k, start, data, cur);
      crc := CrcBlock(t, z, crc, WordAt(data, cur), WordAt(data, cur + 4));
      cur := cur + 8;
      bytes := bytes - 8;
    }
    while cur < |data|
      invariant 0 <= cur <= |data| && crc == Feed(t, start, data[..cur])
    {
      FeedByte(t, start, data, cur);
      crc := Step(t, crc, data[cur]);
      cur := cur + 1;
    }
    assert data[..cur] == data;
  }

  lemma {:induction false} FeedZInjective(k: Kit, c: bv32, c': bv32, data: seq<byte>)
    requires Good(k) && FeedZ(k, c, data) == FeedZ(k, c', data)
    ensures c == c'
  {
    if data != [] {
      var n := |data| - 1;
      var d, d' := FeedZ(k, c, data[..n]), FeedZ(k, c', data[..n]);
      ZeroInjective(k, k.m(d, data[n] as bv32), k.m(d', data[n] as bv32));
      MixSameRight(k.m, d, d', data[n] as bv32);
      FeedZInjective(k, c, c', data[..n]);
    }
  }

  /** Different registers stay different under the same bytes. */
  lemma FeedInjective(k: Kit, c: bv32, c': bv32, data: seq<byte>)
    requires Good(k) && Feed(k.t, c, data) == Feed(k.t, c', data)
    ensures c == c'
  {
    FeedIsZ(k, c, data);
    FeedIsZ(k, c', data);
    FeedZInjective(k, c, c', data);
  }

  /** The last four bytes hold the checksum of the others. */
  predicate ValidWith(t: Tab, frame: seq<byte>)
    requires |frame| >= 4
  {
    WordAt(frame, |frame| - 4) == CrcWith(t, frame[..|frame| - 4], 0)
  }

  lemma NotZero()
    ensures !(0 as bv32) == ALL_ONES
  {
  }

  lemma ResidueOf(k: Kit, c: bv32, w: bv32)
    requires Good(k)
    ensures w == !c <==> Zeros(k, k.m(c, w), 4) == Zeros(k, ALL_ONES, 4)
  {
    MixOnes(k.m, c, w);
    if Zeros(k, k.m(c, w), 4) == Zeros(k, ALL_ONES, 4) {
      ZerosInjective(k, k.m(c, w), ALL_ONES, 4);
    }
  }

  lemma FeedCheck(k: Kit, data: seq<byte>, check: seq<byte>)
    requires Good(k) && |check| == 4
    ensures Feed(k.t, ALL_ONES, data + check) == Zeros(k, k.m(Feed(k.t, ALL_ONES, data), WordAt(check, 0)), 4)
  {
    FeedConcat(k.t, ALL_ONES, data, check);
    FeedFour(k, Feed(k.t, ALL_ONES, data), check);
  }

  /** A frame is valid exactly if feeding all of it leaves one constant in the register. */
  lemma ValidIsResidue(k: Kit, frame: seq<byte>)
    requires Good(k) && |frame| >= 4
    ensures ValidWith(k.t, frame) <==> Feed(k.t, ALL_ONES, frame) == Zeros(k, ALL_ONES, 4)
  {
    var n := |frame| - 4;
    assert frame[..n] + frame[n..] == frame;
    FeedCheck(k, frame[..n], frame[n..]);
    NotZero();
    ResidueOf(k, Feed(k.t, ALL_ONES, frame[..n]), WordAt(frame, n));
  }

  lemma SplitFeed(k: Kit, frame: seq<byte>, at: nat)
    requires Good(k) && at + 4 <= |frame|
    ensures Feed(k.t, ALL_ONES, frame) ==
      Feed(k.t, Zeros(k, k.m(Feed(k.t, ALL_ONES, frame[..at]), WordAt(frame, at)), 4), frame[at + 4..])
  {
    var head, mid, tail := frame[..at], frame[at..at + 4], frame[at + 4..];
    FeedConcat(k.t, ALL_ONES, head, mid);
    FeedFour(k, Feed(k.t, ALL_ONES, head), mid);
    FeedConcat(k.t, ALL_ONES, head + mid, tail);
    assert head + mid + tail == frame;
  }

  /** Two valid frames that differ at most in four consecutive bytes are the same. */
  lemma BurstWith(k: Kit, frame: seq<byte>, frame': seq<byte>, at: nat)
    requires Good(k) && |frame'| == |frame| && at + 4 <= |frame|
    requires ValidWith(k.t, frame) && ValidWith(k.t, frame')
    requires frame'[..at] == frame[..at] && frame'[at + 4..] == frame[at + 4..]
    ensures frame' == frame
  {
    ValidIsResidue(k, frame);
    ValidIsResidue(k, frame');
    SplitFeed(k, frame, at);
    SplitFeed(k, frame', at);
    var c, tail := Feed(k.t, ALL_ONES, frame[..at]), frame[at + 4..];
    var w, w' := WordAt(frame, at), WordAt(frame', at);
    FeedInjective(k, Zeros(k, k.m(c, w), 4), Zeros(k, k.m(c, w'), 4), tail);
    ZerosInjective(k, k.m(c, w), k.m(c, w'), 4);
    MixSame(k.m, c, w, w');
    WordInjective(frame, frame', at);
    assert frame == frame[..at] + frame[at..at + 4] + tail;
    assert frame' == frame'[..at] + frame'[at..at + 4] + tail;
  }
}
