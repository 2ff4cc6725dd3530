/** The checksum of the program: its first table, and the results of Crc32 for that table. */
module CrcTable {
  import opened Bytes
  import opened Xors
  import opened Crc32

  /** One most-significant-bit-first division step by the polynomial 0x04C11DB7. */
  function Shift(c: bv32): bv32 {
    if Top(c) then (c << 1) ^ 0x04C1_1DB7 else c << 1
  }

  function EightTimes(s: bv32 -> bv32, c: bv32): bv32 {
    s(s(s(s(s(s(s(s(c))))))))
  }

  /** _crc32[0]; only the low byte of the index counts. */
  function Table0(b: bv32): bv32 {
    EightTimes(Shift, b << 24)
  }

  /** One byte step with byte 0: it takes _crc32[k] to _crc32[k + 1]. */
  function ZeroStep(t: Tab, c: bv32): bv32 {
    (c >> 8) ^ t(c & 0xFF)
  }

  function Xor(x: bv32, y: bv32): bv32 {
    x ^ y
  }

  const ZERO_BYTE: bv32 -> bv32 := c => ZeroStep(Table0, c)

  const KIT := Kit(Xor, Table0, ZERO_BYTE)

  // ---------- table 0 is linear ----------

  predicate ShiftAt(m: Mix, s: bv32 -> bv32, c: bv32) {
    s(c) == if Top(c) then m(c << 1, 0x04C1_1DB7) else c << 1
  }

  predicate TableAt(t: Tab, s: bv32 -> bv32, b: bv32) {
    t(b) == EightTimes(s, b << 24)
  }

  ghost predicate Shifts(m: Mix, s: bv32 -> bv32) {
    IsXor(m) && forall c :: ShiftAt(m, s, c)
  }

  lemma ShiftLinear(m: Mix, s: bv32 -> bv32, x: bv32, y: bv32)
    requires Shifts(m, s)
    ensures s(m(x, y)) == m(s(x), s(y))
  {
    var p: bv32 := 0x04C1_1DB7;
    assert ShiftAt(m, s, x) && ShiftAt(m, s, y) && ShiftAt(m, s, m(x, y));
    MixLeft(m, x, y);
    MixTop(m, x, y);
    MixCancel(m, p, p);
    MixZero(m, m(x << 1, y << 1));
    MixZero(m, x << 1);
    MixZero(m, y << 1);
    MixZero(m, p);
    if Top(x) && Top(y) {
      MixSwap(m, x << 1, p, y << 1, p);
    } else if Top(x) {
      MixSwap(m, x << 1, p, y << 1, 0);
    } else if Top(y) {
      MixSwap(m, x << 1, 0, y << 1, p);
    }
  }

  lemma TwiceLinear(m: Mix, s: bv32 -> bv32, x: bv32, y: bv32)
    requires Shifts(m, s)
    ensures s(s(m(x, y))) == m(s(s(x)), s(s(y)))
  {
    ShiftLinear(m, s, x, y);
    ShiftLinear(m, s, s(x), s(y));
  }

  lemma EightTimesLinear(m: Mix, s: bv32 -> bv32, x: bv32, y: bv32)
    requires Shifts(m, s)
    ensures EightTimes(s, m(x, y)) == m(EightTimes(s, x), EightTimes(s, y))
  {
    TwiceLinear(m, s, x, y);
    var x2, y2 := s(s(x)), s(s(y));
    TwiceLinear(m, s, x2, y2);
    var x4, y4 := s(s(x2)), s(s(y2));
    TwiceLinear(m, s, x4, y4);
    TwiceLinear(m, s, s(s(x4)), s(s(y4)));
  }

  lemma TableLinear(k: Kit, s: bv32 -> bv32, x: bv32, y: bv32)
    requires Shifts(k.m, s) && forall b :: TableAt(k.t, s, b)
    ensures LinearAt(k, x, y)
  {
    assert TableAt(k.t, s, x) && TableAt(k.t, s, y) && TableAt(k.t, s, k.m(x, y));
    MixFarLeft(k.m, x, y);
    EightTimesLinear(k.m, s, x << 24, y << 24);
  }

  // ---------- the top byte of table 0 is one-to-one ----------

  lemma TopByteInjective(b: bv32)
    requires Shift(Shift(Shift(Shift(Shift(Shift(Shift(Shift(b << 24)))))))) >> 24 == 0
    ensures b & 0xFF == 0
  {
  }

  lemma TableUnfolds(b: bv32)
    ensures Table0(b) == Shift(Shift(Shift(Shift(Shift(Shift(Shift(Shift(b << 24))))))))
  {
  }

  lemma XorsAre()
    ensures Shifts(Xor, Shift)
  {
    forall x, y ensures XorAt(Xor, x, y) { }
    forall c ensures ShiftAt(Xor, Shift, c) { }
  }

  lemma TableIs(b: bv32)
    ensures TableAt(Table0, Shift, b)
  {
  }

  lemma ZeroIs(k: Kit, c: bv32)
    requires IsXor(k.m) && k.z(c) == ZeroStep(k.t, c)
    ensures ZeroAt(k, c)
  {
    MixIs(k.m, c >> 8, k.t(c & 0xFF));
  }

  lemma TopByteIs(x: bv32)
    ensures TopByteAt(KIT, x)
  {
    TableUnfolds(x);
    if Table0(x) >> 24 == 0 { TopByteInjective(x); }
  }

  lemma KitIsGood()
    ensures Good(KIT)
  {
    XorsAre();
    forall b ensures TableAt(Table0, Shift, b) { TableIs(b); }
    forall x, y ensures LinearAt(KIT, x, y) { TableLinear(KIT, Shift, x, y); }
    forall x ensures TopByteAt(KIT, x) { TopByteIs(x); }
    forall c ensures ZeroAt(KIT, c) { ZeroIs(KIT, c); }
  }

  // ---------- the results ----------

  function Crc(data: seq<byte>, init: bv32): bv32 {
    CrcWith(Table0, data, init)
  }

  /** crc32() computes the byte-at-a-time checksum, for every length and initial value. */
  method Compute(data: seq<byte>, init: bv32) returns (r: bv32)
    ensures r == Crc(data, init)
  {
    KitIsGood();
    r := ComputeWith(KIT, Table0, ZERO_BYTE, data, init);
  }

  /** Checksums chain: that of a + b is that of b started from that of a. */
  lemma CrcConcat(a: seq<byte>, b: seq<byte>, init: bv32)
    ensures Crc(a + b, init) == Crc(b, Crc(a, init))
  {
    CrcConcatWith(Table0, a, b, init);
  }

  /** A stored record: any bytes, then their checksum as a little-endian word. */
  predicate Valid(frame: seq<byte>)
    requires |frame| >= 4
  {
    WordAt(frame, |frame| - 4) == Crc(frame[..|frame| - 4], 0)
  }

  /**
   No change confined to four consecutive bytes of a valid frame - in the payload, in the
   checksum, or across the boundary - gives another valid frame.
   */
  lemma BurstDetected(frame: seq<byte>, frame': seq<byte>, at: nat)
    requires |frame| >= 4 && Valid(frame) && |frame'| == |frame| && at + 4 <= |frame|
    requires frame'[..at] == frame[..at] && frame'[at + 4..] == frame[at + 4..]
    ensures Valid(frame') <==> frame' == frame
  {
    KitIsGood();
    if Valid(frame') {
      BurstWith(KIT, frame, frame', at);
    }
  }

  // ---------- the tables and two checksums as literals ----------

  /** A table entry for each of the bytes 1, 2, 4, ... 128. */
  datatype Basis = Basis(b0: bv32, b1: bv32, b2: bv32, b3: bv32, b4: bv32, b5: bv32, b6: bv32, b7: bv32)

  /** These entries of table k, as the program spells them out. */
  function BasisOf(k: nat): Basis {
    if k == 0 then Basis(0x04C1_1DB7, 0x0982_3B6E, 0x1304_76DC, 0x2608_EDB8, 0x4C11_DB70, 0x9823_B6E0, 0x3486_7077, 0x690C_E0EE)
    else if k == 1 then Basis(0xA37D_1C66, 0x9022_E4A6, 0x2484_D4FB, 0x9B10_682B, 0xE0F8_0C3C, 0xC531_05CF, 0xFEC7_CB92, 0xF94E_8A93)
    else if k == 2 then Basis(0xB680_F639, 0xEB39_3958, 0xA2D7_B2BC, 0xB3F3_6DE9, 0xE1DE_0EF8, 0x6500_1C21, 0x2C61_C73B, 0x28A7_53CD)
    else if k == 3 then Basis(0xF64D_1D69, 0x5E74_7F86, 0x8890_C1A8, 0xE7D3_251B, 0xAF51_CEBF, 0x9C87_AB4B, 0xFF55_C736, 0x6C6F_B119)
    else if k == 4 then Basis(0x8E9A_7B85, 0x73D4_D923, 0xD7AF_2B77, 0x67BD_C334, 0x85DE_610D, 0x1F51_3CBD, 0xCE4B_75E5, 0x6EB4_44CE)
    else if k == 5 then Basis(0x7E47_11FE, 0x9513_44E0, 0xFE24_E2C9, 0xC751_A68F, 0x3148_58B2, 0x8CEC_5A91, 0xD2A2_0667, 0x616A_84D7)
    else if k == 6 then Basis(0xB548_1A12, 0xC53C_353D, 0x7FBD_4474, 0x5184_0CF5, 0xB48D_FE48, 0x2150_CA73, 0xB230_3494, 0x0FBD_7168)
    else Basis(0x4526_A804, 0xE53A_D776, 0xF3CF_D67F, 0x9E2C_126E, 0x123A_1031, 0xEDD6_6BF4, 0x36AB_7D76, 0x8AA2_965E)
  }

  function Pick(entry: bv32, x: bv32, bit: bv32): bv32 {
    if x & bit == 0 then 0 else entry
  }

  function Mix8(m: Mix, a: bv32, b: bv32, c: bv32, d: bv32, e: bv32, g: bv32, h: bv32, i: bv32): bv32 {
    m(m(m(a, b), m(c, d)), m(m(e, g), m(h, i)))
  }

  /** The exclusive or of the entries for the bits of x. */
  function EntryOf(m: Mix, b: Basis, x: bv32): bv32 {
    Mix8(m, Pick(b.b0, x, 1), Pick(b.b1, x, 2), Pick(b.b2, x, 4), Pick(b.b3, x, 8),
         Pick(b.b4, x, 16), Pick(b.b5, x, 32), Pick(b.b6, x, 64), Pick(b.b7, x, 128))
  }

  /** f has these values at the single bits. */
  predicate Starts(f: Tab, b: Basis) {
    && f(1) == b.b0 && f(2) == b.b1 && f(4) == b.b2 && f(8) == b.b3
    && f(16) == b.b4 && f(32) == b.b5 && f(64) == b.b6 && f(128) == b.b7
  }

  function Each(f: Tab, b: Basis): Basis {
    Basis(f(b.b0), f(b.b1), f(b.b2), f(b.b3), f(b.b4), f(b.b5), f(b.b6), f(b.b7))
  }

  lemma FirstBasis()
    ensures Starts(Table0, BasisOf(0))
  {
  }

  predicate Advances(z: bv32 -> bv32, rows: nat -> Basis, k: nat) {
    Each(z, rows(k)) == rows(k + 1)
  }

  lemma FirstAdvances()
    ensures Advances(ZERO_BYTE, BasisOf, 0)
  {
  }

  lemma SecondAdvances()
    ensures Advances(ZERO_BYTE, BasisOf, 1)
  {
  }

  lemma ThirdAdvances()
    ensures Advances(ZERO_BYTE, BasisOf, 2)
  {
  }

  lemma FourthAdvances()
    ensures Advances(ZERO_BYTE, BasisOf, 3)
  {
  }

  lemma FifthAdvances()
    ensures Advances(ZERO_BYTE, BasisOf, 4)
  {
  }

  lemma SixthAdvances()
    ensures Advances(ZERO_BYTE, BasisOf, 5)
  {
  }

  lemma SeventhAdvances()
    ensures Advances(ZERO_BYTE, BasisOf, 6)
  {
  }

  lemma AllAdvance(k: nat)
    requires k < 7
    ensures Advances(ZERO_BYTE, BasisOf, k)
  {
    if k == 0 { FirstAdvances(); }
    else if k == 1 { SecondAdvances(); }
    else if k == 2 { ThirdAdvances(); }
    else if k == 3 { FourthAdvances(); }
    else if k == 4 { FifthAdvances(); }
    else if k == 5 { SixthAdvances(); }
    else { SeventhAdvances(); }
  }

  function TableFrom(t: Tab, z: bv32 -> bv32, k: nat): Tab {
    x => Table(t, z, k, x)
  }

  lemma StartsNext(t: Tab, z: bv32 -> bv32, rows: nat -> Basis, k: nat)
    requires Starts(TableFrom(t, z, k), rows(k)) && Advances(z, rows, k)
    ensures Starts(TableFrom(t, z, k + 1), rows(k + 1))
  {
  }

  ghost predicate Climbs(p: nat -> bool, j: nat) {
    p(j) ==> p(j + 1)
  }

  lemma {:induction false} Climb(p: nat -> bool, k: nat)
    requires p(0) && forall j: nat :: j < k ==> Climbs(p, j)
    ensures p(k)
  {
    if k > 0 {
      Climb(p, k - 1);
      assert Climbs(p, k - 1);
    }
  }

  lemma BasisIs(k: nat)
    requires k < 8
    ensures Starts(TableFrom(Table0, ZERO_BYTE, k), BasisOf(k))
  {
    FirstBasis();
    var p := (j: nat) => Starts(TableFrom(Table0, ZERO_BYTE, j), BasisOf(j));
    forall j: nat | j < k ensures Climbs(p, j) {
      AllAdvance(j);
      if p(j) { StartsNext(Table0, ZERO_BYTE, BasisOf, j); }
    }
    Climb(p, k);
  }

  /** f keeps exclusive or. */
  ghost predicate Additive(m: Mix, f: Tab) {
    forall x, y :: AdditiveAt(m, f, x, y)
  }

  predicate AdditiveAt(m: Mix, f: Tab, x: bv32, y: bv32) {
    f(m(x, y)) == m(f(x), f(y))
  }

  lemma AdditiveEight(m: Mix, f: Tab, a: bv32, b: bv32, c: bv32, d: bv32, e: bv32, g: bv32, h: bv32, i: bv32)
    requires Additive(m, f)
    ensures f(Mix8(m, a, b, c, d, e, g, h, i)) == Mix8(m, f(a), f(b), f(c), f(d), f(e), f(g), f(h), f(i))
  {
    assert AdditiveAt(m, f, m(m(a, b), m(c, d)), m(m(e, g), m(h, i)));
    assert AdditiveAt(m, f, m(a, b), m(c, d)) && AdditiveAt(m, f, m(e, g), m(h, i));
    assert AdditiveAt(m, f, a, b) && AdditiveAt(m, f, c, d) && AdditiveAt(m, f, e, g) && AdditiveAt(m, f, h, i);
  }

  function Bits(m: Mix, x: bv32): bv32 {
    Mix8(m, x & 1, x & 2, x & 4, x & 8, x & 16, x & 32, x & 64, x & 128)
  }

  lemma BitsOf(x: bv32)
    requires x <= 0xFF
    ensures Bits(Xor, x) == x
  {
  }

  lemma BitOf(f: Tab, x: bv32, bit: bv32)
    requires f(0) == 0 && (x & bit == 0 || x & bit == bit)
    ensures f(x & bit) == Pick(f(bit), x, bit)
  {
  }

  lemma SingleBits(x: bv32)
    ensures forall bit :: bit in [1, 2, 4, 8, 16, 32, 64, 128] ==> x & bit == 0 || x & bit == bit
  {
  }

  /** An additive function is known from its values at the single bits. */
  lemma KnownFromBits(m: Mix, f: Tab, b: Basis, x: bv32)
    requires Additive(m, f) && f(0) == 0 && Starts(f, b) && Bits(m, x) == x
    ensures f(x) == EntryOf(m, b, x)
  {
    SingleBits(x);
    AdditiveEight(m, f, x & 1, x & 2, x & 4, x & 8, x & 16, x & 32, x & 64, x & 128);
    BitOf(f, x, 1);
    BitOf(f, x, 2);
    BitOf(f, x, 4);
    BitOf(f, x, 8);
    BitOf(f, x, 16);
    BitOf(f, x, 32);
    BitOf(f, x, 64);
    BitOf(f, x, 128);
  }

  function ZerosFrom(k: Kit, n: nat): Tab {
    x => Zeros(k, x, n)
  }

  lemma ZerosAdditive(k: Kit, n: nat)
    requires Good(k)
    ensures Additive(k.m, ZerosFrom(k, n)) && ZerosFrom(k, n)(0) == 0
  {
    forall x, y ensures AdditiveAt(k.m, ZerosFrom(k, n), x, y) { ZerosLinear(k, x, y, n); }
    assert AdditiveAt(k.m, ZerosFrom(k, n), 0, 0);
    MixCancel(k.m, 0, 0);
    MixCancel(k.m, Zeros(k, 0, n), Zeros(k, 0, n));
  }

  lemma SameOnBytes(k: Kit, n: nat, b: Basis)
    requires Good(k) && Starts(TableFrom(k.t, k.z, n), b)
    ensures Starts(ZerosFrom(k, n + 1), b)
  {
    TableIsZeros(k, n, 1);
    TableIsZeros(k, n, 2);
    TableIsZeros(k, n, 4);
    TableIsZeros(k, n, 8);
    TableIsZeros(k, n, 16);
    TableIsZeros(k, n, 32);
    TableIsZeros(k, n, 64);
    TableIsZeros(k, n, 128);
  }

  lemma EntriesFrom(k: Kit, n: nat, b: Basis, x: bv32)
    requires Good(k) && x <= 0xFF && Starts(TableFrom(k.t, k.z, n), b) && Bits(k.m, x) == x
    ensures Table(k.t, k.z, n, x) == EntryOf(k.m, b, x)
  {
    SameOnBytes(k, n, b);
    ZerosAdditive(k, n + 1);
    KnownFromBits(k.m, ZerosFrom(k, n + 1), b, x);
    TableIsZeros(k, n, x);
  }

  /**
   All 2048 entries of the eight tables: each is the exclusive or of the entries that the program
   spells out for the single bits of its byte.
   */
  lemma TableEntries(k: nat, x: bv32)
    requires k < 8 && x <= 0xFF
    ensures Table(Table0, ZERO_BYTE, k, x) == EntryOf(Xor, BasisOf(k), x)
  {
    KitIsGood();
    BasisIs(k);
    BitsOf(x);
    EntriesFrom(KIT, k, BasisOf(k), x);
  }

  function ZeroRun(t: Tab, c: bv32, n: nat): bv32 {
    if n == 0 then c else ZeroStep(t, ZeroRun(t, c, n - 1))
  }

  lemma StepOfZero(t: Tab, c: bv32)
    ensures Step(t, c, 0) == ZeroStep(t, c)
  {
    XorZero(c & 0xFF);
  }

  lemma {:induction false} FeedZeros(t: Tab, c: bv32, data: seq<byte>)
    requires AllZero(data)
    ensures Feed(t, c, data) == ZeroRun(t, c, |data|)
  {
    if data != [] {
      FeedZeros(t, c, data[..|data| - 1]);
      StepOfZero(t, Feed(t, c, data[..|data| - 1]));
    }
  }

  lemma RunOfRecord()
    ensures ZeroRun(Table0, ALL_ONES, 13) == 0xC066_49DF && ZeroRun(Table0, ALL_ONES, 26) == 0x3C66_98D1
  {
    assert ZeroRun(Table0, ALL_ONES, 1) == 0xB108_BF4B;
    assert ZeroRun(Table0, ALL_ONES, 2) == 0x1F7C_B3A9;
    assert ZeroRun(Table0, ALL_ONES, 3) == 0xD3F9_DAB2;
    assert ZeroRun(Table0, ALL_ONES, 4) == 0xB46F_4FCA;
    assert ZeroRun(Table0, ALL_ONES, 5) == 0x72B4_2900;
    assert ZeroRun(Table0, ALL_ONES, 6) == 0x0072_B429;
    assert ZeroRun(Table0, ALL_ONES, 7) == 0xBAEA_345B;
    assert ZeroRun(Table0, ALL_ONES, 8) == 0x5366_8A52;
    assert ZeroRun(Table0, ALL_ONES, 9) == 0x7146_F6E3;
    assert ZeroRun(Table0, ALL_ONES, 10) == 0xC89B_4656;
    assert ZeroRun(Table0, ALL_ONES, 11) == 0x62D9_7DF3;
    assert ZeroRun(Table0, ALL_ONES, 12) == 0x8499_02AD;
    assert ZeroRun(Table0, ALL_ONES, 13) == 0xC066_49DF;
    assert ZeroRun(Table0, ALL_ONES, 14) == 0x2914_901D;
    assert ZeroRun(Table0, ALL_ONES, 15) == 0x7DF5_4933;
    assert ZeroRun(Table0, ALL_ONES, 16) == 0xD90C_BE00;
    assert ZeroRun(Table0, ALL_ONES, 17) == 0x00D9_0CBE;
    assert ZeroRun(Table0, ALL_ONES, 18) == 0x81B0_F478;
    assert ZeroRun(Table0, ALL_ONES, 19) == 0xC63D_40AB;
    assert ZeroRun(Table0, ALL_ONES, 20) == 0xDAA2_A02F;
    assert ZeroRun(Table0, ALL_ONES, 21) == 0xA0B6_A9FD;
    assert ZeroRun(Table0, ALL_ONES, 22) == 0xB8D5_CD73;
    assert ZeroRun(Table0, ALL_ONES, 23) == 0xED4F_EEF3;
    assert ZeroRun(Table0, ALL_ONES, 24) == 0x8416_943E;
    assert ZeroRun(Table0, ALL_ONES, 25) == 0xE838_DB0E;
    assert ZeroRun(Table0, ALL_ONES, 26) == 0x3C66_98D1;
  }

  lemma CrcOfRun(data: seq<byte>, c: bv32)
    requires AllZero(data) && ZeroRun(Table0, ALL_ONES, |data|) == c && c != 0xFFFF_FFFF
    ensures Crc(data, 0) != 0
  {
    NotZero();
    FeedZeros(Table0, ALL_ONES, data);
    NotOnes(c);
  }

  lemma NotOnes(c: bv32)
    requires c != 0xFFFF_FFFF
    ensures !c != 0
  {
  }

  /** A record of zeros is never valid: log entries have 13 bytes, index entries 26. */
  lemma ZeroRecords(data: seq<byte>)
    requires AllZero(data) && (|data| == 13 || |data| == 26)
    ensures Crc(data, 0) != 0
  {
    RunOfRecord();
    CrcOfRun(data, ZeroRun(Table0, ALL_ONES, |data|));
  }

  predicate StepIs(c: bv32, b: byte, c': bv32) {
    Step(Table0, c, b) == c'
  }

  lemma DigitSteps()
    ensures StepIs(ALL_ONES, 0x31, 0x61FB_CF6C) && StepIs(0x61FB_CF6C, 0x32, 0x4478_F0C2) && StepIs(0x4478_F0C2, 0x33, 0x8D3D_984E)
    ensures StepIs(0x8D3D_984E, 0x34, 0xCFB3_F6A9) && StepIs(0xCFB3_F6A9, 0x35, 0x10DE_130C) && StepIs(0x10DE_130C, 0x36, 0xFBA8_6555)
    ensures StepIs(0xFBA8_6555, 0x37, 0xA5DC_559C) && StepIs(0xA5DC_559C, 0x38, 0xE28E_FC87) && StepIs(0xE28E_FC87, 0x39, 0x8152_A388)
  {
  }

  /** These are the intermediate values of the checksum of data. */
  predicate Steps(data: seq<byte>, cs: seq<bv32>) {
    |cs| == |data| + 1 && cs[0] == ALL_ONES && forall i :: 0 <= i < |data| ==> StepIs(cs[i], data[i], cs[i + 1])
  }

  lemma {:induction false} FeedSteps(data: seq<byte>, cs: seq<bv32>)
    requires Steps(data, cs)
    ensures Feed(Table0, ALL_ONES, data) == cs[|data|]
  {
    if data != [] {
      var n := |data| - 1;
      FeedSteps(data[..n], cs[..n + 1]);
      assert StepIs(cs[n], data[n], cs[n + 1]);
    }
  }

  lemma CrcSteps(data: seq<byte>, cs: seq<bv32>, crc: bv32)
    requires Steps(data, cs) && crc == !cs[|data|]
    ensures Crc(data, 0) == crc
  {
    FeedSteps(data, cs);
    NotZero();
  }

  lemma DigitChain(digits: seq<byte>) returns (cs: seq<bv32>)
    requires digits == [0x31, 0x32, 0x33, 0x34, 0x35, 0x36, 0x37, 0x38, 0x39]
    ensures Steps(digits, cs) && cs[9] == 0x8152_A388
  {
    DigitSteps();
    cs := [ALL_ONES, 0x61FB_CF6C, 0x4478_F0C2, 0x8D3D_984E, 0xCFB3_F6A9, 0x10DE_130C, 0xFBA8_6555, 0xA5DC_559C, 0xE28E_FC87, 0x8152_A388];
    forall i | 0 <= i < 9 ensures StepIs(cs[i], digits[i], cs[i + 1]) { }
  }

  /** The usual check value of a checksum: what it makes of the digits 1 to 9. */
  lemma CheckValue(digits: seq<byte>)
    requires digits == [0x31, 0x32, 0x33, 0x34, 0x35, 0x36, 0x37, 0x38, 0x39]
    ensures Crc(digits, 0) == 0x7EAD_5C77
  {
    var cs := DigitChain(digits);
    CrcSteps(digits, cs, 0x7EAD_5C77);
  }
}
