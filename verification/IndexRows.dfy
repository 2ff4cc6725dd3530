/**
 The index and log entries as bytes, and the bridge from indexed files to the tables of the
 store.  Row 0 holds the hash key; the tables describe the rows from 1 on.
 */
module IndexRows {
  import opened Bytes
  import opened Tables
  import opened SlotIndex
  import opened StoreModel
  import Frames
  import IndexedFile
  import RecordBytes

  const INDEX_SIZE := 26
  const LOG_SIZE := 13
  const TWO_TO_32 := 0x1_0000_0000

  predicate IsInt64(x: int) {
    -0x8000_0000_0000_0000 <= x < 0x8000_0000_0000_0000
  }

  function LongBytes(x: int): (b: seq<byte>)
    requires IsInt64(x)
    ensures |b| == 8
  {
    Digits(x % TWO_TO_32) + IntBytes(x / TWO_TO_32)
  }

  function LongAt(data: seq<byte>, i: nat): int
    requires i + 8 <= |data|
  {
    LengthAt(data, i) % TWO_TO_32 + LengthAt(data, i + 4) * TWO_TO_32
  }

  lemma WrapBack(n: nat)
    requires n < TWO_TO_32
    ensures Wrap(n) % TWO_TO_32 == n
  {
    if n >= 0x8000_0000 {
      assert Wrap(n) == n - TWO_TO_32;
    }
  }

  lemma LongParts(x: int, data: seq<byte>, i: nat)
    requires IsInt64(x) && i + 8 <= |data| && data[i..i + 8] == LongBytes(x)
    ensures data[i..i + 4] == Digits(x % TWO_TO_32) && data[i + 4..i + 8] == IntBytes(x / TWO_TO_32)
  {
    var b := data[i..i + 8];
    assert data[i..i + 4] == b[..4] && data[i + 4..i + 8] == b[4..];
  }

  lemma LongOf(data: seq<byte>, i: nat, low: nat, high: int)
    requires i + 8 <= |data| && low < TWO_TO_32 && IsInt32(high)
    requires data[i..i + 4] == Digits(low) && data[i + 4..i + 8] == IntBytes(high)
    ensures LongAt(data, i) == low + high * TWO_TO_32
  {
    DigitsRoundTrip(low, data, i);
    WrapBack(low);
    IntRoundTrip(high, data, i + 4);
  }

  lemma LongRoundTrip(x: int, data: seq<byte>, i: nat)
    requires IsInt64(x) && i + 8 <= |data| && data[i..i + 8] == LongBytes(x)
    ensures LongAt(data, i) == x
  {
    LongParts(x, data, i);
    LongOf(data, i, x % TWO_TO_32, x / TWO_TO_32);
  }

  predicate SlotFits(s: Slot) {
    IsInt64(s.offset) && IsInt32(s.sequence)
  }

  predicate RegFits(reg: IndexReg) {
    SlotFits(reg.slots0) && SlotFits(reg.slots1)
  }

  function Flag(autoCommit: bool): byte {
    if autoCommit then RecordBytes.F_AUTO_COMMIT else 0
  }

  /** CSafeStorageIndexReg, packed: two offsets, two sequences, two flags. */
  function EncodeIndex(reg: IndexReg): (b: seq<byte>)
    requires RegFits(reg)
    ensures |b| == INDEX_SIZE
  {
    LongBytes(reg.slots0.offset) + LongBytes(reg.slots1.offset)
    + IntBytes(reg.slots0.sequence) + IntBytes(reg.slots1.sequence)
    + [Flag(reg.slots0.autoCommit), Flag(reg.slots1.autoCommit)]
  }

  function DecodeIndex(b: seq<byte>): IndexReg
    requires |b| == INDEX_SIZE
  {
    IndexReg(Slot(LongAt(b, 0), LengthAt(b, 16), b[24] == RecordBytes.F_AUTO_COMMIT),
             Slot(LongAt(b, 8), LengthAt(b, 20), b[25] == RecordBytes.F_AUTO_COMMIT))
  }

  lemma IndexParts(reg: IndexReg, b: seq<byte>)
    requires RegFits(reg) && b == EncodeIndex(reg)
    ensures b[0..8] == LongBytes(reg.slots0.offset) && b[8..16] == LongBytes(reg.slots1.offset)
    ensures b[16..20] == IntBytes(reg.slots0.sequence) && b[20..24] == IntBytes(reg.slots1.sequence)
    ensures b[24] == Flag(reg.slots0.autoCommit) && b[25] == Flag(reg.slots1.autoCommit)
  {
  }

  lemma IndexOffsets(reg: IndexReg, b: seq<byte>)
    requires RegFits(reg) && b == EncodeIndex(reg)
    ensures LongAt(b, 0) == reg.slots0.offset && LongAt(b, 8) == reg.slots1.offset
  {
    IndexParts(reg, b);
    LongRoundTrip(reg.slots0.offset, b, 0);
    LongRoundTrip(reg.slots1.offset, b, 8);
  }

  lemma IndexSequences(reg: IndexReg, b: seq<byte>)
    requires RegFits(reg) && b == EncodeIndex(reg)
    ensures LengthAt(b, 16) == reg.slots0.sequence && LengthAt(b, 20) == reg.slots1.sequence
  {
    IndexParts(reg, b);
    IntRoundTrip(reg.slots0.sequence, b, 16);
    IntRoundTrip(reg.slots1.sequence, b, 20);
  }

  /** Every index entry is read back as it was stored. */
  lemma IndexRoundTrip(reg: IndexReg)
    requires RegFits(reg)
    ensures DecodeIndex(EncodeIndex(reg)) == reg
  {
    var b := EncodeIndex(reg);
    IndexParts(reg, b);
    IndexOffsets(reg, b);
    IndexSequences(reg, b);
  }

  /** CSafeStorageLogReg, packed: offset, serial, type. */
  function EncodeLog(reg: LogReg): (b: seq<byte>)
    requires IsInt64(reg.offset) && IsInt32(reg.serial)
    ensures |b| == LOG_SIZE
  {
    LongBytes(reg.offset) + IntBytes(reg.serial) + [RecordBytes.TypeCode(reg.kind) as byte]
  }

  function DecodeLog(b: seq<byte>): LogReg
    requires |b| == LOG_SIZE
  {
    LogReg(LongAt(b, 0), LengthAt(b, 8), RecordBytes.KindOf(b[12] as int))
  }

  lemma LogRoundTrip(reg: LogReg)
    requires IsInt64(reg.offset) && IsInt32(reg.serial)
    ensures DecodeLog(EncodeLog(reg)) == reg
  {
    var b := EncodeLog(reg);
    assert b[0..8] == LongBytes(reg.offset) && b[8..12] == IntBytes(reg.serial);
    LongRoundTrip(reg.offset, b, 0);
    IntRoundTrip(reg.serial, b, 8);
    ByteRoundTrip(RecordBytes.TypeCode(reg.kind));
    RecordBytes.KindRoundTrip(reg.kind);
  }

  // ---------- rows and tables ----------

  /** Which rows of bytes stand for which entries. */
  type Meaning<!R> = (seq<byte>, R) -> bool

  const IndexMeaning: Meaning<IndexReg> := (b, reg) => |b| == INDEX_SIZE && DecodeIndex(b) == reg
  const LogMeaning: Meaning<LogReg> := (b, reg) => |b| == LOG_SIZE && DecodeLog(b) == reg

  /** The rows from 1 on stand for the entries of the table. */
  ghost predicate Encodes<R>(rows: IndexedFile.Rows, t: Table<R>, m: Meaning<R>) {
    && rows.top == t.top >= 1
    && (forall k :: k >= 1 && k in t.slots ==> k in rows.slots && m(rows.slots[k], t.slots[k]))
    && (forall k :: k >= 1 && k !in t.slots ==> k !in rows.slots)
  }

  /** An indexed write of an entry is a Put, a read a Get. */
  lemma PutRefines<R>(rows: IndexedFile.Rows, t: Table<R>, m: Meaning<R>, k: nat, b: seq<byte>, reg: R)
    requires Encodes(rows, t, m) && k >= 1 && m(b, reg)
    ensures Encodes(rows.Put(k, b), t.Put(k, reg), m)
  {
  }

  lemma GetRefines<R>(ck: Frames.Checksum, file: seq<byte>, n: nat, rows: IndexedFile.Rows, t: Table<R>, m: Meaning<R>, k: nat, writeMode: bool, cached: bool)
    requires IndexedFile.Represents(ck, file, n, rows) && ck(Frames.Zeroes(n)) != 0 && Encodes(rows, t, m) && k >= 1
    ensures var res := Frames.ReadStatic(ck, file, IndexedFile.RowOffset(k, n), n, writeMode, cached, true, false);
      match t.Get(k, writeMode)
      case Ok(reg) => res.Ok? && m(res.value, reg)
      case Empty => res == Frames.Err(Frames.E_EMPTY_DATA)
      case Eof => res == Frames.Err(Frames.E_EOF)
  {
    IndexedFile.ReadRefines(ck, file, n, rows, k, writeMode, cached);
  }
}
