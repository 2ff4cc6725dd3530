/** What is on disk and on the wire, byte for byte, at inputs written out. */
module Layouts {
  import opened Bytes
  import opened Records
  import opened SlotIndex
  import opened StoreModel
  import opened RecordBytes
  import opened IndexRows
  import opened StateBytes
  import Frames
  import IndexedFile
  import Connection
  import DataArrays

  // ---------- the data file ----------

  lemma BytesOf(x: int, b: seq<byte>)
    requires |b| == 4 && LengthAt(b, 0) == x
    ensures IsInt32(x) && IntBytes(x) == b
  {
    IntUnique(b, 0);
    assert b[0..4] == b;
  }

  /** WRITE of serial 7 with sequence 300 and five bytes, under auto-commit. */
  lemma WriteHeader(r: Rec, b0: seq<byte>, b1: seq<byte>, b2: seq<byte>, b3: seq<byte>)
    requires r.kind.Write? && r.serial == 7 && r.sequence == 300 && r.len == 5 && r.autoCommit
    requires b0 == [0x9A, 0x32, 0x21, 0x51] && b1 == [7, 0, 0, 0] && b2 == [44, 1, 0, 0] && b3 == [5, 0, 0, 0]
    ensures Header(r) == b0 + b1 + b2 + b3 + [1]
  {
    WriteReads(b0, b1, b2, b3);
    BytesOf(SIGNATURE + TypeCode(r.kind), b0);
    BytesOf(r.serial, b1);
    BytesOf(r.sequence, b2);
    BytesOf(r.len, b3);
    JoinHeader(r, b0, b1, b2, b3, 1);
  }

  lemma WriteReads(b0: seq<byte>, b1: seq<byte>, b2: seq<byte>, b3: seq<byte>)
    requires b0 == [0x9A, 0x32, 0x21, 0x51] && b1 == [7, 0, 0, 0] && b2 == [44, 1, 0, 0] && b3 == [5, 0, 0, 0]
    ensures LengthAt(b0, 0) == 0x5121_329A && LengthAt(b1, 0) == 7 && LengthAt(b2, 0) == 300 && LengthAt(b3, 0) == 5
  {
  }

  function TypeByte(k: Kind): byte {
    match k case Commit => 0x99 case Write => 0x9A case RollbackBegin => 0x9B case RollbackEnd => 0x9C case Status => 0x9D
  }

  /** A record starts with the signature, whose low three bits are its type. */
  lemma TypeBytes(r: Rec, b: seq<byte>)
    requires IsInt32(r.serial) && IsInt32(r.sequence) && IsInt32(r.len)
    requires b == [TypeByte(r.kind), 0x32, 0x21, 0x51]
    ensures b <= Header(r)
  {
    TypeReads(r.kind, b);
    BytesOf(SIGNATURE + TypeCode(r.kind), b);
  }

  lemma TypeReads(k: Kind, b: seq<byte>)
    requires |b| >= 4 && b[0] == TypeByte(k) && b[1] == 0x32 && b[2] == 0x21 && b[3] == 0x51
    ensures LengthAt(b, 0) == SIGNATURE + TypeCode(k)
  {
  }

  /** A rollback list: the count, then the serials. */
  lemma SerialBytes(b: seq<byte>)
    requires b == [2, 0, 0, 0, 1, 0, 0, 0, 2, 1, 0, 0]
    ensures DecodeBody(RollbackBegin, b) == Serials([1, 258])
  {
    var list := b[4..];
    assert LengthAt(b, 0) == 2 && LengthAt(list, 0) == 1 && LengthAt(list[4..], 0) == 258;
    assert IntsIn(list[4..], 1) == [258] + IntsIn(list[4..][4..], 0);
  }

  lemma WordOrder()
    ensures WordBytes(0x0403_0201) == [1, 2, 3, 4]
  {
  }

  /** A dynamic frame: its own size, the payload, the checksum of both. */
  lemma DynamicBytes(ck: Frames.Checksum, data: seq<byte>, size: seq<byte>)
    requires |data| == 301 && size == [53, 1, 0, 0]
    ensures Frames.DynamicFrame(ck, data) == size + data + WordBytes(ck(size + data))
  {
    IntUnique(size, 0);
    assert size[0..4] == size;
  }

  lemma StaticBytes(ck: Frames.Checksum, data: seq<byte>)
    ensures Frames.StaticFrame(ck, data) == data + WordBytes(ck(data))
  {
  }

  // ---------- the indexed files and the state ----------

  /** An entry with a version at offset 256 with sequence 5 under auto-commit, and an erased slot. */
  lemma IndexBytes(b: seq<byte>)
    requires |b| == INDEX_SIZE
    requires b[0] == 0 && b[1] == 1 && b[2] == b[3] == b[4] == b[5] == b[6] == b[7] == 0
    requires b[8] == b[9] == b[10] == b[11] == b[12] == b[13] == b[14] == b[15] == 0xFF
    requires b[16] == 5 && b[17] == b[18] == b[19] == 0 && b[20] == b[21] == b[22] == b[23] == 0xFF && b[24] == 1 && b[25] == 0
    ensures DecodeIndex(b) == IndexReg(Slot(256, 5, true), Slot(-1, -1, false))
  {
    OffsetReads(b, 0);
    ErasedReads(b, 8);
    ErasedReads(b, 16);
  }

  lemma OffsetReads(b: seq<byte>, i: nat)
    requires i + 8 <= |b| && b[i] == 0 && b[i + 1] == 1 && b[i + 2] == b[i + 3] == b[i + 4] == b[i + 5] == b[i + 6] == b[i + 7] == 0
    ensures LongAt(b, i) == 256
  {
  }

  lemma ErasedReads(b: seq<byte>, i: nat)
    requires i + 8 <= |b| && b[i + 4] == b[i + 5] == b[i + 6] == b[i + 7] == 0xFF
    ensures LengthAt(b, i + 4) == -1
    ensures b[i] == b[i + 1] == b[i + 2] == b[i + 3] == 0xFF ==> LongAt(b, i) == -1
  {
  }

  lemma ShortDivides(x: nat)
    requires x < TWO_TO_32
    ensures x % TWO_TO_32 == x && x / TWO_TO_32 == 0
  {
  }

  lemma ShortOffset(x: int, low: seq<byte>, high: seq<byte>)
    requires 0 <= x < TWO_TO_32 && low == Digits(x) && high == IntBytes(0)
    ensures IsInt64(x) && LongBytes(x) == low + high
  {
    ShortDivides(x);
  }

  /** Byte i is x, the others are zero. */
  ghost predicate OnlyByte(b: seq<byte>, i: nat, x: byte) {
    |b| == 4 && i < 2 && b[i] == x && forall j :: 0 <= j < 4 && j != i ==> b[j] == 0
  }

  lemma OneByte(b: seq<byte>, i: nat, x: byte)
    requires OnlyByte(b, i, x)
    ensures LengthAt(b, 0) == Sum(b) == if i == 0 then x as int else 256 * x as int
  {
    ByteRange(x);
  }

  lemma LowDigits(x: nat, b: seq<byte>)
    requires x == 256 && OnlyByte(b, 1, 1)
    ensures Digits(x) == b
  {
    OneByte(b, 1, 1);
    DigitsUnique(b, x);
  }

  lemma NoDigits(b: seq<byte>)
    requires OnlyByte(b, 0, 0)
    ensures IntBytes(0) == b
  {
    OneByte(b, 0, 0);
    BytesOf(0, b);
  }

  lemma OffsetBytes(x: int, low: seq<byte>, high: seq<byte>)
    requires x == 256 && OnlyByte(low, 1, 1) && OnlyByte(high, 0, 0)
    ensures IsInt64(x) && LongBytes(x) == low + high
  {
    LowDigits(x, low);
    NoDigits(high);
    ShortOffset(x, low, high);
  }

  lemma SerialSeven(x: int, b: seq<byte>)
    requires x == 7 && OnlyByte(b, 0, 7)
    ensures IsInt32(x) && IntBytes(x) == b
  {
    OneByte(b, 0, 7);
    BytesOf(x, b);
  }

  /** The log entry of a WRITE of serial 7 at offset 256: the bytes 0 1 0 0, 0 0 0 0, 7 0 0 0, 2. */
  lemma LogBytes(reg: LogReg, low: seq<byte>, high: seq<byte>, serial: seq<byte>)
    requires reg.kind.Write? && reg.offset == 256 && reg.serial == 7
    requires OnlyByte(low, 1, 1) && OnlyByte(high, 0, 0) && OnlyByte(serial, 0, 7)
    ensures EncodeLog(reg) == low + high + serial + [2]
  {
    OffsetBytes(reg.offset, low, high);
    SerialSeven(reg.serial, serial);
    JoinLog(reg, low + high, serial);
  }

  lemma JoinLog(reg: LogReg, offset: seq<byte>, serial: seq<byte>)
    requires reg.kind.Write? && IsInt64(reg.offset) && IsInt32(reg.serial)
    requires offset == LongBytes(reg.offset) && serial == IntBytes(reg.serial)
    ensures EncodeLog(reg) == offset + serial + [2]
  {
  }

  /** Row 3 starts behind three rows, each of 26 bytes for the index or 13 for the log, and its checksum. */
  lemma RowPlaces()
    ensures IndexedFile.RowOffset(3, INDEX_SIZE) == 90 && IndexedFile.RowOffset(3, LOG_SIZE) == 51
  {
  }

  /** Counts at 8, 12 and 24, last commit at 29, last sequence at 41. */
  lemma StatePlaces(st: State, o: Others, b: seq<byte>)
    requires StateFits(st) && o.Fits() && b == EncodeState(st, o)
    ensures LengthAt(b, 8) == st.count && LengthAt(b, 12) == st.commitCount && LengthAt(b, 24) == st.dataCount
    ensures LengthAt(b, 29) == st.lastCommit && LengthAt(b, 41) == st.lastSequence
  {
    StateRoundTrip(st, o);
  }

  /** A variable piece of five bytes in one word: the flag above 24 bits of length. */
  lemma PackedWord()
    ensures DataArrays.Pack(DataArrays.Piece(5, true)) == 0x0100_0005 && DataArrays.Pack(DataArrays.Piece(5, false)) == 5
  {
  }

  // ---------- the stream ----------

  /** A header with 20 at bytes 4 to 7, four bytes of data, and the first byte of another frame. */
  lemma StreamBytes(header: seq<byte>, s: seq<byte>)
    requires header == [0x55, 0xB9, 0xC4, 0x23, 20, 0, 0, 0, 0, 0, 0, 0, 14, 0, 0, 0]
    requires s == header + [1, 2, 3, 4] + [0x55]
    ensures Connection.Completed(s) == [Connection.Request(header, [1, 2, 3, 4])] && Connection.Unfinished(s) == [0x55]
  {
    assert s[..16] == header && s[16..20] == [1, 2, 3, 4] && s[20..] == [0x55];
    assert s[4] == 20 && s[5] == 0 && s[6] == 0 && s[7] == 0;
    assert Connection.LenOf(s) == 20;
  }
}
