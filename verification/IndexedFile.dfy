/** Records of one size, addressed by number: the bytes of the file behave like a table. */
module IndexedFile {
  import opened Bytes
  import opened Frames
  import opened Tables
  import opened DataArrays
  import opened BaseSafeFile
  import CrcTable

  type Rows = Table<seq<byte>>

  /** sizeOf: a record of n bytes and its checksum. */
  function SizeOf(n: nat): nat {
    n + 4
  }

  function RowOffset(i: int, n: nat): int {
    i * SizeOf(n)
  }

  /** The file after a record was written to a row. */
  function RowWritten(ck: Checksum, file: seq<byte>, n: nat, i: nat, r: seq<byte>): seq<byte> {
    RowSize(i, n);
    WriteAt(file, RowOffset(i, n), StaticFrame(ck, r))
  }

  /** The bytes of row i of a file with whole rows. */
  ghost predicate RowAt(ck: Checksum, file: seq<byte>, n: nat, t: Rows, i: nat) {
    && 0 <= RowOffset(i, n) && RowOffset(i, n) + SizeOf(n) <= |file|
    && var row := file[RowOffset(i, n)..RowOffset(i, n) + SizeOf(n)];
       if i in t.slots then |t.slots[i]| == n && row == StaticFrame(ck, t.slots[i]) else row == Zeroes(SizeOf(n))
  }

  /** The file holds the rows of the table; rows never written are zeros. */
  ghost predicate Represents(ck: Checksum, file: seq<byte>, n: nat, t: Rows) {
    && t.top >= 0 && |file| == RowOffset(t.top, n)
    && (forall i :: i in t.slots ==> 0 <= i < t.top)
    && (forall i :: 0 <= i < t.top ==> RowAt(ck, file, n, t, i))
  }

  // ---------- writing ----------

  lemma RowsApart(i: nat, j: nat, n: nat)
    requires i < j
    ensures 0 <= RowOffset(i, n) && RowOffset(i, n) + SizeOf(n) <= RowOffset(j, n)
  {
    assert (i + 1) * SizeOf(n) <= j * SizeOf(n);
  }

  lemma RowSize(i: nat, n: nat)
    ensures 0 <= RowOffset(i, n) && RowOffset(i + 1, n) == RowOffset(i, n) + SizeOf(n)
  {
  }

  /** A row that was not written keeps its bytes; one that the file did not reach is zeros. */
  lemma OtherRow(ck: Checksum, file: seq<byte>, n: nat, t: Rows, i: nat, r: seq<byte>, j: nat)
    requires Represents(ck, file, n, t) && |r| == n && j != i && j < t.Put(i, r).top
    ensures RowAt(ck, RowWritten(ck, file, n, i, r), n, t.Put(i, r), j)
  {
    RowSize(i, n);
    RowSize(j, n);
    if j < i { RowsApart(j, i, n); } else { RowsApart(i, j, n); }
    var at, frame := RowOffset(i, n), StaticFrame(ck, r);
    var file', from := WriteAt(file, at, frame), RowOffset(j, n);
    if j < t.top {
      assert RowAt(ck, file, n, t, j);
      WriteApart(file, at, frame, from, SizeOf(n));
    } else {
      if t.top < j { RowsApart(t.top, j, n); }
      forall k | from <= k < from + SizeOf(n) ensures file'[k] == 0 {
        WriteElsewhere(file, at, frame, k);
      }
      assert file'[from..from + SizeOf(n)] == Zeroes(SizeOf(n));
    }
  }

  /** A write changes the row it names and no other. */
  lemma WriteRefines(ck: Checksum, file: seq<byte>, n: nat, t: Rows, i: nat, r: seq<byte>)
    requires Represents(ck, file, n, t) && |r| == n
    ensures 0 <= RowOffset(i, n) && Represents(ck, RowWritten(ck, file, n, i, r), n, t.Put(i, r))
  {
    RowSize(i, n);
    var file', t' := RowWritten(ck, file, n, i, r), t.Put(i, r);
    if i < t.top { if i + 1 < t.top { RowsApart(i, t.top, n); } } else if t.top < i { RowsApart(t.top, i, n); }
    forall j | 0 <= j < t'.top ensures RowAt(ck, file', n, t', j) {
      if j != i { OtherRow(ck, file, n, t, i, r, j); }
    }
  }

  // ---------- reading ----------

  /** What the program's return values say about a row. */
  function AsLookup(res: Result<seq<byte>>): Lookup<seq<byte>> {
    match res
    case Ok(data) => Lookup.Ok(data)
    case Err(code) => if code == E_EOF then Eof else if code == E_READ_SEEK then BeforeStart else Empty
  }

  predicate SaysSo(res: Result<seq<byte>>) {
    res.Ok? || res.code in {E_EOF, E_READ_SEEK, E_EMPTY_DATA}
  }

  /** A row of zeros reads as empty exactly if zeros have another checksum than zero. */
  lemma HoleIsEmpty(ck: Checksum, n: nat)
    ensures Checked(ck, Zeroes(SizeOf(n)), 0, true, false) == Err(E_EMPTY_DATA) <==> ck(Zeroes(n)) != 0
    ensures ck(Zeroes(n)) == 0 ==> Checked(ck, Zeroes(SizeOf(n)), 0, true, false) == Result.Ok(Zeroes(n))
  {
    var frame := Zeroes(SizeOf(n));
    assert frame[..n] == Zeroes(n) && frame[0..n] == Zeroes(n);
    WordZero(frame[n], frame[n + 1], frame[n + 2], frame[n + 3]);
  }

  lemma BeforeTheFile(ck: Checksum, file: seq<byte>, i: int, n: nat, writeMode: bool, cached: bool)
    requires i < 0
    ensures ReadStatic(ck, file, RowOffset(i, n), n, writeMode, cached, true, false) == Err(E_READ_SEEK)
  {
    assert RowOffset(i, n) < 0 && RowOffset(i, n) + SizeOf(n) <= 0;
  }

  lemma RowRead(ck: Checksum, file: seq<byte>, n: nat, t: Rows, i: nat, writeMode: bool, cached: bool)
    requires Represents(ck, file, n, t) && i < t.top
    ensures ReadStatic(ck, file, RowOffset(i, n), n, writeMode, cached, true, false) ==
            Checked(ck, if i in t.slots then StaticFrame(ck, t.slots[i]) else Zeroes(SizeOf(n)), 0, true, false)
  {
    assert RowAt(ck, file, n, t, i);
  }

  lemma PastTheEnd(ck: Checksum, file: seq<byte>, n: nat, t: Rows, i: nat, writeMode: bool, cached: bool)
    requires Represents(ck, file, n, t) && i >= t.top
    ensures ReadStatic(ck, file, RowOffset(i, n), n, writeMode, cached, true, false) == Err(if writeMode then E_EMPTY_DATA else E_EOF)
  {
    if i > t.top { RowsApart(t.top, i, n); } else { RowSize(i, n); }
  }

  /** A read at row i returns what the table holds there, and says why if that is nothing. */
  lemma ReadRefines(ck: Checksum, file: seq<byte>, n: nat, t: Rows, i: int, writeMode: bool, cached: bool)
    requires Represents(ck, file, n, t) && ck(Zeroes(n)) != 0
    ensures var res := ReadStatic(ck, file, RowOffset(i, n), n, writeMode, cached, true, false);
            SaysSo(res) && AsLookup(res) == t.Get(i, writeMode)
  {
    if i < 0 {
      BeforeTheFile(ck, file, i, n, writeMode, cached);
    } else if i >= t.top {
      PastTheEnd(ck, file, n, t, i, writeMode, cached);
    } else {
      RowRead(ck, file, n, t, i, writeMode, cached);
      if i in t.slots {
        assert RowAt(ck, file, n, t, i);
        StaticChecked(ck, t.slots[i], true, false);
      } else {
        HoleIsEmpty(ck, n);
      }
    }
  }

  // ---------- any sequence of writes ----------

  datatype Put = Put(row: nat, record: seq<byte>)

  function FileAfter(ck: Checksum, puts: seq<Put>, n: nat): seq<byte> {
    if puts == [] then []
    else
      var last := puts[|puts| - 1];
      RowWritten(ck, FileAfter(ck, puts[..|puts| - 1], n), n, last.row, last.record)
  }

  /** The last record put at this row. */
  function LastPut(puts: seq<Put>, row: int): (i: int)
    ensures -1 <= i < |puts|
    ensures i >= 0 ==> puts[i].row == row
    ensures forall j :: i < j < |puts| ==> puts[j].row != row
  {
    if puts == [] then -1
    else if puts[|puts| - 1].row == row then |puts| - 1
    else LastPut(puts[..|puts| - 1], row)
  }

  function TableAfter(puts: seq<Put>): (t: Rows)
    ensures forall i :: i in t.slots <==> LastPut(puts, i) >= 0
    ensures forall i :: i in t.slots ==> t.slots[i] == puts[LastPut(puts, i)].record
  {
    if puts == [] then Table(map[], 0)
    else TableAfter(puts[..|puts| - 1]).Put(puts[|puts| - 1].row, puts[|puts| - 1].record)
  }

  ghost predicate AllOfSize(puts: seq<Put>, n: nat) {
    forall i :: 0 <= i < |puts| ==> |puts[i].record| == n
  }

  lemma {:induction false} FileIsTable(ck: Checksum, puts: seq<Put>, n: nat)
    requires AllOfSize(puts, n)
    ensures Represents(ck, FileAfter(ck, puts, n), n, TableAfter(puts))
  {
    if puts != [] {
      var before, last := puts[..|puts| - 1], puts[|puts| - 1];
      FileIsTable(ck, before, n);
      WriteRefines(ck, FileAfter(ck, before, n), n, TableAfter(before), last.row, last.record);
    }
  }

  /**
   After any writes, a read at row i returns the last record written there.  A row that never was
   written is reported as empty, or as end of file behind the last row on a read-only handle.
   */
  lemma ReadsLastPut(ck: Checksum, puts: seq<Put>, n: nat, i: nat, writeMode: bool, cached: bool)
    requires AllOfSize(puts, n) && ck(Zeroes(n)) != 0
    ensures var res := ReadStatic(ck, FileAfter(ck, puts, n), RowOffset(i, n), n, writeMode, cached, true, false);
            var last := LastPut(puts, i);
            if last >= 0 then res == Result.Ok(puts[last].record) else res == Err(E_EMPTY_DATA) || (!writeMode && res == Err(E_EOF))
  {
    FileIsTable(ck, puts, n);
    ReadRefines(ck, FileAfter(ck, puts, n), n, TableAfter(puts), i, writeMode, cached);
  }

  lemma ZeroesCrc(ck: Checksum, n: nat)
    requires IsCrc(ck) && (n == 13 || n == 26)
    ensures ck(Zeroes(n)) != 0
  {
    assert CrcAt(ck, Zeroes(n));
    CrcTable.ZeroRecords(Zeroes(n));
  }

  // ---------- the program ----------

  method WriteIndex(f: SafeFile, index: int, d: DataArray, ghost t: Rows) returns (r: int)
    requires f.Valid() && d.Valid() && f.workArea !in d.datas && d.size + 8 < 0x8000_0000
    requires Represents(f.ck, f.file, d.size, t)
    modifies f`file, f`cacheOffset, f`cacheLen, f`currentOffset, f`lastOffset, f`workArea, f.workArea
    ensures f.Valid() && (f.workArea == old(f.workArea) || fresh(f.workArea))
    ensures if index >= 0 && f.writeMode then
              r == SizeOf(d.size) && Represents(f.ck, f.file, d.size, t.Put(index, old(d.Bytes())))
            else r < 0 && f.file == old(f.file)
  {
    if index >= 0 {
      WriteRefines(f.ck, f.file, d.size, t, index, d.Bytes());
    } else {
      assert RowOffset(index, d.size) < 0;
    }
    r := f.Write(At(RowOffset(index, d.size)), false, d);
  }

  /** The return value and the receiving buffers after a lookup. */
  ghost predicate Looked(look: Lookup<seq<byte>>, r: int, d: DataArray, before: seq<seq<byte>>)
    reads d.datas
  {
    && |before| == |d.datas| == |d.pieces|
    && match look
       case Ok(data) => r == |data| && d.Holds(before, Scatter(d.pieces, data))
       case Empty => r == E_EMPTY_DATA && d.Holds(before, [])
       case Eof => r == E_EOF && d.Holds(before, [])
       case BeforeStart => r == E_READ_SEEK && d.Holds(before, [])
  }

  lemma OutcomeLooked(res: Result<seq<byte>>, r: int, d: DataArray, before: seq<seq<byte>>)
    requires Outcome(res, r, d, before) && SaysSo(res)
    ensures Looked(AsLookup(res), r, d, before)
  {
  }

  method ReadIndex(f: SafeFile, index: int, d: DataArray, ghost t: Rows) returns (r: int)
    requires f.Valid() && d.Valid() && f.workArea !in d.datas && f.cache !in d.datas
    requires Represents(f.ck, f.file, d.size, t) && f.ck(Zeroes(d.size)) != 0
    modifies f`workArea, f`cacheOffset, f`cacheLen, f`currentOffset, f`lastOffset, f.cache, f.workArea, d.datas
    ensures f.Valid() && (f.workArea == old(f.workArea) || fresh(f.workArea))
    ensures Looked(t.Get(index, f.writeMode), r, d, old(d.All()))
  {
    ghost var before, at := d.All(), RowOffset(index, d.size);
    ghost var res := ReadFrame(f.ck, f.file, at, false, d.size, f.writeMode, f.Cached(), true, false);
    ReadRefines(f.ck, f.file, d.size, t, index, f.writeMode, f.Cached());
    r := f.Read(At(RowOffset(index, d.size)), false, true, false, d);
    OutcomeLooked(res, r, d, before);
  }
}
