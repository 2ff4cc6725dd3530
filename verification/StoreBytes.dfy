/**
 The store on bytes: what a file write of the store does to the bytes of its files, and that a
 read which goes through the bytes gives the answer of the model.
 */
module StoreBytes {
  import opened Bytes
  import opened Records
  import opened Tables
  import opened SlotIndex
  import opened StoreModel
  import opened RecordBytes
  import opened IndexRows
  import opened StateBytes
  import Frames
  import IndexedFile
  import opened Isolation

  const E_SEQUENCE_NOT_FOUND := -509

  datatype Files = Files(data: seq<byte>, index: seq<byte>, log: seq<byte>, state: seq<byte>)

  /** What the two indexed files hold, row by row; row 0 is the hash key. */
  datatype AllRows = AllRows(index: IndexedFile.Rows, log: IndexedFile.Rows)

  /** The saved state is a static frame at the start of its file. */
  predicate StateOn(ck: Frames.Checksum, file: seq<byte>, st: State) {
    && |file| == STATE_SIZE + 4 && file == Frames.StaticFrame(ck, file[..STATE_SIZE])
    && DecodeState(file[..STATE_SIZE]) == st
  }

  lemma StateFrame(ck: Frames.Checksum, st: State, o: Others)
    requires StateFits(st) && o.Fits()
    ensures StateOn(ck, Frames.StaticFrame(ck, EncodeState(st, o)), st)
  {
    StateRoundTrip(st, o);
    var file := Frames.StaticFrame(ck, EncodeState(st, o));
    assert file[..STATE_SIZE] == EncodeState(st, o);
  }

  /** These bytes are the files of the store. */
  ghost predicate OnBytes(ck: Frames.Checksum, d: Disk, f: Files, header: seq<byte>, rows: AllRows) {
    && Frames.IsCrc(ck) && |header| == HEADER_SIZE && AllStorable(d.data) && f.data == FileOfLog(ck, header, d.data)
    && IndexedFile.Represents(ck, f.index, INDEX_SIZE, rows.index) && Encodes(rows.index, d.index, IndexMeaning)
    && IndexedFile.Represents(ck, f.log, LOG_SIZE, rows.log) && Encodes(rows.log, d.log, LogMeaning)
    && StateOn(ck, f.state, d.saved)
  }

  // ---------- a store just created ----------

  lemma OneRow(ck: Frames.Checksum, n: nat, r: seq<byte>)
    requires |r| == n
    ensures IndexedFile.Represents(ck, IndexedFile.RowWritten(ck, [], n, 0, r), n, Table(map[0 := r], 1))
  {
    IndexedFile.WriteRefines(ck, [], n, Table(map[], 0), 0, r);
    assert Table(map[], 0).Put(0, r) == Table(map[0 := r], 1);
  }

  /** After the hash key was written to all files and the state saved, they are those of the fresh store. */
  lemma FreshOnBytes(ck: Frames.Checksum, header: seq<byte>, index: seq<byte>, log: seq<byte>, st: State, o: Others) returns (f: Files, rows: AllRows)
    requires Frames.IsCrc(ck) && |header| == HEADER_SIZE && |index| == INDEX_SIZE && |log| == LOG_SIZE && o.Fits() && st == ZERO_STATE
    ensures f == Files(Frames.StaticFrame(ck, header), IndexedFile.RowWritten(ck, [], INDEX_SIZE, 0, index),
                       IndexedFile.RowWritten(ck, [], LOG_SIZE, 0, log), Frames.StaticFrame(ck, EncodeState(st, o)))
    ensures OnBytes(ck, FRESH_DISK, f, header, rows)
  {
    OneRow(ck, INDEX_SIZE, index);
    OneRow(ck, LOG_SIZE, log);
    StateFrame(ck, st, o);
    f := Files(Frames.StaticFrame(ck, header), IndexedFile.RowWritten(ck, [], INDEX_SIZE, 0, index),
               IndexedFile.RowWritten(ck, [], LOG_SIZE, 0, log), Frames.StaticFrame(ck, EncodeState(st, o)));
    rows := AllRows(Table(map[0 := index], 1), Table(map[0 := log], 1));
    FreshParts(ck, FRESH_DISK, f, header, rows, st);
  }

  lemma FreshParts(ck: Frames.Checksum, d: Disk, f: Files, header: seq<byte>, rows: AllRows, st: State)
    requires Frames.IsCrc(ck) && |header| == HEADER_SIZE && f.data == Frames.StaticFrame(ck, header) && d.data == []
    requires IndexedFile.Represents(ck, f.index, INDEX_SIZE, rows.index) && IndexedFile.Represents(ck, f.log, LOG_SIZE, rows.log)
    requires rows.index.top == rows.log.top == d.index.top == d.log.top == 1 && d.index.slots == map[] && d.log.slots == map[]
    requires StateOn(ck, f.state, st) && d.saved == st
    ensures OnBytes(ck, d, f, header, rows)
  {
    assert Payloads(d.data) == [];
  }

  // ---------- writes ----------

  /** A data write appends one frame; every frame before it stays. */
  lemma DataWriteOnBytes(ck: Frames.Checksum, d: Disk, f: Files, header: seq<byte>, rows: AllRows, r: Rec)
    requires OnBytes(ck, d, f, header, rows) && Storable(r)
    ensures |f.data| == End(d.data)
    ensures OnBytes(ck, d.(data := d.data + [r]), f.(data := Frames.WriteAt(f.data, |f.data|, Frames.DynamicFrame(ck, Encode(r)))), header, rows)
  {
    EndIsFileSize(ck, header, d.data);
    AppendRefinesLog(ck, header, d.data, r);
  }

  /** An index write replaces one row, and only that one. */
  lemma IndexWriteOnBytes(ck: Frames.Checksum, d: Disk, f: Files, header: seq<byte>, rows: AllRows, k: nat, reg: IndexReg)
    requires OnBytes(ck, d, f, header, rows) && k >= 1 && RegFits(reg)
    ensures OnBytes(ck, d.(index := d.index.Put(k, reg)),
                    f.(index := IndexedFile.RowWritten(ck, f.index, INDEX_SIZE, k, EncodeIndex(reg))),
                    header, rows.(index := rows.index.Put(k, EncodeIndex(reg))))
  {
    IndexRoundTrip(reg);
    IndexedFile.WriteRefines(ck, f.index, INDEX_SIZE, rows.index, k, EncodeIndex(reg));
    PutRefines(rows.index, d.index, IndexMeaning, k, EncodeIndex(reg), reg);
  }

  lemma LogWriteOnBytes(ck: Frames.Checksum, d: Disk, f: Files, header: seq<byte>, rows: AllRows, sequence: nat, reg: LogReg)
    requires OnBytes(ck, d, f, header, rows) && sequence >= 1 && IsInt64(reg.offset) && IsInt32(reg.serial)
    ensures OnBytes(ck, d.(log := d.log.Put(sequence, reg)),
                    f.(log := IndexedFile.RowWritten(ck, f.log, LOG_SIZE, sequence, EncodeLog(reg))),
                    header, rows.(log := rows.log.Put(sequence, EncodeLog(reg))))
  {
    LogRoundTrip(reg);
    IndexedFile.WriteRefines(ck, f.log, LOG_SIZE, rows.log, sequence, EncodeLog(reg));
    PutRefines(rows.log, d.log, LogMeaning, sequence, EncodeLog(reg), reg);
  }

  /** A frame written over one of the same size, at the start of the file, is the file. */
  lemma Overwritten(file: seq<byte>, frame: seq<byte>)
    requires |file| == |frame|
    ensures Frames.WriteAt(file, 0, frame) == frame
  {
    assert Frames.WriteAt(file, 0, frame)[0..0 + |frame|] == frame;
  }

  lemma SaveOnBytes(ck: Frames.Checksum, d: Disk, f: Files, header: seq<byte>, rows: AllRows, st: State, o: Others)
    requires OnBytes(ck, d, f, header, rows) && StateFits(st) && o.Fits()
    ensures OnBytes(ck, d.(saved := st), f.(state := Frames.WriteAt(f.state, 0, Frames.StaticFrame(ck, EncodeState(st, o)))), header, rows)
  {
    Overwritten(f.state, Frames.StaticFrame(ck, EncodeState(st, o)));
    StateFrame(ck, st, o);
  }

  // ---------- reads ----------

  /** loadState() on a handle whose state in memory is zero. */
  function LoadState(ck: Frames.Checksum, f: Files): State {
    match Frames.ReadStatic(ck, f.state, 0, STATE_SIZE, false, false, false, false)
    case Ok(b) => if |b| == STATE_SIZE then DecodeState(b) else ZERO_STATE
    case Err(_) => ZERO_STATE
  }

  lemma LoadsSaved(ck: Frames.Checksum, d: Disk, f: Files, header: seq<byte>, rows: AllRows)
    requires OnBytes(ck, d, f, header, rows)
    ensures LoadState(ck, f) == d.saved
  {
    assert f.state[0..0 + STATE_SIZE + 4] == f.state;
    Frames.StaticRead(ck, f.state, 0, f.state[..STATE_SIZE], false, false, false, false);
  }

  /** The data record at this offset, parsed from the file. */
  function RecordAt(ck: Frames.Checksum, data: seq<byte>, offset: nat, writeMode: bool, cached: bool): LogResult {
    match Frames.ReadDynamic(ck, data, offset, writeMode, cached, false, false)
    case Err(code) => LogFailed(code)
    case Ok(b) => if |b| < HEADER_SIZE then LogFailed(E_READ) else Record(Decode(b))
  }

  /** read() on the bytes: an index entry, the offset it names, the record there. */
  function ReadBytes(ck: Frames.Checksum, f: Files, k: nat, lastCommit: int, dirtyMode: bool, rdwr: bool, cached: bool): ReadResult {
    match Frames.ReadStatic(ck, f.index, IndexedFile.RowOffset(k, INDEX_SIZE), INDEX_SIZE, rdwr, false, true, false)
    case Err(code) => Failed(if code == Frames.E_EMPTY_DATA then E_SERIAL_NOT_FOUND else code)
    case Ok(b) => ReadVersion(ck, f.data, LastOffset(DecodeIndex(b), lastCommit, dirtyMode || rdwr), rdwr, cached)
  }

  function ReadVersion(ck: Frames.Checksum, data: seq<byte>, offset: int, rdwr: bool, cached: bool): ReadResult {
    if offset <= 0 then Failed(E_SERIAL_NOT_FOUND)
    else match RecordAt(ck, data, offset, rdwr, cached)
      case LogFailed(code) => Failed(code)
      case Record(r) => Found(r.body)
  }

  lemma RecordLocated(ck: Frames.Checksum, d: Disk, f: Files, header: seq<byte>, rows: AllRows, offset: nat, writeMode: bool, cached: bool)
    requires OnBytes(ck, d, f, header, rows) && Locate(d.data, offset) >= 0
    ensures RecordAt(ck, f.data, offset, writeMode, cached) == Record(d.data[Locate(d.data, offset)])
  {
    ReadsLocated(ck, header, d.data, offset, writeMode, cached);
  }

  lemma IndexEntry(ck: Frames.Checksum, d: Disk, f: Files, header: seq<byte>, rows: AllRows, k: nat, rdwr: bool)
    requires OnBytes(ck, d, f, header, rows) && k >= 1
    ensures var res := Frames.ReadStatic(ck, f.index, IndexedFile.RowOffset(k, INDEX_SIZE), INDEX_SIZE, rdwr, false, true, false);
      match d.index.Get(k, rdwr)
      case Ok(reg) => res.Ok? && |res.value| == INDEX_SIZE && DecodeIndex(res.value) == reg
      case Empty => res == Frames.Err(Frames.E_EMPTY_DATA)
      case Eof => res == Frames.Err(Frames.E_EOF)
  {
    IndexedFile.ZeroesCrc(ck, INDEX_SIZE);
    GetRefines(ck, f.index, INDEX_SIZE, rows.index, d.index, IndexMeaning, k, rdwr, false);
  }

  lemma VersionAnswer(ck: Frames.Checksum, d: Disk, f: Files, header: seq<byte>, rows: AllRows, offset: int, rdwr: bool, cached: bool)
    requires OnBytes(ck, d, f, header, rows) && (offset > 0 ==> Locate(d.data, offset) >= 0)
    ensures ReadVersion(ck, f.data, offset, rdwr, cached) == if offset <= 0 then Failed(E_SERIAL_NOT_FOUND) else ReadData(d.data, offset)
  {
    if offset > 0 { RecordLocated(ck, d, f, header, rows, offset, rdwr, cached); }
  }

  /** The offset that getLastOffset picks is that of a record, or none. */
  lemma PicksRecord(d: Disk, k: int, lastCommit: int, dirtyRead: bool)
    requires EntryPoints(d, k) && k in d.index.slots
    ensures LastOffset(d.index.slots[k], lastCommit, dirtyRead) > 0 ==> Locate(d.data, LastOffset(d.index.slots[k], lastCommit, dirtyRead)) >= 0
  {
  }

  lemma EntryAnswer(ck: Frames.Checksum, f: Files, k: nat, reg: IndexReg, lastCommit: int, dirtyMode: bool, rdwr: bool, cached: bool)
    requires var res := Frames.ReadStatic(ck, f.index, IndexedFile.RowOffset(k, INDEX_SIZE), INDEX_SIZE, rdwr, false, true, false);
      res.Ok? && |res.value| == INDEX_SIZE && DecodeIndex(res.value) == reg
    ensures ReadBytes(ck, f, k, lastCommit, dirtyMode, rdwr, cached) == ReadVersion(ck, f.data, LastOffset(reg, lastCommit, dirtyMode || rdwr), rdwr, cached)
  {
  }

  lemma PresentAnswer(ck: Frames.Checksum, d: Disk, f: Files, header: seq<byte>, rows: AllRows, k: nat, lastCommit: int, dirtyMode: bool, rdwr: bool, cached: bool)
    requires OnBytes(ck, d, f, header, rows) && k >= 1 && EntryPoints(d, k) && k in d.index.slots
    ensures ReadBytes(ck, f, k, lastCommit, dirtyMode, rdwr, cached) == ReadAs(d, k, lastCommit, dirtyMode, rdwr)
  {
    var reg := d.index.slots[k];
    IndexEntry(ck, d, f, header, rows, k, rdwr);
    EntryAnswer(ck, f, k, reg, lastCommit, dirtyMode, rdwr, cached);
    PicksRecord(d, k, lastCommit, dirtyMode || rdwr);
    VersionAnswer(ck, d, f, header, rows, LastOffset(reg, lastCommit, dirtyMode || rdwr), rdwr, cached);
  }

  lemma AbsentAnswer(ck: Frames.Checksum, d: Disk, f: Files, header: seq<byte>, rows: AllRows, k: nat, lastCommit: int, dirtyMode: bool, rdwr: bool, cached: bool)
    requires OnBytes(ck, d, f, header, rows) && k >= 1 && k !in d.index.slots
    ensures ReadBytes(ck, f, k, lastCommit, dirtyMode, rdwr, cached) == ReadAs(d, k, lastCommit, dirtyMode, rdwr)
  {
    IndexEntry(ck, d, f, header, rows, k, rdwr);
  }

  /** A read through the bytes of index and data file answers as the model does. */
  lemma BytesAnswer(ck: Frames.Checksum, d: Disk, f: Files, header: seq<byte>, rows: AllRows, k: nat, lastCommit: int, dirtyMode: bool, rdwr: bool, cached: bool)
    requires OnBytes(ck, d, f, header, rows) && k >= 1 && EntryPoints(d, k)
    ensures ReadBytes(ck, f, k, lastCommit, dirtyMode, rdwr, cached) == ReadAs(d, k, lastCommit, dirtyMode, rdwr)
  {
    if k in d.index.slots {
      PresentAnswer(ck, d, f, header, rows, k, lastCommit, dirtyMode, rdwr, cached);
    } else {
      AbsentAnswer(ck, d, f, header, rows, k, lastCommit, dirtyMode, rdwr, cached);
    }
  }

  /** A committed-mode read-only handle: state, index and data file, all parsed. */
  function ReadCommitted(ck: Frames.Checksum, f: Files, k: nat, cached: bool): ReadResult {
    ReadBytes(ck, f, k, LoadState(ck, f).lastCommit, false, false, cached)
  }

  /** Such a reader gets what the model gives. */
  lemma CommittedOnBytes(ck: Frames.Checksum, d: Disk, f: Files, header: seq<byte>, rows: AllRows, k: nat, cached: bool)
    requires OnBytes(ck, d, f, header, rows) && k >= 1 && EntryPoints(d, k)
    ensures ReadCommitted(ck, f, k, cached) == CommittedRead(d, k)
  {
    LoadsSaved(ck, d, f, header, rows);
    BytesAnswer(ck, d, f, header, rows, k, d.saved.lastCommit, false, false, cached);
  }

  /** readLog on the bytes. */
  function ReadLogBytes(ck: Frames.Checksum, f: Files, sequence: nat, rdwr: bool, cached: bool): LogResult {
    match Frames.ReadStatic(ck, f.log, IndexedFile.RowOffset(sequence, LOG_SIZE), LOG_SIZE, rdwr, false, true, false)
    case Err(code) => LogFailed(code)
    case Ok(b) => if DecodeLog(b).offset < 0 then LogFailed(E_SEQUENCE_NOT_FOUND) else RecordAt(ck, f.data, DecodeLog(b).offset, rdwr, cached)
  }

  lemma LogEntry(ck: Frames.Checksum, d: Disk, f: Files, header: seq<byte>, rows: AllRows, sequence: nat, rdwr: bool)
    requires OnBytes(ck, d, f, header, rows) && sequence >= 1
    ensures var res := Frames.ReadStatic(ck, f.log, IndexedFile.RowOffset(sequence, LOG_SIZE), LOG_SIZE, rdwr, false, true, false);
      match d.log.Get(sequence, rdwr)
      case Ok(reg) => res.Ok? && |res.value| == LOG_SIZE && DecodeLog(res.value) == reg
      case Empty => res == Frames.Err(Frames.E_EMPTY_DATA)
      case Eof => res == Frames.Err(Frames.E_EOF)
  {
    IndexedFile.ZeroesCrc(ck, LOG_SIZE);
    GetRefines(ck, f.log, LOG_SIZE, rows.log, d.log, LogMeaning, sequence, rdwr, false);
  }

  lemma LoggedRecord(ck: Frames.Checksum, d: Disk, f: Files, header: seq<byte>, rows: AllRows, offset: int, rdwr: bool, cached: bool)
    requires OnBytes(ck, d, f, header, rows) && Locate(d.data, offset) >= 0
    ensures offset >= 0 && RecordAt(ck, f.data, offset, rdwr, cached) == Record(d.data[Locate(d.data, offset)])
  {
    RecordLocated(ck, d, f, header, rows, offset, rdwr, cached);
  }

  /** readLog through the bytes returns the record that the model finds. */
  lemma LogBytesAnswer(ck: Frames.Checksum, d: Disk, f: Files, header: seq<byte>, rows: AllRows, sequence: nat, rdwr: bool, cached: bool)
    requires OnBytes(ck, d, f, header, rows) && sequence >= 1 && ReadLogAs(d, sequence, rdwr).Record?
    ensures ReadLogBytes(ck, f, sequence, rdwr, cached) == ReadLogAs(d, sequence, rdwr)
  {
    LogEntry(ck, d, f, header, rows, sequence, rdwr);
    var reg := d.log.Get(sequence, rdwr).value;
    LoggedRecord(ck, d, f, header, rows, reg.offset, rdwr, cached);
  }

  lemma LogMiss(ck: Frames.Checksum, d: Disk, f: Files, header: seq<byte>, rows: AllRows, sequence: nat, rdwr: bool, cached: bool, code: int)
    requires OnBytes(ck, d, f, header, rows) && sequence >= 1 && sequence !in d.log.slots
    requires ReadLogAs(d, sequence, rdwr) == LogFailed(code)
    ensures ReadLogBytes(ck, f, sequence, rdwr, cached) == LogFailed(code)
  {
    LogEntry(ck, d, f, header, rows, sequence, rdwr);
  }
}
