/**
 CSafeStorage as a state machine: memory, the four files, and every state the files have
 been in.  One element of history per file write, so history holds exactly what a reader
 in another process could find between two writes of the writer.
 */
module StoreModel {
  import opened Bytes
  import opened Records
  import opened Tables
  import opened SlotIndex

  const STATUS_FREQ := 50

  const E_OK := 0
  const E_SERIAL_NOT_FOUND := -505
  const E_EOF := -40
  const E_NO_ROLLBACK_IN_AUTOCOMMIT := -508
  const E_EMPTY_DATA := -70
  const E_READ_SEEK := -52
  const E_READ := -55

  /** The fields of CSafeStorageState that writeFiles maintains. */
  datatype State = State(count: int, commitCount: int, dataCount: int, lastCommit: int, lastSequence: int)

  const ZERO_STATE := State(0, 0, 0, 0, 0)

  datatype LogReg = LogReg(offset: int, serial: int, kind: Kind)

  datatype Disk = Disk(data: Log, index: Table<IndexReg>, log: Table<LogReg>, saved: State)

  /** rebuild: mode == CSTORAGE_MODE_REBUILD; lastOffset: fdata.lastOffset(). */
  datatype Store = Store(
    disk: Disk, state: State, dirty: seq<int>, autoCommit: bool, rdwr: bool, rebuild: bool,
    lastOffset: int, history: seq<Disk>)

  const FRESH_DISK := Disk([], FRESH_INDEX, Table(map[], 1), ZERO_STATE)

  /** A store just created: only the hash-key records are on disk. */
  function Fresh(autoCommit: bool): Store {
    Store(FRESH_DISK, ZERO_STATE, [], autoCommit, true, false, 0, [FRESH_DISK])
  }

  // ---------- single file writes ----------

  function PutDisk(s: Store, d: Disk): Store {
    s.(disk := d, history := s.history + [d])
  }

  function WriteData(s: Store, r: Rec): Store {
    if s.rebuild then s
    else PutDisk(s, s.disk.(data := s.disk.data + [r])).(lastOffset := End(s.disk.data))
  }

  function SaveState(s: Store): Store {
    if s.rebuild || !s.rdwr then s else PutDisk(s, s.disk.(saved := s.state))
  }

  function WriteLog(s: Store, sequence: int, reg: LogReg): Store {
    if sequence < 0 then s else PutDisk(s, s.disk.(log := s.disk.log.Put(sequence, reg)))
  }

  function WriteIndex(s: Store, k: int, reg: IndexReg): Store {
    if k < 0 then s else PutDisk(s, s.disk.(index := s.disk.index.Put(k, reg)))
  }

  // ---------- writeFiles, record type by record type ----------

  function NewReg(index: Table<IndexReg>, k: int, slot: Slot): IndexReg {
    if k in index.slots then SetOldest(index.slots[k], slot) else InitReg(slot)
  }

  function WriteRecord(s: Store, r: Rec): Store {
    var s1 := WriteData(s, r);
    var reg := NewReg(s.disk.index, r.serial, Slot(s1.lastOffset, r.sequence, r.autoCommit));
    var s2 := s1.(state := s1.state.(dataCount := s1.state.dataCount + 1),
                  dirty := if s.autoCommit then s.dirty else s.dirty + [r.serial]);
    WriteIndex(WriteLog(SaveState(s2), r.sequence, LogReg(s1.lastOffset, r.serial, Write)), r.serial, reg)
  }

  /** The rollback loop: one index write per listed serial. */
  function EraseSteps(s: Store, serials: seq<int>, n: nat): (r: (Store, IndexReg))
    requires n <= |serials|
  {
    if n == 0 then (s, ZERO_REG)
    else
      var (s', stale) := EraseSteps(s, serials, n - 1);
      var k := serials[n - 1];
      var reg := SetNewest(if k in s'.disk.index.slots then s'.disk.index.slots[k] else stale, -1, false);
      (WriteIndex(s', k, reg), reg)
  }

  function RollbackBeginRecord(s: Store, r: Rec): Store {
    var s1 := WriteLog(WriteData(s, r), r.sequence, LogReg(0, r.serial, RollbackBegin));
    if r.body.Serials? then EraseSteps(s1, r.body.serials, |r.body.serials|).0 else s1
  }

  function RollbackEndRecord(s: Store, r: Rec): Store {
    WriteLog(WriteData(s, r.(body := NO_BODY)), r.sequence, LogReg(0, r.serial, RollbackEnd))
  }

  function CommitRecord(s: Store, r: Rec): Store {
    var s1 := WriteData(s, r.(body := NO_BODY));
    var s2 := s1.(state := s1.state.(commitCount := s1.state.commitCount + 1, lastCommit := r.sequence));
    WriteLog(s2, r.sequence, LogReg(s1.lastOffset, r.serial, Commit))
  }

  function StatusRec(sequence: int): Rec {
    Rec(Status, 0, sequence, 0, false, NO_BODY)
  }

  /** The periodic status snapshot. */
  function StatusStep(s: Store): Store {
    if s.state.count % STATUS_FREQ != STATUS_FREQ - 1 then s
    else
      var q := s.state.lastSequence + 1;
      var s1 := WriteData(s.(state := s.state.(count := s.state.count + 1, lastSequence := q)), StatusRec(q));
      SaveState(WriteLog(s1, q, LogReg(s1.lastOffset, 0, Status)))
  }

  function RecordStep(s: Store, r: Rec): Store {
    match r.kind
    case Write => WriteRecord(s, r)
    case RollbackBegin => RollbackBeginRecord(s, r)
    case RollbackEnd => RollbackEndRecord(s, r)
    case Commit => CommitRecord(s, r)
    case Status => s
  }

  function Counted(s: Store, r: Rec): Store {
    s.(state := s.state.(count := s.state.count + 1, lastSequence := r.sequence))
  }

  function WriteFiles(s: Store, r: Rec): Store {
    StatusStep(RecordStep(Counted(s, r), r))
  }

  // ---------- the calls of a session ----------

  datatype Call = CallWrite(serial: int, bytes: seq<byte>) | CallCommit | CallRollback

  function WriteRec(s: Store, k: int, bytes: seq<byte>): Rec {
    Rec(Write, k, s.state.lastSequence + 1, |bytes|, s.autoCommit, Bytes(bytes))
  }

  function CommitRec(s: Store): Rec {
    Rec(Commit, 0, s.state.lastSequence + 1, 0, false, NO_BODY)
  }

  function RollbackBeginRec(s: Store): Rec {
    Rec(RollbackBegin, 0, s.state.lastSequence + 1, 0, false, Serials(s.dirty))
  }

  function RollbackEndRec(s: Store): Rec {
    Rec(RollbackEnd, 0, s.state.lastSequence + 1, 0, false, NO_BODY)
  }

  function DoWrite(s: Store, k: int, bytes: seq<byte>): Store {
    WriteFiles(s, WriteRec(s, k, bytes))
  }

  function DoCommit(s: Store): Store {
    if s.autoCommit then s else WriteFiles(s, CommitRec(s)).(dirty := [])
  }

  function DoRollback(s: Store): Store {
    if s.autoCommit then s
    else
      var s1 := WriteFiles(s, RollbackBeginRec(s));
      WriteFiles(s1, RollbackEndRec(s1)).(dirty := [])
  }

  function Do(s: Store, c: Call): Store {
    match c
    case CallWrite(k, bytes) => DoWrite(s, k, bytes)
    case CallCommit => DoCommit(s)
    case CallRollback => DoRollback(s)
  }

  /** One writer session from creation. */
  function Run(calls: seq<Call>, autoCommit: bool): Store {
    if calls == [] then Fresh(autoCommit)
    else Do(Run(calls[..|calls| - 1], autoCommit), calls[|calls| - 1])
  }

  /** Serial 0 holds the hash key, so callers use 1 and up. */
  predicate ValidCalls(calls: seq<Call>) {
    forall i :: 0 <= i < |calls| && calls[i].CallWrite? ==> calls[i].serial >= 1
  }

  // ---------- reading ----------

  datatype ReadResult = Found(body: Body) | Failed(code: int)

  /** fdata.read at an offset: the record whose frame starts there. */
  function ReadData(data: Log, offset: int): ReadResult {
    var i := Locate(data, offset);
    if i >= 0 then Found(data[i].body) else Failed(E_READ)
  }

  /** read() with lastCommit in memory; rdwr handles always read dirty. */
  function ReadAs(d: Disk, k: int, lastCommit: int, dirtyMode: bool, rdwr: bool): ReadResult {
    match d.index.Get(k, rdwr)
    case Empty => Failed(E_SERIAL_NOT_FOUND)
    case Eof => Failed(E_EOF)
    case BeforeStart => Failed(E_READ_SEEK)
    case Ok(reg) =>
      var offset := LastOffset(reg, lastCommit, dirtyMode || rdwr);
      if offset <= 0 then Failed(E_SERIAL_NOT_FOUND) else ReadData(d.data, offset)
  }

  /** The writer's own read. */
  function WriterRead(s: Store, k: int): ReadResult {
    ReadAs(s.disk, k, s.state.lastCommit, false, true)
  }

  /** A read-only handle loads the saved state, then reads in committed mode. */
  function CommittedRead(d: Disk, k: int): ReadResult {
    ReadAs(d, k, d.saved.lastCommit, false, false)
  }

  datatype LogResult = Record(r: Rec) | LogFailed(code: int)

  /** readLog: a log entry, then the record at its offset. */
  function ReadLogAs(d: Disk, sequence: int, rdwr: bool): LogResult {
    match d.log.Get(sequence, rdwr)
    case Empty => LogFailed(E_EMPTY_DATA)
    case Eof => LogFailed(E_EOF)
    case BeforeStart => LogFailed(E_READ_SEEK)
    case Ok(reg) =>
      var i := Locate(d.data, reg.offset);
      if i >= 0 then Record(d.data[i]) else LogFailed(E_READ)
  }

  /** What the full multi-version log answers: version i of the data file, or absence. */
  predicate Answers(result: ReadResult, data: Log, i: int)
    requires i < |data|
  {
    if i >= 0 then result == Found(data[i].body) else result.Failed? && result.code in {E_SERIAL_NOT_FOUND, E_EOF, E_READ_SEEK}
  }
}
