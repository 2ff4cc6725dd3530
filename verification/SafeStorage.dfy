/**
 The storage handle: fields updated in place, one method per operation, each proved to take
 the state of the model to the state the model says.
 */
module SafeStorage {
  import opened Bytes
  import opened Records
  import opened Tables
  import opened SlotIndex
  import opened StoreModel
  import opened VersionLog
  import opened Discipline
  import SessionInvariant
  import Isolation
  import Sessions
  import Rollbacks
  import Replay
  import opened CallReads
  import opened ReplayLogs

  class Storage {
    // the four files
    var data: Log
    var index: Table<IndexReg>
    var log: Table<LogReg>
    var saved: State
    // memory
    var state: State
    var dirtySerials: seq<int>
    var autoCommit: bool
    var rdwr: bool
    var rebuilding: bool
    var lastOffset: int
    var cursor: int
    // every state the files have been in
    ghost var history: seq<Disk>

    ghost function OnDisk(): Disk
      reads this
    {
      Disk(data, index, log, saved)
    }

    ghost function Abs(): Store
      reads this
    {
      Store(OnDisk(), state, dirtySerials, autoCommit, rdwr, rebuilding, lastOffset, history)
    }

    /** A new store, opened for writing. */
    constructor Create(autoCommit: bool)
      ensures Abs() == Fresh(autoCommit)
    {
      data, index, log, saved := [], FRESH_INDEX, Table(map[], 1), ZERO_STATE;
      state, dirtySerials, lastOffset, cursor := ZERO_STATE, [], 0, -1;
      this.autoCommit, rdwr, rebuilding := autoCommit, true, false;
      history := [FRESH_DISK];
    }

    /** A handle on existing files, opened for reading: it sees what is on disk and nothing else. */
    constructor OpenReader(d: Disk)
      ensures OnDisk() == d && state == d.saved && !rdwr
    {
      data, index, log, saved := d.data, d.index, d.log, d.saved;
      state, dirtySerials, lastOffset, cursor := d.saved, [], 0, -1;
      autoCommit, rdwr, rebuilding := false, false, false;
      history := [];
    }

    /** rebuild() on a new handle: scan the data file and hand every record to writeFiles. */
    constructor Rebuild(file: Log, autoCommit: bool)
      ensures Abs() == Replay.Rebuild(file, false, autoCommit)
    {
      data, index, log, saved := file, FRESH_INDEX, Table(map[], 1), ZERO_STATE;
      state, dirtySerials, lastOffset, cursor := ZERO_STATE, [], 0, -1;
      this.autoCommit, rdwr, rebuilding := autoCommit, false, true;
      history := [];
      new;
      ScanAll(file);
      rebuilding := false;
      SaveState();
    }

    /** The scan of rebuild(). */
    method ScanAll(file: Log)
      requires Abs() == Replay.RebuildStart(file, false, autoCommit)
      modifies this
      ensures Abs() == Replay.RebuildSteps(file, |file|, false, old(autoCommit))
    {
      ghost var auto := autoCommit;
      var i := 0;
      while i < |file|
        invariant 0 <= i <= |file|
        invariant Abs() == Replay.RebuildSteps(file, i, false, auto)
      {
        Replay.RebuildNext(file, i, false, auto);
        RebuildStep(file, i);
        i := i + 1;
      }
    }

    /** One record of the scan. */
    method RebuildStep(file: Log, i: nat)
      requires i < |file|
      modifies this
      ensures Abs() == StoreModel.WriteFiles(old(Abs()).(lastOffset := OffsetOf(file, i)), Replay.Buffered(file[i]))
    {
      lastOffset := OffsetOf(file, i);
      var _ := WriteFiles(Replay.Buffered(file[i]));
    }

    // ---------- single file writes ----------

    method WriteData(r: Rec) returns (offset: int)
      modifies this
      ensures Abs() == StoreModel.WriteData(old(Abs()), r) && offset == lastOffset
    {
      if !rebuilding {
        lastOffset := End(data);
        data := data + [r];
        history := history + [OnDisk()];
      }
      offset := lastOffset;
    }

    method SaveState()
      modifies this
      ensures Abs() == StoreModel.SaveState(old(Abs()))
    {
      if rebuilding || !rdwr { return; }
      saved := state;
      history := history + [OnDisk()];
    }

    method LoadState()
      modifies this`state
      ensures state == saved
    {
      state := saved;
    }

    method WriteLog(sequence: int, reg: LogReg)
      modifies this
      ensures Abs() == StoreModel.WriteLog(old(Abs()), sequence, reg)
    {
      if sequence >= 0 {
        log := log.Put(sequence, reg);
        history := history + [OnDisk()];
      }
    }

    method WriteIndex(k: int, reg: IndexReg)
      modifies this
      ensures Abs() == StoreModel.WriteIndex(old(Abs()), k, reg)
    {
      if k >= 0 {
        index := index.Put(k, reg);
        history := history + [OnDisk()];
      }
    }

    method AddDirtySerial(k: int)
      modifies this`dirtySerials
      ensures dirtySerials == old(dirtySerials) + [k]
    {
      dirtySerials := dirtySerials + [k];
    }

    // ---------- writeFiles ----------

    method WriteRecord(r: Rec) returns (result: int)
      modifies this
      ensures Abs() == StoreModel.WriteRecord(old(Abs()), r) && result == BodySize(r.body)
    {
      var offset := WriteData(r);
      state := state.(dataCount := state.dataCount + 1);
      var slot := Slot(offset, r.sequence, r.autoCommit);
      var reg := if r.serial in index.slots then SetOldest(index.slots[r.serial], slot) else InitReg(slot);
      if !autoCommit {
        AddDirtySerial(r.serial);
      }
      SaveState();
      WriteLog(r.sequence, LogReg(offset, r.serial, Write));
      WriteIndex(r.serial, reg);
      result := BodySize(r.body);
    }

    method RollbackBeginRecord(r: Rec)
      modifies this
      ensures Abs() == StoreModel.RollbackBeginRecord(old(Abs()), r)
    {
      var _ := WriteData(r);
      WriteLog(r.sequence, LogReg(0, r.serial, RollbackBegin));
      if r.body.Serials? {
        ghost var s1 := Abs();
        var serials, reg, i := r.body.serials, ZERO_REG, 0;
        while i < |serials|
          invariant 0 <= i <= |serials|
          invariant (Abs(), reg) == EraseSteps(s1, serials, i)
        {
          if serials[i] in index.slots {
            reg := index.slots[serials[i]];
          }
          reg := SetNewest(reg, -1, false);
          WriteIndex(serials[i], reg);
          i := i + 1;
        }
      }
    }

    method RollbackEndRecord(r: Rec)
      modifies this
      ensures Abs() == StoreModel.RollbackEndRecord(old(Abs()), r)
    {
      var _ := WriteData(r.(body := NO_BODY));
      WriteLog(r.sequence, LogReg(0, r.serial, RollbackEnd));
    }

    method CommitRecord(r: Rec)
      modifies this
      ensures Abs() == StoreModel.CommitRecord(old(Abs()), r)
    {
      var offset := WriteData(r.(body := NO_BODY));
      state := state.(commitCount := state.commitCount + 1, lastCommit := r.sequence);
      WriteLog(r.sequence, LogReg(offset, r.serial, Kind.Commit));
    }

    method StatusStep()
      modifies this
      ensures Abs() == StoreModel.StatusStep(old(Abs()))
    {
      if state.count % STATUS_FREQ == STATUS_FREQ - 1 {
        var q := state.lastSequence + 1;
        state := state.(count := state.count + 1, lastSequence := q);
        var offset := WriteData(StatusRec(q));
        WriteLog(q, LogReg(offset, 0, Status));
        SaveState();
      }
    }

    /** The switch of writeFiles. */
    method WriteByType(r: Rec) returns (result: int)
      modifies this
      ensures Abs() == RecordStep(old(Abs()), r)
      ensures result == if r.kind.Write? then BodySize(r.body) else E_OK
    {
      result := E_OK;
      match r.kind {
        case Write => result := WriteRecord(r);
        case RollbackBegin => RollbackBeginRecord(r);
        case RollbackEnd => RollbackEndRecord(r);
        case Commit => CommitRecord(r);
        case Status =>
      }
    }

    method WriteFiles(r: Rec) returns (result: int)
      modifies this
      ensures Abs() == StoreModel.WriteFiles(old(Abs()), r)
      ensures result == if r.kind.Write? then BodySize(r.body) else E_OK
    {
      state := state.(count := state.count + 1, lastSequence := r.sequence);
      result := WriteByType(r);
      StatusStep();
    }

    // ---------- the calls ----------

    method Put(k: int, bytes: seq<byte>) returns (result: int)
      modifies this
      ensures Abs() == DoWrite(old(Abs()), k, bytes) && result == |bytes|
    {
      result := WriteFiles(Rec(Write, k, state.lastSequence + 1, |bytes|, autoCommit, Bytes(bytes)));
    }

    method Commit() returns (result: int)
      modifies this
      ensures Abs() == DoCommit(old(Abs())) && result == E_OK
    {
      if autoCommit { return E_OK; }
      result := WriteFiles(Rec(Kind.Commit, 0, state.lastSequence + 1, 0, false, NO_BODY));
      dirtySerials := [];
    }

    /** The payload of ROLLBACK_BEGIN: a copy of the dirty list. */
    method CopyDirty() returns (serials: seq<int>)
      ensures serials == dirtySerials
    {
      serials := [];
      var i := 0;
      while i < |dirtySerials|
        invariant 0 <= i <= |dirtySerials| && serials == dirtySerials[..i]
      {
        serials := serials + [dirtySerials[i]];
        i := i + 1;
      }
    }

    method BeginRollback()
      modifies this
      ensures Abs() == StoreModel.WriteFiles(old(Abs()), RollbackBeginRec(old(Abs())))
    {
      var serials := CopyDirty();
      var _ := WriteFiles(Rec(RollbackBegin, 0, state.lastSequence + 1, 0, false, Serials(serials)));
    }

    method EndRollback() returns (result: int)
      modifies this
      ensures Abs() == StoreModel.WriteFiles(old(Abs()), RollbackEndRec(old(Abs()))).(dirty := [])
      ensures result == E_OK
    {
      result := WriteFiles(Rec(RollbackEnd, 0, state.lastSequence + 1, 0, false, NO_BODY));
      dirtySerials := [];
    }

    method Rollback() returns (result: int)
      modifies this
      ensures Abs() == DoRollback(old(Abs()))
      ensures result == if old(autoCommit) then E_NO_ROLLBACK_IN_AUTOCOMMIT else E_OK
    {
      if autoCommit { return E_NO_ROLLBACK_IN_AUTOCOMMIT; }
      BeginRollback();
      result := EndRollback();
    }

    method ApplyLog(r: Rec) returns (result: int)
      modifies this
      ensures Abs() == StoreModel.WriteFiles(old(Abs()), r)
      ensures result == if r.kind.Write? then BodySize(r.body) else E_OK
    {
      result := WriteFiles(r);
    }

    // ---------- reading ----------

    /** The visible slot with the largest sequence, found by a loop over the two slots. */
    method GetLastOffset(reg: IndexReg, dirtyMode: bool) returns (offset: int)
      ensures offset == LastOffset(reg, state.lastCommit, dirtyMode || rdwr)
    {
      var slots, lastSequence, i := [reg.slots0, reg.slots1], 0, 0;
      offset := -1;
      while i < 2
        invariant 0 <= i <= 2
        invariant i == 0 ==> offset == -1 && lastSequence == 0
        invariant i == 1 ==>
          if reg.slots0.sequence >= 0 && Visible(reg.slots0, state.lastCommit, dirtyMode || rdwr)
          then offset == reg.slots0.offset && lastSequence == reg.slots0.sequence
          else offset == -1 && lastSequence == 0
        invariant i == 2 ==> offset == LastOffset(reg, state.lastCommit, dirtyMode || rdwr)
      {
        if slots[i].sequence >= lastSequence && Visible(slots[i], state.lastCommit, dirtyMode || rdwr) {
          offset, lastSequence := slots[i].offset, slots[i].sequence;
        }
        i := i + 1;
      }
    }

    method Read(k: int, dirtyMode: bool) returns (result: ReadResult)
      modifies this`cursor, this`state
      ensures cursor == k && state == (if rdwr then old(state) else saved)
      ensures result == ReadAs(OnDisk(), k, state.lastCommit, dirtyMode, rdwr)
    {
      cursor := k;
      if !rdwr { LoadState(); }
      match index.Get(k, rdwr) {
        case Empty => return Failed(E_SERIAL_NOT_FOUND);
        case Eof => return Failed(E_EOF);
        case BeforeStart => return Failed(E_READ_SEEK);
        case Ok(reg) =>
          var offset := GetLastOffset(reg, dirtyMode);
          if offset <= 0 { return Failed(E_SERIAL_NOT_FOUND); }
          return ReadData(data, offset);
      }
    }

    method ReadLog(sequence: int) returns (result: LogResult)
      modifies this`state
      ensures state == (if rdwr then old(state) else saved)
      ensures result == ReadLogAs(OnDisk(), sequence, rdwr)
    {
      if !rdwr { LoadState(); }
      match log.Get(sequence, rdwr) {
        case Empty => return LogFailed(E_EMPTY_DATA);
        case Eof => return LogFailed(E_EOF);
        case BeforeStart => return LogFailed(E_READ_SEEK);
        case Ok(reg) =>
          var i := Locate(data, reg.offset);
          return if i >= 0 then Record(data[i]) else LogFailed(E_READ);
      }
    }
  }

  // ---------- whole sessions on the class ----------

  /** One call of a session. */
  method Perform(s: Storage, c: Call)
    modifies s
    ensures s.Abs() == Do(old(s.Abs()), c)
  {
    match c {
      case CallWrite(k, bytes) => var _ := s.Put(k, bytes);
      case CallCommit => var _ := s.Commit();
      case CallRollback => var _ := s.Rollback();
    }
  }

  lemma RunNext(calls: seq<Call>, i: nat, autoCommit: bool)
    requires i < |calls|
    ensures Run(calls[..i + 1], autoCommit) == Do(Run(calls[..i], autoCommit), calls[i])
  {
    assert calls[..i + 1][..i] == calls[..i];
  }

  /** A writer session from creation: the object ends in the state of the run. */
  method Session(calls: seq<Call>, autoCommit: bool) returns (s: Storage)
    ensures fresh(s) && s.Abs() == Run(calls, autoCommit)
  {
    s := new Storage.Create(autoCommit);
    var i := 0;
    while i < |calls|
      invariant 0 <= i <= |calls| && fresh(s) && s.Abs() == Run(calls[..i], autoCommit)
    {
      RunNext(calls, i, autoCommit);
      Perform(s, calls[i]);
      i := i + 1;
    }
    assert calls[..i] == calls;
  }

  /** After a session, the writer itself reads serial k. */
  method ReadAfter(calls: seq<Call>, k: int) returns (result: ReadResult)
    requires ValidCalls(calls)
    ensures var data := Run(calls, false).disk.data;
      Answers(result, data, SnapshotRead(data, k, |data|)) <==> k in TxnWrites(calls) || k in Alive(calls) || k !in CommittedSerials(calls)
    ensures k != 0 ==> result == Answer(Latest(calls, false, k), AbsentCode(calls, k, true))
  {
    var s := Session(calls, false);
    SessionInvariant.RunsKeepInv(calls, false);
    result := s.Read(k, false);
    Rollbacks.WriterReadsExactly(calls, k);
    if k != 0 { NewestReads(calls, false, k, Run(calls, false).state.lastCommit, false, true); }
  }

  lemma OwnWrite(calls: seq<Call>, autoCommit: bool, k: int, bytes: seq<byte>, t: Store)
    requires ValidCalls(calls) && k >= 1 && t == DoWrite(Run(calls, autoCommit), k, bytes)
    ensures t.rdwr && WriterRead(t, k) == Found(Bytes(bytes))
  {
    var more := calls + [CallWrite(k, bytes)];
    LastCall(calls, CallWrite(k, bytes));
    SessionInvariant.RunsKeepInv(more, autoCommit);
    ReadsOwnWrite(calls, autoCommit, k, bytes);
  }

  /** A session that ends with a write of k, which the writer then reads back. */
  method WriteAndRead(calls: seq<Call>, autoCommit: bool, k: int, bytes: seq<byte>) returns (written: int, result: ReadResult)
    requires ValidCalls(calls) && k >= 1
    ensures written == |bytes| && result == Found(Bytes(bytes))
  {
    var s := Session(calls, autoCommit);
    written := s.Put(k, bytes);
    OwnWrite(calls, autoCommit, k, bytes, s.Abs());
    result := s.Read(k, false);
  }

  /** After a session, a new read-only handle reads serial k. */
  method ReadCommittedAfter(calls: seq<Call>, k: int) returns (result: ReadResult)
    requires ValidCalls(calls) && k != 0
    ensures result == Answer(Shown(Saving(calls), k), AbsentCode(Saving(calls), k, false))
  {
    var s := Session(calls, false);
    var reader := new Storage.OpenReader(Disk(s.data, s.index, s.log, s.saved));
    result := reader.Read(k, false);
    CommittedReads(calls, k);
  }

  /** A new read-only handle, opened between two file writes of a write-once session, reads serial k. */
  method ReadDuring(d: Disk, k: int, ghost calls: seq<Call>, ghost n: nat) returns (result: ReadResult)
    requires ValidCalls(calls) && WriteOnce(calls)
    requires n < |Run(calls, false).history| && d == Run(calls, false).history[n]
    ensures 0 <= d.saved.lastCommit <= |d.data| && Answers(result, d.data, SnapshotRead(d.data, k, d.saved.lastCommit))
  {
    Sessions.SnapshotIsolation(calls);
    assert Isolation.Isolated(d);
    var reader := new Storage.OpenReader(d);
    result := reader.Read(k, false);
    assert Answers(CommittedRead(d, k), d.data, SnapshotRead(d.data, k, d.saved.lastCommit));
  }

  /** A replica that is fed all records of a data file. */
  method Replicate(file: Log, autoCommit: bool) returns (p: Storage)
    ensures fresh(p) && p.Abs() == Replay.ApplyAll(file, |file|, autoCommit)
  {
    p := new Storage.Create(autoCommit);
    var i := 0;
    while i < |file|
      invariant 0 <= i <= |file| && fresh(p) && p.Abs() == Replay.ApplyAll(file, i, autoCommit)
    {
      Replay.ApplyNext(file, i, autoCommit);
      var _ := p.ApplyLog(file[i]);
      i := i + 1;
    }
  }

  /** After a session, a new handle rebuilds the store from its data file. */
  method RebuildAfter(calls: seq<Call>, autoCommit: bool) returns (b: Storage)
    requires ValidCalls(calls) && Replay.RollbacksFit(Run(calls, autoCommit).disk.data)
    ensures fresh(b) && Replay.SameAsLive(b.Abs(), Run(calls, autoCommit))
    ensures b.state == StateAfter(Run(calls, autoCommit).disk.data, |Run(calls, autoCommit).disk.data|)
  {
    var s := Session(calls, autoCommit);
    b := new Storage.Rebuild(s.data, autoCommit);
    Replay.RebuildEqualsLive(calls, autoCommit, false, autoCommit);
    RebuildCounts(calls, autoCommit, false, autoCommit);
  }

  /** A replica of a session returns the record under sequence q. */
  method ReadReplicaLog(calls: seq<Call>, autoCommit: bool, q: nat) returns (result: LogResult)
    requires ValidCalls(calls) && 1 <= q <= |Run(calls, autoCommit).disk.data|
    requires Run(calls, autoCommit).disk.data[q - 1].kind in {Write, Kind.Commit}
    ensures result == Record(Run(calls, autoCommit).disk.data[q - 1])
  {
    var s := Session(calls, autoCommit);
    var p := Replicate(s.data, autoCommit);
    result := p.ReadLog(q);
    ReplicaLog(calls, autoCommit, autoCommit);
    assert ReplicaLogAnswers(p.OnDisk(), s.data, q);
  }
}
