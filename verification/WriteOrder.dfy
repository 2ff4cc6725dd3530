/** In which order a session writes its four files, told from its calls alone. */
module WriteOrder {
  import opened Bytes
  import opened Records
  import opened VersionLog
  import opened SlotIndex
  import opened StoreModel
  import opened SessionInvariant
  import opened CallLog

  datatype File = DataFile | IndexFile | LogFile | StateFile

  /** At most this file changes. */
  ghost predicate OnlyChanges(d: Disk, d': Disk, f: File) {
    match f
    case DataFile => d' == d.(data := d'.data)
    case IndexFile => d' == d.(index := d'.index)
    case LogFile => d' == d.(log := d'.log)
    case StateFile => d' == d.(saved := d'.saved)
  }

  /** The states h follow from each other by one write to each of these files in turn. */
  ghost predicate Follows(h: seq<Disk>, files: seq<File>) {
    |h| == |files| + 1 && forall n :: 0 <= n < |files| ==> OnlyChanges(h[n], h[n + 1], files[n])
  }

  function Times(f: File, n: nat): seq<File> {
    if n == 0 then [] else Times(f, n - 1) + [f]
  }

  /** The file writes of one record: the index comes last, a rollback writes it once per listed serial. */
  function Order(r: Rec): seq<File> {
    match r.kind
    case Write => [DataFile, StateFile, LogFile, IndexFile]
    case Commit => [DataFile, LogFile]
    case RollbackBegin => [DataFile, LogFile] + Times(IndexFile, if r.body.Serials? then |r.body.serials| else 0)
    case RollbackEnd => [DataFile, LogFile]
    case Status => [DataFile, LogFile, StateFile]
  }

  function OrderOf(log: Log): seq<File> {
    if log == [] then [] else OrderOf(log[..|log| - 1]) + Order(log[|log| - 1])
  }

  lemma OrderAfter(log: Log, r: Rec)
    ensures OrderOf(log + [r]) == OrderOf(log) + Order(r)
  {
    Unfold(log, r);
  }

  // ---------- one file write ----------

  ghost predicate Ordered(s: Store, files: seq<File>) {
    Follows(s.history, files) && s.history[|files|] == s.disk
  }

  lemma PutOrdered(s: Store, d: Disk, files: seq<File>, f: File)
    requires Ordered(s, files) && OnlyChanges(s.disk, d, f)
    ensures Ordered(PutDisk(s, d), files + [f])
  {
  }

  lemma DataOrdered(s: Store, r: Rec, files: seq<File>)
    requires Ordered(s, files) && !s.rebuild
    ensures Ordered(WriteData(s, r), files + [DataFile])
  {
    PutOrdered(s, s.disk.(data := s.disk.data + [r]), files, DataFile);
  }

  lemma LogOrdered(s: Store, q: nat, reg: LogReg, files: seq<File>)
    requires Ordered(s, files)
    ensures Ordered(WriteLog(s, q, reg), files + [LogFile])
  {
    PutOrdered(s, s.disk.(log := s.disk.log.Put(q, reg)), files, LogFile);
  }

  lemma SaveOrdered(s: Store, files: seq<File>)
    requires Ordered(s, files) && s.rdwr && !s.rebuild
    ensures Ordered(SaveState(s), files + [StateFile])
  {
    PutOrdered(s, s.disk.(saved := s.state), files, StateFile);
  }

  lemma IndexOrdered(s: Store, k: nat, reg: IndexReg, files: seq<File>)
    requires Ordered(s, files)
    ensures Ordered(WriteIndex(s, k, reg), files + [IndexFile])
  {
    PutOrdered(s, s.disk.(index := s.disk.index.Put(k, reg)), files, IndexFile);
  }

  // ---------- one record ----------

  /** Data first, then what follows it. */
  lemma LoggedOrdered(s: Store, r: Rec, st: State, reg: LogReg, files: seq<File>)
    requires Ordered(s, files) && !s.rebuild && r.sequence >= 0
    ensures Ordered(WriteLog(WriteData(s, r).(state := st), r.sequence, reg), files + [DataFile, LogFile])
  {
    DataOrdered(s, r, files);
    assert Ordered(WriteData(s, r).(state := st), files + [DataFile]);
    LogOrdered(WriteData(s, r).(state := st), r.sequence, reg, files + [DataFile]);
    assert files + [DataFile] + [LogFile] == files + [DataFile, LogFile];
  }

  lemma WriteOrdered(s: Store, r: Rec, files: seq<File>)
    requires Ordered(s, files) && s.rdwr && !s.rebuild && r.sequence >= 0 && r.serial >= 0
    ensures Ordered(WriteRecord(s, r), files + [DataFile, StateFile, LogFile, IndexFile])
  {
    var s2 := WriteSavedOrdered(s, r, files);
    var reg := NewReg(s.disk.index, r.serial, Slot(End(s.disk.data), r.sequence, r.autoCommit));
    WriteEnteredOrdered(s2, r.sequence, LogReg(End(s.disk.data), r.serial, Write), r.serial, reg, files + [DataFile, StateFile]);
    assert files + [DataFile, StateFile] + [LogFile, IndexFile] == files + [DataFile, StateFile, LogFile, IndexFile];
  }

  lemma WriteSavedOrdered(s: Store, r: Rec, files: seq<File>) returns (t: Store)
    requires Ordered(s, files) && s.rdwr && !s.rebuild
    ensures t == SaveState(WriteData(s, r).(state := s.state.(dataCount := s.state.dataCount + 1), dirty := if s.autoCommit then s.dirty else s.dirty + [r.serial]))
    ensures Ordered(t, files + [DataFile, StateFile])
  {
    var s2 := WriteData(s, r).(state := s.state.(dataCount := s.state.dataCount + 1), dirty := if s.autoCommit then s.dirty else s.dirty + [r.serial]);
    DataOrdered(s, r, files);
    assert Ordered(s2, files + [DataFile]);
    SaveOrdered(s2, files + [DataFile]);
    t := SaveState(s2);
    assert files + [DataFile] + [StateFile] == files + [DataFile, StateFile];
  }

  lemma WriteEnteredOrdered(s: Store, q: nat, entry: LogReg, k: nat, reg: IndexReg, files: seq<File>)
    requires Ordered(s, files)
    ensures Ordered(WriteIndex(WriteLog(s, q, entry), k, reg), files + [LogFile, IndexFile])
  {
    LogOrdered(s, q, entry, files);
    IndexOrdered(WriteLog(s, q, entry), k, reg, files + [LogFile]);
    assert files + [LogFile] + [IndexFile] == files + [LogFile, IndexFile];
  }

  lemma {:induction false} EraseOrdered(s: Store, serials: seq<int>, n: nat, files: seq<File>)
    requires Ordered(s, files) && n <= |serials| && forall i :: 0 <= i < |serials| ==> serials[i] >= 0
    ensures Ordered(EraseSteps(s, serials, n).0, files + Times(IndexFile, n))
  {
    if n == 0 {
      assert files + [] == files;
    } else {
      EraseOrdered(s, serials, n - 1, files);
      IndexOrdered(EraseSteps(s, serials, n - 1).0, serials[n - 1], EraseSteps(s, serials, n).1, files + Times(IndexFile, n - 1));
      assert files + Times(IndexFile, n - 1) + [IndexFile] == files + Times(IndexFile, n);
    }
  }

  lemma RollbackOrdered(s: Store, r: Rec, files: seq<File>)
    requires Ordered(s, files) && !s.rebuild && r.sequence >= 0 && r.kind.RollbackBegin?
    requires r.body.Serials? && forall i :: 0 <= i < |r.body.serials| ==> r.body.serials[i] >= 0
    ensures Ordered(RollbackBeginRecord(s, r), files + Order(r))
  {
    var n := |r.body.serials|;
    LoggedOrdered(s, r, s.state, LogReg(0, r.serial, RollbackBegin), files);
    EraseOrdered(WriteLog(WriteData(s, r), r.sequence, LogReg(0, r.serial, RollbackBegin)), r.body.serials, n, files + [DataFile, LogFile]);
    assert files + [DataFile, LogFile] + Times(IndexFile, n) == files + Order(r);
  }

  lemma RecordOrdered(s: Store, r: Rec, files: seq<File>)
    requires Core(s) && Ordered(s, files) && NextRecord(s, r) && !r.kind.Status?
    ensures Ordered(RecordStep(Counted(s, r), r), files + Order(r))
  {
    var c := Counted(s, r);
    assert Ordered(c, files);
    match r.kind {
      case Write => WriteOrdered(c, r, files);
      case RollbackBegin =>
        PendingHaveSlots(s.disk.data, s.autoCommit);
        RollbackOrdered(c, r, files);
      case RollbackEnd => LoggedOrdered(c, r.(body := NO_BODY), c.state, LogReg(0, r.serial, RollbackEnd), files);
      case Commit =>
        LoggedOrdered(c, r.(body := NO_BODY), c.state.(commitCount := c.state.commitCount + 1, lastCommit := r.sequence),
                      LogReg(End(c.disk.data), r.serial, Commit), files);
    }
  }

  lemma StatusOrdered(s: Store, files: seq<File>)
    requires Core(s) && Ordered(s, files)
    ensures Ordered(StatusStep(s), files + OrderOf(MaybeStatus(s.state.count, s.state.lastSequence + 1)))
  {
    if s.state.count % STATUS_FREQ == STATUS_FREQ - 1 {
      var q := s.state.lastSequence + 1;
      var s0 := s.(state := s.state.(count := s.state.count + 1, lastSequence := q));
      assert Ordered(s0, files);
      LoggedOrdered(s0, StatusRec(q), s0.state, LogReg(End(s.disk.data), 0, Status), files);
      SaveOrdered(WriteLog(WriteData(s0, StatusRec(q)), q, LogReg(End(s.disk.data), 0, Status)), files + [DataFile, LogFile]);
      OneOrder(StatusRec(q));
      assert files + [DataFile, LogFile] + [StateFile] == files + [DataFile, LogFile, StateFile];
    } else {
      assert files + [] == files;
    }
  }

  lemma OneOrder(r: Rec)
    ensures OrderOf([r]) == Order(r)
  {
    assert [r][..0] == [];
    assert OrderOf([]) == [];
  }

  // ---------- whole sessions ----------

  ghost predicate InOrder(s: Store) {
    Ordered(s, OrderOf(s.disk.data))
  }

  lemma WrittenInOrder(s: Store, r: Rec)
    requires Core(s) && s.state.count % STATUS_FREQ != STATUS_FREQ - 1 && InOrder(s)
    requires NextRecord(s, r) && !r.kind.Status?
    ensures InOrder(WriteFiles(s, r))
  {
    var data, m := s.disk.data, RecordStep(Counted(s, r), r);
    WriteFilesKeepsCore(s, r);
    RecordKeepsCore(s, r);
    RecordOrdered(s, r, OrderOf(data));
    OrderAfter(data, r);
    StatusOrdered(m, OrderOf(data + [r]));
    var tail := MaybeStatus(m.state.count, m.state.lastSequence + 1);
    if tail != [] {
      OneOrder(tail[0]);
      OrderAfter(data + [r], tail[0]);
    } else {
      assert OrderOf(data + [r]) + [] == OrderOf(data + [r]) && data + [r] + [] == data + [r];
    }
  }

  lemma CallInOrder(s: Store, c: Call)
    requires Inv(s) && InOrder(s) && (c.CallWrite? ==> c.serial >= 1)
    ensures InOrder(Do(s, c))
  {
    match c {
      case CallWrite(k, bytes) => WrittenInOrder(s, WriteRec(s, k, bytes));
      case CallCommit => if !s.autoCommit { WrittenInOrder(s, CommitRec(s)); }
      case CallRollback =>
        if !s.autoCommit {
          var s1, t := RollbackSteps(s);
          WrittenInOrder(s, RollbackBeginRec(s));
          WrittenInOrder(s1, RollbackEndRec(s1));
        }
    }
  }

  lemma {:induction false} RunInOrder(calls: seq<Call>, auto: bool)
    requires ValidCalls(calls)
    ensures InOrder(Run(calls, auto))
  {
    if calls != [] {
      var n := |calls| - 1;
      RunInOrder(calls[..n], auto);
      RunsKeepInv(calls[..n], auto);
      CallInOrder(Run(calls[..n], auto), calls[n]);
    }
  }

  /**
   The order of all file writes of a session: data before state before log before index for a
   WRITE, data before log and nothing saved for a COMMIT, data and log before the index writes of
   a rollback, and the state last for a STATUS.
   */
  lemma WritesInOrder(calls: seq<Call>, auto: bool)
    requires ValidCalls(calls)
    ensures Follows(Run(calls, auto).history, OrderOf(FileOf(calls, auto)))
  {
    RunInOrder(calls, auto);
    DataFileOfCalls(calls, auto);
  }
}
