/**
 Every state the files pass through in a session, disciplined or not: how each one follows from
 the one before, and which part of the data file its index stands for.
 */
module History {
  import opened Bytes
  import opened Records
  import opened VersionLog
  import opened SlotIndex
  import opened StoreModel
  import opened SessionInvariant

  // ---------- one file write ----------

  ghost predicate DataStep(d: Disk, d': Disk) {
    |d'.data| == |d.data| + 1 && d' == d.(data := d.data + [d'.data[|d.data|]])
  }

  ghost predicate IndexStepOf(d: Disk, d': Disk, k: int) {
    k >= 1 && k in d'.index.slots && d' == d.(index := d.index.Put(k, d'.index.slots[k]))
  }

  ghost predicate LogStepOf(d: Disk, d': Disk, q: int) {
    q >= 1 && q in d'.log.slots && d' == d.(log := d.log.Put(q, d'.log.slots[q]))
  }

  /** The state is saved, with the commit number of the last COMMIT in the data file. */
  ghost predicate SaveStep(d: Disk, d': Disk) {
    d' == d.(saved := d'.saved) && d.saved.lastCommit <= d'.saved.lastCommit == LastCommit(d.data)
  }

  /** A record is appended, an index or log entry is written, or the state is saved. */
  ghost predicate FileWrite(d: Disk, d': Disk) {
    || DataStep(d, d')
    || (exists k :: IndexStepOf(d, d', k))
    || (exists q :: LogStepOf(d, d', q))
    || SaveStep(d, d')
  }

  // ---------- what the index of one state stands for ----------

  /**
   The index is that of the records log, the first n serials of whose open transaction are
   already erased, and the saved commit number is that of log.  The data file may be longer;
   with auto-commit by one record at most.
   */
  ghost predicate Placed(d: Disk, auto: bool, log: Log, n: nat) {
    && WellFormed(d.data, auto) && log <= d.data && n <= |PendingSerials(log)|
    && d.index == EraseLoop(IndexOf(log), PendingSerials(log), n).0
    && d.saved.lastCommit == LastCommit(log)
    && (auto ==> n == 0 && |d.data| <= |log| + 1)
  }

  ghost predicate PlacedSomewhere(d: Disk, auto: bool) {
    exists log, n :: Placed(d, auto, log, n)
  }

  /** Log entries name records, and the saved numbers count them. */
  ghost predicate EntrySound(reg: LogReg, data: Log, q: int) {
    1 <= q <= |data| && reg.serial == data[q - 1].serial && 0 <= reg.offset <= End(data)
  }

  predicate Counts(n: int, data: Log) {
    0 <= n <= |data|
  }

  predicate StateCounts(st: State, data: Log) {
    && Counts(st.count, data) && Counts(st.commitCount, data) && Counts(st.dataCount, data)
    && Counts(st.lastCommit, data) && Counts(st.lastSequence, data)
  }

  ghost predicate FilesSound(d: Disk) {
    (forall q :: q in d.log.slots ==> EntrySound(d.log.slots[q], d.data, q)) && StateCounts(d.saved, d.data)
  }

  /** The files passed through the states h and are now in the last of them, d. */
  ghost predicate Passed(h: seq<Disk>, d: Disk, auto: bool) {
    && h != [] && h[|h| - 1] == d
    && (forall n {:trigger h[n]} :: 0 < n < |h| ==> FileWrite(h[n - 1], h[n]))
    && (forall n :: 0 <= n < |h| ==> PlacedSomewhere(h[n], auto))
    && (forall n :: 0 <= n < |h| ==> FilesSound(h[n]))
  }

  ghost predicate HistoryOk(s: Store) {
    Passed(s.history, s.disk, s.autoCommit)
  }

  /** The history so far, and where the present state stands. */
  ghost predicate At(s: Store, log: Log, n: nat) {
    HistoryOk(s) && Placed(s.disk, s.autoCommit, log, n)
  }

  // ---------- one file write keeps the history ----------

  lemma PassedMore(h: seq<Disk>, d: Disk, d': Disk, auto: bool)
    requires Passed(h, d, auto) && FileWrite(d, d') && FilesSound(d') && PlacedSomewhere(d', auto)
    ensures Passed(h + [d'], d', auto)
  {
  }

  lemma PutAt(s: Store, d: Disk, log: Log, n: nat)
    requires HistoryOk(s) && FileWrite(s.disk, d) && FilesSound(d) && Placed(d, s.autoCommit, log, n)
    ensures At(PutDisk(s, d), log, n)
  {
    PassedMore(s.history, s.disk, d, s.autoCommit);
  }

  lemma LastSound(h: seq<Disk>, d: Disk, auto: bool)
    requires Passed(h, d, auto)
    ensures FilesSound(d) && PlacedSomewhere(d, auto)
  {
    assert FilesSound(h[|h| - 1]);
  }

  lemma EntriesGrow(d: Disk, r: Rec)
    requires FilesSound(d)
    ensures FilesSound(d.(data := d.data + [r]))
  {
    Unfold(d.data, r);
  }

  lemma DataAt(s: Store, r: Rec, log: Log, n: nat)
    requires At(s, log, n) && s.rdwr && !s.rebuild && WellFormed(s.disk.data + [r], s.autoCommit)
    requires s.autoCommit ==> log == s.disk.data
    ensures At(WriteData(s, r), log, n)
  {
    LastSound(s.history, s.disk, s.autoCommit);
    EntriesGrow(s.disk, r);
    PutAt(s, s.disk.(data := s.disk.data + [r]), log, n);
  }

  lemma LogAt(s: Store, q: int, reg: LogReg, log: Log, n: nat)
    requires At(s, log, n) && EntrySound(reg, s.disk.data, q)
    ensures At(WriteLog(s, q, reg), log, n)
  {
    var d := s.disk.(log := s.disk.log.Put(q, reg));
    LastSound(s.history, s.disk, s.autoCommit);
    assert LogStepOf(s.disk, d, q);
    PutAt(s, d, log, n);
  }

  lemma SaveAt(s: Store, log: Log)
    requires HistoryOk(s) && s.rdwr && !s.rebuild
    requires WellFormed(s.disk.data, s.autoCommit) && log <= s.disk.data && s.disk.index == IndexOf(log)
    requires s.state.lastCommit == LastCommit(log) == LastCommit(s.disk.data)
    requires StateCounts(s.state, s.disk.data) && s.disk.saved.lastCommit <= s.state.lastCommit
    requires s.autoCommit ==> |s.disk.data| <= |log| + 1
    ensures At(SaveState(s), log, 0)
  {
    LastSound(s.history, s.disk, s.autoCommit);
    PutAt(s, s.disk.(saved := s.state), log, 0);
  }

  lemma IndexAt(s: Store, k: nat, reg: IndexReg, log: Log, n: nat)
    requires HistoryOk(s) && k >= 1
    requires Placed(s.disk.(index := s.disk.index.Put(k, reg)), s.autoCommit, log, n)
    ensures At(WriteIndex(s, k, reg), log, n)
  {
    var d := s.disk.(index := s.disk.index.Put(k, reg));
    assert IndexStepOf(s.disk, d, k);
    LastSound(s.history, s.disk, s.autoCommit);
    PutAt(s, d, log, n);
  }

  // ---------- one record ----------

  /** Between two records: the index is that of the whole data file. */
  ghost predicate Ready(s: Store, log: Log) {
    Core(s) && At(s, log, 0) && (s.autoCommit ==> log == s.disk.data)
  }

  lemma {:induction false} CommitNotAfter(log: Log, log': Log)
    requires log <= log'
    ensures LastCommit(log) <= LastCommit(log')
    decreases |log'|
  {
    if |log| == |log'| {
      assert log == log';
    } else {
      CommitNotAfter(log, log'[..|log'| - 1]);
    }
  }

  /** A record was appended and entered in the log; the state in memory is st. */
  ghost predicate Logged(s: Store, r: Rec, st: State, t: Store, log: Log) {
    && At(t, log, 0) && t.disk == s.disk.(data := s.disk.data + [r], log := t.disk.log)
    && t == s.(disk := t.disk, history := t.history, lastOffset := End(s.disk.data), state := st)
  }

  /** The first two file writes of any record but a WRITE. */
  lemma LoggedAt(s: Store, r: Rec, st: State, reg: LogReg, log: Log) returns (t: Store)
    requires Ready(s, log) && WellFormed(s.disk.data + [r], s.autoCommit) && r.sequence == |s.disk.data| + 1
    requires reg.serial == r.serial && 0 <= reg.offset <= End(s.disk.data)
    ensures t == WriteLog(WriteData(s.(state := st), r), r.sequence, reg)
    ensures Logged(s, r, st, t, log)
  {
    var s0 := s.(state := st);
    assert At(s0, log, 0);
    DataAt(s0, r, log, 0);
    Unfold(s.disk.data, r);
    LogAt(WriteData(s0, r), r.sequence, reg, log, 0);
    t := WriteLog(WriteData(s0, r), r.sequence, reg);
  }

  /** Records that change no slot and commit nothing. */
  lemma QuietExtends(s: Store, r: Rec)
    requires Core(s) && r.sequence == |s.disk.data| + 1 && (r.kind.Status? || r.kind.RollbackEnd?) && r.body == NO_BODY
    requires r.kind.RollbackEnd? ==> !s.autoCommit
    ensures WellFormed(s.disk.data + [r], s.autoCommit)
    ensures LastCommit(s.disk.data + [r]) == LastCommit(s.disk.data) && IndexOf(s.disk.data + [r]) == IndexOf(s.disk.data)
    ensures PendingSerials(s.disk.data + [r]) == PendingSerials(s.disk.data)
  {
    Extend(s.disk.data, r, s.autoCommit);
    FoldsAfter(s.disk.data, r, 0);
    IndexAfter(s.disk.data, r);
  }

  lemma StatusSaves(s: Store, r: Rec, st: State, t: Store, log: Log)
    requires Ready(s, log) && r == StatusRec(s.state.lastSequence + 1) && Logged(s, r, st, t, log)
    requires st == s.state.(count := s.state.count + 1, lastSequence := s.state.lastSequence + 1)
    ensures At(SaveState(t), s.disk.data + [r], 0)
  {
    QuietExtends(s, r);
    CommitNotAfter(log, s.disk.data);
    SaveAt(t, s.disk.data + [r]);
  }

  lemma StatusAt(s: Store, log: Log) returns (log': Log)
    requires Ready(s, log)
    ensures Ready(StatusStep(s), log')
    ensures s.disk.saved.lastCommit == s.state.lastCommit ==>
      StatusStep(s).disk.saved.lastCommit == StatusStep(s).state.lastCommit
  {
    StatusKeepsCore(s);
    log' := log;
    if s.state.count % STATUS_FREQ == STATUS_FREQ - 1 {
      var q := s.state.lastSequence + 1;
      var r, st := StatusRec(q), s.state.(count := s.state.count + 1, lastSequence := q);
      QuietExtends(s, r);
      var t := LoggedAt(s, r, st, LogReg(End(s.disk.data), 0, Status), log);
      StatusSaves(s, r, st, t, log);
      log' := s.disk.data + [r];
    }
  }

  /** COMMIT and ROLLBACK_END change no slot and save nothing. */
  lemma OtherAt(s: Store, r: Rec, log: Log) returns (log': Log)
    requires Ready(s, log) && s.state.count % STATUS_FREQ != STATUS_FREQ - 1
    requires NextRecord(s, r) && (r.kind.Commit? || r.kind.RollbackEnd?) && !s.autoCommit
    ensures Ready(WriteFiles(s, r), log')
  {
    RecordKeepsCore(s, r);
    var m := RecordStep(Counted(s, r), r);
    var t := LoggedAt(s, r, m.state, EntryFor(r, End(s.disk.data)), log);
    assert m == t;
    log' := StatusAt(m, log);
  }

  // ---------- WRITE ----------

  /** A WRITE appends, saves the state, and enters the record in both indexes. */
  lemma WriteRecordAt(s: Store, r: Rec, log: Log) returns (log': Log)
    requires Ready(s, log) && s.state.count % STATUS_FREQ != STATUS_FREQ - 1
    requires NextRecord(s, r) && r.kind.Write?
    ensures Ready(WriteFiles(s, r), log')
    ensures WriteFiles(s, r).disk.saved.lastCommit == WriteFiles(s, r).state.lastCommit
  {
    RecordKeepsCore(s, r);
    var m := RecordStep(Counted(s, r), r);
    var s2 := WriteSaves(s, r, log);
    var _ := WriteEnters(s, r, s2);
    log' := StatusAt(m, s.disk.data + [r]);
  }

  /** The state in memory once a WRITE was counted. */
  function WriteCounted(s: Store, r: Rec): State {
    s.state.(count := s.state.count + 1, dataCount := s.state.dataCount + 1, lastSequence := r.sequence)
  }

  lemma WriteExtends(s: Store, r: Rec)
    requires Core(s) && NextRecord(s, r) && r.kind.Write?
    ensures WellFormed(s.disk.data + [r], s.autoCommit)
    ensures StateCounts(WriteCounted(s, r), s.disk.data + [r])
    ensures s.state.lastCommit == LastCommit(s.disk.data) == LastCommit(s.disk.data + [r])
  {
    Extend(s.disk.data, r, s.autoCommit);
    FoldsAfter(s.disk.data, r, 0);
  }

  lemma WriteSaves(s: Store, r: Rec, log: Log) returns (t: Store)
    requires Ready(s, log) && NextRecord(s, r) && r.kind.Write?
    ensures t == SaveState(WriteData(s, r).(state := WriteCounted(s, r), dirty := if s.autoCommit then s.dirty else s.dirty + [r.serial]))
    ensures At(t, s.disk.data, 0)
  {
    WriteExtends(s, r);
    DataAt(s, r, log, 0);
    var s2 := WriteData(s, r).(state := WriteCounted(s, r), dirty := if s.autoCommit then s.dirty else s.dirty + [r.serial]);
    CommitNotAfter(log, s.disk.data);
    SaveAt(s2, s.disk.data);
    t := SaveState(s2);
  }

  /** The last two file writes of a WRITE; t' is the state between them. */
  lemma WriteEnters(s: Store, r: Rec, t: Store) returns (t': Store)
    requires Core(s) && NextRecord(s, r) && r.kind.Write? && At(t, s.disk.data, 0)
    requires t == SaveState(WriteData(s, r).(state := WriteCounted(s, r), dirty := if s.autoCommit then s.dirty else s.dirty + [r.serial]))
    requires Stored(s, r, RecordStep(Counted(s, r), r))
    ensures At(t', s.disk.data, 0)
    ensures At(RecordStep(Counted(s, r), r), s.disk.data + [r], 0)
    ensures var m := RecordStep(Counted(s, r), r);
      m == PutDisk(t', m.disk) && m.disk == t'.disk.(index := m.disk.index)
  {
    var data := s.disk.data;
    Unfold(data, r);
    FoldsAfter(data, r, 0);
    IndexAfter(data, r);
    var entry := LogReg(End(data), r.serial, Write);
    LogAt(t, r.sequence, entry, data, 0);
    t' := WriteLog(t, r.sequence, entry);
    var reg := NewReg(s.disk.index, r.serial, Slot(End(data), r.sequence, r.autoCommit));
    IndexAt(t', r.serial, reg, data + [r], 0);
    assert WriteIndex(t', r.serial, reg) == RecordStep(Counted(s, r), r);
  }

  // ---------- ROLLBACK_BEGIN ----------

  /** One more index write of the rollback loop. */
  lemma PlacedNext(d: Disk, log: Log, n: nat, k: nat, reg: IndexReg)
    requires 0 < n <= |PendingSerials(log)| && Placed(d, false, log, n - 1) && k == PendingSerials(log)[n - 1]
    requires reg == EraseLoop(IndexOf(log), PendingSerials(log), n).1
    ensures Placed(d.(index := d.index.Put(k, reg)), false, log, n)
  {
  }

  /** The rollback loop, one index write at a time. */
  lemma {:induction false} EraseAt(s: Store, log: Log, n: nat)
    requires HistoryOk(s) && n <= |PendingSerials(log)| && !s.autoCommit
    requires WellFormed(s.disk.data, false) && log <= s.disk.data && WellFormed(log, false) && s.disk.index == IndexOf(log)
    requires s.disk.saved.lastCommit == LastCommit(log)
    ensures At(EraseSteps(s, PendingSerials(log), n).0, log, n)
  {
    if n > 0 {
      var serials := PendingSerials(log);
      EraseAt(s, log, n - 1);
      EraseStepsEffect(s, serials, n - 1);
      EraseStepsEffect(s, serials, n);
      PendingHaveSlots(log, false);
      var t := EraseSteps(s, serials, n - 1).0;
      var reg := EraseSteps(s, serials, n).1;
      PlacedNext(t.disk, log, n, serials[n - 1], reg);
      IndexAt(t, serials[n - 1], reg, log, n);
    }
  }

  lemma RollbackBeginAt(s: Store, r: Rec, log: Log) returns (log': Log)
    requires Ready(s, log) && s.state.count % STATUS_FREQ != STATUS_FREQ - 1
    requires NextRecord(s, r) && r.kind.RollbackBegin?
    requires PendingSerials(s.disk.data) != [] ==> s.disk.saved.lastCommit == LastCommit(s.disk.data)
    ensures Ready(WriteFiles(s, r), log')
  {
    RecordKeepsCore(s, r);
    var data := s.disk.data;
    var m := RecordStep(Counted(s, r), r);
    Extend(data, r, false);
    FoldsAfter(data, r, 0);
    IndexAfter(data, r);
    var t := LoggedAt(s, r, Counted(s, r).state, LogReg(0, r.serial, RollbackBegin), log);
    log' := log;
    if PendingSerials(data) != [] {
      EraseAt(t, data, |PendingSerials(data)|);
      assert Placed(m.disk, false, data + [r], 0);
      log' := data + [r];
    }
    log' := StatusAt(m, log');
  }

  // ---------- the calls ----------

  /** Between two calls of a session. */
  ghost predicate SessionAt(s: Store, log: Log) {
    && Inv(s) && Ready(s, log)
    && (PendingSerials(s.disk.data) != [] ==> s.disk.saved.lastCommit == LastCommit(s.disk.data))
  }

  lemma FreshAt(auto: bool)
    ensures SessionAt(Fresh(auto), [])
  {
    assert Placed(FRESH_DISK, auto, [], 0);
  }

  lemma WriteCallAt(s: Store, k: int, bytes: seq<byte>, log: Log) returns (log': Log)
    requires SessionAt(s, log) && k >= 1
    ensures SessionAt(DoWrite(s, k, bytes), log')
  {
    WriteKeepsInv(s, k, bytes);
    log' := WriteRecordAt(s, WriteRec(s, k, bytes), log);
  }

  lemma CommitCallAt(s: Store, log: Log) returns (log': Log)
    requires SessionAt(s, log)
    ensures SessionAt(DoCommit(s), log')
  {
    log' := log;
    if !s.autoCommit {
      CommitKeepsInv(s);
      log' := OtherAt(s, CommitRec(s), log);
      CleanAt(WriteFiles(s, CommitRec(s)), log');
    }
  }

  /** Forgetting the dirty list changes no file. */
  lemma CleanAt(t: Store, log: Log)
    requires Ready(t, log)
    ensures Ready(t.(dirty := []), log)
  {
  }

  lemma RollbackCallAt(s: Store, log: Log) returns (log': Log)
    requires SessionAt(s, log)
    ensures SessionAt(DoRollback(s), log')
  {
    log' := log;
    if !s.autoCommit {
      RollbackKeepsInv(s);
      var s1, t := RollbackSteps(s);
      AfterBothRecords(s, RollbackBeginRec(s), s1, RollbackEndRec(s1), t, 0);
      log' := RollbackBeginAt(s, RollbackBeginRec(s), log);
      log' := OtherAt(s1, RollbackEndRec(s1), log');
      CleanAt(t, log');
    }
  }

  lemma CallAt(s: Store, c: Call, log: Log) returns (log': Log)
    requires SessionAt(s, log) && (c.CallWrite? ==> c.serial >= 1)
    ensures SessionAt(Do(s, c), log')
  {
    match c {
      case CallWrite(k, bytes) => log' := WriteCallAt(s, k, bytes, log);
      case CallCommit => log' := CommitCallAt(s, log);
      case CallRollback => log' := RollbackCallAt(s, log);
    }
  }

  /** Every run, disciplined or not, passes only through states that stand for part of the data file. */
  lemma {:induction false} RunsAt(calls: seq<Call>, auto: bool) returns (log: Log)
    requires ValidCalls(calls)
    ensures SessionAt(Run(calls, auto), log) && Run(calls, auto).autoCommit == auto
  {
    if calls == [] {
      FreshAt(auto);
      log := [];
    } else {
      var n := |calls| - 1;
      log := RunsAt(calls[..n], auto);
      CallKeepsInv(Run(calls[..n], auto), calls[n]);
      log := CallAt(Run(calls[..n], auto), calls[n], log);
    }
  }

  lemma HistoryOfRun(calls: seq<Call>, auto: bool)
    requires ValidCalls(calls)
    ensures HistoryOk(Run(calls, auto)) && Run(calls, auto).autoCommit == auto
  {
    var _ := RunsAt(calls, auto);
  }

  /** The data file only grows. */
  lemma {:induction false} DataGrows(h: seq<Disk>, d: Disk, auto: bool, n: nat)
    requires Passed(h, d, auto) && n < |h|
    ensures h[n].data <= d.data
    decreases |h| - n
  {
    if n < |h| - 1 {
      assert FileWrite(h[n], h[n + 1]);
      DataGrows(h, d, auto, n + 1);
    }
  }
}
