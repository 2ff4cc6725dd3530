/**
 What every call of a session keeps: numbering, counters, the index as a replay of the
 data file, and the log index.
 */
module SessionInvariant {
  import opened Bytes
  import opened Records
  import opened Tables
  import opened VersionLog
  import opened SlotIndex
  import opened StoreModel

  /** The log entry of record r at this offset; rollback records discard their offset. */
  function EntryFor(r: Rec, offset: int): LogReg {
    LogReg(if r.kind.RollbackBegin? || r.kind.RollbackEnd? then 0 else offset, r.serial, r.kind)
  }

  ghost predicate EntryAgrees(log: Table<LogReg>, data: Log, i: nat)
    requires i < |data|
  {
    i + 1 in log.slots && log.slots[i + 1] == EntryFor(data[i], OffsetOf(data, i))
  }

  ghost predicate LogAgrees(log: Table<LogReg>, data: Log) {
    && log.top == |data| + 1 && (forall q :: q in log.slots ==> 1 <= q <= |data|)
    && (forall i :: 0 <= i < |data| ==> EntryAgrees(log, data, i))
  }

  ghost predicate StatusPlacedAt(data: Log, i: nat)
    requires i < |data|
  {
    data[i].kind.Status? <==> (i + 1) % STATUS_FREQ == 0
  }

  ghost predicate StatusPlaced(data: Log) {
    forall i :: 0 <= i < |data| ==> StatusPlacedAt(data, i)
  }

  ghost predicate CountersAgree(st: State, data: Log) {
    && st.count == st.lastSequence == |data|
    && st.commitCount == CountKind(data, Commit)
    && st.dataCount == CountKind(data, Write)
    && st.lastCommit == LastCommit(data)
  }

  /** Holds between any two records of a session. */
  ghost predicate Core(s: Store) {
    && s.rdwr && !s.rebuild
    && WellFormed(s.disk.data, s.autoCommit)
    && StatusPlaced(s.disk.data)
    && CountersAgree(s.state, s.disk.data)
    && s.disk.index == IndexOf(s.disk.data)
    && LogAgrees(s.disk.log, s.disk.data)
  }

  /** Holds between any two calls. */
  ghost predicate Inv(s: Store) {
    && Core(s)
    && s.state.count % STATUS_FREQ != STATUS_FREQ - 1
    && s.dirty == (if s.autoCommit then [] else PendingSerials(s.disk.data))
  }

  // ---------- the effect of one record ----------

  lemma {:induction false} EraseStepsEffect(s: Store, serials: seq<int>, n: nat)
    requires n <= |serials|
    ensures EraseSteps(s, serials, n).1 == EraseLoop(s.disk.index, serials, n).1
    ensures var t := EraseSteps(s, serials, n).0;
      && t.disk == s.disk.(index := EraseLoop(s.disk.index, serials, n).0)
      && t == s.(disk := t.disk, history := t.history)
  {
    if n > 0 {
      EraseStepsEffect(s, serials, n - 1);
    }
  }

  /** A record as the session (or a replica) stores it. */
  predicate Storable(r: Rec) {
    && r.sequence >= 0
    && (r.kind.Write? ==> r.serial >= 0)
    && (r.kind.Commit? || r.kind.RollbackEnd? ==> r.body == NO_BODY)
  }

  /** Record r was appended, entered in both indexes, and counted; nothing else changed. */
  ghost predicate Stored(s: Store, r: Rec, t: Store) {
    && r.sequence >= 0
    && t.disk.data == s.disk.data + [r]
    && t.disk.index == IndexStep(s.disk.index, r, End(s.disk.data))
    && t.disk.log == s.disk.log.Put(r.sequence, EntryFor(r, End(s.disk.data)))
    && t.state == State(
                    s.state.count + 1,
                    s.state.commitCount + (if r.kind.Commit? then 1 else 0),
                    s.state.dataCount + (if r.kind.Write? then 1 else 0),
                    if r.kind.Commit? then r.sequence else s.state.lastCommit,
                    r.sequence)
    && t.disk.saved == (if r.kind.Write? || r.kind.Status? then t.state else s.disk.saved)
    && t.dirty == (if r.kind.Write? && !s.autoCommit then s.dirty + [r.serial] else s.dirty)
    && t.rdwr && !t.rebuild && t.autoCommit == s.autoCommit
  }

  lemma RecordEffect(s: Store, r: Rec)
    requires s.rdwr && !s.rebuild && Storable(r) && !r.kind.Status?
    ensures Stored(s, r, RecordStep(Counted(s, r), r))
  {
    if r.kind.RollbackBegin? && r.body.Serials? {
      var s1 := WriteLog(WriteData(Counted(s, r), r), r.sequence, LogReg(0, r.serial, RollbackBegin));
      EraseStepsEffect(s1, r.body.serials, |r.body.serials|);
    }
  }

  lemma StatusEffect(s: Store)
    requires s.rdwr && !s.rebuild && s.state.lastSequence >= 0
    requires s.state.count % STATUS_FREQ == STATUS_FREQ - 1
    ensures Stored(s, StatusRec(s.state.lastSequence + 1), StatusStep(s))
  {
  }

  // ---------- keeping the invariant ----------

  lemma LogAgreesAfter(log: Table<LogReg>, data: Log, r: Rec)
    requires LogAgrees(log, data)
    ensures LogAgrees(log.Put(|data| + 1, EntryFor(r, End(data))), data + [r])
  {
    var data', log' := data + [r], log.Put(|data| + 1, EntryFor(r, End(data)));
    forall i | 0 <= i < |data'|
      ensures EntryAgrees(log', data', i)
    {
      if i < |data| {
        assert EntryAgrees(log, data, i);
        OffsetStable(data, r, i);
      } else {
        assert data'[..i] == data;
      }
    }
  }

  lemma StatusPlacedAfter(data: Log, r: Rec)
    requires StatusPlaced(data)
    requires r.kind.Status? <==> (|data| + 1) % STATUS_FREQ == 0
    ensures StatusPlaced(data + [r])
  {
    forall i | 0 <= i < |data| + 1 ensures StatusPlacedAt(data + [r], i) {
      if i < |data| { assert StatusPlacedAt(data, i); }
    }
  }

  lemma CountAfter(data: Log, r: Rec, kind: Kind)
    ensures CountKind(data + [r], kind) == CountKind(data, kind) + (if r.kind == kind then 1 else 0)
  {
    Unfold(data, r);
  }

  /** One more well-formed record. */
  lemma Extend(data: Log, r: Rec, auto: bool)
    requires WellFormed(data, auto)
    requires r.sequence == |data| + 1
    requires r.kind.Write? ==> r.serial >= 1 && r.autoCommit == auto && r.body.Bytes?
    requires EndsTransaction(r) ==> !auto
    requires r.kind.Commit? || r.kind.RollbackEnd? ==> r.body == NO_BODY
    requires r.kind.RollbackBegin? ==> r.body == Serials(PendingSerials(data))
    ensures WellFormed(data + [r], auto)
  {
    forall i | 0 <= i < |data| + 1
      ensures WellFormedAt(data + [r], i, auto)
    {
      if i < |data| {
        assert (data + [r])[..i] == data[..i];
        assert WellFormedAt(data, i, auto);
      } else {
        assert (data + [r])[..i] == data;
      }
    }
  }

  /** A record handed to writeFiles by one of the three calls. */
  ghost predicate NextRecord(s: Store, r: Rec) {
    && Storable(r)
    && r.sequence == |s.disk.data| + 1
    && (r.kind.Write? ==> r.serial >= 1 && r.autoCommit == s.autoCommit && r.body.Bytes?)
    && (EndsTransaction(r) ==> !s.autoCommit)
    && (r.kind.RollbackBegin? ==> r.body == Serials(PendingSerials(s.disk.data)))
  }

  lemma StoredKeepsCore(s: Store, r: Rec, t: Store)
    requires Core(s) && Stored(s, r, t) && NextRecord(s, r)
    requires r.kind.Status? <==> (|s.disk.data| + 1) % STATUS_FREQ == 0
    ensures Core(t)
  {
    var data := s.disk.data;
    Extend(data, r, s.autoCommit);
    IndexAfter(data, r);
    LogAgreesAfter(s.disk.log, data, r);
    StatusPlacedAfter(data, r);
    CountAfter(data, r, Commit);
    CountAfter(data, r, Write);
    FoldsAfter(data, r, 0);
  }

  function MaybeStatus(count: int, sequence: int): Log {
    if count % STATUS_FREQ == STATUS_FREQ - 1 then [StatusRec(sequence)] else []
  }

  /** writeFiles appends the record, and a STATUS record when the count calls for one. */
  ghost predicate Written(s: Store, r: Rec, t: Store) {
    && Core(t) && t.state.count % STATUS_FREQ != STATUS_FREQ - 1
    && t.disk.data == s.disk.data + [r] + MaybeStatus(s.state.count + 1, r.sequence + 1)
    && t.dirty == (if r.kind.Write? && !s.autoCommit then s.dirty + [r.serial] else s.dirty)
    && t.autoCommit == s.autoCommit
  }

  lemma NextCount(n: int)
    requires n % STATUS_FREQ == STATUS_FREQ - 1
    ensures (n + 1) % STATUS_FREQ == 0
  {
  }

  lemma StatusDue(s: Store) returns (t: Store)
    requires Core(s) && s.state.count % STATUS_FREQ == STATUS_FREQ - 1
    ensures t == StatusStep(s) && Core(t) && t.state.count % STATUS_FREQ != STATUS_FREQ - 1
    ensures t.disk.data == s.disk.data + [StatusRec(s.state.lastSequence + 1)]
    ensures t.dirty == s.dirty && t.autoCommit == s.autoCommit
  {
    t := StatusStep(s);
    NextCount(s.state.count);
    StatusEffect(s);
    StoredKeepsCore(s, StatusRec(s.state.lastSequence + 1), t);
  }

  lemma StatusKeepsCore(s: Store)
    requires Core(s)
    ensures var t := StatusStep(s);
      && Core(t) && t.state.count % STATUS_FREQ != STATUS_FREQ - 1
      && t.disk.data == s.disk.data + MaybeStatus(s.state.count, s.state.lastSequence + 1)
      && t.dirty == s.dirty && t.autoCommit == s.autoCommit
  {
    if s.state.count % STATUS_FREQ == STATUS_FREQ - 1 {
      var _ := StatusDue(s);
    } else {
      assert s.disk.data + [] == s.disk.data;
    }
  }

  lemma RecordKeepsCore(s: Store, r: Rec)
    requires Core(s) && s.state.count % STATUS_FREQ != STATUS_FREQ - 1
    requires NextRecord(s, r) && !r.kind.Status?
    ensures Core(RecordStep(Counted(s, r), r)) && Stored(s, r, RecordStep(Counted(s, r), r))
  {
    RecordEffect(s, r);
    StoredKeepsCore(s, r, RecordStep(Counted(s, r), r));
  }

  lemma WriteFilesKeepsCore(s: Store, r: Rec)
    requires Core(s) && s.state.count % STATUS_FREQ != STATUS_FREQ - 1
    requires NextRecord(s, r) && !r.kind.Status?
    ensures Written(s, r, WriteFiles(s, r))
  {
    RecordKeepsCore(s, r);
    StatusKeepsCore(RecordStep(Counted(s, r), r));
  }

  /** STATUS and ROLLBACK_END records change no fold but the counters. */
  lemma QuietSuffix(data: Log, tail: Log, k: int)
    requires |tail| <= 1
    requires forall i :: 0 <= i < |tail| ==> tail[i].kind.Status? || tail[i].kind.RollbackEnd?
    ensures Pending(data + tail, k) == Pending(data, k)
    ensures Committed(data + tail, k) == Committed(data, k)
    ensures PendingSerials(data + tail) == PendingSerials(data)
    ensures LastCommit(data + tail) == LastCommit(data)
    ensures IndexOf(data + tail) == IndexOf(data)
  {
    if tail == [] {
      assert data + tail == data;
    } else {
      assert tail == [tail[0]];
      FoldsAfter(data, tail[0], k);
      IndexAfter(data, tail[0]);
    }
  }

  lemma WrittenFolds(s: Store, r: Rec, t: Store, k: int)
    requires Written(s, r, t)
    ensures Pending(t.disk.data, k) == Pending(s.disk.data + [r], k)
    ensures Committed(t.disk.data, k) == Committed(s.disk.data + [r], k)
    ensures PendingSerials(t.disk.data) == PendingSerials(s.disk.data + [r])
    ensures LastCommit(t.disk.data) == LastCommit(s.disk.data + [r])
    ensures IndexOf(t.disk.data) == IndexOf(s.disk.data + [r])
  {
    QuietSuffix(s.disk.data + [r], MaybeStatus(s.state.count + 1, r.sequence + 1), k);
  }

  lemma WriteKeepsInv(s: Store, k: int, bytes: seq<byte>)
    requires Inv(s) && k >= 1
    ensures Written(s, WriteRec(s, k, bytes), DoWrite(s, k, bytes))
    ensures Inv(DoWrite(s, k, bytes))
  {
    var r := WriteRec(s, k, bytes);
    WriteFilesKeepsCore(s, r);
    FoldsAfter(s.disk.data, r, k);
    WrittenFolds(s, r, DoWrite(s, k, bytes), k);
  }

  lemma CommitKeepsInv(s: Store)
    requires Inv(s) && !s.autoCommit
    ensures Written(s, CommitRec(s), WriteFiles(s, CommitRec(s)))
    ensures DoCommit(s) == WriteFiles(s, CommitRec(s)).(dirty := [])
    ensures Inv(DoCommit(s)) && DoCommit(s).autoCommit == s.autoCommit
  {
    var r := CommitRec(s);
    WriteFilesKeepsCore(s, r);
    FoldsAfter(s.disk.data, r, 0);
    WrittenFolds(s, r, WriteFiles(s, r), 0);
  }

  /** A rollback stores two records; s1 and t are the states after each. */
  lemma RollbackSteps(s: Store) returns (s1: Store, t: Store)
    requires Inv(s) && !s.autoCommit
    ensures s1 == WriteFiles(s, RollbackBeginRec(s)) && t == WriteFiles(s1, RollbackEndRec(s1))
    ensures DoRollback(s) == t.(dirty := [])
    ensures Written(s, RollbackBeginRec(s), s1) && Written(s1, RollbackEndRec(s1), t)
  {
    s1 := WriteFiles(s, RollbackBeginRec(s));
    WriteFilesKeepsCore(s, RollbackBeginRec(s));
    t := WriteFiles(s1, RollbackEndRec(s1));
    WriteFilesKeepsCore(s1, RollbackEndRec(s1));
  }

  lemma AfterBothIndex(s: Store, r: Rec, s1: Store, e: Rec, t: Store)
    requires Written(s, r, s1) && Written(s1, e, t)
    requires r.kind.RollbackBegin? && e.kind.RollbackEnd?
    ensures IndexOf(t.disk.data) == IndexOf(s.disk.data + [r])
    ensures s.disk.data <= t.disk.data
  {
    WrittenFolds(s, r, s1, 0);
    IndexAfter(s1.disk.data, e);
    WrittenFolds(s1, e, t, 0);
  }

  lemma AfterBothRecords(s: Store, r: Rec, s1: Store, e: Rec, t: Store, k: int)
    requires Written(s, r, s1) && Written(s1, e, t)
    requires r.kind.RollbackBegin? && e.kind.RollbackEnd?
    ensures PendingSerials(t.disk.data) == [] && Pending(t.disk.data, k) == []
    ensures Committed(t.disk.data, k) == Committed(s.disk.data, k)
    ensures LastCommit(t.disk.data) == LastCommit(s.disk.data)
    ensures IndexOf(t.disk.data) == IndexOf(s.disk.data + [r])
    ensures s.disk.data <= t.disk.data
  {
    AfterBothIndex(s, r, s1, e, t);
    FoldsAfter(s.disk.data, r, k);
    WrittenFolds(s, r, s1, k);
    FoldsAfter(s1.disk.data, e, k);
    WrittenFolds(s1, e, t, k);
  }

  lemma RollbackKeepsInv(s: Store)
    requires Inv(s) && !s.autoCommit
    ensures Inv(DoRollback(s)) && DoRollback(s).autoCommit == s.autoCommit
  {
    var s1, t := RollbackSteps(s);
    AfterBothRecords(s, RollbackBeginRec(s), s1, RollbackEndRec(s1), t, 0);
  }

  lemma CallKeepsInv(s: Store, c: Call)
    requires Inv(s) && (c.CallWrite? ==> c.serial >= 1)
    ensures Inv(Do(s, c)) && Do(s, c).autoCommit == s.autoCommit
  {
    match c {
      case CallWrite(k, bytes) => WriteKeepsInv(s, k, bytes);
      case CallCommit => if !s.autoCommit { CommitKeepsInv(s); }
      case CallRollback => if !s.autoCommit { RollbackKeepsInv(s); }
    }
  }

  /** Every reachable state satisfies the invariant. */
  lemma {:induction false} RunsKeepInv(calls: seq<Call>, auto: bool)
    requires ValidCalls(calls)
    ensures Inv(Run(calls, auto)) && Run(calls, auto).autoCommit == auto
  {
    if calls != [] {
      var n := |calls| - 1;
      RunsKeepInv(calls[..n], auto);
      CallKeepsInv(Run(calls[..n], auto), calls[n]);
    }
  }

  // ---------- main results about numbering and the log index ----------

  /** Sequences are positions, STATUS records sit at the multiples of 50, the counters are folds. */
  ghost predicate Numbered(st: State, data: Log) {
    && st.count == st.lastSequence == |data|
    && (forall i :: 0 <= i < |data| ==> data[i].sequence == i + 1)
    && (forall i :: 0 <= i < |data| ==> (data[i].kind.Status? <==> data[i].sequence % STATUS_FREQ == 0))
    && st.dataCount == CountKind(data, Write)
    && st.commitCount == CountKind(data, Commit)
    && st.lastCommit == LastCommit(data)
  }

  lemma InvNumbers(s: Store)
    requires Inv(s)
    ensures Numbered(s.state, s.disk.data)
  {
    var data := s.disk.data;
    forall i | 0 <= i < |data|
      ensures data[i].sequence == i + 1
      ensures data[i].kind.Status? <==> data[i].sequence % STATUS_FREQ == 0
    {
      assert WellFormedAt(data, i, s.autoCommit) && StatusPlacedAt(data, i);
    }
  }

  /**
   Sequence discipline: in every run, sequences are exactly 1..last in file order, STATUS
   records sit at the multiples of 50 and nowhere else, and the counters are folds over the
   data file.
   */
  lemma SequenceDiscipline(calls: seq<Call>, auto: bool)
    requires ValidCalls(calls)
    ensures Numbered(Run(calls, auto).state, Run(calls, auto).disk.data)
  {
    RunsKeepInv(calls, auto);
    InvNumbers(Run(calls, auto));
  }

  /** What the log index answers for sequence q. */
  ghost predicate LogAnswers(d: Disk, q: int) {
    && (q in d.log.slots <==> 1 <= q <= |d.data|)
    && (1 <= q <= |d.data| ==>
          && d.log.slots[q].kind == d.data[q - 1].kind
          && d.log.slots[q].serial == d.data[q - 1].serial
          && d.data[q - 1].sequence == q
          && (d.data[q - 1].kind in {RollbackBegin, RollbackEnd} ==> d.log.slots[q].offset == 0)
          && (d.data[q - 1].kind in {Write, Commit, Status} ==>
                forall rdwr :: ReadLogAs(d, q, rdwr) == Record(d.data[q - 1])))
    && (!(0 <= q <= |d.data|) ==>
          forall rdwr :: ReadLogAs(d, q, rdwr) == LogFailed(if q < 0 then -52 else if rdwr then -70 else -40))
  }

  lemma InvLogs(s: Store, q: int)
    requires Inv(s)
    ensures LogAnswers(s.disk, q)
  {
    var d := s.disk;
    if 1 <= q <= |d.data| {
      assert WellFormedAt(d.data, q - 1, s.autoCommit);
      LocateOffset(d.data, q - 1);
      assert EntryAgrees(d.log, d.data, q - 1);
    }
  }

  /**
   Log index agreement: in every run, every issued sequence has an entry with its type and
   serial, and reading a WRITE, COMMIT or STATUS sequence back returns that very record.
   */
  lemma LogIndexAgreement(calls: seq<Call>, auto: bool)
    requires ValidCalls(calls)
    ensures forall q :: LogAnswers(Run(calls, auto).disk, q)
  {
    RunsKeepInv(calls, auto);
    forall q ensures LogAnswers(Run(calls, auto).disk, q) {
      InvLogs(Run(calls, auto), q);
    }
  }

  // ---------- the state file ----------

  /** The position of the last WRITE or STATUS record; 0 if none. */
  function LastSave(data: Log): (p: nat)
    ensures p <= |data|
  {
    if data == [] then 0
    else
      var n := |data| - 1;
      if data[n].kind.Write? || data[n].kind.Status? then n + 1 else LastSave(data[..n])
  }

  /** The counters after the first p records. */
  function StateAt(data: Log, p: nat): State
    requires p <= |data|
  {
    State(p, CountKind(data[..p], Commit), CountKind(data[..p], Write), LastCommit(data[..p]), p)
  }

  ghost predicate SavedAtLast(d: Disk) {
    d.saved == StateAt(d.data, LastSave(d.data))
  }

  lemma StoredSaves(s: Store, r: Rec, t: Store)
    requires Core(s) && Core(t) && Stored(s, r, t) && SavedAtLast(s.disk)
    ensures SavedAtLast(t.disk)
  {
    var data, data' := s.disk.data, t.disk.data;
    assert data'[..|data|] == data && data'[..|data'|] == data';
    if !r.kind.Write? && !r.kind.Status? {
      assert data'[..LastSave(data)] == data[..LastSave(data)];
    }
  }

  lemma WriteFilesSaves(s: Store, r: Rec)
    requires Core(s) && s.state.count % STATUS_FREQ != STATUS_FREQ - 1 && SavedAtLast(s.disk)
    requires NextRecord(s, r) && !r.kind.Status?
    ensures SavedAtLast(WriteFiles(s, r).disk)
  {
    var m := RecordStep(Counted(s, r), r);
    RecordKeepsCore(s, r);
    StoredSaves(s, r, m);
    StatusStepSaves(m);
  }

  lemma StatusStepSaves(m: Store)
    requires Core(m) && SavedAtLast(m.disk)
    ensures SavedAtLast(StatusStep(m).disk)
  {
    if m.state.count % STATUS_FREQ == STATUS_FREQ - 1 {
      var t := StatusDue(m);
      StatusEffect(m);
      StoredSaves(m, StatusRec(m.state.lastSequence + 1), t);
    }
  }

  lemma CallSaves(s: Store, c: Call)
    requires Inv(s) && SavedAtLast(s.disk) && (c.CallWrite? ==> c.serial >= 1)
    ensures SavedAtLast(Do(s, c).disk)
  {
    match c {
      case CallWrite(k, bytes) => WriteFilesSaves(s, WriteRec(s, k, bytes));
      case CallCommit => if !s.autoCommit { WriteFilesSaves(s, CommitRec(s)); }
      case CallRollback =>
        if !s.autoCommit {
          var s1, t := RollbackSteps(s);
          WriteFilesSaves(s, RollbackBeginRec(s));
          WriteFilesSaves(s1, RollbackEndRec(s1));
        }
    }
  }

  /** After every run, the saved state is that of the last WRITE or STATUS record, in every field. */
  lemma {:induction false} SavedState(calls: seq<Call>, auto: bool)
    requires ValidCalls(calls)
    ensures SavedAtLast(Run(calls, auto).disk)
  {
    if calls != [] {
      var n := |calls| - 1;
      SavedState(calls[..n], auto);
      RunsKeepInv(calls[..n], auto);
      CallSaves(Run(calls[..n], auto), calls[n]);
    }
  }
}
