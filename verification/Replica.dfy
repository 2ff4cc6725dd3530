/**
 Readers on a replica, between any two of its file writes: they are isolated as those of the
 master are, though the replica's own STATUS records save its state at other times.
 */
module Replica {
  import opened Records
  import opened Tables
  import opened VersionLog
  import opened SlotIndex
  import opened StoreModel
  import opened SessionInvariant
  import opened History
  import opened Isolation
  import opened Discipline
  import opened Replay
  import Sessions

  /** The index of the master after its first m records, with n serials of the open transaction erased. */
  function MasterIndex(data: Log, m: nat, n: nat): Table<IndexReg>
    requires m <= |data| && n <= |PendingSerials(data[..m])|
  {
    EraseLoop(IndexOf(data[..m]), PendingSerials(data[..m]), n).0
  }

  /** The replica's index has the versions of that index, and its saved commit number is that of the m records. */
  ghost predicate Follows(d: Disk, data: Log, m: nat, n: nat) {
    && m <= |data| && n <= |PendingSerials(data[..m])|
    && IndexSim(MasterIndex(data, m, n), data, d.index, d.data)
    && d.saved.lastCommit == LastCommit(data[..m])
  }

  ghost predicate FollowsSomewhere(d: Disk, data: Log) {
    exists m: nat, n: nat :: Follows(d, data, m, n)
  }

  ghost predicate AllFollow(h: seq<Disk>, data: Log) {
    forall n :: 0 <= n < |h| ==> FollowsSomewhere(h[n], data)
  }

  ghost predicate Here(p: Store, data: Log, m: nat, n: nat) {
    AllFollow(p.history, data) && Follows(p.disk, data, m, n) && p.rdwr && !p.rebuild
  }

  // ---------- one file write ----------

  lemma PutHere(p: Store, d: Disk, data: Log, m: nat, n: nat)
    requires AllFollow(p.history, data) && p.rdwr && !p.rebuild && Follows(d, data, m, n)
    ensures Here(PutDisk(p, d), data, m, n)
  {
    assert FollowsSomewhere(d, data);
  }

  lemma DataHere(p: Store, r: Rec, data: Log, m: nat, n: nat)
    requires Here(p, data, m, n)
    ensures Here(WriteData(p, r), data, m, n)
  {
    SimGrows(MasterIndex(data, m, n), data, p.disk.index, p.disk.data, r);
    PutHere(p, p.disk.(data := p.disk.data + [r]), data, m, n);
  }

  lemma LogHere(p: Store, q: int, reg: LogReg, data: Log, m: nat, n: nat)
    requires Here(p, data, m, n)
    ensures Here(WriteLog(p, q, reg), data, m, n)
  {
    if q >= 0 { PutHere(p, p.disk.(log := p.disk.log.Put(q, reg)), data, m, n); }
  }

  lemma SaveHere(p: Store, data: Log, m: nat)
    requires AllFollow(p.history, data) && p.rdwr && !p.rebuild && m <= |data|
    requires IndexSim(IndexOf(data[..m]), data, p.disk.index, p.disk.data) && p.state.lastCommit == LastCommit(data[..m])
    ensures Here(SaveState(p), data, m, 0)
  {
    PutHere(p, p.disk.(saved := p.state), data, m, 0);
  }

  // ---------- one record ----------

  /** Between two records of the master. */
  ghost predicate Following(p: Store, data: Log, i: nat, m: nat) {
    && i <= |data| && Mirrors(p, data, i) && Here(p, data, m, 0)
    && (PendingSerials(data[..i]) != [] ==> p.disk.saved.lastCommit == LastCommit(data[..i]))
  }

  lemma NextPending(data: Log, i: nat)
    requires i < |data|
    ensures data[..i + 1] == data[..i] + [data[i]]
    ensures PendingSerials(data[..i + 1]) ==
      if EndsTransaction(data[i]) then [] else if data[i].kind.Write? then PendingSerials(data[..i]) + [data[i].serial] else PendingSerials(data[..i])
    ensures !data[i].kind.Commit? ==> LastCommit(data[..i + 1]) == LastCommit(data[..i])
  {
    assert data[..i + 1] == data[..i] + [data[i]];
    FoldsAfter(data[..i], data[i], 0);
  }

  /** The first two file writes of a WRITE. */
  lemma WriteSavesHere(p: Store, data: Log, i: nat, m: nat) returns (t: Store)
    requires i < |data| && Following(p, data, i, m)
    ensures t == SaveState(WriteData(p, data[i]).(state := WriteCounted(p, data[i]), dirty := if p.autoCommit then p.dirty else p.dirty + [data[i].serial]))
    ensures Here(t, data, i, 0)
  {
    var r := data[i];
    DataHere(p, r, data, m, 0);
    var s2 := WriteData(p, r).(state := WriteCounted(p, r), dirty := if p.autoCommit then p.dirty else p.dirty + [r.serial]);
    SimGrows(IndexOf(data[..i]), data, p.disk.index, p.disk.data, r);
    SaveHere(s2, data, i);
    t := SaveState(s2);
  }

  /** And the other two. */
  lemma WriteEntersHere(p: Store, data: Log, i: nat, t: Store)
    requires i < |data| && p.rdwr && !p.rebuild && data[i].kind.Write? && data[i].serial >= 0 && Here(t, data, i, 0)
    requires t == SaveState(WriteData(p, data[i]).(state := WriteCounted(p, data[i]), dirty := if p.autoCommit then p.dirty else p.dirty + [data[i].serial]))
    requires var m := RecordStep(Counted(p, data[i]), data[i]);
      Mirrors(m, data, i + 1) && m.disk.saved.lastCommit == LastCommit(data[..i + 1])
    ensures Here(RecordStep(Counted(p, data[i]), data[i]), data, i + 1, 0)
  {
    var r, m := data[i], RecordStep(Counted(p, data[i]), data[i]);
    var entry := LogReg(End(p.disk.data), r.serial, Write);
    LogHere(t, r.sequence, entry, data, i, 0);
    var t' := WriteLog(t, r.sequence, entry);
    PutHere(t', m.disk, data, i + 1, 0);
    assert m == PutDisk(t', m.disk);
  }

  lemma WriteHere(p: Store, data: Log, i: nat, m: nat, auto: bool)
    requires i < |data| && WellFormed(data, auto) && Following(p, data, i, m) && data[i].kind.Write?
    ensures Following(RecordStep(Counted(p, data[i]), data[i]), data, i + 1, i + 1)
  {
    var r := data[i];
    assert WellFormedAt(data, i, auto);
    NextPending(data, i);
    MirrorRecord(p, data, i, auto);
    var s3 := WriteSavesHere(p, data, i, m);
    WriteEntersHere(p, data, i, s3);
  }

  lemma {:induction false} EraseHere(p: Store, data: Log, i: nat, n: nat)
    requires i <= |data| && n <= |PendingSerials(data[..i])| && Here(p, data, i, 0)
    ensures Here(EraseSteps(p, PendingSerials(data[..i]), n).0, data, i, n)
  {
    if n > 0 {
      var serials := PendingSerials(data[..i]);
      EraseHere(p, data, i, n - 1);
      EraseStepsEffect(p, serials, n - 1);
      EraseStepsEffect(p, serials, n);
      SimErase(IndexOf(data[..i]), data, p.disk.index, p.disk.data, serials, n);
      var t, t' := EraseSteps(p, serials, n - 1).0, EraseSteps(p, serials, n).0;
      if serials[n - 1] >= 0 { PutHere(t, t'.disk, data, i, n); }
    }
  }

  /** Two file writes that leave the index alone. */
  lemma LoggedHere(p: Store, r: Rec, st: State, reg: LogReg, data: Log, m: nat)
    requires Here(p, data, m, 0)
    ensures Here(WriteLog(WriteData(p, r).(state := st), r.sequence, reg), data, m, 0)
  {
    DataHere(p, r, data, m, 0);
    assert Here(WriteData(p, r).(state := st), data, m, 0);
    LogHere(WriteData(p, r).(state := st), r.sequence, reg, data, m, 0);
  }

  lemma RollbackHere(p: Store, data: Log, i: nat, m: nat, auto: bool) returns (m': nat)
    requires i < |data| && WellFormed(data, auto) && Following(p, data, i, m) && data[i].kind.RollbackBegin?
    ensures Following(RecordStep(Counted(p, data[i]), data[i]), data, i + 1, m')
  {
    var r := data[i];
    assert WellFormedAt(data, i, auto);
    NextPending(data, i);
    MirrorRecord(p, data, i, auto);
    var st := Counted(p, r).state;
    LoggedHere(p, r, st, LogReg(0, r.serial, RollbackBegin), data, m);
    var s1 := WriteLog(WriteData(p, r).(state := st), r.sequence, LogReg(0, r.serial, RollbackBegin));
    m' := m;
    if PendingSerials(data[..i]) != [] {
      SimGrows(IndexOf(data[..i]), data, p.disk.index, p.disk.data, r);
      EraseHere(s1, data, i, |PendingSerials(data[..i])|);
      EraseStepsEffect(s1, r.body.serials, |r.body.serials|);
      m' := i + 1;
    }
  }

  /** COMMIT, ROLLBACK_END and STATUS leave the replica's index alone. */
  lemma OtherHere(p: Store, data: Log, i: nat, m: nat, auto: bool)
    requires i < |data| && WellFormed(data, auto) && Following(p, data, i, m)
    requires !data[i].kind.Write? && !data[i].kind.RollbackBegin?
    ensures Following(RecordStep(Counted(p, data[i]), data[i]), data, i + 1, m)
  {
    var r := data[i];
    assert WellFormedAt(data, i, auto);
    NextPending(data, i);
    MirrorRecord(p, data, i, auto);
    var t := RecordStep(Counted(p, r), r);
    if !r.kind.Status? {
      LoggedHere(p, r, t.state, EntryFor(r, End(p.disk.data)), data, m);
    }
  }

  /** The replica's own STATUS record saves its state when it comes. */
  lemma StatusHere(p: Store, data: Log, i: nat, m: nat) returns (m': nat)
    requires Following(p, data, i, m)
    ensures Following(StatusStep(p), data, i, m')
  {
    m' := m;
    MirrorStatus(p, data, i);
    if p.state.count % STATUS_FREQ == STATUS_FREQ - 1 {
      var q := p.state.lastSequence + 1;
      var st := p.state.(count := p.state.count + 1, lastSequence := q);
      LoggedHere(p, StatusRec(q), st, LogReg(End(p.disk.data), 0, Status), data, m);
      var t := WriteLog(WriteData(p, StatusRec(q)).(state := st), q, LogReg(End(p.disk.data), 0, Status));
      SimGrows(IndexOf(data[..i]), data, p.disk.index, p.disk.data, StatusRec(q));
      SaveHere(t, data, i);
      m' := i;
    }
  }

  lemma RecordHere(p: Store, data: Log, i: nat, m: nat, auto: bool) returns (m': nat)
    requires i < |data| && WellFormed(data, auto) && Following(p, data, i, m)
    ensures Following(WriteFiles(p, data[i]), data, i + 1, m')
  {
    m' := m;
    match data[i].kind {
      case Write => WriteHere(p, data, i, m, auto); m' := i + 1;
      case RollbackBegin => m' := RollbackHere(p, data, i, m, auto);
      case _ => OtherHere(p, data, i, m, auto);
    }
    m' := StatusHere(RecordStep(Counted(p, data[i]), data[i]), data, i + 1, m');
  }

  lemma {:induction false} ReplicaHere(data: Log, i: nat, auto: bool, autoCommit: bool) returns (m: nat)
    requires i <= |data| && WellFormed(data, auto)
    ensures Following(ApplyAll(data, i, autoCommit), data, i, m)
  {
    if i == 0 {
      m := 0;
      assert Follows(FRESH_DISK, data, 0, 0);
    } else {
      m := ReplicaHere(data, i - 1, auto, autoCommit);
      m := RecordHere(ApplyAll(data, i - 1, autoCommit), data, i - 1, m, auto);
    }
  }

  // ---------- readers ----------

  /** A reader of the replica gets what a reader of such a state of the master would get. */
  lemma FollowerReads(d: Disk, data: Log, m: nat, n: nat, k: int) returns (d': Disk)
    requires WellFormed(data, false) && Follows(d, data, m, n)
    ensures Placed(d', false, data[..m], n) && d'.data == data && d'.saved == d.saved
    ensures CommittedRead(d, k) == CommittedRead(d', k)
  {
    d' := Disk(data, MasterIndex(data, m, n), d.log, d.saved);
    SimRead(d', d, k, d.saved.lastCommit, false, false);
  }

  /** What a committed reader of the replica should get, told from the master's data file. */
  ghost predicate IsolatedFrom(d: Disk, data: Log) {
    && 0 <= d.saved.lastCommit <= |data|
    && forall k :: Answers(CommittedRead(d, k), data, SnapshotRead(data, k, d.saved.lastCommit))
  }

  lemma FollowerIsolated(d: Disk, data: Log)
    requires WellFormed(data, false) && LogOnce(data) && FollowsSomewhere(d, data)
    ensures IsolatedFrom(d, data)
  {
    var m: nat, n: nat :| Follows(d, data, m, n);
    forall k ensures Answers(CommittedRead(d, k), data, SnapshotRead(data, k, d.saved.lastCommit)) {
      var d' := FollowerReads(d, data, m, n, k);
      OnceIsolated(d', data[..m], n);
      assert Answers(CommittedRead(d', k), d'.data, SnapshotRead(d'.data, k, d'.saved.lastCommit));
    }
  }

  // ---------- a master that is not write-once ----------

  lemma EmptyOnce()
    ensures LogOnce([])
  {
    assert OnceEach([]);
  }

  /** The WRITE with which a log stops being write-once. */
  lemma {:induction false} FirstTwice(data: Log) returns (i: nat, k: int)
    requires !LogOnce(data)
    ensures i < |data| && data[i].kind.Write?
    ensures Committed(data[..i + 1], k) >= 0 && |Pending(data[..i + 1], k)| > 1
  {
    EmptyOnce();
    var n := |data| - 1;
    assert data == data[..n] + [data[n]];
    if LogOnce(data[..n]) {
      LogOnceAppend(data[..n], data[n]);
      LogOncePrefix(data[..n], data[..n]);
      if !data[n].kind.Write? { OtherDiscipline(data[..n], data[n]); }
      i, k :| i == n && Committed(data, k) >= 0 && |Pending(data, k)| > 1;
      assert data[..i + 1] == data;
    } else {
      i, k := FirstTwice(data[..n]);
      assert data[..n][..i + 1] == data[..i + 1];
    }
  }

  /** The index write of that record leaves a replica on which k is lost. */
  lemma FollowerTorn(d: Disk, data: Log, m: nat, k: int)
    requires WellFormed(data, false) && Follows(d, data, m, 0) && !Readable(data[..m], k)
    ensures !IsolatedFrom(d, data)
  {
    var d' := FollowerReads(d, data, m, 0, k);
    AnswersExactly(d', data[..m], 0, k);
    assert !Answers(CommittedRead(d, k), data, SnapshotRead(data, k, d.saved.lastCommit));
  }

  lemma LastWritten(p: Store, r: Rec)
    requires r.serial >= 0
    ensures var t := WriteRecord(p, r); t.history != [] && t.history[|t.history| - 1] == t.disk
  {
  }

  lemma OneGrows(data: Log, m: nat, autoCommit: bool)
    requires m < |data|
    ensures ApplyAll(data, m, autoCommit).history <= ApplyAll(data, m + 1, autoCommit).history
  {
    ApplyNext(data, m, autoCommit);
    Sessions.HistoryGrows(ApplyAll(data, m, autoCommit), data[m]);
  }

  ghost predicate GrowsAt(h: nat -> seq<Disk>, j: nat) {
    h(j) <= h(j + 1)
  }

  lemma {:induction false} AllGrow(h: nat -> seq<Disk>, i: nat, m: nat)
    requires i <= m && forall j :: i <= j < m ==> GrowsAt(h, j)
    ensures h(i) <= h(m)
  {
    if i < m {
      AllGrow(h, i, m - 1);
      assert GrowsAt(h, m - 1);
    }
  }

  ghost function Histories(data: Log, autoCommit: bool): nat -> seq<Disk> {
    (j: nat) => if j <= |data| then ApplyAll(data, j, autoCommit).history else []
  }

  lemma HistoriesGrow(data: Log, j: nat, autoCommit: bool)
    requires j < |data|
    ensures GrowsAt(Histories(data, autoCommit), j)
  {
    OneGrows(data, j, autoCommit);
  }

  lemma ApplyGrows(data: Log, i: nat, m: nat, autoCommit: bool)
    requires i <= m <= |data|
    ensures Histories(data, autoCommit)(i) <= Histories(data, autoCommit)(m)
  {
    forall j | i <= j < m ensures GrowsAt(Histories(data, autoCommit), j) { HistoriesGrow(data, j, autoCommit); }
    AllGrow(Histories(data, autoCommit), i, m);
  }

  lemma HistoryAt(data: Log, j: nat, autoCommit: bool)
    requires j <= |data|
    ensures Histories(data, autoCommit)(j) == ApplyAll(data, j, autoCommit).history
  {
  }

  lemma TornInHistory(h: seq<Disk>, h': seq<Disk>, data: Log)
    requires h != [] && h <= h' && !IsolatedFrom(h[|h| - 1], data)
    ensures !AllIsolatedFrom(h', data)
  {
    assert h'[|h| - 1] == h[|h| - 1];
  }

  lemma ReplicaTorn(data: Log, i: nat, k: int, autoCommit: bool)
    requires WellFormed(data, false) && i < |data| && data[i].kind.Write? && !Readable(data[..i + 1], k)
    ensures !AllIsolatedFrom(ApplyAll(data, |data|, autoCommit).history, data)
  {
    var p, r := ApplyAll(data, i, autoCommit), data[i];
    var m := ReplicaHere(data, i, false, autoCommit);
    WriteHere(p, data, i, m, false);
    var t := RecordStep(Counted(p, r), r);
    FollowerTorn(t.disk, data, i + 1, k);
    assert WellFormedAt(data, i, false);
    LastWritten(Counted(p, r), r);
    Sessions.HistoryGrows(p, r);
    ApplyNext(data, i, autoCommit);
    ApplyGrows(data, i + 1, |data|, autoCommit);
    HistoryAt(data, i + 1, autoCommit);
    HistoryAt(data, |data|, autoCommit);
    TornInHistory(t.history, ApplyAll(data, |data|, autoCommit).history, data);
  }

  ghost predicate AllIsolatedFrom(h: seq<Disk>, data: Log) {
    forall n :: 0 <= n < |h| ==> IsolatedFrom(h[n], data)
  }

  lemma FollowersIsolated(h: seq<Disk>, data: Log)
    requires WellFormed(data, false) && LogOnce(data) && AllFollow(h, data)
    ensures AllIsolatedFrom(h, data)
  {
    forall n | 0 <= n < |h| ensures IsolatedFrom(h[n], data) { FollowerIsolated(h[n], data); }
  }

  /**
   Snapshot isolation on a replica, exactly: at every point between two of its file writes, a
   committed reader gets for every serial what the master's log holds at the commit number that
   the replica has saved, if and only if no transaction of the master writes a committed serial
   twice.
   */
  lemma ReplicaIsolation(calls: seq<Call>, autoCommit: bool)
    requires ValidCalls(calls)
    ensures var data := Run(calls, false).disk.data;
      WriteOnce(calls) <==> AllIsolatedFrom(ApplyAll(data, |data|, autoCommit).history, data)
  {
    RunsKeepInv(calls, false);
    RunsMatch(calls);
    var data := Run(calls, false).disk.data;
    if WriteOnce(calls) {
      var _ := ReplicaHere(data, |data|, false, autoCommit);
      FollowersIsolated(ApplyAll(data, |data|, autoCommit).history, data);
    } else {
      var i, k := FirstTwice(data);
      ReplicaTorn(data, i, k, autoCommit);
    }
  }
}
