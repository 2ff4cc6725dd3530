/**
 The writer's own reads, and what a rollback restores: exactly, for every serial and every
 session, whatever its earlier transactions did.
 */
module Rollbacks {
  import opened Bytes
  import opened Records
  import opened VersionLog
  import opened SlotIndex
  import opened StoreModel
  import opened SessionInvariant
  import opened Isolation
  import opened Discipline
  import Sessions

  // ---------- the writer's own reads ----------

  /** The version in the newest slot. */
  function SlotVersion(log: Log, k: int): (i: int)
    ensures -1 <= i < |log|
  {
    var w := Pending(log, k);
    if w != [] then w[|w| - 1] else Surviving(log, k)
  }

  lemma NewestOffset(reg: IndexReg, log: Log, k: int, lastCommit: int)
    requires Holds(reg, log, k)
    ensures LastOffset(reg, lastCommit, true) == if SlotVersion(log, k) >= 0 then OffsetOf(log, SlotVersion(log, k)) else -1
  {
  }

  /** What the writer finds, between any two calls of any session. */
  lemma WriterFinds(s: Store, k: int)
    requires Inv(s)
    ensures Answers(WriterRead(s, k), s.disk.data, SlotVersion(s.disk.data, k))
    ensures SlotVersion(s.disk.data, k) >= 0 ==> WriterRead(s, k).Found?
  {
    var data := s.disk.data;
    IndexRefinesLog(data, k, s.autoCommit);
    if k in s.disk.index.slots {
      NewestOffset(s.disk.index.slots[k], data, k, s.state.lastCommit);
      FindsVersion(s.disk, data, SlotVersion(data, k), k, s.state.lastCommit, false, true);
    }
  }

  /** The writer gets the newest WRITE of k that was not rolled back. */
  ghost predicate ReadsRight(s: Store, k: int) {
    Answers(WriterRead(s, k), s.disk.data, SnapshotRead(s.disk.data, k, |s.disk.data|))
  }

  lemma ReadsRightWhen(s: Store, k: int)
    requires Inv(s)
    ensures ReadsRight(s, k) <==>
      Pending(s.disk.data, k) != [] || Surviving(s.disk.data, k) >= 0 || Committed(s.disk.data, k) < 0
  {
    WriterFinds(s, k);
    FoldsAreScans(s.disk.data, k);
    SurvivingIsCommitted(s.disk.data, k);
  }

  /**
   The writer reads its own latest state, serial by serial: after any calls, read(k) returns the
   newest WRITE of k that was not rolled back, if and only if the open transaction wrote k, or its
   committed version is alive, or it has none.
   */
  lemma WriterReadsExactly(calls: seq<Call>, k: int)
    requires ValidCalls(calls)
    ensures ReadsRight(Run(calls, false), k) <==> k in TxnWrites(calls) || k in Alive(calls) || k !in CommittedSerials(calls)
  {
    RunsKeepInv(calls, false);
    RunsMatch(calls);
    PendingCount(Run(calls, false).disk.data, k);
    ReadsRightWhen(Run(calls, false), k);
  }

  ghost predicate WriterReadsRight(s: Store) {
    forall k :: ReadsRight(s, k)
  }

  /** The writer's reads were right after every call so far. */
  ghost predicate ReadsAlwaysRight(calls: seq<Call>) {
    && WriterReadsRight(Run(calls, false))
    && (calls == [] || ReadsAlwaysRight(calls[..|calls| - 1]))
  }

  /** Nothing was lost so far. */
  lemma {:induction false} OnceAlive(calls: seq<Call>)
    requires RollbackOnce(calls)
    ensures Alive(calls) == CommittedSerials(calls)
  {
    if calls != [] {
      OnceAlive(calls[..|calls| - 1]);
    }
  }

  lemma SafeRunReads(calls: seq<Call>)
    requires ValidCalls(calls) && RollbackOnce(calls)
    ensures WriterReadsRight(Run(calls, false))
  {
    OnceAlive(calls);
    forall k ensures ReadsRight(Run(calls, false), k) { WriterReadsExactly(calls, k); }
  }

  /** After a rollback of a transaction that wrote k twice, over a committed version, k is misread. */
  lemma UndisciplinedMisreads(calls: seq<Call>, k: int)
    requires ValidCalls(calls) && calls != [] && calls[|calls| - 1].CallRollback?
    requires k in CommittedSerials(calls) && Occurrences(TxnWrites(calls[..|calls| - 1]), k) >= 2
    ensures !ReadsRight(Run(calls, false), k)
  {
    WriterReadsExactly(calls, k);
  }

  lemma LastCallMisreads(calls: seq<Call>)
    requires calls != [] && ValidCalls(calls)
    requires RollbackOnce(calls[..|calls| - 1]) && !RollbackOnce(calls)
    ensures !WriterReadsRight(Run(calls, false))
  {
    var before := calls[..|calls| - 1];
    var k :| k in CommittedSerials(before) && Occurrences(TxnWrites(before), k) > 1;
    UndisciplinedMisreads(calls, k);
  }

  /**
   The writer reads its own latest state, for all serials: it does so after every call, if and
   only if no rolled-back transaction had written a committed serial twice.
   */
  lemma {:induction false} WriterReadsNewest(calls: seq<Call>)
    requires ValidCalls(calls)
    ensures RollbackOnce(calls) <==> ReadsAlwaysRight(calls)
  {
    if RollbackOnce(calls) {
      SafeRunReads(calls);
    }
    if calls != [] {
      WriterReadsNewest(calls[..|calls| - 1]);
      if RollbackOnce(calls[..|calls| - 1]) && !RollbackOnce(calls) {
        LastCallMisreads(calls);
      }
    }
  }

  // ---------- what a rollback restores ----------

  /** The payload a handle gets that has lastCommit in memory. */
  function ViewAs(d: Disk, k: int, lastCommit: int, dirtyMode: bool, rdwr: bool): Option<Body> {
    match ReadAs(d, k, lastCommit, dirtyMode, rdwr)
    case Found(b) => Some(b)
    case Failed(_) => None
  }

  /** What a rollback leaves behind, as far as serial k can tell. */
  ghost predicate Undone(s: Store, t: Store, k: int) {
    && s.disk.data + [RollbackBeginRec(s)] <= t.disk.data
    && t.disk.index == IndexOf(s.disk.data + [RollbackBeginRec(s)])
    && Pending(t.disk.data, k) == []
    && Committed(t.disk.data, k) == Committed(s.disk.data, k)
    && t.state.lastCommit == LastCommit(s.disk.data)
  }

  lemma RollbackUndoes(s: Store, k: int)
    requires Inv(s) && !s.autoCommit
    ensures Undone(s, DoRollback(s), k)
  {
    var s1, t := RollbackSteps(s);
    BothUndo(s, s1, t, k);
  }

  lemma BothUndo(s: Store, s1: Store, t: Store, k: int)
    requires Inv(s) && Written(s, RollbackBeginRec(s), s1) && Written(s1, RollbackEndRec(s1), t)
    ensures Undone(s, t, k)
  {
    AfterBothRecords(s, RollbackBeginRec(s), s1, RollbackEndRec(s1), t, k);
    assert s.disk.data + [RollbackBeginRec(s)] <= s1.disk.data <= t.disk.data;
  }

  /** The payload of the surviving version. */
  function SurvivingBody(log: Log, k: int): Option<Body> {
    if Surviving(log, k) >= 0 then Some(log[Surviving(log, k)].body) else None
  }

  lemma SurvivingOffset(reg: IndexReg, log: Log, k: int, dirtyRead: bool)
    requires WellFormed(log, false) && Holds(reg, log, k) && Pending(log, k) == []
    ensures LastOffset(reg, LastCommit(log), dirtyRead) == if Surviving(log, k) >= 0 then OffsetOf(log, Surviving(log, k)) else -1
  {
    SurvivingBeforeCommit(log, k);
    SlotIsPlain(Hi(reg), log, k);
    SlotIsPlain(Lo(reg), log, k);
  }

  /** With no pending write of k, dirty and committed reads agree. */
  lemma MatchedView(d: Disk, log: Log, k: int, dirtyMode: bool, rdwr: bool)
    requires WellFormed(log, false) && log <= d.data
    requires d.index == IndexOf(log) && Pending(log, k) == []
    ensures ViewAs(d, k, LastCommit(log), dirtyMode, rdwr) == SurvivingBody(log, k)
  {
    IndexRefinesLog(log, k, false);
    if k in IndexOf(log).slots { SurvivingOffset(IndexOf(log).slots[k], log, k, dirtyMode || rdwr); }
    if Surviving(log, k) >= 0 { LocateIn(d.data, log, Surviving(log, k)); }
  }

  /** The calls that precede the open transaction. */
  function BeforeTxn(calls: seq<Call>): (before: seq<Call>)
    ensures before <= calls
    ensures forall i :: |before| <= i < |calls| ==> calls[i].CallWrite?
    ensures before == [] || !before[|before| - 1].CallWrite?
  {
    if calls == [] || !calls[|calls| - 1].CallWrite? then calls else BeforeTxn(calls[..|calls| - 1])
  }

  /** s0 is a state before the open transaction of s started. */
  ghost predicate StartOf(s0: Store, s: Store) {
    && PendingSerials(s0.disk.data) == []
    && s0.disk.data <= s.disk.data
    && (forall k :: Surviving(s0.disk.data, k) == Surviving(s.disk.data, k))
  }

  lemma WrittenSurvives(s: Store, r: Rec, t: Store, k: int)
    requires Written(s, r, t) && r.kind.Write?
    ensures Surviving(t.disk.data, k) == Surviving(s.disk.data, k)
  {
    SurvivingAfter(s.disk.data, r, k);
    var tail := MaybeStatus(s.state.count + 1, r.sequence + 1);
    if tail == [] {
      assert s.disk.data + [r] + tail == s.disk.data + [r];
    } else {
      assert tail == [tail[0]];
      SurvivingAfter(s.disk.data + [r], tail[0], k);
    }
  }

  lemma WriteExtends(before: seq<Call>, c: Call, s0: Store)
    requires ValidCalls(before) && c.CallWrite? && c.serial >= 1
    requires StartOf(s0, Run(before, false))
    ensures StartOf(s0, Do(Run(before, false), c))
  {
    RunsKeepInv(before, false);
    var s := Run(before, false);
    WriteKeepsInv(s, c.serial, c.bytes);
    var r, t := WriteRec(s, c.serial, c.bytes), DoWrite(s, c.serial, c.bytes);
    forall k ensures Surviving(s0.disk.data, k) == Surviving(t.disk.data, k) { WrittenSurvives(s, r, t, k); }
  }

  /** Nothing is pending when a transaction starts, and its writes commit and lose nothing. */
  lemma {:induction false} StartsClean(calls: seq<Call>)
    requires ValidCalls(calls)
    ensures StartOf(Run(BeforeTxn(calls), false), Run(calls, false))
  {
    if calls == [] || !calls[|calls| - 1].CallWrite? {
      RunsMatch(calls);
    } else {
      var n := |calls| - 1;
      StartsClean(calls[..n]);
      WriteExtends(calls[..n], calls[n], Run(BeforeTxn(calls[..n]), false));
    }
  }

  /** Every read of k, in every mode, is as it was before the transaction. */
  ghost predicate ViewRestored(s0: Store, t: Store, k: int) {
    forall dirtyMode, rdwr ::
      ViewAs(t.disk, k, t.state.lastCommit, dirtyMode, rdwr) == ViewAs(s0.disk, k, s0.state.lastCommit, dirtyMode, rdwr)
  }

  lemma ViewBefore(s0: Store, k: int, dirtyMode: bool, rdwr: bool)
    requires Inv(s0) && !s0.autoCommit && PendingSerials(s0.disk.data) == []
    ensures ViewAs(s0.disk, k, s0.state.lastCommit, dirtyMode, rdwr) == SurvivingBody(s0.disk.data, k)
  {
    PendingCount(s0.disk.data, k);
    MatchedView(s0.disk, s0.disk.data, k, dirtyMode, rdwr);
  }

  /** A rollback leaves the surviving version in view, unless two writes of k had filled both slots. */
  lemma ViewAfter(s: Store, t: Store, k: int, dirtyMode: bool, rdwr: bool)
    requires Inv(s) && !s.autoCommit && Undone(s, t, k)
    ensures ViewAs(t.disk, k, t.state.lastCommit, dirtyMode, rdwr) ==
      if |Pending(s.disk.data, k)| >= 2 then None else SurvivingBody(s.disk.data, k)
  {
    var data, r := s.disk.data, RollbackBeginRec(s);
    Extend(data, r, false);
    FoldsAfter(data, r, k);
    SurvivingAfter(data, r, k);
    MatchedView(t.disk, data + [r], k, dirtyMode, rdwr);
  }

  lemma SameSurvivor(s0: Store, s: Store, k: int)
    requires StartOf(s0, s)
    ensures SurvivingBody(s0.disk.data, k) == SurvivingBody(s.disk.data, k)
  {
  }

  lemma RestoresExactly(s0: Store, s: Store, t: Store, k: int)
    requires Inv(s0) && Inv(s) && !s0.autoCommit && !s.autoCommit
    requires StartOf(s0, s) && Undone(s, t, k)
    ensures ViewRestored(s0, t, k) <==> !(Surviving(s.disk.data, k) >= 0 && |Pending(s.disk.data, k)| >= 2)
  {
    SameSurvivor(s0, s, k);
    forall dirtyMode, rdwr
      ensures ViewAs(s0.disk, k, s0.state.lastCommit, dirtyMode, rdwr) == SurvivingBody(s.disk.data, k)
      ensures ViewAs(t.disk, k, t.state.lastCommit, dirtyMode, rdwr) ==
        if |Pending(s.disk.data, k)| >= 2 then None else SurvivingBody(s.disk.data, k)
    {
      ViewBefore(s0, k, dirtyMode, rdwr);
      ViewAfter(s, t, k, dirtyMode, rdwr);
    }
    assert ViewRestored(s0, t, k) ==> ViewAs(t.disk, k, t.state.lastCommit, true, true) == ViewAs(s0.disk, k, s0.state.lastCommit, true, true);
  }

  /**
   Rollback restores the view, exactly: for each serial, in dirty and in committed mode, a
   rollback brings back what was read before the transaction started, if and only if the
   transaction did not write that serial twice or more while its committed version was alive.
   Earlier transactions may have done anything.
   */
  lemma RollbackRestores(calls: seq<Call>, k: int)
    requires ValidCalls(calls)
    ensures ViewRestored(Run(BeforeTxn(calls), false), DoRollback(Run(calls, false)), k)
      <==> !(k in Alive(calls) && Occurrences(TxnWrites(calls), k) >= 2)
  {
    var before := BeforeTxn(calls);
    RunsKeepInv(calls, false);
    RunsKeepInv(before, false);
    RunsMatch(calls);
    StartsClean(calls);
    PendingCount(Run(calls, false).disk.data, k);
    RollbackUndoes(Run(calls, false), k);
    RestoresExactly(Run(before, false), Run(calls, false), DoRollback(Run(calls, false)), k);
  }

  /** A serial is alive only if it has a committed version. */
  lemma {:induction false} AliveCommitted(calls: seq<Call>)
    ensures Alive(calls) <= CommittedSerials(calls)
  {
    if calls != [] {
      AliveCommitted(calls[..|calls| - 1]);
    }
  }

  /** A transaction that wrote each committed serial at most once is undone for every serial. */
  lemma OnceRestores(calls: seq<Call>, k: int)
    requires ValidCalls(calls) && OpenOnce(calls)
    ensures ViewRestored(Run(BeforeTxn(calls), false), DoRollback(Run(calls, false)), k)
  {
    AliveCommitted(calls);
    RollbackRestores(calls, k);
  }

  lemma NothingFound(reg: IndexReg, log: Log, k: int, lastCommit: int, dirtyRead: bool)
    requires Holds(reg, log, k) && Top(log, k).None?
    ensures LastOffset(reg, lastCommit, dirtyRead) == -1
  {
  }

  /** Two writes of a committed serial and a rollback: every read of it fails, though the log has a version. */
  lemma LostRead(s: Store, t: Store, k: int)
    requires Inv(s) && !s.autoCommit
    requires Committed(s.disk.data, k) >= 0 && |Pending(s.disk.data, k)| >= 2
    requires Undone(s, t, k)
    ensures Newest(t.disk.data, k) >= 0
    ensures forall lastCommit, dirtyMode, rdwr :: ReadAs(t.disk, k, lastCommit, dirtyMode, rdwr).Failed?
  {
    var data, r := s.disk.data, RollbackBeginRec(s);
    Extend(data, r, false);
    VersionsAfterRollback(data, r, k);
    IndexRefinesLog(data + [r], k, false);
    forall lastCommit, dirtyMode, rdwr ensures ReadAs(t.disk, k, lastCommit, dirtyMode, rdwr).Failed? {
      if k in t.disk.index.slots { NothingFound(t.disk.index.slots[k], data + [r], k, lastCommit, dirtyMode || rdwr); }
    }
  }

  /** A misread is always a loss: the writer finds nothing, though the log has a version. */
  lemma MisreadIsLoss(calls: seq<Call>, k: int)
    requires ValidCalls(calls) && !ReadsRight(Run(calls, false), k)
    ensures WriterRead(Run(calls, false), k).Failed?
    ensures SnapshotRead(Run(calls, false).disk.data, k, |Run(calls, false).disk.data|) >= 0
  {
    var s := Run(calls, false);
    RunsKeepInv(calls, false);
    WriterFinds(s, k);
    FoldsAreScans(s.disk.data, k);
    ReadsRightWhen(s, k);
    SurvivingIsCommitted(s.disk.data, k);
  }

  lemma RolledBackTwice(before: seq<Call>, k: int) returns (calls: seq<Call>)
    requires ValidCalls(before) && k in CommittedSerials(before) && TxnWrites(before) == [k, k]
    ensures calls == before + [CallRollback] && ValidCalls(calls)
    ensures WriterRead(Run(calls, false), k).Failed?
    ensures SnapshotRead(Run(calls, false).disk.data, k, |Run(calls, false).disk.data|) >= 0
  {
    calls := before + [CallRollback];
    assert calls[..|calls| - 1] == before;
    assert Occurrences([k, k], k) == 2 by { assert [k, k][..1] == [k]; }
    UndisciplinedMisreads(calls, k);
    MisreadIsLoss(calls, k);
  }

  /** Write, commit, write, write, rollback, all of one serial: the writer cannot read it any more. */
  lemma TwiceWrittenLost(k: int, a: seq<byte>, b: seq<byte>, c: seq<byte>) returns (calls: seq<Call>)
    requires k >= 1
    ensures calls == [CallWrite(k, a), CallCommit, CallWrite(k, b), CallWrite(k, c), CallRollback] && ValidCalls(calls)
    ensures WriterRead(Run(calls, false), k).Failed?
    ensures SnapshotRead(Run(calls, false).disk.data, k, |Run(calls, false).disk.data|) >= 0
  {
    Sessions.TwiceWrittenCalls(k, a, b, c);
    calls := RolledBackTwice(Sessions.TwiceWritten(k, a, b, c), k);
  }
}
