/**
 What a caller can check before each call: which serials the open transaction has written
 and which have a committed version, told from the calls alone.
 */
module Discipline {
  import opened Bytes
  import opened Records
  import opened VersionLog
  import opened SlotIndex
  import opened StoreModel
  import opened SessionInvariant
  import opened Isolation

  // ---------- the discipline, in terms of the calls alone ----------

  /** Serials written since the last commit or rollback call. */
  function TxnWrites(calls: seq<Call>): seq<int> {
    if calls == [] then []
    else
      match calls[|calls| - 1]
      case CallWrite(k, _) => TxnWrites(calls[..|calls| - 1]) + [k]
      case _ => []
  }

  /** Serials with a committed version. */
  function CommittedSerials(calls: seq<Call>): set<int> {
    if calls == [] then {}
    else
      var before := calls[..|calls| - 1];
      if calls[|calls| - 1].CallCommit? then
        CommittedSerials(before) + set i | 0 <= i < |TxnWrites(before)| :: TxnWrites(before)[i]
      else CommittedSerials(before)
  }

  /**
   Serials whose committed version the slots still hold: a rollback loses those that its
   transaction wrote twice or more.
   */
  function Alive(calls: seq<Call>): set<int> {
    if calls == [] then {}
    else
      var before, w := calls[..|calls| - 1], TxnWrites(calls[..|calls| - 1]);
      match calls[|calls| - 1]
      case CallWrite(_, _) => Alive(before)
      case CallCommit => Alive(before) + set i | 0 <= i < |w| :: w[i]
      case CallRollback => set k | k in Alive(before) && Occurrences(w, k) <= 1
  }

  /** No transaction writes a serial that has a committed version twice. */
  predicate WriteOnce(calls: seq<Call>) {
    calls == [] ||
    var before, c := calls[..|calls| - 1], calls[|calls| - 1];
    WriteOnce(before) &&
    (c.CallWrite? ==> !(c.serial in CommittedSerials(before) && c.serial in TxnWrites(before)))
  }

  /** The open transaction has written no serial twice that has a committed version. */
  predicate OpenOnce(calls: seq<Call>) {
    forall k :: k in CommittedSerials(calls) ==> Occurrences(TxnWrites(calls), k) <= 1
  }

  /** Every transaction was write-once in that sense when it was rolled back. */
  predicate RollbackOnce(calls: seq<Call>) {
    calls == [] ||
    var before, c := calls[..|calls| - 1], calls[|calls| - 1];
    RollbackOnce(before) &&
    (c.CallRollback? ==> OpenOnce(before))
  }

  // ---------- the calls and the data file agree ----------

  ghost predicate CallsMatch(calls: seq<Call>, data: Log) {
    && PendingSerials(data) == TxnWrites(calls)
    && (forall k :: Committed(data, k) >= 0 <==> k in CommittedSerials(calls))
    && (forall k :: Surviving(data, k) >= 0 <==> k in Alive(calls))
    && (RollbacksSafe(data) <==> RollbackOnce(calls))
    && (LogOnce(data) <==> WriteOnce(calls))
  }

  lemma OnceEachIsCounting(data: Log, calls: seq<Call>)
    requires CallsMatch(calls, data)
    ensures OnceEach(data) <==> OpenOnce(calls)
  {
    forall k ensures |Pending(data, k)| == Occurrences(TxnWrites(calls), k) {
      PendingCount(data, k);
    }
    if OnceEach(data) {
      forall k | k in CommittedSerials(calls) ensures Occurrences(TxnWrites(calls), k) <= 1 {
        assert Committed(data, k) >= 0;
      }
    }
  }

  /** The record that a call stores first. */
  ghost predicate RecordOf(c: Call, r: Rec) {
    && (c.CallWrite? ==> r.kind.Write? && r.serial == c.serial)
    && (c.CallCommit? ==> r.kind.Commit?)
    && (c.CallRollback? ==> r.kind.RollbackBegin?)
  }

  lemma LastCall(calls: seq<Call>, c: Call)
    ensures (calls + [c])[..|calls + [c]| - 1] == calls && (calls + [c])[|calls + [c]| - 1] == c
  {
  }

  lemma CommittedAfter(calls: seq<Call>, c: Call, data: Log, r: Rec, k: int)
    requires CallsMatch(calls, data) && RecordOf(c, r)
    ensures Committed(data + [r], k) >= 0 <==> k in CommittedSerials(calls + [c])
  {
    LastCall(calls, c);
    FoldsAfter(data, r, k);
    PendingCount(data, k);
  }

  lemma AliveAfter(calls: seq<Call>, c: Call, data: Log, r: Rec, k: int)
    requires CallsMatch(calls, data) && RecordOf(c, r)
    ensures Surviving(data + [r], k) >= 0 <==> k in Alive(calls + [c])
  {
    LastCall(calls, c);
    SurvivingAfter(data, r, k);
    PendingCount(data, k);
  }

  lemma OnceAfter(calls: seq<Call>, c: Call, data: Log, r: Rec)
    requires CallsMatch(calls, data) && RecordOf(c, r)
    ensures LogOnce(data + [r]) <==> WriteOnce(calls + [c])
  {
    LastCall(calls, c);
    LogOnceAppend(data, r);
    if LogOnce(data) {
      LogOncePrefix(data, data);
      if c.CallWrite? { WriteDiscipline(data, r); } else { OtherDiscipline(data, r); }
    }
  }

  lemma MatchAfter(calls: seq<Call>, c: Call, data: Log, r: Rec)
    requires CallsMatch(calls, data) && RecordOf(c, r)
    ensures CallsMatch(calls + [c], data + [r])
  {
    LastCall(calls, c);
    FoldsAfter(data, r, 0);
    SafetyAfter(calls, c, data, r);
    OnceAfter(calls, c, data, r);
    forall k ensures Committed(data + [r], k) >= 0 <==> k in CommittedSerials(calls + [c]) { CommittedAfter(calls, c, data, r, k); }
    forall k ensures Surviving(data + [r], k) >= 0 <==> k in Alive(calls + [c]) { AliveAfter(calls, c, data, r, k); }
  }

  lemma SafetyAfter(calls: seq<Call>, c: Call, data: Log, r: Rec)
    requires CallsMatch(calls, data)
    requires c.CallRollback? <==> r.kind.RollbackBegin?
    ensures RollbacksSafe(data + [r]) <==> RollbackOnce(calls + [c])
  {
    var calls' := calls + [c];
    assert calls'[..|calls'| - 1] == calls && calls'[|calls'| - 1] == c;
    SafeAppend(data, r);
    OnceEachIsCounting(data, calls);
  }

  lemma MatchWritten(calls: seq<Call>, s: Store, r: Rec, t: Store)
    requires Written(s, r, t) && CallsMatch(calls, s.disk.data + [r])
    ensures CallsMatch(calls, t.disk.data)
  {
    MatchQuiet(calls, s.disk.data + [r], MaybeStatus(s.state.count + 1, r.sequence + 1));
  }

  lemma MatchQuiet(calls: seq<Call>, data: Log, tail: Log)
    requires CallsMatch(calls, data) && |tail| <= 1
    requires forall i :: 0 <= i < |tail| ==> tail[i].kind.Status? || tail[i].kind.RollbackEnd?
    ensures CallsMatch(calls, data + tail)
  {
    if tail == [] {
      assert data + tail == data;
    } else {
      assert tail == [tail[0]];
      QuietRecord(data, tail[0]);
    }
  }

  lemma QuietRecord(data: Log, r: Rec)
    requires r.kind.Status? || r.kind.RollbackEnd?
    ensures PendingSerials(data + [r]) == PendingSerials(data)
    ensures forall k :: Committed(data + [r], k) == Committed(data, k) && Surviving(data + [r], k) == Surviving(data, k)
    ensures RollbacksSafe(data + [r]) <==> RollbacksSafe(data)
    ensures LogOnce(data + [r]) <==> LogOnce(data)
  {
    SafeAppend(data, r);
    LogOnceAppend(data, r);
    if LogOnce(data) {
      LogOncePrefix(data, data);
      OtherDiscipline(data, r);
    }
    FoldsAfter(data, r, 0);
    forall k ensures Committed(data + [r], k) == Committed(data, k) && Surviving(data + [r], k) == Surviving(data, k) {
      FoldsAfter(data, r, k);
      SurvivingAfter(data, r, k);
    }
  }

  lemma CommitMatches(before: seq<Call>, s: Store)
    requires Inv(s) && !s.autoCommit && CallsMatch(before, s.disk.data)
    ensures CallsMatch(before + [CallCommit], DoCommit(s).disk.data)
  {
    CommitKeepsInv(s);
    MatchAfter(before, CallCommit, s.disk.data, CommitRec(s));
    MatchWritten(before + [CallCommit], s, CommitRec(s), WriteFiles(s, CommitRec(s)));
  }

  lemma WriteMatches(before: seq<Call>, k: int, bytes: seq<byte>, s: Store)
    requires Inv(s) && k >= 1 && CallsMatch(before, s.disk.data)
    ensures CallsMatch(before + [CallWrite(k, bytes)], DoWrite(s, k, bytes).disk.data)
  {
    WriteKeepsInv(s, k, bytes);
    MatchAfter(before, CallWrite(k, bytes), s.disk.data, WriteRec(s, k, bytes));
    MatchWritten(before + [CallWrite(k, bytes)], s, WriteRec(s, k, bytes), DoWrite(s, k, bytes));
  }

  lemma RollbackMatches(calls: seq<Call>, s: Store, r: Rec, s1: Store, e: Rec, t: Store)
    requires CallsMatch(calls, s.disk.data + [r])
    requires Written(s, r, s1) && Written(s1, e, t) && e.kind.RollbackEnd?
    ensures CallsMatch(calls, t.disk.data)
  {
    MatchWritten(calls, s, r, s1);
    MatchQuiet(calls, s1.disk.data, [e]);
    MatchWritten(calls, s1, e, t);
  }

  lemma RollbackCallMatches(before: seq<Call>, s: Store)
    requires Inv(s) && !s.autoCommit && CallsMatch(before + [CallRollback], s.disk.data + [RollbackBeginRec(s)])
    ensures CallsMatch(before + [CallRollback], DoRollback(s).disk.data)
  {
    var s1, t := RollbackSteps(s);
    RollbackMatches(before + [CallRollback], s, RollbackBeginRec(s), s1, RollbackEndRec(s1), t);
  }

  lemma CallMatches(before: seq<Call>, c: Call, s: Store)
    requires Inv(s) && !s.autoCommit && CallsMatch(before, s.disk.data)
    requires c.CallWrite? ==> c.serial >= 1
    ensures CallsMatch(before + [c], Do(s, c).disk.data)
  {
    match c {
      case CallWrite(k, bytes) => WriteMatches(before, k, bytes, s);
      case CallCommit => CommitMatches(before, s);
      case CallRollback =>
        MatchAfter(before, c, s.disk.data, RollbackBeginRec(s));
        RollbackCallMatches(before, s);
    }
  }

  /** The open transaction and the committed serials can be told from the calls. */
  lemma {:induction false} RunsMatch(calls: seq<Call>)
    requires ValidCalls(calls)
    ensures CallsMatch(calls, Run(calls, false).disk.data)
  {
    if calls != [] {
      var n := |calls| - 1;
      var before, c := calls[..n], calls[n];
      assert calls == before + [c];
      RunsMatch(before);
      RunsKeepInv(before, false);
      CallMatches(before, c, Run(before, false));
    }
  }
}
