/**
 What readers in other processes get from one state of the files, whatever the session did
 before: isolation is a property of the records that the index stands for.
 */
module Isolation {
  import opened Records
  import opened VersionLog
  import opened SlotIndex
  import opened StoreModel
  import opened History

  // ---------- the property ----------

  /** The saved commit number is 0 or names a COMMIT record in the data file. */
  ghost predicate SavedPoint(d: Disk) {
    var p := d.saved.lastCommit;
    0 <= p <= |d.data| && (p > 0 ==> d.data[p - 1].kind.Commit?)
  }

  /**
   A committed-mode reader that finds the files like this gets, for every serial, the newest
   WRITE with sequence up to the saved commit number that was not rolled back.
   */
  ghost predicate Isolated(d: Disk) {
    && SavedPoint(d)
    && forall k :: Answers(CommittedRead(d, k), d.data, SnapshotRead(d.data, k, d.saved.lastCommit))
  }

  /** The payload a committed-mode reader gets; how absence is reported is left out. */
  function CommittedView(d: Disk, k: int): Option<Body> {
    match CommittedRead(d, k)
    case Found(b) => Some(b)
    case Failed(_) => None
  }

  /** What the writer has committed in memory, according to the full log. */
  function CommittedBody(data: Log, k: int): Option<Body> {
    if Committed(data, k) >= 0 then Some(data[Committed(data, k)].body) else None
  }

  // ---------- one serial of one state ----------

  lemma SlotIsPlain(s: Slot, log: Log, k: int)
    requires WellFormed(log, false) && SlotSound(s, log, k)
    ensures !s.autoCommit
  {
    if s.sequence > 0 {
      assert WellFormedAt(log, s.sequence - 1, false);
    }
  }

  /** The version a committed reader finds in the slots: none once two pending writes fill both. */
  function FoundVersion(log: Log, k: int): (i: int)
    ensures -1 <= i < |log|
  {
    if |Pending(log, k)| <= 1 then Surviving(log, k) else -1
  }

  lemma SurvivingBeforeCommit(log: Log, k: int)
    ensures Surviving(log, k) < LastCommit(log) || Surviving(log, k) == -1
  {
    SurvivingIsCommitted(log, k);
    CommittedAtLastCommit(log, k);
  }

  /** Erased or not, pending writes are invisible; the surviving version is found if it has a slot. */
  lemma CommittedOffset(reg: IndexReg, log: Log, k: int, n: nat)
    requires WellFormed(log, false) && Holds(reg, log, k) && n <= |Pending(log, k)|
    ensures LastOffset(EraseTimes(reg, n), LastCommit(log), false) ==
      if FoundVersion(log, k) >= 0 then OffsetOf(log, FoundVersion(log, k)) else -1
  {
    var e := EraseTimes(reg, n);
    ErasedReg(reg, log, k, n);
    CommittedAtLastCommit(log, k);
    SurvivingBeforeCommit(log, k);
    SlotIsPlain(Hi(e), log, k);
    SlotIsPlain(Lo(e), log, k);
  }

  lemma {:induction false} OccurrencesPrefix(s: seq<int>, n: nat, k: int)
    requires n <= |s|
    ensures Occurrences(s[..n], k) <= Occurrences(s, k)
  {
    if n < |s| {
      OccurrencesPrefix(s[..|s| - 1], n, k);
      assert s[..|s| - 1][..n] == s[..n];
    } else {
      assert s[..n] == s;
    }
  }

  /** How often k was erased so far. */
  function Erased(log: Log, n: nat, k: int): nat
    requires n <= |PendingSerials(log)|
  {
    Occurrences(PendingSerials(log)[..n], k)
  }

  /** The index of log, with the first n dirty serials already erased. */
  lemma RegMidRollback(log: Log, n: nat, k: int, auto: bool)
    requires WellFormed(log, auto) && n <= |PendingSerials(log)|
    ensures Erased(log, n, k) <= |Pending(log, k)|
    ensures RegAt(EraseLoop(IndexOf(log), PendingSerials(log), n).0, k) ==
           match RegAt(IndexOf(log), k)
           case None => None
           case Some(reg) => Some(EraseTimes(reg, Erased(log, n, k)))
  {
    var s := PendingSerials(log);
    PendingHaveSlots(log, auto);
    EraseLoopAt(IndexOf(log), s, n, k);
    OccurrencesPrefix(s, n, k);
    PendingCount(log, k);
  }

  lemma LocateIn(data: Log, log: Log, i: nat)
    requires log <= data && i < |log|
    ensures Locate(data, OffsetOf(log, i)) == i && data[i] == log[i]
  {
    assert data[..i] == log[..i];
    LocateOffset(data, i);
  }

  lemma PlacedLog(d: Disk, auto: bool, log: Log, n: nat)
    requires Placed(d, auto, log, n)
    ensures WellFormed(log, auto) && d.data[..|log|] == log
  {
    assert d.data[..|log|] == log;
    WellFormedPrefix(d.data, auto, |log|);
  }

  /** The register of k in any state of any session. */
  lemma PlacedReg(d: Disk, auto: bool, log: Log, n: nat, k: int)
    requires Placed(d, auto, log, n)
    ensures SlotsMatch(RegAt(IndexOf(log), k), log, k)
    ensures RegAt(d.index, k) ==
           match RegAt(IndexOf(log), k)
           case None => None
           case Some(reg) => Some(EraseTimes(reg, Erased(log, n, k)))
    ensures Erased(log, n, k) <= |Pending(log, k)|
  {
    PlacedLog(d, auto, log, n);
    IndexRefinesLog(log, k, auto);
    RegMidRollback(log, n, k, auto);
  }

  /** What a committed reader finds, in any state of any session without auto-commit. */
  lemma CommittedFinds(d: Disk, log: Log, n: nat, k: int)
    requires Placed(d, false, log, n)
    ensures Answers(CommittedRead(d, k), d.data, FoundVersion(log, k))
    ensures FoundVersion(log, k) >= 0 ==> CommittedRead(d, k).Found?
  {
    PlacedLog(d, false, log, n);
    PlacedReg(d, false, log, n, k);
    if k in d.index.slots {
      CommittedOffset(IndexOf(log).slots[k], log, k, Erased(log, n, k));
      FindsVersion(d, log, FoundVersion(log, k), k, d.saved.lastCommit, false, false);
    }
  }

  /** What it should find: the version committed in the records that the index stands for. */
  lemma SnapshotOfPlaced(d: Disk, log: Log, n: nat, k: int)
    requires Placed(d, false, log, n)
    ensures SavedPoint(d) && SnapshotRead(d.data, k, d.saved.lastCommit) == Committed(log, k)
  {
    var p := LastCommit(log);
    PlacedLog(d, false, log, n);
    assert d.data[..p] == log[..p];
    if p > 0 { assert d.data[p - 1] == log[p - 1]; }
    SnapshotAtCommit(d.data, k, p);
    CommittedAtLastCommit(log, k);
  }

  /** The committed version of k has a slot of its own. */
  ghost predicate Readable(log: Log, k: int) {
    Committed(log, k) >= 0 ==> Surviving(log, k) >= 0 && |Pending(log, k)| <= 1
  }

  /**
   Exactly when one state answers for one serial: its committed version was not lost in an
   earlier rollback, and the open transaction has not filled both slots.
   */
  lemma AnswersExactly(d: Disk, log: Log, n: nat, k: int)
    requires Placed(d, false, log, n)
    ensures Answers(CommittedRead(d, k), d.data, SnapshotRead(d.data, k, d.saved.lastCommit)) <==> Readable(log, k)
  {
    CommittedFinds(d, log, n, k);
    SnapshotOfPlaced(d, log, n, k);
    SurvivingIsCommitted(log, k);
  }

  lemma IsolatedExactly(d: Disk, log: Log, n: nat)
    requires Placed(d, false, log, n)
    ensures Isolated(d) <==> forall k :: Readable(log, k)
  {
    SnapshotOfPlaced(d, log, n, 0);
    forall k ensures Answers(CommittedRead(d, k), d.data, SnapshotRead(d.data, k, d.saved.lastCommit)) <==> Readable(log, k) {
      AnswersExactly(d, log, n, k);
    }
    if Isolated(d) {
      forall k ensures Readable(log, k) {
        assert Answers(CommittedRead(d, k), d.data, SnapshotRead(d.data, k, d.saved.lastCommit));
      }
    }
  }

  // ---------- where slots point, and reads under auto-commit ----------

  /** An erased slot, or one that locates the WRITE of k that carries its sequence. */
  ghost predicate SlotPoints(s: Slot, data: Log, k: int) {
    (s.offset == -1 && -1 <= s.sequence <= 0) ||
    (&& 1 <= s.sequence <= |data|
     && IsWriteOf(data[s.sequence - 1], k) && data[s.sequence - 1].sequence == s.sequence
     && Locate(data, s.offset) == s.sequence - 1)
  }

  /** Both slots of a serial, if it has an index entry. */
  ghost predicate EntryPoints(d: Disk, k: int) {
    k in d.index.slots ==> SlotPoints(d.index.slots[k].slots0, d.data, k) && SlotPoints(d.index.slots[k].slots1, d.data, k)
  }

  lemma SoundSlotPoints(s: Slot, data: Log, log: Log, k: int, auto: bool)
    requires WellFormed(log, auto) && SlotSound(s, log, k) && log <= data
    ensures SlotPoints(s, data, k)
  {
    if s.sequence > 0 {
      LocateIn(data, log, s.sequence - 1);
      assert WellFormedAt(log, s.sequence - 1, auto);
    }
  }

  /** In any state of any session, each slot that is not erased points to a WRITE of its serial with its sequence. */
  lemma PlacedPoints(d: Disk, auto: bool, log: Log, n: nat, k: int)
    requires Placed(d, auto, log, n)
    ensures EntryPoints(d, k)
  {
    PlacedLog(d, auto, log, n);
    PlacedReg(d, auto, log, n, k);
    if k in d.index.slots {
      var reg := IndexOf(log).slots[k];
      ErasedReg(reg, log, k, Erased(log, n, k));
      SoundSlotPoints(Hi(d.index.slots[k]), d.data, log, k, auto);
      SoundSlotPoints(Lo(d.index.slots[k]), d.data, log, k, auto);
    }
  }

  lemma {:induction false} NoCommits(log: Log, k: int)
    requires WellFormed(log, true)
    ensures Committed(log, k) == -1
  {
    if log != [] {
      var n := |log| - 1;
      WellFormedPrefix(log, true, n);
      NoCommits(log[..n], k);
      assert WellFormedAt(log, n, true);
    }
  }

  lemma NeverRolledBack(log: Log, i: nat)
    requires WellFormed(log, true) && i < |log|
    ensures !RolledBack(log, i)
  {
    forall j | 0 <= j < |log| ensures !EndsTransaction(log[j]) { assert WellFormedAt(log, j, true); }
  }

  /** The newest of the first records, whatever follows. */
  lemma AutoSnapshot(data: Log, log: Log, k: int)
    requires WellFormed(data, true) && WellFormed(log, true) && log <= data
    ensures SnapshotRead(data, k, |log|) == Newest(log, k)
  {
    forall i | 0 <= i < |log| ensures data[i] == log[i] && RolledBack(data, i) == RolledBack(log, i) {
      NeverRolledBack(data, i);
      NeverRolledBack(log, i);
    }
    ScanAgrees(data, log, k, |log|);
    FoldsAreScans(log, k);
  }

  lemma AutoOffset(reg: IndexReg, log: Log, k: int, lastCommit: int, dirtyRead: bool)
    requires WellFormed(log, true) && Holds(reg, log, k)
    ensures LastOffset(reg, lastCommit, dirtyRead) == if Newest(log, k) >= 0 then OffsetOf(log, Newest(log, k)) else -1
  {
    NoCommits(log, k);
    SurvivingIsCommitted(log, k);
    if Newest(log, k) >= 0 { assert WellFormedAt(log, Newest(log, k), true); }
  }

  /** With auto-commit, any reader in any mode finds the newest of the records that the index stands for. */
  lemma AutoFinds(d: Disk, log: Log, k: int, lastCommit: int, dirtyMode: bool, rdwr: bool)
    requires Placed(d, true, log, 0)
    ensures Answers(ReadAs(d, k, lastCommit, dirtyMode, rdwr), d.data, SnapshotRead(d.data, k, |log|))
  {
    PlacedLog(d, true, log, 0);
    AutoSnapshot(d.data, log, k);
    PlacedReg(d, true, log, 0, k);
    if k in d.index.slots {
      AutoOffset(d.index.slots[k], log, k, lastCommit, dirtyMode || rdwr);
      FindsVersion(d, log, Newest(log, k), k, lastCommit, dirtyMode, rdwr);
    } else {
      AutoAbsent(log, k);
    }
  }

  /** A read whose slots lead to version i answers with it. */
  lemma FindsVersion(d: Disk, log: Log, i: int, k: int, lastCommit: int, dirtyMode: bool, rdwr: bool)
    requires log <= d.data && -1 <= i < |log| && k in d.index.slots
    requires LastOffset(d.index.slots[k], lastCommit, dirtyMode || rdwr) == if i >= 0 then OffsetOf(log, i) else -1
    ensures Answers(ReadAs(d, k, lastCommit, dirtyMode, rdwr), d.data, i)
    ensures i >= 0 ==> ReadAs(d, k, lastCommit, dirtyMode, rdwr).Found?
  {
    if i >= 0 { LocateIn(d.data, log, i); }
  }

  lemma AutoAbsent(log: Log, k: int)
    requires WellFormed(log, true) && Surviving(log, k) < 0 && Pending(log, k) == []
    ensures Newest(log, k) == -1
  {
    NoCommits(log, k);
  }

  // ---------- disciplined logs ----------

  /** No serial with a committed version is pending more than once. */
  ghost predicate OnceEach(log: Log) {
    forall k :: Committed(log, k) >= 0 ==> |Pending(log, k)| <= 1
  }

  /** That was so at every record. */
  ghost predicate LogOnce(log: Log) {
    forall i {:trigger log[..i]} :: 0 <= i <= |log| ==> OnceEach(log[..i])
  }

  lemma LogOncePrefix(log: Log, data: Log)
    requires LogOnce(data) && log <= data
    ensures LogOnce(log) && OnceEach(log) && RollbacksSafe(log)
  {
    assert log == data[..|log|];
    forall i | 0 <= i <= |log| ensures OnceEach(log[..i]) { assert log[..i] == data[..i]; }
  }

  lemma LogOnceAppend(log: Log, r: Rec)
    ensures LogOnce(log + [r]) <==> LogOnce(log) && OnceEach(log + [r])
  {
    var log' := log + [r];
    assert log'[..|log'|] == log';
    if LogOnce(log') { LogOncePrefix(log, log'); }
    if LogOnce(log) && OnceEach(log') {
      forall i | 0 <= i <= |log'| ensures OnceEach(log'[..i]) {
        if i <= |log| { assert log'[..i] == log[..i]; }
      }
    }
  }

  /** A disciplined log is readable at every serial. */
  lemma OnceReadable(log: Log, k: int)
    requires OnceEach(log) && RollbacksSafe(log)
    ensures Readable(log, k)
  {
    SafeSurvives(log, k);
  }

  lemma OnceIsolated(d: Disk, log: Log, n: nat)
    requires Placed(d, false, log, n) && LogOnce(d.data)
    ensures Isolated(d)
  {
    LogOncePrefix(log, d.data);
    forall k ensures Readable(log, k) { OnceReadable(log, k); }
    IsolatedExactly(d, log, n);
  }

  lemma SafeAppend(data: Log, r: Rec)
    ensures r.kind.RollbackBegin? ==> (RollbacksSafe(data + [r]) <==> RollbacksSafe(data) && OnceEach(data))
    ensures !r.kind.RollbackBegin? ==> (RollbacksSafe(data + [r]) <==> RollbacksSafe(data))
  {
    var data' := data + [r];
    assert data'[..|data|] == data;
    assert forall i :: 0 <= i < |data| ==> data'[..i] == data[..i];
    if RollbacksSafe(data') {
      forall i, k {:trigger Pending(data[..i], k)} |
        0 <= i < |data| && data[i].kind.RollbackBegin? && Committed(data[..i], k) >= 0
        ensures |Pending(data[..i], k)| <= 1
      {
        assert data'[..i] == data[..i] && data'[i] == data[i];
      }
      if r.kind.RollbackBegin? {
        forall k | Committed(data, k) >= 0 ensures |Pending(data, k)| <= 1 {
          assert |Pending(data'[..|data|], k)| <= 1;
        }
      }
    }
    if RollbacksSafe(data) && (r.kind.RollbackBegin? ==> OnceEach(data)) {
      forall i, k {:trigger Pending(data'[..i], k)} |
        0 <= i < |data'| && data'[i].kind.RollbackBegin? && Committed(data'[..i], k) >= 0
        ensures |Pending(data'[..i], k)| <= 1
      {
        if i < |data| { assert data'[..i] == data[..i] && |Pending(data[..i], k)| <= 1; }
      }
    }
  }

  /** A write keeps the discipline unless its serial is both committed and already dirty. */
  lemma WriteDiscipline(data: Log, r: Rec)
    requires OnceEach(data) && r.kind.Write?
    ensures OnceEach(data + [r]) <==> !(Committed(data, r.serial) >= 0 && r.serial in PendingSerials(data))
  {
    var data' := data + [r];
    PendingCount(data, r.serial);
    FoldsAfter(data, r, r.serial);
    if !(Committed(data, r.serial) >= 0 && r.serial in PendingSerials(data)) {
      forall k ensures Committed(data', k) >= 0 ==> |Pending(data', k)| <= 1 {
        FoldsAfter(data, r, k);
      }
    }
  }

  /** Records other than a WRITE pend nothing new. */
  lemma OtherDiscipline(data: Log, r: Rec)
    requires OnceEach(data) && !r.kind.Write?
    ensures OnceEach(data + [r])
  {
    forall k ensures Committed(data + [r], k) >= 0 ==> |Pending(data + [r], k)| <= 1 { FoldsAfter(data, r, k); }
  }
}
