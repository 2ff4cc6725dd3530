/**
 The full multi-version log: what each record of the data file means, with no index.
 The first part is the reference; the second part computes the same answers record by
 record, and the lemmas prove that the two agree.
 */
module VersionLog {
  import opened Records

  // ---------- reference definitions ----------

  predicate EndsTransaction(r: Rec) {
    r.kind.Commit? || r.kind.RollbackBegin?
  }

  predicate IsWriteOf(r: Rec, k: int) {
    r.kind.Write? && r.serial == k
  }

  /** The first record at or after i that ends a transaction. */
  function NextEnd(log: Log, i: nat): (j: nat)
    requires i <= |log|
    ensures i <= j <= |log|
    ensures j < |log| ==> EndsTransaction(log[j])
    ensures forall m :: i <= m < j ==> !EndsTransaction(log[m])
    decreases |log| - i
  {
    if i == |log| || EndsTransaction(log[i]) then i else NextEnd(log, i + 1)
  }

  /** The transaction of record i was ended by a rollback. */
  predicate RolledBack(log: Log, i: nat)
    requires i < |log|
  {
    var j := NextEnd(log, i + 1);
    j < |log| && log[j].kind.RollbackBegin?
  }

  /** The transaction of record i was ended by a commit. */
  predicate Sealed(log: Log, i: nat)
    requires i < |log|
  {
    var j := NextEnd(log, i + 1);
    j < |log| && log[j].kind.Commit?
  }

  /**
   The newest WRITE of k among the first p records (those with sequence <= p) that was
   not rolled back; -1 if there is none.
   */
  function SnapshotRead(log: Log, k: int, p: nat): (i: int)
    requires p <= |log|
    ensures -1 <= i < p
    ensures i >= 0 ==> IsWriteOf(log[i], k) && !RolledBack(log, i)
    ensures forall j :: i < j < p && IsWriteOf(log[j], k) ==> RolledBack(log, j)
  {
    if p == 0 then -1
    else if IsWriteOf(log[p - 1], k) && !RolledBack(log, p - 1) then p - 1
    else SnapshotRead(log, k, p - 1)
  }

  // ---------- the same, one record at a time ----------

  /** The writes of k in the transaction that is still open. */
  function Pending(log: Log, k: int): (w: seq<nat>)
    ensures forall i :: 0 <= i < |w| ==> w[i] < |log| && IsWriteOf(log[w[i]], k)
  {
    if log == [] then []
    else
      var n := |log| - 1;
      var before := Pending(log[..n], k);
      if EndsTransaction(log[n]) then []
      else if IsWriteOf(log[n], k) then before + [n]
      else before
  }

  /** The committed version of k; -1 if none. */
  function Committed(log: Log, k: int): (i: int)
    ensures -1 <= i < |log|
    ensures i >= 0 ==> IsWriteOf(log[i], k)
    decreases |log|, 0
  {
    if log == [] then -1
    else
      var n := |log| - 1;
      if log[n].kind.Commit? then Newest(log[..n], k) else Committed(log[..n], k)
  }

  /** The version the writer itself should read: the last pending write, else the committed one. */
  function Newest(log: Log, k: int): (i: int)
    ensures -1 <= i < |log|
    ensures i >= 0 ==> IsWriteOf(log[i], k)
    decreases |log|, 1
  {
    var w := Pending(log, k);
    if w != [] then w[|w| - 1] else Committed(log, k)
  }

  /** The serials written in the open transaction, in order, with repetitions. */
  function PendingSerials(log: Log): (s: seq<int>)
  {
    if log == [] then []
    else
      var n := |log| - 1;
      if EndsTransaction(log[n]) then []
      else if log[n].kind.Write? then PendingSerials(log[..n]) + [log[n].serial]
      else PendingSerials(log[..n])
  }

  /** The sequence (position + 1) of the last COMMIT; 0 if none. */
  function LastCommit(log: Log): (p: nat)
    ensures p <= |log|
    ensures p > 0 ==> log[p - 1].kind.Commit?
    ensures forall j :: p <= j < |log| ==> !log[j].kind.Commit?
  {
    if log == [] then 0
    else
      var n := |log| - 1;
      if log[n].kind.Commit? then n + 1 else LastCommit(log[..n])
  }

  function CountKind(log: Log, kind: Kind): (c: nat)
    ensures c <= |log|
  {
    if log == [] then 0
    else CountKind(log[..|log| - 1], kind) + (if log[|log| - 1].kind == kind then 1 else 0)
  }

  function Occurrences(s: seq<int>, k: int): (c: nat)
    ensures c <= |s|
    ensures (c == 0) == (k !in s)
  {
    if s == [] then 0
    else
      assert s == s[..|s| - 1] + [s[|s| - 1]];
      Occurrences(s[..|s| - 1], k) + (if s[|s| - 1] == k then 1 else 0)
  }

  // ---------- appending one record ----------

  lemma Unfold(log: Log, r: Rec)
    ensures (log + [r])[..|log|] == log && (log + [r])[|log|] == r
  {
  }

  /** The folds after one more record. */
  lemma FoldsAfter(log: Log, r: Rec, k: int)
    ensures Pending(log + [r], k) ==
      if EndsTransaction(r) then [] else if IsWriteOf(r, k) then Pending(log, k) + [|log|] else Pending(log, k)
    ensures Committed(log + [r], k) == if r.kind.Commit? then Newest(log, k) else Committed(log, k)
    ensures PendingSerials(log + [r]) ==
      if EndsTransaction(r) then [] else if r.kind.Write? then PendingSerials(log) + [r.serial] else PendingSerials(log)
    ensures LastCommit(log + [r]) == if r.kind.Commit? then |log| + 1 else LastCommit(log)
  {
    Unfold(log, r);
  }

  lemma {:induction false} NextEndIs(log: Log, i: nat, j: nat)
    requires i <= j <= |log|
    requires j < |log| ==> EndsTransaction(log[j])
    requires forall m :: i <= m < j ==> !EndsTransaction(log[m])
    ensures NextEnd(log, i) == j
    decreases j - i
  {
    if i < j {
      NextEndIs(log, i + 1, j);
    }
  }

  lemma NextEndAppend(log: Log, r: Rec, i: nat)
    requires i <= |log|
    ensures NextEnd(log, i) < |log| ==> NextEnd(log + [r], i) == NextEnd(log, i)
    ensures NextEnd(log, i) == |log| ==>
              NextEnd(log + [r], i) == (if EndsTransaction(r) then |log| else |log| + 1)
  {
    var j := NextEnd(log, i);
    NextEndIs(log + [r], i, if j < |log| || EndsTransaction(r) then j else |log| + 1);
  }

  /** Only the record that ends a transaction decides the fate of its writes. */
  lemma FateAppend(log: Log, r: Rec, i: nat)
    requires i < |log|
    ensures !r.kind.RollbackBegin? ==> RolledBack(log + [r], i) == RolledBack(log, i)
    ensures r.kind.RollbackBegin? ==> RolledBack(log + [r], i) == !Sealed(log, i)
    ensures !r.kind.Commit? ==> Sealed(log + [r], i) == Sealed(log, i)
    ensures r.kind.Commit? ==> Sealed(log + [r], i) == !RolledBack(log, i)
  {
    NextEndAppend(log, r, i + 1);
  }

  /** Two scans with the same candidates find the same version. */
  lemma {:induction false} ScanAgrees(log: Log, log': Log, k: int, p: nat)
    requires p <= |log| && p <= |log'|
    requires forall i :: 0 <= i < p ==>
      (IsWriteOf(log[i], k) && !RolledBack(log, i)) == (IsWriteOf(log'[i], k) && !RolledBack(log', i))
    ensures SnapshotRead(log, k, p) == SnapshotRead(log', k, p)
  {
    if p > 0 {
      ScanAgrees(log, log', k, p - 1);
    }
  }

  /** The newest WRITE of k among the first p records whose transaction was committed. */
  ghost function SealedRead(log: Log, k: int, p: nat): (i: int)
    requires p <= |log|
  {
    if p == 0 then -1
    else if IsWriteOf(log[p - 1], k) && Sealed(log, p - 1) then p - 1
    else SealedRead(log, k, p - 1)
  }

  lemma {:induction false} SealedAgrees(log: Log, log': Log, k: int, p: nat)
    requires p <= |log| && p <= |log'|
    requires forall i :: 0 <= i < p ==>
      (IsWriteOf(log[i], k) && Sealed(log, i)) == (IsWriteOf(log'[i], k) && Sealed(log', i))
    ensures SealedRead(log, k, p) == SealedRead(log', k, p)
  {
    if p > 0 {
      SealedAgrees(log, log', k, p - 1);
    }
  }

  lemma {:induction false} SealedIsScan(log: Log, log': Log, k: int, p: nat)
    requires p <= |log| && p <= |log'|
    requires forall i :: 0 <= i < p ==>
      (IsWriteOf(log[i], k) && !RolledBack(log, i)) == (IsWriteOf(log'[i], k) && Sealed(log', i))
    ensures SnapshotRead(log, k, p) == SealedRead(log', k, p)
  {
    if p > 0 {
      SealedIsScan(log, log', k, p - 1);
    }
  }

  ghost predicate FoldsAgree(log: Log, k: int) {
    Newest(log, k) == SnapshotRead(log, k, |log|) && Committed(log, k) == SealedRead(log, k, |log|)
  }

  lemma CommitFolds(log: Log, r: Rec, k: int)
    requires FoldsAgree(log, k) && r.kind.Commit?
    ensures FoldsAgree(log + [r], k)
  {
    Unfold(log, r);
    forall i | 0 <= i < |log| { FateAppend(log, r, i); }
    ScanAgrees(log, log + [r], k, |log|);
    SealedIsScan(log, log + [r], k, |log|);
  }

  lemma RollbackFolds(log: Log, r: Rec, k: int)
    requires FoldsAgree(log, k) && r.kind.RollbackBegin?
    ensures FoldsAgree(log + [r], k)
  {
    Unfold(log, r);
    forall i | 0 <= i < |log| { FateAppend(log, r, i); }
    SealedIsScan(log + [r], log, k, |log|);
    SealedAgrees(log, log + [r], k, |log|);
  }

  lemma OtherFolds(log: Log, r: Rec, k: int)
    requires FoldsAgree(log, k) && !EndsTransaction(r)
    ensures FoldsAgree(log + [r], k)
  {
    ScansAfter(log, r, k);
    FoldsAfter(log, r, k);
    LastScan(log, r, k);
  }

  lemma ScansAfter(log: Log, r: Rec, k: int)
    requires !EndsTransaction(r)
    ensures SnapshotRead(log + [r], k, |log|) == SnapshotRead(log, k, |log|)
    ensures SealedRead(log + [r], k, |log|) == SealedRead(log, k, |log|)
  {
    var log' := log + [r];
    forall i | 0 <= i < |log|
      ensures log'[i] == log[i] && RolledBack(log', i) == RolledBack(log, i) && Sealed(log', i) == Sealed(log, i)
    {
      FateAppend(log, r, i);
    }
    ScanAgrees(log, log', k, |log|);
    SealedAgrees(log, log', k, |log|);
  }

  /** The fate of the last record is open. */
  lemma LastScan(log: Log, r: Rec, k: int)
    ensures SnapshotRead(log + [r], k, |log| + 1) == if IsWriteOf(r, k) then |log| else SnapshotRead(log + [r], k, |log|)
    ensures SealedRead(log + [r], k, |log| + 1) == SealedRead(log + [r], k, |log|)
  {
    assert NextEnd(log + [r], |log| + 1) == |log| + 1;
  }

  /** The record-by-record Newest and Committed are the reference scans. */
  lemma {:induction false} FoldsAreScans(log: Log, k: int)
    ensures Newest(log, k) == SnapshotRead(log, k, |log|)
    ensures Committed(log, k) == SealedRead(log, k, |log|)
  {
    if log != [] {
      var n := |log| - 1;
      var pre, r := log[..n], log[n];
      FoldsAreScans(pre, k);
      match r.kind {
        case Commit => CommitFolds(pre, r, k);
        case RollbackBegin => RollbackFolds(pre, r, k);
        case _ => OtherFolds(pre, r, k);
      }
      assert log == pre + [r];
    }
  }

  lemma {:induction false} FirstEnd(log: Log, i: nat, q: nat) returns (j: nat)
    requires i <= q < |log| && EndsTransaction(log[q])
    ensures i <= j <= q && EndsTransaction(log[j])
    ensures forall m :: i <= m < j ==> !EndsTransaction(log[m])
    decreases q - i
  {
    j := i;
    if !EndsTransaction(log[i]) {
      j := FirstEnd(log, i + 1, q);
    }
  }

  /** A reader at a commit point sees what was committed when that COMMIT was the last record. */
  lemma {:induction false} SnapshotAtCommit(log: Log, k: int, p: nat)
    requires p <= |log|
    requires p > 0 ==> log[p - 1].kind.Commit?
    ensures SnapshotRead(log, k, p) == Committed(log[..p], k)
  {
    if p > 0 {
      var pre := log[..p];
      forall i | 0 <= i < p
        ensures pre[i] == log[i]
        ensures IsWriteOf(log[i], k) ==> RolledBack(log, i) == RolledBack(pre, i)
      {
        if i < p - 1 {
          var j := FirstEnd(log, i + 1, p - 1);
          NextEndIs(log, i + 1, j);
          NextEndIs(pre, i + 1, j);
        }
      }
      ScanAgrees(log, pre, k, p);
      FoldsAreScans(pre, k);
    }
  }

  /** Later records do not change what a commit point shows. */
  lemma SnapshotStable(log: Log, r: Rec, k: int, p: nat)
    requires p <= |log|
    requires p > 0 ==> log[p - 1].kind.Commit?
    ensures SnapshotRead(log + [r], k, p) == SnapshotRead(log, k, p)
  {
    SnapshotAtCommit(log, k, p);
    SnapshotAtCommit(log + [r], k, p);
    assert (log + [r])[..p] == log[..p];
  }

  /** The last COMMIT decides the committed versions. */
  lemma {:induction false} CommittedAtLastCommit(log: Log, k: int)
    ensures Committed(log[..LastCommit(log)], k) == Committed(log, k)
    ensures Committed(log, k) < LastCommit(log) || Committed(log, k) == -1
    ensures forall i :: 0 <= i < |Pending(log, k)| ==> Pending(log, k)[i] >= LastCommit(log)
  {
    if log != [] {
      var n := |log| - 1;
      if log[n].kind.Commit? {
        assert log[..n + 1] == log;
      } else {
        CommittedAtLastCommit(log[..n], k);
        var p := LastCommit(log);
        assert log[..n][..p] == log[..p];
      }
    }
  }

  /** Pending writes of k and dirty-list entries for k are the same in number. */
  lemma {:induction false} PendingCount(log: Log, k: int)
    ensures |Pending(log, k)| == Occurrences(PendingSerials(log), k)
  {
    if log != [] {
      var n := |log| - 1;
      PendingCount(log[..n], k);
      if log[n].kind.Write? {
        assert (PendingSerials(log[..n]) + [log[n].serial])[..|PendingSerials(log[..n])|] == PendingSerials(log[..n]);
      }
    }
  }
}
