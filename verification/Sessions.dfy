/**
 Whole sessions seen by readers in other processes: snapshot isolation and atomic visibility at
 every file write, exactly when they hold, and what goes wrong otherwise.
 */
module Sessions {
  import opened Bytes
  import opened Records
  import opened VersionLog
  import opened SlotIndex
  import opened StoreModel
  import opened SessionInvariant
  import opened History
  import opened Isolation
  import opened Discipline

  // ---------- disciplined sessions are isolated ----------

  ghost predicate AllIsolated(h: seq<Disk>) {
    forall n :: 0 <= n < |h| ==> Isolated(h[n])
  }

  lemma PlacedIsolated(d: Disk)
    requires PlacedSomewhere(d, false) && LogOnce(d.data)
    ensures Isolated(d)
  {
    var log, n :| Placed(d, false, log, n);
    OnceIsolated(d, log, n);
  }

  lemma OnceSessions(calls: seq<Call>)
    requires ValidCalls(calls) && WriteOnce(calls)
    ensures AllIsolated(Run(calls, false).history)
  {
    HistoryOfRun(calls, false);
    RunsMatch(calls);
    var s := Run(calls, false);
    forall n | 0 <= n < |s.history| ensures Isolated(s.history[n]) {
      DataGrows(s.history, s.disk, false, n);
      LogOncePrefix(s.history[n].data, s.disk.data);
      PlacedIsolated(s.history[n]);
    }
  }

  // ---------- histories grow ----------

  lemma {:induction false} EraseStepsGrow(s: Store, serials: seq<int>, n: nat)
    requires n <= |serials|
    ensures s.history <= EraseSteps(s, serials, n).0.history
  {
    if n > 0 { EraseStepsGrow(s, serials, n - 1); }
  }

  lemma StatusGrows(s: Store)
    ensures s.history <= StatusStep(s).history
  {
  }

  lemma WriteGrows(s: Store, r: Rec)
    ensures s.history <= WriteRecord(s, r).history
  {
    var s1 := WriteData(s, r);
    assert s.history <= s1.history <= SaveState(s1).history;
  }

  lemma RollbackGrows(s: Store, r: Rec)
    ensures s.history <= RollbackBeginRecord(s, r).history
  {
    var s1 := WriteLog(WriteData(s, r), r.sequence, LogReg(0, r.serial, RollbackBegin));
    assert s.history <= s1.history;
    if r.body.Serials? {
      EraseStepsGrow(s1, r.body.serials, |r.body.serials|);
    }
  }

  lemma RecordGrows(s: Store, r: Rec)
    ensures s.history <= RecordStep(s, r).history
  {
    match r.kind {
      case Write => WriteGrows(s, r);
      case RollbackBegin => RollbackGrows(s, r);
      case _ =>
    }
  }

  lemma HistoryGrows(s: Store, r: Rec)
    ensures s.history <= RecordStep(Counted(s, r), r).history <= WriteFiles(s, r).history
  {
    RecordGrows(Counted(s, r), r);
    StatusGrows(RecordStep(Counted(s, r), r));
  }

  lemma CallHistoryGrows(s: Store, c: Call)
    ensures s.history <= Do(s, c).history
  {
    match c {
      case CallWrite(k, bytes) => HistoryGrows(s, WriteRec(s, k, bytes));
      case CallCommit => HistoryGrows(s, CommitRec(s));
      case CallRollback =>
        HistoryGrows(s, RollbackBeginRec(s));
        var s1 := WriteFiles(s, RollbackBeginRec(s));
        HistoryGrows(s1, RollbackEndRec(s1));
    }
  }

  // ---------- the second write of a committed serial ----------

  /** This state of the files hides k from committed readers, though the full log has a version. */
  ghost predicate Hidden(d: Disk, k: int) {
    CommittedRead(d, k).Failed? && 0 <= d.saved.lastCommit <= |d.data| && SnapshotRead(d.data, k, d.saved.lastCommit) >= 0
  }

  lemma HiddenNotIsolated(d: Disk, k: int)
    requires Hidden(d, k)
    ensures !Isolated(d)
  {
    assert !Answers(CommittedRead(d, k), d.data, SnapshotRead(d.data, k, d.saved.lastCommit));
  }

  lemma NotReadableHidden(d: Disk, log: Log, n: nat, k: int)
    requires Placed(d, false, log, n) && !Readable(log, k)
    ensures Hidden(d, k)
  {
    CommittedFinds(d, log, n, k);
    SnapshotOfPlaced(d, log, n, k);
  }

  /** The last two states of a WRITE, and the records that their indexes stand for. */
  lemma LastTwo(s: Store, r: Rec, log: Log) returns (before: Disk, after: Disk)
    requires Ready(s, log) && s.state.count % STATUS_FREQ != STATUS_FREQ - 1 && !s.autoCommit
    requires NextRecord(s, r) && r.kind.Write?
    ensures var h := RecordStep(Counted(s, r), r).history;
      |h| >= 2 && h[|h| - 2] == before && h[|h| - 1] == after && after == before.(index := after.index)
    ensures Placed(before, false, s.disk.data, 0) && Placed(after, false, s.disk.data + [r], 0)
  {
    RecordKeepsCore(s, r);
    var t := WriteSaves(s, r, log);
    var t' := WriteEnters(s, r, t);
    before, after := t'.disk, RecordStep(Counted(s, r), r).disk;
  }

  /**
   The index write of the second write of a committed serial hides that serial from committed
   readers; the file write before it did not, if the session was write-once until then.
   */
  lemma SecondWriteHides(s: Store, r: Rec, log: Log) returns (before: Disk, after: Disk)
    requires Ready(s, log) && s.state.count % STATUS_FREQ != STATUS_FREQ - 1 && !s.autoCommit
    requires NextRecord(s, r) && r.kind.Write?
    requires Committed(s.disk.data, r.serial) >= 0 && r.serial in PendingSerials(s.disk.data)
    ensures var h := RecordStep(Counted(s, r), r).history;
      |h| >= 2 && h[|h| - 2] == before && h[|h| - 1] == after && after == before.(index := after.index)
    ensures Hidden(after, r.serial)
    ensures LogOnce(s.disk.data) ==> CommittedRead(before, r.serial).Found?
  {
    var data, k := s.disk.data, r.serial;
    before, after := LastTwo(s, r, log);
    FoldsAfter(data, r, k);
    PendingCount(data, k);
    NotReadableHidden(after, data + [r], 0, k);
    if LogOnce(data) {
      LogOncePrefix(data, data);
      OnceReadable(data, k);
      CommittedFinds(before, data, 0, k);
    }
  }

  /** Some state of the history hides k. */
  ghost predicate HidesSomewhere(h: seq<Disk>, k: int) {
    exists n :: 0 <= n < |h| && Hidden(h[n], k)
  }

  lemma HidesLater(h: seq<Disk>, h': seq<Disk>, k: int)
    requires h <= h' && h != [] && Hidden(h[|h| - 1], k)
    ensures HidesSomewhere(h', k)
  {
    assert h'[|h| - 1] == h[|h| - 1];
  }

  lemma UndisciplinedWrite(before: seq<Call>, k: int, bytes: seq<byte>)
    requires ValidCalls(before) && k >= 1 && k in CommittedSerials(before) && k in TxnWrites(before)
    ensures HidesSomewhere(DoWrite(Run(before, false), k, bytes).history, k)
  {
    var s := Run(before, false);
    var r := WriteRec(s, k, bytes);
    var log := RunsAt(before, false);
    RunsMatch(before);
    var _, _ := SecondWriteHides(s, r, log);
    HistoryGrows(s, r);
    HidesLater(RecordStep(Counted(s, r), r).history, WriteFiles(s, r).history, k);
  }

  lemma HidesNotIsolated(h: seq<Disk>, k: int)
    requires HidesSomewhere(h, k)
    ensures !AllIsolated(h)
  {
    var n :| 0 <= n < |h| && Hidden(h[n], k);
    HiddenNotIsolated(h[n], k);
  }

  lemma HidesInLonger(h: seq<Disk>, h': seq<Disk>, k: int)
    requires h <= h' && HidesSomewhere(h, k)
    ensures HidesSomewhere(h', k)
  {
    var n :| 0 <= n < |h| && Hidden(h[n], k);
    assert h'[n] == h[n];
  }

  /** A session that is not write-once hides some serial at some point. */
  lemma {:induction false} NotOnceHides(calls: seq<Call>) returns (k: int)
    requires ValidCalls(calls) && !WriteOnce(calls)
    ensures k >= 1 && HidesSomewhere(Run(calls, false).history, k)
  {
    var n := |calls| - 1;
    var before, c := calls[..n], calls[n];
    if WriteOnce(before) {
      k := c.serial;
      UndisciplinedWrite(before, k, c.bytes);
    } else {
      k := NotOnceHides(before);
      CallHistoryGrows(Run(before, false), c);
      HidesInLonger(Run(before, false).history, Run(calls, false).history, k);
    }
  }

  /**
   Snapshot isolation, exactly: at every point between two file writes, a committed-mode
   reader gets for every serial what the full multi-version log holds at the saved commit
   number, if and only if no transaction writes a committed serial twice.
   */
  lemma SnapshotIsolation(calls: seq<Call>)
    requires ValidCalls(calls)
    ensures WriteOnce(calls) <==> AllIsolated(Run(calls, false).history)
  {
    if WriteOnce(calls) {
      OnceSessions(calls);
    } else {
      var k := NotOnceHides(calls);
      HidesNotIsolated(Run(calls, false).history, k);
    }
  }

  // ---------- a session that is not write-once ----------

  /** Write, commit, write, write, all of one serial. */
  function TwiceWritten(k: int, a: seq<byte>, b: seq<byte>, c: seq<byte>): seq<Call> {
    [CallWrite(k, a), CallCommit, CallWrite(k, b), CallWrite(k, c)]
  }

  lemma TwiceWrittenCalls(k: int, a: seq<byte>, b: seq<byte>, c: seq<byte>)
    requires k >= 1
    ensures ValidCalls(TwiceWritten(k, a, b, c)) && !WriteOnce(TwiceWritten(k, a, b, c))
    ensures k in CommittedSerials(TwiceWritten(k, a, b, c)) && TxnWrites(TwiceWritten(k, a, b, c)) == [k, k]
    ensures k in CommittedSerials(TwiceWritten(k, a, b, c)[..3]) && k in TxnWrites(TwiceWritten(k, a, b, c)[..3])
  {
    var one, two := [CallWrite(k, a)], [CallWrite(k, a), CallCommit];
    var three, four := [CallWrite(k, a), CallCommit, CallWrite(k, b)], TwiceWritten(k, a, b, c);
    assert one[..0] == [] && two[..1] == one && three[..2] == two && four[..3] == three;
    assert TxnWrites([]) == [] && TxnWrites(one) == [k] && TxnWrites(one)[0] == k;
    assert TxnWrites(two) == [] && TxnWrites(three) == [k] && TxnWrites(four) == [k] + [k];
    assert k in CommittedSerials(two);
    assert CommittedSerials(three) == CommittedSerials(two) == CommittedSerials(four);
  }

  /** After these four calls, a committed reader of k failed at one point, though the serial had a committed version. */
  lemma TwiceWrittenHides(k: int, a: seq<byte>, b: seq<byte>, c: seq<byte>)
    requires k >= 1
    ensures HidesSomewhere(Run(TwiceWritten(k, a, b, c), false).history, k)
  {
    var calls := TwiceWritten(k, a, b, c);
    TwiceWrittenCalls(k, a, b, c);
    UndisciplinedWrite(calls[..3], k, c);
  }

  // ---------- atomic visibility ----------

  lemma ViewOfIsolated(d: Disk, k: int)
    requires Isolated(d)
    ensures var i := SnapshotRead(d.data, k, d.saved.lastCommit);
      CommittedView(d, k) == if i >= 0 then Some(d.data[i].body) else None
  {
    assert Answers(CommittedRead(d, k), d.data, SnapshotRead(d.data, k, d.saved.lastCommit));
  }

  lemma SaveMovesView(d: Disk, d': Disk)
    requires Isolated(d') && SaveStep(d, d')
    ensures forall k :: CommittedView(d', k) == CommittedBody(d.data, k)
  {
    forall k ensures CommittedView(d', k) == CommittedBody(d.data, k) {
      ViewOfIsolated(d', k);
      SnapshotAtCommit(d.data, k, LastCommit(d.data));
      CommittedAtLastCommit(d.data, k);
    }
  }

  lemma OtherKeepsView(d: Disk, d': Disk)
    requires Isolated(d) && Isolated(d') && FileWrite(d, d') && d'.saved == d.saved
    ensures forall k :: CommittedView(d', k) == CommittedView(d, k)
  {
    var p := d.saved.lastCommit;
    assert d'.data[..p] == d.data[..p] by { assert d'.data[..p] == d'.data[..|d.data|][..p]; }
    forall k ensures CommittedView(d', k) == CommittedView(d, k) {
      ViewOfIsolated(d, k);
      ViewOfIsolated(d', k);
      SnapshotAtCommit(d.data, k, p);
      SnapshotAtCommit(d'.data, k, p);
    }
  }

  /** What a file write may do to the committed view. */
  ghost predicate AtomicStep(d: Disk, d': Disk) {
    && d.saved.lastCommit <= d'.saved.lastCommit
    && (|| (d'.saved == d.saved && forall k :: CommittedView(d', k) == CommittedView(d, k))
        || (&& d' == d.(saved := d'.saved) && d'.saved.lastCommit == LastCommit(d.data)
            && forall k :: CommittedView(d', k) == CommittedBody(d.data, k)))
  }

  ghost predicate AllAtomic(h: seq<Disk>) {
    forall n {:trigger h[n]} :: 0 < n < |h| ==> AtomicStep(h[n - 1], h[n])
  }

  lemma OnceAtomic(d: Disk, d': Disk)
    requires Isolated(d) && Isolated(d') && FileWrite(d, d')
    ensures AtomicStep(d, d')
  {
    if SaveStep(d, d') {
      SaveMovesView(d, d');
    } else {
      OtherKeepsView(d, d');
    }
  }

  lemma AtomicPrefix(h: seq<Disk>, h': seq<Disk>)
    requires h <= h' && AllAtomic(h')
    ensures AllAtomic(h)
  {
    forall n {:trigger h[n]} | 0 < n < |h| ensures AtomicStep(h[n - 1], h[n]) {
      assert h[n - 1] == h'[n - 1] && h[n] == h'[n];
    }
  }

  lemma TornStep(d: Disk, d': Disk, k: int)
    requires d' == d.(index := d'.index) && CommittedRead(d, k).Found? && CommittedRead(d', k).Failed?
    ensures !AtomicStep(d, d')
  {
    assert CommittedView(d', k) != CommittedView(d, k);
  }

  lemma TornLast(h: seq<Disk>, h': seq<Disk>, k: int)
    requires h <= h' && |h| >= 2
    requires h[|h| - 1] == h[|h| - 2].(index := h[|h| - 1].index)
    requires CommittedRead(h[|h| - 2], k).Found? && CommittedRead(h[|h| - 1], k).Failed?
    ensures !AllAtomic(h')
  {
    TornStep(h[|h| - 2], h[|h| - 1], k);
    if AllAtomic(h') {
      AtomicPrefix(h, h');
      AtomicLast(h);
    }
  }

  lemma AtomicLast(h: seq<Disk>)
    requires AllAtomic(h) && |h| >= 2
    ensures AtomicStep(h[|h| - 2], h[|h| - 1])
  {
    var n := |h| - 1;
    assert h[n] == h[|h| - 1];
  }

  /** The index write of the second write changes the view of one serial alone. */
  lemma UndisciplinedTears(before: seq<Call>, k: int, bytes: seq<byte>)
    requires ValidCalls(before) && WriteOnce(before) && k >= 1 && k in CommittedSerials(before) && k in TxnWrites(before)
    ensures !AllAtomic(DoWrite(Run(before, false), k, bytes).history)
  {
    var s := Run(before, false);
    var r := WriteRec(s, k, bytes);
    var log := RunsAt(before, false);
    RunsMatch(before);
    var _, _ := SecondWriteHides(s, r, log);
    HistoryGrows(s, r);
    TornLast(RecordStep(Counted(s, r), r).history, WriteFiles(s, r).history, k);
  }

  /**
   Atomic visibility, exactly: every file write either leaves the committed view of every serial
   as it was, or it is a state save that moves all serials at once to the in-memory commit and
   never back, if and only if no transaction writes a committed serial twice.
   */
  lemma {:induction false} AtomicVisibility(calls: seq<Call>)
    requires ValidCalls(calls)
    ensures WriteOnce(calls) <==> AllAtomic(Run(calls, false).history)
  {
    var h := Run(calls, false).history;
    if WriteOnce(calls) {
      OnceSessions(calls);
      HistoryOfRun(calls, false);
      forall n {:trigger h[n]} | 0 < n < |h| ensures AtomicStep(h[n - 1], h[n]) {
        assert Isolated(h[n - 1]) && Isolated(h[n]) && FileWrite(h[n - 1], h[n]);
        OnceAtomic(h[n - 1], h[n]);
      }
    } else {
      var n := |calls| - 1;
      var before, c := calls[..n], calls[n];
      if WriteOnce(before) {
        UndisciplinedTears(before, c.serial, c.bytes);
      } else {
        AtomicVisibility(before);
        CallHistoryGrows(Run(before, false), c);
        if AllAtomic(h) { AtomicPrefix(Run(before, false).history, h); }
      }
    }
  }

  // ---------- every session ----------

  /** In every state the files pass through, each slot that is not erased points to a WRITE of its serial with its sequence. */
  lemma SlotsPointToWrites(calls: seq<Call>, auto: bool, n: nat, k: int)
    requires ValidCalls(calls) && n < |Run(calls, auto).history|
    ensures EntryPoints(Run(calls, auto).history[n], k)
  {
    HistoryOfRun(calls, auto);
    var d := Run(calls, auto).history[n];
    assert PlacedSomewhere(d, auto);
    var log, m :| Placed(d, auto, log, m);
    PlacedPoints(d, auto, log, m, k);
  }

  /** Every reader in every mode gets the newest WRITE among the first p records. */
  ghost predicate AllAnswer(d: Disk, p: nat) {
    p <= |d.data| && forall k, lastCommit, dirtyMode, rdwr ::
      Answers(ReadAs(d, k, lastCommit, dirtyMode, rdwr), d.data, SnapshotRead(d.data, k, p))
  }

  lemma AutoDisk(d: Disk) returns (p: nat)
    requires PlacedSomewhere(d, true)
    ensures AllAnswer(d, p) && |d.data| - 1 <= p
  {
    var log, m :| Placed(d, true, log, m);
    AutoPlaced(d, log);
    p := |log|;
  }

  /**
   With auto-commit, at every point between two file writes, every reader in every mode gets the
   newest WRITE among the first p records, and p leaves out the last record at most.
   */
  lemma AutoCommitBetweenWrites(calls: seq<Call>, n: nat) returns (p: nat)
    requires ValidCalls(calls) && n < |Run(calls, true).history|
    ensures AllAnswer(Run(calls, true).history[n], p) && |Run(calls, true).history[n].data| - 1 <= p
  {
    HistoryOfRun(calls, true);
    assert PlacedSomewhere(Run(calls, true).history[n], true);
    p := AutoDisk(Run(calls, true).history[n]);
  }

  lemma AutoPlaced(d: Disk, log: Log)
    requires Placed(d, true, log, 0)
    ensures AllAnswer(d, |log|) && |d.data| - 1 <= |log| <= |d.data|
  {
    forall k, lastCommit, dirtyMode, rdwr ensures Answers(ReadAs(d, k, lastCommit, dirtyMode, rdwr), d.data, SnapshotRead(d.data, k, |log|)) {
      AutoFinds(d, log, k, lastCommit, dirtyMode, rdwr);
    }
  }

  /** As soon as the call returns, they all get the newest. */
  lemma AutoCommitReads(calls: seq<Call>, k: int, lastCommit: int, dirtyMode: bool, rdwr: bool)
    requires ValidCalls(calls)
    ensures var d := Run(calls, true).disk;
      Answers(ReadAs(d, k, lastCommit, dirtyMode, rdwr), d.data, SnapshotRead(d.data, k, |d.data|))
  {
    var log := RunsAt(calls, true);
    AutoFinds(Run(calls, true).disk, log, k, lastCommit, dirtyMode, rdwr);
  }
}
