/**
 Whole sessions on bytes: every state the files pass through has bytes, each obtained from those
 before by one write to one file, and readers that parse them are isolated exactly when the
 session is write-once.
 */
module SessionBytes {
  import opened Bytes
  import opened Records
  import opened VersionLog
  import opened SlotIndex
  import opened StoreModel
  import opened SessionInvariant
  import opened History
  import opened Isolation
  import opened Discipline
  import opened IndexRows
  import opened StateBytes
  import opened StoreBytes
  import Frames
  import IndexedFile
  import RecordBytes
  import Sessions
  import opened CallReads

  // ---------- what fits the fields ----------

  /** Every record of the data file fits its int32 fields, and its size an int64 offset. */
  ghost predicate DataFits(data: Log) {
    RecordBytes.AllStorable(data) && IsInt64(End(data))
  }

  /** Everything on disk fits its fields. */
  ghost predicate Fits(d: Disk) {
    && DataFits(d.data) && StateFits(d.saved)
    && (forall k :: k in d.index.slots ==> RegFits(d.index.slots[k]))
    && (forall q :: q in d.log.slots ==> EntryFits(d.log.slots[q]))
  }

  predicate EntryFits(reg: LogReg) {
    IsInt64(reg.offset) && IsInt32(reg.serial)
  }

  lemma {:induction false} EndOfPrefix(log: Log, data: Log)
    requires log <= data
    ensures End(log) <= End(data)
    decreases |data|
  {
    if |log| == |data| { assert log == data; } else { EndOfPrefix(log, data[..|data| - 1]); }
  }

  lemma PrefixFits(log: Log, data: Log)
    requires DataFits(data) && log <= data
    ensures DataFits(log)
  {
    EndOfPrefix(log, data);
    forall i | 0 <= i < |log| ensures RecordBytes.Storable(log[i]) { assert log[i] == data[i]; }
  }

  /** Sequences are positions, so the number of records fits too. */
  lemma LengthFits(data: Log, auto: bool)
    requires DataFits(data) && WellFormed(data, auto)
    ensures IsInt32(|data|)
  {
    if data != [] {
      assert WellFormedAt(data, |data| - 1, auto) && RecordBytes.Storable(data[|data| - 1]);
    }
  }

  lemma PointFits(s: Slot, data: Log, k: int)
    requires SlotPoints(s, data, k) && IsInt32(|data|) && IsInt64(End(data))
    ensures SlotFits(s)
  {
    if s.offset != -1 {
      var i := Locate(data, s.offset);
      EndGrows(data, i);
    }
  }

  lemma PlacedFits(d: Disk, auto: bool, log: Log, n: nat)
    requires Placed(d, auto, log, n) && FilesSound(d) && DataFits(d.data)
    ensures Fits(d)
  {
    LengthFits(d.data, auto);
    forall k | k in d.index.slots ensures RegFits(d.index.slots[k]) {
      PlacedPoints(d, auto, log, n, k);
      PointFits(d.index.slots[k].slots0, d.data, k);
      PointFits(d.index.slots[k].slots1, d.data, k);
    }
    forall q | q in d.log.slots ensures EntryFits(d.log.slots[q]) {
      assert EntrySound(d.log.slots[q], d.data, q) && RecordBytes.Storable(d.data[q - 1]);
    }
  }

  // ---------- one file write ----------

  /** One write to one file. */
  ghost predicate OneWrite(f: Files, f': Files) {
    || (exists offset: nat, bytes :: f' == f.(data := Frames.WriteAt(f.data, offset, bytes)))
    || (exists offset: nat, bytes :: f' == f.(index := Frames.WriteAt(f.index, offset, bytes)))
    || (exists offset: nat, bytes :: f' == f.(log := Frames.WriteAt(f.log, offset, bytes)))
    || (exists offset: nat, bytes :: f' == f.(state := Frames.WriteAt(f.state, offset, bytes)))
  }

  lemma DataStepBytes(ck: Frames.Checksum, d: Disk, d': Disk, f: Files, header: seq<byte>, rows: AllRows) returns (f': Files)
    requires OnBytes(ck, d, f, header, rows) && DataStep(d, d') && Fits(d')
    ensures OnBytes(ck, d', f', header, rows) && OneWrite(f, f')
  {
    var r := d'.data[|d.data|];
    assert RecordBytes.Storable(r);
    DataWriteOnBytes(ck, d, f, header, rows, r);
    f' := f.(data := Frames.WriteAt(f.data, |f.data|, Frames.DynamicFrame(ck, RecordBytes.Encode(r))));
  }

  lemma IndexStepBytes(ck: Frames.Checksum, d: Disk, d': Disk, f: Files, header: seq<byte>, rows: AllRows, k: int) returns (f': Files, rows': AllRows)
    requires OnBytes(ck, d, f, header, rows) && IndexStepOf(d, d', k) && Fits(d')
    ensures OnBytes(ck, d', f', header, rows') && OneWrite(f, f')
  {
    var reg := d'.index.slots[k];
    IndexWriteOnBytes(ck, d, f, header, rows, k, reg);
    f' := f.(index := IndexedFile.RowWritten(ck, f.index, INDEX_SIZE, k, EncodeIndex(reg)));
    rows' := rows.(index := rows.index.Put(k, EncodeIndex(reg)));
    IndexedFile.RowSize(k, INDEX_SIZE);
    assert f' == f.(index := Frames.WriteAt(f.index, IndexedFile.RowOffset(k, INDEX_SIZE), Frames.StaticFrame(ck, EncodeIndex(reg))));
  }

  lemma LogStepBytes(ck: Frames.Checksum, d: Disk, d': Disk, f: Files, header: seq<byte>, rows: AllRows, q: int) returns (f': Files, rows': AllRows)
    requires OnBytes(ck, d, f, header, rows) && LogStepOf(d, d', q) && Fits(d')
    ensures OnBytes(ck, d', f', header, rows') && OneWrite(f, f')
  {
    var reg := d'.log.slots[q];
    LogWriteOnBytes(ck, d, f, header, rows, q, reg);
    f' := f.(log := IndexedFile.RowWritten(ck, f.log, LOG_SIZE, q, EncodeLog(reg)));
    rows' := rows.(log := rows.log.Put(q, EncodeLog(reg)));
    IndexedFile.RowSize(q, LOG_SIZE);
    assert f' == f.(log := Frames.WriteAt(f.log, IndexedFile.RowOffset(q, LOG_SIZE), Frames.StaticFrame(ck, EncodeLog(reg))));
  }

  lemma SaveStepBytes(ck: Frames.Checksum, d: Disk, d': Disk, f: Files, header: seq<byte>, rows: AllRows, o: Others) returns (f': Files)
    requires OnBytes(ck, d, f, header, rows) && SaveStep(d, d') && Fits(d') && o.Fits()
    ensures OnBytes(ck, d', f', header, rows) && OneWrite(f, f')
  {
    SaveOnBytes(ck, d, f, header, rows, d'.saved, o);
    f' := f.(state := Frames.WriteAt(f.state, 0, Frames.StaticFrame(ck, EncodeState(d'.saved, o))));
  }

  /** Every file write of the store is one write of bytes. */
  lemma StepBytes(ck: Frames.Checksum, d: Disk, d': Disk, f: Files, header: seq<byte>, rows: AllRows, o: Others) returns (f': Files, rows': AllRows)
    requires OnBytes(ck, d, f, header, rows) && FileWrite(d, d') && Fits(d') && o.Fits()
    ensures OnBytes(ck, d', f', header, rows') && OneWrite(f, f')
  {
    rows' := rows;
    if DataStep(d, d') {
      f' := DataStepBytes(ck, d, d', f, header, rows);
    } else if k :| IndexStepOf(d, d', k) {
      f', rows' := IndexStepBytes(ck, d, d', f, header, rows, k);
    } else if q :| LogStepOf(d, d', q) {
      f', rows' := LogStepBytes(ck, d, d', f, header, rows, q);
    } else {
      f' := SaveStepBytes(ck, d, d', f, header, rows, o);
    }
  }

  // ---------- the files of a session ----------

  /** Files, and the rows of the indexed ones. */
  datatype Shelf = Shelf(files: Files, rows: AllRows)

  ghost predicate ShelfOf(ck: Frames.Checksum, d: Disk, sh: Shelf, header: seq<byte>) {
    OnBytes(ck, d, sh.files, header, sh.rows)
  }

  /** These are the files in the states h, each obtained from the one before by one write. */
  ghost predicate AllOnBytes(ck: Frames.Checksum, h: seq<Disk>, shelves: seq<Shelf>, header: seq<byte>) {
    && |shelves| == |h|
    && (forall n :: 0 <= n < |h| ==> ShelfOf(ck, h[n], shelves[n], header))
    && (forall n {:trigger shelves[n]} :: 0 < n < |h| ==> OneWrite(shelves[n - 1].files, shelves[n].files))
  }

  // ---------- chains ----------

  ghost predicate CanStep<D(!new), F(!new)>(h: seq<D>, p: (D, F) -> bool, q: (F, F) -> bool, m: nat, f: F)
    requires 0 < m < |h|
  {
    p(h[m - 1], f) ==> exists f' :: p(h[m], f') && q(f, f')
  }

  /** Where every step can be taken, all of them can. */
  lemma {:induction false} Chain<D(!new), F(!new)>(h: seq<D>, p: (D, F) -> bool, q: (F, F) -> bool, first: F, m: nat) returns (fs: seq<F>)
    requires m < |h| && p(h[0], first)
    requires forall n: nat, f :: 0 < n < |h| ==> CanStep(h, p, q, n, f)
    ensures |fs| == m + 1 && forall n :: 0 <= n <= m ==> p(h[n], fs[n])
    ensures forall n {:trigger fs[n]} :: 0 < n <= m ==> q(fs[n - 1], fs[n])
  {
    if m == 0 {
      fs := [first];
    } else {
      fs := Chain(h, p, q, first, m - 1);
      assert CanStep(h, p, q, m, fs[m - 1]);
      var f' :| p(h[m], f') && q(fs[m - 1], f');
      fs := fs + [f'];
    }
  }

  lemma HistoryFits(h: seq<Disk>, d: Disk, auto: bool, n: nat)
    requires Passed(h, d, auto) && DataFits(d.data) && n < |h|
    ensures Fits(h[n])
  {
    DataGrows(h, d, auto, n);
    PrefixFits(h[n].data, d.data);
    assert PlacedSomewhere(h[n], auto) && FilesSound(h[n]);
    var log, m :| Placed(h[n], auto, log, m);
    PlacedFits(h[n], auto, log, m);
  }

  /** The bytes that the hash key put into the files, and what the state record holds besides, write by write. */
  datatype Rest = Rest(header: seq<byte>, index: seq<byte>, log: seq<byte>, others: nat -> Others)
  {
    ghost predicate Fits() {
      |header| == RecordBytes.HEADER_SIZE && |index| == INDEX_SIZE && |log| == LOG_SIZE && forall n :: others(n).Fits()
    }
  }

  lemma FirstFiles(ck: Frames.Checksum, d: Disk, x: Rest) returns (f: Files, rows: AllRows)
    requires Frames.IsCrc(ck) && x.Fits() && d == FRESH_DISK
    ensures OnBytes(ck, d, f, x.header, rows)
  {
    f, rows := FreshOnBytes(ck, x.header, x.index, x.log, d.saved, x.others(0));
  }

  lemma NextFiles(ck: Frames.Checksum, h: seq<Disk>, d: Disk, auto: bool, x: Rest, m: nat, f: Files, rows: AllRows) returns (f': Files, rows': AllRows)
    requires x.Fits() && Passed(h, d, auto) && DataFits(d.data) && 0 < m < |h| && OnBytes(ck, h[m - 1], f, x.header, rows)
    ensures OnBytes(ck, h[m], f', x.header, rows') && OneWrite(f, f')
  {
    HistoryFits(h, d, auto, m);
    assert FileWrite(h[m - 1], h[m]);
    f', rows' := StepBytes(ck, h[m - 1], h[m], f, x.header, rows, x.others(m));
  }

  lemma AnyStep(ck: Frames.Checksum, h: seq<Disk>, d: Disk, auto: bool, x: Rest, m: nat, sh: Shelf)
    requires x.Fits() && Passed(h, d, auto) && DataFits(d.data) && 0 < m < |h| && ShelfOf(ck, h[m - 1], sh, x.header)
    ensures exists sh' :: ShelfOf(ck, h[m], sh', x.header) && OneWrite(sh.files, sh'.files)
  {
    var f', rows' := NextFiles(ck, h, d, auto, x, m, sh.files, sh.rows);
    assert ShelfOf(ck, h[m], Shelf(f', rows'), x.header);
  }

  lemma HistoryOnBytes(ck: Frames.Checksum, h: seq<Disk>, d: Disk, auto: bool, x: Rest) returns (shelves: seq<Shelf>)
    requires Frames.IsCrc(ck) && x.Fits() && Passed(h, d, auto) && h[0] == FRESH_DISK && DataFits(d.data)
    ensures AllOnBytes(ck, h, shelves, x.header)
  {
    var p := (e: Disk, sh: Shelf) => ShelfOf(ck, e, sh, x.header);
    var q := (sh: Shelf, sh': Shelf) => OneWrite(sh.files, sh'.files);
    var f, rows := FirstFiles(ck, h[0], x);
    forall m: nat, sh | 0 < m < |h| ensures CanStep(h, p, q, m, sh) {
      if p(h[m - 1], sh) {
        AnyStep(ck, h, d, auto, x, m, sh);
        var sh' :| ShelfOf(ck, h[m], sh', x.header) && OneWrite(sh.files, sh'.files);
        assert p(h[m], sh') && q(sh, sh');
      }
    }
    shelves := Chain(h, p, q, Shelf(f, rows), |h| - 1);
    forall n | 0 <= n < |h| ensures ShelfOf(ck, h[n], shelves[n], x.header) { assert p(h[n], shelves[n]); }
    forall n {:trigger shelves[n]} | 0 < n < |h| ensures OneWrite(shelves[n - 1].files, shelves[n].files) { assert q(shelves[n - 1], shelves[n]); }
  }

  lemma {:induction false} StartsFresh(calls: seq<Call>, auto: bool)
    ensures Run(calls, auto).history != [] && Run(calls, auto).history[0] == FRESH_DISK
  {
    if calls != [] {
      var n := |calls| - 1;
      StartsFresh(calls[..n], auto);
      Sessions.CallHistoryGrows(Run(calls[..n], auto), calls[n]);
    }
  }

  /**
   Every session whose records fit their fields has files: bytes for each state it passes through,
   starting with those of a store just created, each obtained from the one before by one write.
   */
  lemma SessionOnBytes(ck: Frames.Checksum, calls: seq<Call>, auto: bool, x: Rest) returns (shelves: seq<Shelf>)
    requires Frames.IsCrc(ck) && x.Fits() && ValidCalls(calls) && DataFits(Run(calls, auto).disk.data)
    ensures AllOnBytes(ck, Run(calls, auto).history, shelves, x.header)
  {
    HistoryOfRun(calls, auto);
    StartsFresh(calls, auto);
    shelves := HistoryOnBytes(ck, Run(calls, auto).history, Run(calls, auto).disk, auto, x);
  }

  // ---------- readers of the bytes ----------

  /** A committed-mode reader that parses these files gets the snapshot at the commit number it parsed. */
  ghost predicate BytesIsolated(ck: Frames.Checksum, d: Disk, f: Files, cached: bool) {
    && SavedPoint(d) && LoadState(ck, f) == d.saved
    && forall k: nat :: k >= 1 ==>
         Answers(ReadCommitted(ck, f, k, cached), d.data, SnapshotRead(d.data, k, LoadState(ck, f).lastCommit))
  }

  lemma ParsedRead(ck: Frames.Checksum, d: Disk, f: Files, header: seq<byte>, rows: AllRows, k: nat, cached: bool)
    requires OnBytes(ck, d, f, header, rows) && PlacedSomewhere(d, false) && k >= 1
    ensures ReadCommitted(ck, f, k, cached) == CommittedRead(d, k)
  {
    var log, n :| Placed(d, false, log, n);
    PlacedPoints(d, false, log, n, k);
    CommittedOnBytes(ck, d, f, header, rows, k, cached);
  }

  lemma IsolatedOnBytes(ck: Frames.Checksum, d: Disk, f: Files, header: seq<byte>, rows: AllRows, cached: bool)
    requires OnBytes(ck, d, f, header, rows) && PlacedSomewhere(d, false) && Isolated(d)
    ensures BytesIsolated(ck, d, f, cached)
  {
    LoadsSaved(ck, d, f, header, rows);
    forall k: nat | k >= 1 ensures Answers(ReadCommitted(ck, f, k, cached), d.data, SnapshotRead(d.data, k, d.saved.lastCommit)) {
      ParsedRead(ck, d, f, header, rows, k, cached);
      assert Answers(CommittedRead(d, k), d.data, SnapshotRead(d.data, k, d.saved.lastCommit));
    }
  }

  lemma FailedRead(ck: Frames.Checksum, d: Disk, f: Files, k: nat, cached: bool)
    requires LoadState(ck, f) == d.saved && SavedPoint(d) && k >= 1
    requires ReadCommitted(ck, f, k, cached).Failed? && SnapshotRead(d.data, k, d.saved.lastCommit) >= 0
    ensures !BytesIsolated(ck, d, f, cached)
  {
    assert !Answers(ReadCommitted(ck, f, k, cached), d.data, SnapshotRead(d.data, k, LoadState(ck, f).lastCommit));
  }

  lemma HiddenOnBytes(ck: Frames.Checksum, d: Disk, f: Files, header: seq<byte>, rows: AllRows, k: nat, cached: bool)
    requires OnBytes(ck, d, f, header, rows) && PlacedSomewhere(d, false) && k >= 1 && Sessions.Hidden(d, k)
    ensures !BytesIsolated(ck, d, f, cached)
  {
    if SavedPoint(d) {
      LoadsSaved(ck, d, f, header, rows);
      ParsedRead(ck, d, f, header, rows, k, cached);
      FailedRead(ck, d, f, k, cached);
    }
  }

  ghost predicate AllBytesIsolated(ck: Frames.Checksum, h: seq<Disk>, shelves: seq<Shelf>, cached: bool)
    requires |shelves| == |h|
  {
    forall n :: 0 <= n < |h| ==> BytesIsolated(ck, h[n], shelves[n].files, cached)
  }

  lemma OnceBytes(ck: Frames.Checksum, h: seq<Disk>, d: Disk, shelves: seq<Shelf>, header: seq<byte>, cached: bool)
    requires Passed(h, d, false) && AllOnBytes(ck, h, shelves, header) && Sessions.AllIsolated(h)
    ensures AllBytesIsolated(ck, h, shelves, cached)
  {
    forall n | 0 <= n < |h| ensures BytesIsolated(ck, h[n], shelves[n].files, cached) {
      assert PlacedSomewhere(h[n], false) && ShelfOf(ck, h[n], shelves[n], header) && Isolated(h[n]);
      IsolatedOnBytes(ck, h[n], shelves[n].files, header, shelves[n].rows, cached);
    }
  }

  lemma HidesBytes(ck: Frames.Checksum, h: seq<Disk>, d: Disk, shelves: seq<Shelf>, header: seq<byte>, k: nat, cached: bool)
    requires Passed(h, d, false) && AllOnBytes(ck, h, shelves, header) && k >= 1 && Sessions.HidesSomewhere(h, k)
    ensures !AllBytesIsolated(ck, h, shelves, cached)
  {
    var n :| 0 <= n < |h| && Sessions.Hidden(h[n], k);
    assert PlacedSomewhere(h[n], false) && ShelfOf(ck, h[n], shelves[n], header);
    HiddenOnBytes(ck, h[n], shelves[n].files, header, shelves[n].rows, k, cached);
  }

  /**
   Snapshot isolation on bytes, exactly: at every point between two file writes, a reader that
   parses the saved state, the index and the data file gets for every serial the newest WRITE up
   to the commit number it found that was not rolled back, if and only if no transaction writes a
   committed serial twice.
   */
  lemma SnapshotIsolationOnBytes(ck: Frames.Checksum, calls: seq<Call>, shelves: seq<Shelf>, header: seq<byte>, cached: bool)
    requires ValidCalls(calls) && AllOnBytes(ck, Run(calls, false).history, shelves, header)
    ensures WriteOnce(calls) <==> AllBytesIsolated(ck, Run(calls, false).history, shelves, cached)
  {
    HistoryOfRun(calls, false);
    if WriteOnce(calls) {
      Sessions.SnapshotIsolation(calls);
      OnceBytes(ck, Run(calls, false).history, Run(calls, false).disk, shelves, header, cached);
    } else {
      var k := Sessions.NotOnceHides(calls);
      HidesBytes(ck, Run(calls, false).history, Run(calls, false).disk, shelves, header, k, cached);
    }
  }

  /** After any calls, readLog through the bytes returns every WRITE, COMMIT and STATUS record. */
  lemma LogReadsOnBytes(ck: Frames.Checksum, calls: seq<Call>, auto: bool, shelves: seq<Shelf>, header: seq<byte>, q: nat, rdwr: bool, cached: bool)
    requires ValidCalls(calls) && AllOnBytes(ck, Run(calls, auto).history, shelves, header)
    requires 1 <= q <= |Run(calls, auto).disk.data| && Run(calls, auto).disk.data[q - 1].kind in {Write, Commit, Status}
    ensures shelves != []
    ensures ReadLogBytes(ck, shelves[|shelves| - 1].files, q, rdwr, cached) == Record(Run(calls, auto).disk.data[q - 1])
  {
    HistoryOfRun(calls, auto);
    LogIndexAgreement(calls, auto);
    var d, n := Run(calls, auto).disk, |shelves| - 1;
    assert LogAnswers(d, q);
    assert ShelfOf(ck, Run(calls, auto).history[n], shelves[n], header);
    LogBytesAnswer(ck, d, shelves[n].files, header, shelves[n].rows, q, rdwr, cached);
  }

  /** At every point between two file writes, every read, in any mode, goes through the bytes as the model says. */
  lemma ReadsOnBytes(ck: Frames.Checksum, calls: seq<Call>, auto: bool, shelves: seq<Shelf>, header: seq<byte>, n: nat, k: nat,
                     lastCommit: int, dirtyMode: bool, rdwr: bool, cached: bool)
    requires ValidCalls(calls) && AllOnBytes(ck, Run(calls, auto).history, shelves, header)
    requires n < |Run(calls, auto).history| && k >= 1
    ensures ReadBytes(ck, shelves[n].files, k, lastCommit, dirtyMode, rdwr, cached) ==
            ReadAs(Run(calls, auto).history[n], k, lastCommit, dirtyMode, rdwr)
  {
    Sessions.SlotsPointToWrites(calls, auto, n, k);
    assert ShelfOf(ck, Run(calls, auto).history[n], shelves[n], header);
    BytesAnswer(ck, Run(calls, auto).history[n], shelves[n].files, header, shelves[n].rows, k, lastCommit, dirtyMode, rdwr, cached);
  }

  /** Beyond the last sequence, readLog through the bytes fails: no data on a handle for writing, otherwise end of file. */
  lemma LogEndsOnBytes(ck: Frames.Checksum, calls: seq<Call>, auto: bool, shelves: seq<Shelf>, header: seq<byte>, q: nat, rdwr: bool, cached: bool)
    requires ValidCalls(calls) && AllOnBytes(ck, Run(calls, auto).history, shelves, header) && q > |Run(calls, auto).disk.data|
    ensures shelves != []
    ensures ReadLogBytes(ck, shelves[|shelves| - 1].files, q, rdwr, cached) == LogFailed(if rdwr then -70 else -40)
  {
    HistoryOfRun(calls, auto);
    LogIndexAgreement(calls, auto);
    var d, n := Run(calls, auto).disk, |shelves| - 1;
    assert LogAnswers(d, q);
    assert ReadLogAs(d, q, rdwr) == LogFailed(if rdwr then -70 else -40);
    assert ShelfOf(ck, Run(calls, auto).history[n], shelves[n], header);
    LogMiss(ck, d, shelves[n].files, header, shelves[n].rows, q, rdwr, cached, if rdwr then -70 else -40);
  }

  ghost predicate BytesReadLike(ck: Frames.Checksum, f: Files, calls: seq<Call>, cached: bool) {
    forall k: nat :: k >= 1 ==> ReadCommitted(ck, f, k, cached) == Answer(Shown(calls, k), AbsentCode(calls, k, false))
  }

  /**
   At every point between two file writes of any session, a reader that parses the files gets for
   every serial what the first m calls say: the payload handed over in one of them, or the exact error.
   */
  lemma AnswersOnBytes(ck: Frames.Checksum, calls: seq<Call>, shelves: seq<Shelf>, header: seq<byte>, n: nat, cached: bool) returns (m: nat)
    requires ValidCalls(calls) && AllOnBytes(ck, Run(calls, false).history, shelves, header) && n < |shelves|
    ensures m <= |calls| && BytesReadLike(ck, shelves[n].files, calls[..m], cached)
  {
    HistoryOfRun(calls, false);
    m := CommittedReadsAlways(calls, n);
    var d, sh := Run(calls, false).history[n], shelves[n];
    assert PlacedSomewhere(d, false) && ShelfOf(ck, d, sh, header);
    forall k: nat | k >= 1 ensures ReadCommitted(ck, sh.files, k, cached) == Answer(Shown(calls[..m], k), AbsentCode(calls[..m], k, false)) {
      ParsedRead(ck, d, sh.files, header, sh.rows, k, cached);
    }
  }
}
