/** What every read of a session returns, payload or error code, told from its calls alone. */
module CallReads {
  import opened Bytes
  import opened Records
  import opened Tables
  import opened VersionLog
  import opened SlotIndex
  import opened StoreModel
  import opened SessionInvariant
  import opened History
  import opened Isolation
  import opened Discipline
  import opened Rollbacks
  import opened CallLog

  // ---------- the answers ----------

  /** The payloads that the open transaction has written to k; with auto-commit, all of them. */
  function Open(calls: seq<Call>, auto: bool, k: int): seq<seq<byte>> {
    if calls == [] then []
    else
      var before := calls[..|calls| - 1];
      match calls[|calls| - 1]
      case CallWrite(j, bytes) => Open(before, auto, k) + if j == k then [bytes] else []
      case _ => if auto then Open(before, auto, k) else []
  }

  /** The committed payload of k, unless a rollback of two or more writes of k has lost it. */
  function Kept(calls: seq<Call>, auto: bool, k: int): Option<seq<byte>> {
    if calls == [] then None
    else
      var before := calls[..|calls| - 1];
      var w := Open(before, auto, k);
      match calls[|calls| - 1]
      case CallWrite(_, _) => Kept(before, auto, k)
      case CallCommit => if !auto && w != [] then Some(w[|w| - 1]) else Kept(before, auto, k)
      case CallRollback => if !auto && |w| >= 2 then None else Kept(before, auto, k)
  }

  /** The largest serial written so far; 0 if none. */
  function Highest(calls: seq<Call>): int {
    if calls == [] then 0
    else
      var h := Highest(calls[..|calls| - 1]);
      match calls[|calls| - 1]
      case CallWrite(k, _) => if k > h then k else h
      case _ => h
  }

  /**
   The error of a read that has no version to return: a serial below zero cannot be reached, a
   read-only handle meets the end of the index above all serials written, and otherwise the
   serial is not found.
   */
  function AbsentCode(calls: seq<Call>, k: int, rdwr: bool): int {
    if k < 0 then -52 else if !rdwr && k > Highest(calls) then -40 else -505
  }

  function Answer(v: Option<seq<byte>>, code: int): ReadResult {
    match v
    case Some(bytes) => Found(Bytes(bytes))
    case None => Failed(code)
  }

  /** The last payload written to k and not taken back. */
  function Latest(calls: seq<Call>, auto: bool, k: int): Option<seq<byte>> {
    var w := Open(calls, auto, k);
    if w != [] then Some(w[|w| - 1]) else Kept(calls, auto, k)
  }

  /** What committed-mode readers see of k: its committed payload, until two writes of it fill both slots. */
  function Shown(calls: seq<Call>, k: int): Option<seq<byte>> {
    if |Open(calls, false, k)| <= 1 then Kept(calls, false, k) else None
  }

  // ---------- the calls and the records agree ----------

  predicate Holding(log: Log, i: int, v: Option<seq<byte>>)
    requires i < |log|
  {
    match v
    case None => i < 0
    case Some(bytes) => i >= 0 && log[i].body == Bytes(bytes)
  }

  ghost predicate OpenAt(calls: seq<Call>, auto: bool, log: Log, k: int) {
    var w, p := Pending(log, k), Open(calls, auto, k);
    |w| == |p| && forall i :: 0 <= i < |w| ==> log[w[i]].body == Bytes(p[i])
  }

  /** The open and kept payloads of k are those of its pending and surviving versions. */
  ghost predicate ValuesAt(calls: seq<Call>, auto: bool, log: Log, k: int) {
    OpenAt(calls, auto, log, k) && Holding(log, Surviving(log, k), Kept(calls, auto, k))
  }

  /** The index spans the serials up to the highest. */
  ghost predicate Spans(index: Table<IndexReg>, h: int) {
    index.top == h + 1 && h >= 0 && forall k :: k in index.slots ==> 1 <= k <= h
  }

  ghost predicate ValuesMatch(calls: seq<Call>, auto: bool, log: Log) {
    (forall k :: ValuesAt(calls, auto, log, k)) && Spans(IndexOf(log), Highest(calls))
  }

  /** The record that a call stores first; with auto-commit only writes store any. */
  ghost predicate StoresFirst(c: Call, auto: bool, r: Rec) {
    match c
    case CallWrite(k, bytes) => r.kind.Write? && r.serial == k >= 1 && r.body == Bytes(bytes)
    case CallCommit => !auto && r.kind.Commit?
    case CallRollback => !auto && r.kind.RollbackBegin?
  }

  lemma OpenAfter(calls: seq<Call>, c: Call, auto: bool, log: Log, r: Rec, k: int)
    requires OpenAt(calls, auto, log, k) && StoresFirst(c, auto, r)
    ensures OpenAt(calls + [c], auto, log + [r], k)
  {
    LastCall(calls, c);
    FoldsAfter(log, r, k);
  }

  lemma ValuesAfter(calls: seq<Call>, c: Call, auto: bool, log: Log, r: Rec, k: int)
    requires ValuesAt(calls, auto, log, k) && StoresFirst(c, auto, r)
    ensures ValuesAt(calls + [c], auto, log + [r], k)
  {
    LastCall(calls, c);
    OpenAfter(calls, c, auto, log, r, k);
    SurvivingAfter(log, r, k);
  }

  /** The rollback loop adds no serial. */
  lemma {:induction false} EraseSpans(index: Table<IndexReg>, h: int, serials: seq<int>, n: nat)
    requires Spans(index, h) && n <= |serials| && forall i :: 0 <= i < |serials| ==> serials[i] in index.slots
    ensures Spans(EraseLoop(index, serials, n).0, h)
    ensures forall k :: k in EraseLoop(index, serials, n).0.slots <==> k in index.slots
  {
    if n > 0 {
      EraseSpans(index, h, serials, n - 1);
      assert serials[n - 1] in index.slots;
    }
  }

  lemma SpansAfter(log: Log, r: Rec, auto: bool, h: int)
    requires WellFormed(log + [r], auto) && Spans(IndexOf(log), h)
    ensures Spans(IndexOf(log + [r]), if r.kind.Write? && r.serial > h then r.serial else h)
  {
    var log' := log + [r];
    assert WellFormedAt(log', |log|, auto) && log'[..|log|] == log;
    IndexAfter(log, r);
    if r.kind.RollbackBegin? {
      WellFormedPrefix(log', auto, |log|);
      PendingHaveSlots(log, auto);
      EraseSpans(IndexOf(log), h, PendingSerials(log), |PendingSerials(log)|);
    }
  }

  lemma FirstRecord(calls: seq<Call>, c: Call, auto: bool, log: Log, r: Rec)
    requires ValuesMatch(calls, auto, log) && StoresFirst(c, auto, r) && WellFormed(log + [r], auto)
    ensures ValuesMatch(calls + [c], auto, log + [r])
  {
    LastCall(calls, c);
    forall k ensures ValuesAt(calls + [c], auto, log + [r], k) { ValuesAfter(calls, c, auto, log, r, k); }
    SpansAfter(log, r, auto, Highest(calls));
  }

  predicate Quiet(r: Rec) {
    r.kind.Status? || r.kind.RollbackEnd?
  }

  lemma QuietAt(calls: seq<Call>, auto: bool, log: Log, r: Rec, k: int)
    requires ValuesAt(calls, auto, log, k) && Quiet(r)
    ensures ValuesAt(calls, auto, log + [r], k)
  {
    FoldsAfter(log, r, k);
    SurvivingAfter(log, r, k);
  }

  lemma QuietValues(calls: seq<Call>, auto: bool, log: Log, r: Rec)
    requires ValuesMatch(calls, auto, log) && Quiet(r)
    ensures ValuesMatch(calls, auto, log + [r])
  {
    forall k ensures ValuesAt(calls, auto, log + [r], k) { QuietAt(calls, auto, log, r, k); }
    IndexAfter(log, r);
  }

  /** The first record of a call, and quiet ones behind it. */
  lemma {:induction false} TailValues(calls: seq<Call>, auto: bool, log: Log, n: nat)
    requires n <= |log| && ValuesMatch(calls, auto, log[..n])
    requires forall i :: n <= i < |log| ==> Quiet(log[i])
    ensures ValuesMatch(calls, auto, log)
    decreases |log|
  {
    if n == |log| {
      assert log[..n] == log;
    } else {
      var m := |log| - 1;
      assert log[..m][..n] == log[..n];
      TailValues(calls, auto, log[..m], n);
      QuietValues(calls, auto, log[..m], log[m]);
      assert log[..m] + [log[m]] == log;
    }
  }

  // ---------- every run ----------

  /** What a call appends: its first record, and quiet ones. */
  ghost predicate Appends(c: Call, auto: bool, data: Log, data': Log) {
    || (data' == data && !c.CallWrite? && auto)
    || (&& data <= data' && |data| < |data'| && StoresFirst(c, auto, data'[|data|])
        && forall i :: |data| < i < |data'| ==> Quiet(data'[i]))
  }

  lemma WrittenAppends(s: Store, r: Rec, t: Store, c: Call)
    requires Written(s, r, t) && StoresFirst(c, s.autoCommit, r)
    ensures Appends(c, s.autoCommit, s.disk.data, t.disk.data)
  {
  }

  /** Quiet records behind what was appended are appended too. */
  lemma MoreAppends(c: Call, auto: bool, data: Log, data1: Log, data2: Log)
    requires Appends(c, auto, data, data1) && |data1| > |data| && data1 <= data2
    requires forall i :: |data1| <= i < |data2| ==> Quiet(data2[i])
    ensures Appends(c, auto, data, data2)
  {
    forall i | |data| < i < |data2| ensures Quiet(data2[i]) {
      if i < |data1| { assert data2[i] == data1[i]; }
    }
  }

  lemma QuietWritten(s: Store, e: Rec, t: Store)
    requires Written(s, e, t) && Quiet(e)
    ensures s.disk.data <= t.disk.data && forall i :: |s.disk.data| <= i < |t.disk.data| ==> Quiet(t.disk.data[i])
  {
  }

  /** Two records, the second of them quiet. */
  lemma BothAppend(s: Store, r: Rec, s1: Store, e: Rec, t: Store, c: Call)
    requires Written(s, r, s1) && Written(s1, e, t) && StoresFirst(c, s.autoCommit, r) && Quiet(e)
    ensures Appends(c, s.autoCommit, s.disk.data, t.disk.data)
  {
    WrittenAppends(s, r, s1, c);
    QuietWritten(s1, e, t);
    MoreAppends(c, s.autoCommit, s.disk.data, s1.disk.data, t.disk.data);
  }

  lemma CallAppends(s: Store, c: Call)
    requires Inv(s) && (c.CallWrite? ==> c.serial >= 1)
    ensures Appends(c, s.autoCommit, s.disk.data, Do(s, c).disk.data)
  {
    match c {
      case CallWrite(k, bytes) =>
        WriteKeepsInv(s, k, bytes);
        WrittenAppends(s, WriteRec(s, k, bytes), DoWrite(s, k, bytes), c);
      case CallCommit =>
        if !s.autoCommit {
          CommitKeepsInv(s);
          WrittenAppends(s, CommitRec(s), WriteFiles(s, CommitRec(s)), c);
        }
      case CallRollback =>
        if !s.autoCommit {
          var s1, t := RollbackSteps(s);
          BothAppend(s, RollbackBeginRec(s), s1, RollbackEndRec(s1), t, c);
        }
    }
  }

  lemma IgnoredCall(calls: seq<Call>, c: Call, log: Log)
    requires ValuesMatch(calls, true, log) && !c.CallWrite?
    ensures ValuesMatch(calls + [c], true, log)
  {
    LastCall(calls, c);
    forall k ensures ValuesAt(calls + [c], true, log, k) { assert ValuesAt(calls, true, log, k); }
  }

  /** Any further part of what a call appends is worth that call. */
  lemma CallValues(calls: seq<Call>, c: Call, auto: bool, data: Log, data': Log, log: Log)
    requires ValuesMatch(calls, auto, data) && Appends(c, auto, data, data') && WellFormed(data', auto)
    requires log <= data' && (|data| < |log| || log == data')
    ensures ValuesMatch(calls + [c], auto, log)
  {
    if |data| < |log| {
      var n := |data| + 1;
      assert data'[..n] == data + [data'[|data|]] && log[..n] == data'[..n];
      WellFormedPrefix(data', auto, n);
      FirstRecord(calls, c, auto, data, data'[|data|]);
      TailValues(calls + [c], auto, log, n);
    } else {
      IgnoredCall(calls, c, data);
    }
  }

  lemma EmptyValues(auto: bool)
    ensures ValuesMatch([], auto, [])
  {
    forall k ensures ValuesAt([], auto, [], k) { }
  }

  /** Open and kept payloads, told from the calls, are those of the data file. */
  lemma {:induction false} RunValues(calls: seq<Call>, auto: bool)
    requires ValidCalls(calls)
    ensures ValuesMatch(calls, auto, Run(calls, auto).disk.data)
  {
    if calls == [] {
      EmptyValues(auto);
    } else {
      var n := |calls| - 1;
      assert calls == calls[..n] + [calls[n]];
      RunValues(calls[..n], auto);
      RunsKeepInv(calls[..n], auto);
      RunsKeepInv(calls, auto);
      CallAppends(Run(calls[..n], auto), calls[n]);
      CallValues(calls[..n], calls[n], auto, Run(calls[..n], auto).disk.data, Run(calls, auto).disk.data, Run(calls, auto).disk.data);
    }
  }

  lemma RunAppends(before: seq<Call>, c: Call, auto: bool) returns (data: Log, data': Log)
    requires ValidCalls(before + [c])
    ensures data == Run(before, auto).disk.data && data' == Run(before + [c], auto).disk.data
    ensures ValidCalls(before) && ValuesMatch(before, auto, data)
    ensures WellFormed(data', auto) && StatusPlaced(data') && Appends(c, auto, data, data')
  {
    LastCall(before, c);
    assert forall i :: 0 <= i < |before| ==> before[i] == (before + [c])[i];
    RunValues(before, auto);
    RunsKeepInv(before, auto);
    RunsKeepInv(before + [c], auto);
    CallAppends(Run(before, auto), c);
    data, data' := Run(before, auto).disk.data, Run(before + [c], auto).disk.data;
  }

  lemma SplitLast(calls: seq<Call>) returns (before: seq<Call>, c: Call)
    requires calls != []
    ensures calls == before + [c] && before == calls[..|calls| - 1] && c == calls[|calls| - 1]
  {
    before, c := calls[..|calls| - 1], calls[|calls| - 1];
  }

  /** Every part of the data file is worth some of the calls. */
  lemma {:induction false} PartValues(calls: seq<Call>, auto: bool, log: Log) returns (m: nat)
    requires ValidCalls(calls) && log <= Run(calls, auto).disk.data
    ensures m <= |calls| && ValuesMatch(calls[..m], auto, log)
    decreases |calls|
  {
    if calls == [] {
      m := 0;
      EmptyValues(auto);
    } else {
      var before, c := SplitLast(calls);
      var data, data' := RunAppends(before, c, auto);
      m := PartAfter(before, c, auto, data, data', log);
      if m == |before| {
        m := PartValues(before, auto, log);
        assert calls[..m] == before[..m];
      } else {
        assert calls[..m] == before + [c];
      }
    }
  }

  /** A part that reaches into what the last call appends is worth all calls. */
  lemma PartAfter(before: seq<Call>, c: Call, auto: bool, data: Log, data': Log, log: Log) returns (m: nat)
    requires ValuesMatch(before, auto, data) && WellFormed(data', auto) && Appends(c, auto, data, data') && log <= data'
    ensures m == if |log| <= |data| then |before| else |before| + 1
    ensures if m == |before| then log <= data else ValuesMatch(before + [c], auto, log)
  {
    if |log| <= |data| {
      m := |before|;
    } else {
      m := |before| + 1;
      CallValues(before, c, auto, data, data', log);
    }
  }

  // ---------- reads ----------

  /** A read whose slots lead nowhere fails with one of three codes. */
  lemma Absent(d: Disk, k: int, lastCommit: int, dirtyMode: bool, rdwr: bool, h: int)
    requires Spans(d.index, h) && k != 0
    requires k in d.index.slots ==> LastOffset(d.index.slots[k], lastCommit, dirtyMode || rdwr) <= 0
    ensures ReadAs(d, k, lastCommit, dirtyMode, rdwr) == Failed(if k < 0 then -52 else if !rdwr && k > h then -40 else -505)
  {
  }

  /** The slot that a read picks is that of the newest version, if it may see it. */
  lemma PicksNewest(reg: IndexReg, log: Log, k: int, auto: bool, lastCommit: int, dirtyRead: bool)
    requires WellFormed(log, auto) && Holds(reg, log, k) && (dirtyRead || auto)
    ensures LastOffset(reg, lastCommit, dirtyRead) == if SlotVersion(log, k) >= 0 then OffsetOf(log, SlotVersion(log, k)) else -1
  {
    if auto {
      NoCommits(log, k);
      SurvivingIsCommitted(log, k);
      AutoOffset(reg, log, k, lastCommit, dirtyRead);
    } else {
      NewestOffset(reg, log, k, lastCommit);
    }
  }

  lemma LatestHeld(calls: seq<Call>, auto: bool, log: Log, k: int)
    requires ValuesMatch(calls, auto, log)
    ensures Holding(log, SlotVersion(log, k), Latest(calls, auto, k))
  {
    assert ValuesAt(calls, auto, log, k);
  }

  /** A read that leads to this version returns its payload. */
  lemma Present(d: Disk, log: Log, i: nat, k: int, lastCommit: int, dirtyMode: bool, rdwr: bool, bytes: seq<byte>)
    requires log <= d.data && i < |log| && k in d.index.slots && log[i].body == Bytes(bytes)
    requires LastOffset(d.index.slots[k], lastCommit, dirtyMode || rdwr) == OffsetOf(log, i)
    ensures ReadAs(d, k, lastCommit, dirtyMode, rdwr) == Found(Bytes(bytes))
  {
    FindsVersion(d, log, i, k, lastCommit, dirtyMode, rdwr);
  }

  lemma VersionRead(d: Disk, log: Log, i: int, k: int, lastCommit: int, dirtyMode: bool, rdwr: bool, h: int, v: Option<seq<byte>>)
    requires log <= d.data && i < |log| && Holding(log, i, v) && Spans(d.index, h) && k != 0
    requires if k in d.index.slots then LastOffset(d.index.slots[k], lastCommit, dirtyMode || rdwr) == if i >= 0 then OffsetOf(log, i) else -1
             else i < 0
    ensures ReadAs(d, k, lastCommit, dirtyMode, rdwr) == Answer(v, if k < 0 then -52 else if !rdwr && k > h then -40 else -505)
  {
    match v {
      case Some(bytes) => Present(d, log, i, k, lastCommit, dirtyMode, rdwr, bytes);
      case None => Absent(d, k, lastCommit, dirtyMode, rdwr, h);
    }
  }

  /**
   After any session, what a read that may see uncommitted versions returns: the last payload
   written and not taken back, or the exact error.  These are the reads of the writer, dirty reads,
   and with auto-commit all reads.
   */
  lemma NewestReads(calls: seq<Call>, auto: bool, k: int, lastCommit: int, dirtyMode: bool, rdwr: bool)
    requires ValidCalls(calls) && k != 0 && (dirtyMode || rdwr || auto)
    ensures ReadAs(Run(calls, auto).disk, k, lastCommit, dirtyMode, rdwr) == Answer(Latest(calls, auto, k), AbsentCode(calls, k, rdwr))
  {
    RunsKeepInv(calls, auto);
    RunValues(calls, auto);
    var d := Run(calls, auto).disk;
    IndexRefinesLog(d.data, k, auto);
    LatestHeld(calls, auto, d.data, k);
    if k in d.index.slots {
      PicksNewest(d.index.slots[k], d.data, k, auto, lastCommit, dirtyMode || rdwr);
    }
    VersionRead(d, d.data, SlotVersion(d.data, k), k, lastCommit, dirtyMode, rdwr, Highest(calls), Latest(calls, auto, k));
  }

  lemma PlacedSpans(d: Disk, auto: bool, log: Log, n: nat, h: int)
    requires Placed(d, auto, log, n) && Spans(IndexOf(log), h)
    ensures Spans(d.index, h)
  {
    PlacedLog(d, auto, log, n);
    PendingHaveSlots(log, auto);
    EraseSpans(IndexOf(log), h, PendingSerials(log), n);
  }

  lemma ShownHeld(calls: seq<Call>, log: Log, k: int)
    requires ValuesMatch(calls, false, log)
    ensures Holding(log, FoundVersion(log, k), Shown(calls, k))
  {
    assert ValuesAt(calls, false, log, k);
  }

  /** What a committed reader gets where the index is worth these calls. */
  lemma PlacedReads(d: Disk, log: Log, n: nat, calls: seq<Call>, k: int)
    requires Placed(d, false, log, n) && ValuesMatch(calls, false, log) && k != 0
    ensures CommittedRead(d, k) == Answer(Shown(calls, k), AbsentCode(calls, k, false))
  {
    PlacedLog(d, false, log, n);
    PlacedReg(d, false, log, n, k);
    PlacedSpans(d, false, log, n, Highest(calls));
    ShownHeld(calls, log, k);
    if k in d.index.slots {
      CommittedOffset(IndexOf(log).slots[k], log, k, Erased(log, n, k));
    }
    VersionRead(d, log, FoundVersion(log, k), k, d.saved.lastCommit, false, false, Highest(calls), Shown(calls, k));
  }

  ghost predicate ReadsLike(d: Disk, calls: seq<Call>) {
    forall k :: k != 0 ==> CommittedRead(d, k) == Answer(Shown(calls, k), AbsentCode(calls, k, false))
  }

  /**
   At every point between two file writes of any session, every committed read returns what the
   first m calls say: a payload or the exact error.
   */
  lemma CommittedReadsAlways(calls: seq<Call>, n: nat) returns (m: nat)
    requires ValidCalls(calls) && n < |Run(calls, false).history|
    ensures m <= |calls| && ReadsLike(Run(calls, false).history[n], calls[..m])
  {
    HistoryOfRun(calls, false);
    var s := Run(calls, false);
    DataGrows(s.history, s.disk, false, n);
    var d := s.history[n];
    assert PlacedSomewhere(d, false);
    var log, e :| Placed(d, false, log, e);
    m := PartValues(calls, false, log);
    forall k | k != 0 ensures CommittedRead(d, k) == Answer(Shown(calls[..m], k), AbsentCode(calls[..m], k, false)) {
      PlacedReads(d, log, e, calls[..m], k);
    }
  }

  // ---------- the last state that was saved ----------

  /** The calls up to the last one that saved the state: a write, or one that brought a STATUS record. */
  function Saving(calls: seq<Call>): seq<Call> {
    if calls == [] then []
    else
      var before := calls[..|calls| - 1];
      if calls[|calls| - 1].CallWrite? || |FileOf(calls, false)| / 50 > |FileOf(before, false)| / 50 then calls else Saving(before)
  }

  predicate Saves(r: Rec) {
    r.kind.Write? || r.kind.Status?
  }

  lemma {:induction false} LastSaveBehind(data: Log, data': Log)
    requires data <= data' && forall i :: |data| <= i < |data'| ==> !Saves(data'[i])
    ensures LastSave(data') == LastSave(data) && data'[..LastSave(data)] == data[..LastSave(data)]
    decreases |data'|
  {
    if |data| == |data'| {
      assert data == data';
    } else {
      var n := |data'| - 1;
      LastSaveBehind(data, data'[..n]);
      assert data'[..n][..LastSave(data)] == data'[..LastSave(data)];
    }
  }

  lemma {:induction false} LastSaveAtLeast(data: Log, i: nat)
    requires i < |data| && Saves(data[i])
    ensures LastSave(data) > i
  {
    if i < |data| - 1 { LastSaveAtLeast(data[..|data| - 1], i); }
  }

  /** A multiple of 50 lies between two lengths. */
  lemma StatusBetween(data: Log, data': Log) returns (i: nat)
    requires data <= data' && StatusPlaced(data') && |data'| / 50 > |data| / 50
    ensures |data| <= i < |data'| && Saves(data'[i])
  {
    i := |data'| / 50 * 50 - 1;
    assert StatusPlacedAt(data', i);
  }

  lemma NoStatusBetween(data: Log, data': Log, i: nat)
    requires StatusPlaced(data') && |data'| / 50 == |data| / 50 && |data| <= i < |data'|
    ensures !data'[i].kind.Status?
  {
    assert StatusPlacedAt(data', i);
  }

  lemma SavedPart(before: seq<Call>, c: Call, data: Log, data': Log)
    requires ValuesMatch(before, false, data) && ValuesMatch(Saving(before), false, data[..LastSave(data)])
    requires data == FileOf(before, false) && data' == FileOf(before + [c], false)
    requires WellFormed(data', false) && StatusPlaced(data') && Appends(c, false, data, data')
    ensures ValuesMatch(Saving(before + [c]), false, data'[..LastSave(data')])
  {
    LastCall(before, c);
    if c.CallWrite? || |data'| / 50 > |data| / 50 {
      var i: nat := |data|;
      if !c.CallWrite? { i := StatusBetween(data, data'); }
      LastSaveAtLeast(data', i);
      CallValues(before, c, false, data, data', data'[..LastSave(data')]);
    } else {
      forall i | |data| <= i < |data'| ensures !Saves(data'[i]) { NoStatusBetween(data, data', i); }
      LastSaveBehind(data, data');
    }
  }

  lemma {:induction false} SavedValues(calls: seq<Call>)
    requires ValidCalls(calls)
    ensures var data := Run(calls, false).disk.data; ValuesMatch(Saving(calls), false, data[..LastSave(data)])
    decreases |calls|
  {
    if calls == [] {
      EmptyValues(false);
    } else {
      var before, c := SplitLast(calls);
      var data, data' := RunAppends(before, c, false);
      SavedValues(before);
      DataFileOfCalls(before, false);
      DataFileOfCalls(calls, false);
      SavedPart(before, c, data, data');
    }
  }

  /** No write is behind the last save, so the index there is that of the last save, pending writes erased or not. */
  lemma {:induction false} IndexSinceSave(log: Log, data: Log)
    requires log <= data && WellFormed(data, false) && forall i :: |log| <= i < |data| ==> !data[i].kind.Write?
    ensures || (IndexOf(data) == IndexOf(log) && (PendingSerials(data) == PendingSerials(log) || PendingSerials(data) == []))
            || (IndexOf(data) == EraseAll(IndexOf(log), PendingSerials(log)) && PendingSerials(data) == [])
    decreases |data|
  {
    if |log| == |data| {
      assert log == data;
    } else {
      var n := |data| - 1;
      var r := data[n];
      assert data[..n] + [r] == data;
      WellFormedPrefix(data, false, n);
      IndexSinceSave(log, data[..n]);
      assert WellFormedAt(data, n, false);
      IndexAfter(data[..n], r);
      FoldsAfter(data[..n], r, 0);
    }
  }

  lemma SavedPlaced(d: Disk) returns (n: nat)
    requires WellFormed(d.data, false) && d.index == IndexOf(d.data) && d.saved == StateAt(d.data, LastSave(d.data))
    ensures Placed(d, false, d.data[..LastSave(d.data)], n)
  {
    var p := LastSave(d.data);
    var log := d.data[..p];
    NoneSavesBehind(d.data);
    IndexSinceSave(log, d.data);
    n := if d.index == IndexOf(log) then 0 else |PendingSerials(log)|;
  }

  lemma {:induction false} NoneSavesBehind(data: Log)
    ensures forall i :: LastSave(data) <= i < |data| ==> !Saves(data[i])
  {
    if data != [] && !Saves(data[|data| - 1]) {
      NoneSavesBehind(data[..|data| - 1]);
      assert forall i :: 0 <= i < |data| - 1 ==> data[i] == data[..|data| - 1][i];
    }
  }

  /** After any session, what every committed read returns: what the calls up to the last save say. */
  lemma CommittedReads(calls: seq<Call>, k: int)
    requires ValidCalls(calls) && k != 0
    ensures CommittedRead(Run(calls, false).disk, k) == Answer(Shown(Saving(calls), k), AbsentCode(Saving(calls), k, false))
  {
    RunsKeepInv(calls, false);
    SavedState(calls, false);
    SavedValues(calls);
    var d := Run(calls, false).disk;
    var n := SavedPlaced(d);
    PlacedReads(d, d.data[..LastSave(d.data)], n, Saving(calls), k);
  }

  // ---------- disciplined sessions ----------

  /** The committed payload of k, as a store without slots would keep it. */
  function CommittedValue(calls: seq<Call>, k: int): Option<seq<byte>> {
    if calls == [] then None
    else
      var before := calls[..|calls| - 1];
      var w := Open(before, false, k);
      if calls[|calls| - 1].CallCommit? && w != [] then Some(w[|w| - 1]) else CommittedValue(before, k)
  }

  lemma {:induction false} OpenCounts(calls: seq<Call>, k: int)
    ensures |Open(calls, false, k)| == Occurrences(TxnWrites(calls), k)
  {
    if calls != [] {
      var before := calls[..|calls| - 1];
      OpenCounts(before, k);
      match calls[|calls| - 1] {
        case CallWrite(j, _) => assert (TxnWrites(before) + [j])[..|TxnWrites(before)|] == TxnWrites(before);
        case _ =>
      }
    }
  }

  lemma {:induction false} ValueCommitted(calls: seq<Call>, k: int)
    ensures CommittedValue(calls, k).Some? <==> k in CommittedSerials(calls)
  {
    if calls != [] {
      ValueCommitted(calls[..|calls| - 1], k);
      OpenCounts(calls[..|calls| - 1], k);
    }
  }

  /** Without a second write of a committed serial, slots lose nothing and hide nothing. */
  lemma {:induction false} OnceShown(calls: seq<Call>, k: int)
    requires WriteOnce(calls)
    ensures Shown(calls, k) == Kept(calls, false, k) == CommittedValue(calls, k)
  {
    if calls != [] {
      OnceShown(calls[..|calls| - 1], k);
      OpenCounts(calls[..|calls| - 1], k);
      OpenCounts(calls, k);
      ValueCommitted(calls[..|calls| - 1], k);
      ValueCommitted(calls, k);
    }
  }

  lemma {:induction false} OncePrefix(calls: seq<Call>, m: nat)
    requires WriteOnce(calls) && m <= |calls|
    ensures WriteOnce(calls[..m])
  {
    if m == |calls| {
      assert calls[..m] == calls;
    } else {
      var n := |calls| - 1;
      OncePrefix(calls[..n], m);
      assert calls[..n][..m] == calls[..m];
    }
  }

  ghost predicate ReadsCommitted(d: Disk, calls: seq<Call>) {
    forall k :: k != 0 ==> CommittedRead(d, k) == Answer(CommittedValue(calls, k), AbsentCode(calls, k, false))
  }

  /**
   In a write-once session, at every point between two file writes, every committed read returns
   the payload that was committed last in the first m calls, or the exact error if there is none.
   */
  lemma OnceReadsAlways(calls: seq<Call>, n: nat) returns (m: nat)
    requires ValidCalls(calls) && WriteOnce(calls) && n < |Run(calls, false).history|
    ensures m <= |calls| && ReadsCommitted(Run(calls, false).history[n], calls[..m])
  {
    m := CommittedReadsAlways(calls, n);
    OncePrefix(calls, m);
    forall k | k != 0 ensures CommittedRead(Run(calls, false).history[n], k) == Answer(CommittedValue(calls[..m], k), AbsentCode(calls[..m], k, false)) {
      OnceShown(calls[..m], k);
    }
  }

  // ---------- single calls ----------

  /** The writer reads back what it has just written. */
  lemma ReadsOwnWrite(calls: seq<Call>, auto: bool, k: int, bytes: seq<byte>)
    requires ValidCalls(calls) && k >= 1
    ensures WriterRead(Run(calls + [CallWrite(k, bytes)], auto), k) == Found(Bytes(bytes))
  {
    var more := calls + [CallWrite(k, bytes)];
    LastCall(calls, CallWrite(k, bytes));
    assert ValidCalls(more);
    NewestReads(more, auto, k, Run(more, auto).state.lastCommit, false, true);
  }

  /** After a rollback the writer reads the committed payload, unless two writes of k have lost it. */
  lemma ReadsAfterRollback(calls: seq<Call>, k: int)
    requires ValidCalls(calls) && k >= 1
    ensures WriterRead(Run(calls + [CallRollback], false), k) ==
      match Kept(calls, false, k)
      case Some(bytes) => if |Open(calls, false, k)| <= 1 then Found(Bytes(bytes)) else Failed(-505)
      case None => Failed(-505)
  {
    var more := calls + [CallRollback];
    LastCall(calls, CallRollback);
    assert ValidCalls(more);
    NewestReads(more, false, k, Run(more, false).state.lastCommit, false, true);
  }

  lemma {:induction false} KeptIsCommitted(calls: seq<Call>, k: int)
    requires Kept(calls, false, k).Some?
    ensures k in CommittedSerials(calls)
  {
    if calls[|calls| - 1].CallCommit? { OpenCounts(calls[..|calls| - 1], k); }
    if k !in CommittedSerials(calls) { KeptIsCommitted(calls[..|calls| - 1], k); }
  }

  lemma {:induction false} SinceSaving(calls: seq<Call>)
    ensures CommittedSerials(Saving(calls)) <= CommittedSerials(calls) && Highest(Saving(calls)) == Highest(calls)
  {
    if calls != [] && Saving(calls) != calls { SinceSaving(calls[..|calls| - 1]); }
  }

  /** A serial that was never committed fails for committed readers, with end of file above all serials written. */
  lemma NeverCommitted(calls: seq<Call>, k: int)
    requires ValidCalls(calls) && k >= 1 && k !in CommittedSerials(calls)
    ensures CommittedRead(Run(calls, false).disk, k) == Failed(if k > Highest(calls) then -40 else -505)
  {
    CommittedReads(calls, k);
    SinceSaving(calls);
    if Kept(Saving(calls), false, k).Some? { KeptIsCommitted(Saving(calls), k); }
  }

  /** With no version to return, a handle that reads uncommitted versions reports the serial as not found; a read-only one, end of file above all serials written. */
  lemma NothingWritten(calls: seq<Call>, auto: bool, k: int, lastCommit: int, rdwr: bool)
    requires ValidCalls(calls) && k >= 1 && Latest(calls, auto, k).None?
    ensures ReadAs(Run(calls, auto).disk, k, lastCommit, true, rdwr) == Failed(if !rdwr && k > Highest(calls) then -40 else -505)
  {
    NewestReads(calls, auto, k, lastCommit, true, rdwr);
  }
}
