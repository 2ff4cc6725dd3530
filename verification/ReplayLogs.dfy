/**
 Counters and log indexes after a replay: a rebuild and a replica enter STATUS records of their
 own after every 49 records, and these never displace the entry of another record.
 */
module ReplayLogs {
  import opened Bytes
  import opened Records
  import opened Tables
  import opened VersionLog
  import opened SlotIndex
  import opened StoreModel
  import opened SessionInvariant
  import opened Replay

  // ---------- what to expect ----------

  /** The counters after n records were replayed: n / 49 STATUS records fell due, one at the last record if 49 divides n. */
  function StateAfter(data: Log, n: nat): State
    requires n <= |data|
  {
    State(n + n / 49, CountKind(data[..n], Commit), CountKind(data[..n], Write), LastCommit(data[..n]),
          if n > 0 && n % 49 == 0 then n + 1 else n)
  }

  /**
   The log entry under number q after n records: that of record q, unless it is a STATUS; own
   STATUS records have the numbers behind the multiples of 49, and stay there if record q is a STATUS.
   */
  function EntryAfter(data: Log, n: nat, q: int, offset: nat -> int, status: nat -> int): Option<LogReg>
    requires n <= |data|
  {
    if 1 <= q <= n && !data[q - 1].kind.Status? then Some(EntryFor(data[q - 1], offset(q - 1)))
    else if 1 < q <= n + 1 && (q - 1) % 49 == 0 then Some(LogReg(status(q - 1), 0, Status))
    else None
  }

  function LogAt(log: Table<LogReg>, q: int): Option<LogReg> {
    if q in log.slots then Some(log.slots[q]) else None
  }

  ghost predicate LogAfter(log: Table<LogReg>, data: Log, n: nat, offset: nat -> int, status: nat -> int)
    requires n <= |data|
  {
    forall q :: LogAt(log, q) == EntryAfter(data, n, q, offset, status)
  }

  // ---------- one record ----------

  /** After n records, the next one brings a STATUS exactly if it makes 49. */
  lemma StatusDueAt(n: nat)
    ensures (n + n / 49 + 1) % STATUS_FREQ == STATUS_FREQ - 1 <==> (n + 1) % 49 == 0
    ensures (n + 1) / 49 == n / 49 + (if (n + 1) % 49 == 0 then 1 else 0)
  {
    var q, r := n / 49, n % 49;
    assert n == 49 * q + r && n + n / 49 + 1 == 50 * q + (r + 1);
    Divides(50, q, r + 1);
    if r + 1 == 49 { Divides(49, q + 1, 0); } else { Divides(49, q, r + 1); }
  }

  lemma Divides(d: nat, q: nat, r: nat)
    requires 0 <= r < d
    ensures (d * q + r) / d == q && (d * q + r) % d == r
  {
    assert d * q + r == d * ((d * q + r) / d) + (d * q + r) % d;
    var e := (d * q + r) / d - q;
    assert d * e == r - (d * q + r) % d;
  }

  /** Record n as counted and numbered, before the status snapshot. */
  ghost predicate Counted1(st: State, data: Log, n: nat)
    requires n < |data|
  {
    && st.count == n + n / 49 + 1 && st.lastSequence == n + 1
    && st.commitCount == CountKind(data[..n + 1], Commit) && st.dataCount == CountKind(data[..n + 1], Write)
    && st.lastCommit == LastCommit(data[..n + 1])
  }

  /** The effect of a status snapshot on counters and log. */
  ghost predicate Snapshot(st: State, log: Table<LogReg>, st': State, log': Table<LogReg>, offset: int) {
    if st.count % STATUS_FREQ != STATUS_FREQ - 1 then st' == st && log' == log
    else
      && st' == st.(count := st.count + 1, lastSequence := st.lastSequence + 1)
      && st.lastSequence >= 0 && log' == log.Put(st.lastSequence + 1, LogReg(offset, 0, Status))
  }

  lemma RecordCounts(st: State, data: Log, n: nat, st': State, auto: bool)
    requires n < |data| && WellFormed(data, auto) && st == StateAfter(data, n)
    requires st' == State(
                      st.count + 1,
                      st.commitCount + (if data[n].kind.Commit? then 1 else 0),
                      st.dataCount + (if data[n].kind.Write? then 1 else 0),
                      if data[n].kind.Commit? then data[n].sequence else st.lastCommit,
                      data[n].sequence)
    ensures Counted1(st', data, n)
  {
    assert WellFormedAt(data, n, auto);
    PrefixFolds(data, n);
  }

  lemma StatusCounts(st: State, log: Table<LogReg>, data: Log, n: nat, st': State, log': Table<LogReg>, offset: int)
    requires n < |data| && Counted1(st, data, n) && Snapshot(st, log, st', log', offset)
    ensures st' == StateAfter(data, n + 1)
    ensures log' == if (n + 1) % 49 == 0 then log.Put(n + 2, LogReg(offset, 0, Status)) else log
  {
    StatusDueAt(n);
  }

  lemma LogNext(log: Table<LogReg>, data: Log, n: nat, log': Table<LogReg>, log'': Table<LogReg>, offset: nat -> int, status: nat -> int)
    requires n < |data| && LogAfter(log, data, n, offset, status)
    requires log' == if data[n].kind.Status? then log else log.Put(n + 1, EntryFor(data[n], offset(n)))
    requires log'' == if (n + 1) % 49 == 0 then log'.Put(n + 2, LogReg(status(n + 1), 0, Status)) else log'
    ensures LogAfter(log'', data, n + 1, offset, status)
  {
    forall q ensures LogAt(log'', q) == EntryAfter(data, n + 1, q, offset, status) {
      assert LogAt(log, q) == EntryAfter(data, n, q, offset, status);
    }
  }

  // ---------- rebuild ----------

  /** Where the scan found record i. */
  function ScanOffset(data: Log): nat -> int {
    (i: nat) => if i <= |data| then OffsetOf(data, i) else 0
  }

  /** An own STATUS is entered with the offset of the record just read. */
  function ScanStatus(data: Log): nat -> int {
    (n: nat) => if 0 < n <= |data| then OffsetOf(data, n - 1) else 0
  }

  lemma RebuildSnapshot(b: Store)
    requires b.rebuild && b.state.lastSequence >= 0
    ensures Snapshot(b.state, b.disk.log, StatusStep(b).state, StatusStep(b).disk.log, b.lastOffset)
    ensures StatusStep(b).rebuild && StatusStep(b).rdwr == b.rdwr && StatusStep(b).disk.saved == b.disk.saved
  {
  }

  ghost predicate RebuiltLog(b: Store, data: Log, n: nat)
    requires n <= |data|
  {
    && b.rebuild && b.state == StateAfter(data, n)
    && LogAfter(b.disk.log, data, n, ScanOffset(data), ScanStatus(data))
  }

  lemma RebuildLogOne(b: Store, data: Log, n: nat, auto: bool)
    requires n < |data| && WellFormed(data, auto) && RebuiltLog(b, data, n)
    ensures RebuiltLog(WriteFiles(b.(lastOffset := OffsetOf(data, n)), Buffered(data[n])), data, n + 1)
  {
    var b0, r := b.(lastOffset := OffsetOf(data, n)), Buffered(data[n]);
    var m := RecordStep(Counted(b0, r), r);
    assert WellFormedAt(data, n, auto);
    ReplayEffect(b0, r);
    RecordCounts(b0.state, data, n, m.state, auto);
    RebuildSnapshot(m);
    StatusCounts(m.state, m.disk.log, data, n, StatusStep(m).state, StatusStep(m).disk.log, m.lastOffset);
    LogNext(b.disk.log, data, n, m.disk.log, StatusStep(m).disk.log, ScanOffset(data), ScanStatus(data));
  }

  lemma {:induction false} RebuildLogs(data: Log, n: nat, auto: bool, rdwr: bool, autoCommit: bool)
    requires n <= |data| && WellFormed(data, auto)
    ensures RebuiltLog(RebuildSteps(data, n, rdwr, autoCommit), data, n)
  {
    if n > 0 {
      RebuildLogs(data, n - 1, auto, rdwr, autoCommit);
      RebuildLogOne(RebuildSteps(data, n - 1, rdwr, autoCommit), data, n - 1, auto);
    }
  }

  /**
   The counters and the log index of a rebuilt store, exactly: all five counters in memory, the
   same in the saved state if the handle was opened for writing, and every log entry.
   */
  lemma RebuildCounts(calls: seq<Call>, auto: bool, rdwr: bool, autoCommit: bool)
    requires ValidCalls(calls) && RollbacksFit(Run(calls, auto).disk.data)
    ensures var data := Run(calls, auto).disk.data;
      var b := Rebuild(data, rdwr, autoCommit);
      && b.state == StateAfter(data, |data|)
      && b.disk.saved == (if rdwr then StateAfter(data, |data|) else State(0, 0, 0, 0, 0))
      && LogAfter(b.disk.log, data, |data|, ScanOffset(data), ScanStatus(data))
  {
    RunsKeepInv(calls, auto);
    var data := Run(calls, auto).disk.data;
    RebuildLogs(data, |data|, auto, rdwr, autoCommit);
    RebuildEqualsLive(calls, auto, rdwr, autoCommit);
  }

  // ---------- replica ----------

  /** A replica stores the records but for the STATUS records, and after every 49 of them a STATUS of its own. */
  function ReplicaFile(data: Log, n: nat): Log
    requires n <= |data|
    decreases n, 1
  {
    if n == 0 then [] else BeforeStatus(data, n) + if n % 49 == 0 then [Rec(Status, 0, n + 1, 0, false, Bytes([]))] else []
  }

  function BeforeStatus(data: Log, n: nat): Log
    requires 0 < n <= |data|
    decreases n, 0
  {
    ReplicaFile(data, n - 1) + if data[n - 1].kind.Status? then [] else [data[n - 1]]
  }

  function ReplicaOffset(data: Log): nat -> int {
    (i: nat) => if i <= |data| then End(ReplicaFile(data, i)) else 0
  }

  function ReplicaStatus(data: Log): nat -> int {
    (n: nat) => if 0 < n <= |data| then End(BeforeStatus(data, n)) else 0
  }

  /** How many records the replica had when it last saved its state: after a WRITE, and with every STATUS of its own. */
  function ReplicaSave(data: Log, n: nat): (p: nat)
    requires n <= |data|
    ensures p <= n
  {
    if n == 0 then 0 else if data[n - 1].kind.Write? || n % 49 == 0 then n else ReplicaSave(data, n - 1)
  }

  ghost predicate ReplicaAt(p: Store, data: Log, n: nat)
    requires n <= |data|
  {
    && p.rdwr && !p.rebuild
    && p.disk.data == ReplicaFile(data, n)
    && p.state == StateAfter(data, n)
    && p.disk.saved == StateAfter(data, ReplicaSave(data, n))
    && LogAfter(p.disk.log, data, n, ReplicaOffset(data), ReplicaStatus(data))
  }

  /** The effect of one record on a replica, before the status snapshot. */
  ghost predicate Applied(p: Store, data: Log, n: nat, m: Store)
    requires n < |data|
  {
    && m.rdwr && !m.rebuild
    && m.disk.data == BeforeStatus(data, n + 1)
    && Counted1(m.state, data, n)
    && m.disk.saved == (if data[n].kind.Write? then m.state else p.disk.saved)
    && m.disk.log == (if data[n].kind.Status? then p.disk.log else p.disk.log.Put(n + 1, EntryFor(data[n], ReplicaOffset(data)(n))))
  }

  lemma ApplyStored(p: Store, data: Log, n: nat, auto: bool, m: Store)
    requires n < |data| && WellFormed(data, auto) && ReplicaAt(p, data, n) && !data[n].kind.Status?
    requires Stored(p, data[n], m)
    ensures Applied(p, data, n, m)
  {
    assert WellFormedAt(data, n, auto);
    RecordCounts(p.state, data, n, m.state, auto);
  }

  /** The STATUS records of the master are counted, and nothing else. */
  lemma ApplyCounted(p: Store, data: Log, n: nat, auto: bool)
    requires n < |data| && WellFormed(data, auto) && ReplicaAt(p, data, n) && data[n].kind.Status?
    ensures Applied(p, data, n, Counted(p, data[n]))
  {
    assert p.disk.data + [] == p.disk.data;
    RecordCounts(p.state, data, n, Counted(p, data[n]).state, auto);
  }

  lemma ApplyRecord(p: Store, data: Log, n: nat, auto: bool)
    requires n < |data| && WellFormed(data, auto) && ReplicaAt(p, data, n)
    ensures Applied(p, data, n, RecordStep(Counted(p, data[n]), data[n]))
  {
    assert WellFormedAt(data, n, auto);
    if data[n].kind.Status? {
      ApplyCounted(p, data, n, auto);
    } else {
      RecordEffect(p, data[n]);
      ApplyStored(p, data, n, auto, RecordStep(Counted(p, data[n]), data[n]));
    }
  }

  lemma ReplicaSnapshot(m: Store)
    requires m.rdwr && !m.rebuild && m.state.lastSequence >= 0
    ensures var t := StatusStep(m);
      && Snapshot(m.state, m.disk.log, t.state, t.disk.log, End(m.disk.data)) && t.rdwr && !t.rebuild
      && (if m.state.count % STATUS_FREQ == STATUS_FREQ - 1
          then t.disk.data == m.disk.data + [StatusRec(m.state.lastSequence + 1)] && t.disk.saved == t.state
          else t.disk.data == m.disk.data && t.disk.saved == m.disk.saved)
  {
  }

  lemma ApplyStatus(p: Store, data: Log, n: nat, m: Store)
    requires n < |data| && ReplicaAt(p, data, n) && Applied(p, data, n, m)
    ensures ReplicaAt(StatusStep(m), data, n + 1)
  {
    StatusDueAt(n);
    ReplicaSnapshot(m);
    StatusCounts(m.state, m.disk.log, data, n, StatusStep(m).state, StatusStep(m).disk.log, End(m.disk.data));
    LogNext(p.disk.log, data, n, m.disk.log, StatusStep(m).disk.log, ReplicaOffset(data), ReplicaStatus(data));
    assert m.disk.data + [] == m.disk.data;
  }

  lemma {:induction false} ReplicaLogs(data: Log, n: nat, auto: bool, autoCommit: bool)
    requires n <= |data| && WellFormed(data, auto)
    ensures ReplicaAt(ApplyAll(data, n, autoCommit), data, n)
  {
    if n > 0 {
      ReplicaLogs(data, n - 1, auto, autoCommit);
      var p := ApplyAll(data, n - 1, autoCommit);
      ApplyRecord(p, data, n - 1, auto);
      ApplyStatus(p, data, n - 1, RecordStep(Counted(p, data[n - 1]), data[n - 1]));
    }
  }

  // ---------- readLog on a replica ----------

  lemma {:induction false} FileGrows(data: Log, i: nat, n: nat)
    requires i <= n <= |data|
    ensures ReplicaFile(data, i) <= ReplicaFile(data, n)
    ensures i < n ==> BeforeStatus(data, i + 1) <= ReplicaFile(data, n)
  {
    if i < n {
      FileGrows(data, i, n - 1);
      assert ReplicaFile(data, n - 1) <= BeforeStatus(data, n) <= ReplicaFile(data, n);
    }
  }

  lemma LocatesEnd(before: Log, r: Rec, file: Log)
    requires before + [r] <= file
    ensures Locate(file, End(before)) == |before| && file[|before|] == r
  {
    assert (before + [r])[|before|] == r && file[..|before|] == before;
    LocateOffset(file, |before|);
  }

  ghost predicate Finds(file: Log, offset: int, r: Rec) {
    Locate(file, offset) >= 0 && file[Locate(file, offset)] == r
  }

  /** Record i is read back from the replica's own file. */
  lemma RecordLocated(data: Log, n: nat, i: nat, file: Log, offset: int)
    requires i < n <= |data| && !data[i].kind.Status? && file == ReplicaFile(data, n) && offset == ReplicaOffset(data)(i)
    ensures Finds(file, offset, data[i])
  {
    FileGrows(data, i, n);
    LocatesEnd(ReplicaFile(data, i), data[i], file);
  }

  lemma StatusLocated(data: Log, n: nat, m: nat, file: Log, offset: int)
    requires 0 < m <= n <= |data| && m % 49 == 0 && file == ReplicaFile(data, n) && offset == ReplicaStatus(data)(m)
    ensures Finds(file, offset, Rec(Status, 0, m + 1, 0, false, Bytes([])))
  {
    FileGrows(data, m, n);
    LocatesEnd(BeforeStatus(data, m), Rec(Status, 0, m + 1, 0, false, Bytes([])), file);
  }

  /** What the log index of a replica answers for number q. */
  ghost predicate ReplicaLogAnswers(d: Disk, data: Log, q: int) {
    if 1 <= q <= |data| && data[q - 1].kind in {Write, Commit} then forall rdwr :: ReadLogAs(d, q, rdwr) == Record(data[q - 1])
    else if 1 <= q <= |data| && !data[q - 1].kind.Status? then
      q in d.log.slots && d.log.slots[q] == LogReg(0, data[q - 1].serial, data[q - 1].kind)
    else if 1 < q <= |data| + 1 && (q - 1) % 49 == 0 then
      forall rdwr :: ReadLogAs(d, q, rdwr) == Record(Rec(Status, 0, q, 0, false, Bytes([])))
    else q !in d.log.slots
  }

  lemma ReadsLocated(d: Disk, q: int, offset: int, r: Rec)
    requires q in d.log.slots && d.log.slots[q].offset == offset && Finds(d.data, offset, r)
    ensures forall rdwr :: ReadLogAs(d, q, rdwr) == Record(r)
  {
  }

  lemma EntryAnswers(d: Disk, data: Log, q: int, offset: int)
    requires 1 <= q <= |data| && !data[q - 1].kind.Status?
    requires q in d.log.slots && d.log.slots[q] == EntryFor(data[q - 1], offset) && Finds(d.data, offset, data[q - 1])
    ensures ReplicaLogAnswers(d, data, q)
  {
    if data[q - 1].kind in {Write, Commit} { ReadsLocated(d, q, offset, data[q - 1]); }
  }

  lemma RecordAnswers(d: Disk, data: Log, q: int, offset: nat -> int, status: nat -> int)
    requires LogAfter(d.log, data, |data|, offset, status) && 1 <= q <= |data| && !data[q - 1].kind.Status?
    requires Finds(d.data, offset(q - 1), data[q - 1])
    ensures ReplicaLogAnswers(d, data, q)
  {
    assert LogAt(d.log, q) == EntryAfter(data, |data|, q, offset, status);
    EntryAnswers(d, data, q, offset(q - 1));
  }

  lemma StatusAnswers(d: Disk, data: Log, q: int, offset: nat -> int, status: nat -> int)
    requires LogAfter(d.log, data, |data|, offset, status) && (1 <= q <= |data| ==> data[q - 1].kind.Status?)
    requires 1 < q <= |data| + 1 && (q - 1) % 49 == 0 ==> Finds(d.data, status(q - 1), Rec(Status, 0, q, 0, false, Bytes([])))
    ensures ReplicaLogAnswers(d, data, q)
  {
    assert LogAt(d.log, q) == EntryAfter(data, |data|, q, offset, status);
    if 1 < q <= |data| + 1 && (q - 1) % 49 == 0 {
      ReadsLocated(d, q, status(q - 1), Rec(Status, 0, q, 0, false, Bytes([])));
    }
  }

  lemma ReplicaAnswers(d: Disk, data: Log, q: int, offset: nat -> int, status: nat -> int)
    requires d.data == ReplicaFile(data, |data|) && offset == ReplicaOffset(data) && status == ReplicaStatus(data)
    requires LogAfter(d.log, data, |data|, offset, status)
    ensures ReplicaLogAnswers(d, data, q)
  {
    if 1 <= q <= |data| && !data[q - 1].kind.Status? {
      RecordLocated(data, |data|, q - 1, d.data, offset(q - 1));
      RecordAnswers(d, data, q, offset, status);
    } else {
      if 1 < q <= |data| + 1 && (q - 1) % 49 == 0 { StatusLocated(data, |data|, q - 1, d.data, status(q - 1)); }
      StatusAnswers(d, data, q, offset, status);
    }
  }

  /**
   The log of a replica, for every run of its master: each WRITE and COMMIT sequence returns that
   very record, rollback entries keep type and serial, a STATUS is found only where the replica
   entered one of its own, and all counters and the saved state follow from the number of records.
   */
  lemma ReplicaLog(calls: seq<Call>, auto: bool, autoCommit: bool)
    requires ValidCalls(calls)
    ensures var data := Run(calls, auto).disk.data;
      var p := ApplyAll(data, |data|, autoCommit);
      && (forall q :: ReplicaLogAnswers(p.disk, data, q))
      && p.disk.data == ReplicaFile(data, |data|)
      && p.state == StateAfter(data, |data|)
      && p.disk.saved == StateAfter(data, ReplicaSave(data, |data|))
  {
    RunsKeepInv(calls, auto);
    var data := Run(calls, auto).disk.data;
    ReplicaLogs(data, |data|, auto, autoCommit);
    forall q ensures ReplicaLogAnswers(ApplyAll(data, |data|, autoCommit).disk, data, q) {
      ReplicaAnswers(ApplyAll(data, |data|, autoCommit).disk, data, q, ReplicaOffset(data), ReplicaStatus(data));
    }
  }
}
