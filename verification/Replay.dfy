/**
 Replaying a data file: rebuild() into an empty index, and applyLog() on a fresh replica.
 Both emit their own STATUS records, so counts and sequences may drift; what readers can
 see does not.
 */
module Replay {
  import opened Records
  import opened Tables
  import opened VersionLog
  import opened SlotIndex
  import opened StoreModel
  import opened SessionInvariant

  // ---------- rebuild ----------

  /** The buffer rebuild() reads payloads into. */
  const REBUILD_BUFFER := 1024 * 1024

  /** What is left of a record in the buffer; a longer serial list would be read past its end. */
  function Buffered(r: Rec): Rec {
    match r.body
    case Bytes(b) => if |b| <= REBUILD_BUFFER then r else r.(body := Bytes(b[..REBUILD_BUFFER]))
    case Serials(s) =>
      if BodySize(r.body) <= REBUILD_BUFFER then r else r.(body := Serials(s[..REBUILD_BUFFER / 4 - 1]))
  }

  predicate RollbacksFit(data: Log) {
    forall i :: 0 <= i < |data| && data[i].body.Serials? ==> BodySize(data[i].body) <= REBUILD_BUFFER
  }

  /** create() in rebuild mode: the data file stays, the other files start empty. */
  function RebuildStart(data: Log, rdwr: bool, autoCommit: bool): Store {
    Store(FRESH_DISK.(data := data), ZERO_STATE, [], autoCommit, rdwr, true, 0, [])
  }

  /** The scan: read a record, which sets lastOffset, and hand it to writeFiles. */
  function RebuildSteps(data: Log, n: nat, rdwr: bool, autoCommit: bool): Store
    requires n <= |data|
  {
    if n == 0 then RebuildStart(data, rdwr, autoCommit)
    else
      var b := RebuildSteps(data, n - 1, rdwr, autoCommit);
      WriteFiles(b.(lastOffset := OffsetOf(data, n - 1)), Buffered(data[n - 1]))
  }

  lemma RebuildNext(data: Log, n: nat, rdwr: bool, autoCommit: bool)
    requires n < |data|
    ensures RebuildSteps(data, n + 1, rdwr, autoCommit) ==
            WriteFiles(RebuildSteps(data, n, rdwr, autoCommit).(lastOffset := OffsetOf(data, n)), Buffered(data[n]))
  {
  }

  function Rebuild(data: Log, rdwr: bool, autoCommit: bool): Store {
    SaveState(RebuildSteps(data, |data|, rdwr, autoCommit).(rebuild := false))
  }

  /** Record r was replayed from this offset; the data file and the saved state are untouched. */
  ghost predicate Replayed(b: Store, r: Rec, t: Store) {
    && t.disk.data == b.disk.data && t.disk.saved == b.disk.saved
    && t.disk.index == IndexStep(b.disk.index, r, b.lastOffset)
    && (r.sequence >= 0 && !r.kind.Status? ==> t.disk.log == b.disk.log.Put(r.sequence, EntryFor(r, b.lastOffset)))
    && (r.kind.Status? ==> t.disk.log == b.disk.log)
    && t.state == State(
                    b.state.count + 1,
                    b.state.commitCount + (if r.kind.Commit? then 1 else 0),
                    b.state.dataCount + (if r.kind.Write? then 1 else 0),
                    if r.kind.Commit? then r.sequence else b.state.lastCommit,
                    r.sequence)
    && t.rebuild && t.rdwr == b.rdwr && t.lastOffset == b.lastOffset
  }

  lemma ReplayEffect(b: Store, r: Rec)
    requires b.rebuild && r.sequence >= 0 && (r.kind.Write? ==> r.serial >= 0)
    ensures Replayed(b, r, RecordStep(Counted(b, r), r))
  {
    if r.kind.RollbackBegin? && r.body.Serials? {
      var s1 := WriteLog(WriteData(Counted(b, r), r), r.sequence, LogReg(0, r.serial, RollbackBegin));
      EraseStepsEffect(s1, r.body.serials, |r.body.serials|);
    }
  }

  /** In rebuild mode the periodic STATUS only touches the counters and one later log entry. */
  lemma ReplayStatusEffect(b: Store)
    requires b.rebuild && b.state.lastSequence >= 0
    ensures var t := StatusStep(b);
      && t.disk == b.disk.(log := t.disk.log) && t.rebuild && t.rdwr == b.rdwr
      && t.state == b.state.(count := t.state.count, lastSequence := t.state.lastSequence)
      && SameUpTo(b.disk.log, t.disk.log, b.state.lastSequence)
  {
  }

  /** The log entries up to sequence q are the same. */
  ghost predicate SameUpTo(log: Table<LogReg>, log': Table<LogReg>, q: int) {
    forall i :: i <= q ==> (i in log.slots <==> i in log'.slots) && (i in log.slots ==> log'.slots[i] == log.slots[i])
  }

  /** The rebuilt log index has the live entry of record i, unless that is a STATUS. */
  ghost predicate EntryRebuilt(log: Table<LogReg>, data: Log, i: nat)
    requires i < |data|
  {
    data[i].kind.Status? || EntryAgrees(log, data, i)
  }

  /** The state after the first n records of the scan. */
  ghost predicate RebuiltTo(b: Store, data: Log, n: nat)
    requires n <= |data|
  {
    && b.rebuild && b.disk.data == data
    && b.disk.index == IndexOf(data[..n])
    && b.state.lastCommit == LastCommit(data[..n])
    && b.state.dataCount == CountKind(data[..n], Write)
    && b.state.commitCount == CountKind(data[..n], Commit)
    && forall i :: 0 <= i < n ==> EntryRebuilt(b.disk.log, data, i)
  }

  lemma EntriesAfter(log: Table<LogReg>, data: Log, n: nat, log': Table<LogReg>, log'': Table<LogReg>)
    requires n < |data|
    requires forall i :: 0 <= i < n ==> EntryRebuilt(log, data, i)
    requires log' == if data[n].kind.Status? then log else log.Put(n + 1, EntryFor(data[n], OffsetOf(data, n)))
    requires SameUpTo(log', log'', n + 1)
    ensures forall i :: 0 <= i < n + 1 ==> EntryRebuilt(log'', data, i)
  {
    forall i | 0 <= i < n + 1 ensures EntryRebuilt(log'', data, i) {
      if i < n { assert EntryRebuilt(log, data, i); }
    }
  }

  lemma {:induction false} RebuildFollows(data: Log, n: nat, auto: bool, rdwr: bool, autoCommit: bool)
    requires n <= |data| && WellFormed(data, auto) && RollbacksFit(data)
    ensures RebuiltTo(RebuildSteps(data, n, rdwr, autoCommit), data, n)
  {
    if n > 0 {
      RebuildFollows(data, n - 1, auto, rdwr, autoCommit);
      RebuildOne(RebuildSteps(data, n - 1, rdwr, autoCommit), data, n - 1, auto);
    }
  }

  lemma RebuildOne(b: Store, data: Log, n: nat, auto: bool)
    requires n < |data| && WellFormed(data, auto) && RollbacksFit(data)
    requires RebuiltTo(b, data, n)
    ensures RebuiltTo(WriteFiles(b.(lastOffset := OffsetOf(data, n)), Buffered(data[n])), data, n + 1)
  {
    var b0, r := b.(lastOffset := OffsetOf(data, n)), Buffered(data[n]);
    assert WellFormedAt(data, n, auto);
    ReplayEffect(b0, r);
    ReplayStatusEffect(RecordStep(Counted(b0, r), r));
    RebuiltAfter(b0, data, n, auto, RecordStep(Counted(b0, r), r), WriteFiles(b0, r));
  }

  /** The buffered record has the same effect on the index as the stored one. */
  lemma BufferedStep(index: Table<IndexReg>, r: Rec, offset: int)
    requires r.body.Serials? ==> BodySize(r.body) <= REBUILD_BUFFER
    ensures IndexStep(index, Buffered(r), offset) == IndexStep(index, r, offset)
  {
  }

  lemma RebuiltAfter(b: Store, data: Log, n: nat, auto: bool, m: Store, t: Store)
    requires n < |data| && WellFormed(data, auto) && RollbacksFit(data)
    requires RebuiltTo(b, data, n) && b.lastOffset == OffsetOf(data, n)
    requires Replayed(b, Buffered(data[n]), m)
    requires t.rebuild && t.disk == m.disk.(log := t.disk.log) && SameUpTo(m.disk.log, t.disk.log, n + 1)
    requires t.state == m.state.(count := t.state.count, lastSequence := t.state.lastSequence)
    ensures RebuiltTo(t, data, n + 1)
  {
    assert WellFormedAt(data, n, auto);
    BufferedStep(b.disk.index, data[n], b.lastOffset);
    EntriesAfter(b.disk.log, data, n, m.disk.log, t.disk.log);
    PrefixFolds(data, n);
  }

  /** The folds over one more record of the data file. */
  lemma PrefixFolds(data: Log, n: nat)
    requires n < |data|
    ensures LastCommit(data[..n + 1]) == if data[n].kind.Commit? then n + 1 else LastCommit(data[..n])
    ensures IndexOf(data[..n + 1]) == IndexStep(IndexOf(data[..n]), data[n], OffsetOf(data, n))
    ensures CountKind(data[..n + 1], Write) == CountKind(data[..n], Write) + (if data[n].kind.Write? then 1 else 0)
    ensures CountKind(data[..n + 1], Commit) == CountKind(data[..n], Commit) + (if data[n].kind.Commit? then 1 else 0)
  {
    assert data[..n + 1] == data[..n] + [data[n]];
    FoldsAfter(data[..n], data[n], 0);
    IndexAfter(data[..n], data[n]);
    CountAfter(data[..n], data[n], Write);
    CountAfter(data[..n], data[n], Commit);
  }

  /** What a rebuilt store has in common with the live one. */
  ghost predicate SameAsLive(b: Store, s: Store) {
    && b.disk.data == s.disk.data
    && b.disk.index == s.disk.index
    && b.state.lastCommit == s.state.lastCommit
    && b.state.dataCount == s.state.dataCount
    && b.state.commitCount == s.state.commitCount
    && (forall i :: 0 <= i < |s.disk.data| && !s.disk.data[i].kind.Status? ==>
          i + 1 in b.disk.log.slots && i + 1 in s.disk.log.slots && b.disk.log.slots[i + 1] == s.disk.log.slots[i + 1])
  }

  lemma RebuildOfInv(s: Store, rdwr: bool, autoCommit: bool)
    requires Inv(s) && RollbacksFit(s.disk.data)
    ensures SameAsLive(Rebuild(s.disk.data, rdwr, autoCommit), s)
    ensures Rebuild(s.disk.data, rdwr, autoCommit).disk.saved ==
      if rdwr then Rebuild(s.disk.data, rdwr, autoCommit).state else ZERO_STATE
  {
    var data := s.disk.data;
    RebuildFollows(data, |data|, s.autoCommit, rdwr, autoCommit);
    RebuildNotSaved(data, |data|, s.autoCommit, rdwr, autoCommit);
    assert data[..|data|] == data;
    var b := RebuildSteps(data, |data|, rdwr, autoCommit);
    forall i | 0 <= i < |data| && !data[i].kind.Status?
      ensures i + 1 in b.disk.log.slots && i + 1 in s.disk.log.slots && b.disk.log.slots[i + 1] == s.disk.log.slots[i + 1]
    {
      assert EntryRebuilt(b.disk.log, data, i) && EntryAgrees(s.disk.log, data, i);
    }
  }

  lemma {:induction false} RebuildNotSaved(data: Log, n: nat, auto: bool, rdwr: bool, autoCommit: bool)
    requires n <= |data| && WellFormed(data, auto)
    ensures var b := RebuildSteps(data, n, rdwr, autoCommit);
      b.rebuild && b.rdwr == rdwr && b.disk.saved == ZERO_STATE
  {
    if n > 0 {
      RebuildNotSaved(data, n - 1, auto, rdwr, autoCommit);
      var b := RebuildSteps(data, n - 1, rdwr, autoCommit).(lastOffset := OffsetOf(data, n - 1));
      var r := Buffered(data[n - 1]);
      assert WellFormedAt(data, n - 1, auto);
      ReplayEffect(b, r);
      ReplayStatusEffect(RecordStep(Counted(b, r), r));
    }
  }

  /**
   Rebuild equals live: replaying the data file of any run into an empty index gives the same
   slot pair for every serial, the same commit number and write and commit counts, and the
   same log entries except for STATUS.  The rebuilt state reaches the file only if the handle
   was opened for writing before.
   */
  lemma RebuildEqualsLive(calls: seq<Call>, auto: bool, rdwr: bool, autoCommit: bool)
    requires ValidCalls(calls) && RollbacksFit(Run(calls, auto).disk.data)
    ensures SameAsLive(Rebuild(Run(calls, auto).disk.data, rdwr, autoCommit), Run(calls, auto))
    ensures var b := Rebuild(Run(calls, auto).disk.data, rdwr, autoCommit);
      b.disk.saved == if rdwr then b.state else ZERO_STATE
  {
    RunsKeepInv(calls, auto);
    RebuildOfInv(Run(calls, auto), rdwr, autoCommit);
  }

  // ---------- replica ----------

  /** A fresh replica that is given the first n records through applyLog. */
  function ApplyAll(data: Log, n: nat, autoCommit: bool): Store
    requires n <= |data|
  {
    if n == 0 then Fresh(autoCommit) else WriteFiles(ApplyAll(data, n - 1, autoCommit), data[n - 1])
  }

  lemma ApplyNext(data: Log, n: nat, autoCommit: bool)
    requires n < |data|
    ensures ApplyAll(data, n + 1, autoCommit) == WriteFiles(ApplyAll(data, n, autoCommit), data[n])
  {
  }

  /** Same version and same visibility, wherever the record is stored. */
  ghost predicate SlotSim(s: Slot, data: Log, s': Slot, data': Log) {
    && s.sequence == s'.sequence && s.autoCommit == s'.autoCommit
    && (if s.offset <= 0 then s'.offset == s.offset
        else && s'.offset > 0 && Locate(data, s.offset) >= 0 && Locate(data', s'.offset) >= 0
             && data[Locate(data, s.offset)].body == data'[Locate(data', s'.offset)].body)
  }

  ghost predicate RegSim(reg: IndexReg, data: Log, reg': IndexReg, data': Log) {
    SlotSim(reg.slots0, data, reg'.slots0, data') && SlotSim(reg.slots1, data, reg'.slots1, data')
  }

  ghost predicate IndexSim(index: Table<IndexReg>, data: Log, index': Table<IndexReg>, data': Log) {
    && index.top == index'.top
    && (forall k :: k in index.slots <==> k in index'.slots)
    && (forall k :: k in index.slots ==> RegSim(index.slots[k], data, index'.slots[k], data'))
  }

  lemma LocateGrows(data: Log, r: Rec, offset: int)
    requires Locate(data, offset) >= 0
    ensures Locate(data + [r], offset) == Locate(data, offset)
  {
    var i := Locate(data, offset);
    assert (data + [r])[..i] == data[..i];
    LocateOffset(data + [r], i);
  }

  lemma RegSimGrows(reg: IndexReg, data: Log, reg': IndexReg, data': Log, r: Rec)
    requires RegSim(reg, data, reg', data')
    ensures RegSim(reg, data, reg', data' + [r])
  {
    if reg'.slots0.offset > 0 { LocateGrows(data', r, reg'.slots0.offset); }
    if reg'.slots1.offset > 0 { LocateGrows(data', r, reg'.slots1.offset); }
  }

  lemma SimGrows(index: Table<IndexReg>, data: Log, index': Table<IndexReg>, data': Log, r: Rec)
    requires IndexSim(index, data, index', data')
    ensures IndexSim(index, data, index', data' + [r])
  {
    forall k | k in index.slots ensures RegSim(index.slots[k], data, index'.slots[k], data' + [r]) {
      RegSimGrows(index.slots[k], data, index'.slots[k], data', r);
    }
  }

  lemma SimPut(index: Table<IndexReg>, data: Log, index': Table<IndexReg>, data': Log, k: nat, reg: IndexReg, reg': IndexReg)
    requires IndexSim(index, data, index', data') && RegSim(reg, data, reg', data')
    ensures IndexSim(index.Put(k, reg), data, index'.Put(k, reg'), data')
  {
  }

  /** Two indexes whose registers are related. */
  ghost predicate Related(index: Table<IndexReg>, index': Table<IndexReg>, rel: (IndexReg, IndexReg) -> bool) {
    && index.top == index'.top
    && (forall k :: k in index.slots <==> k in index'.slots)
    && (forall k :: k in index.slots ==> rel(index.slots[k], index'.slots[k]))
  }

  ghost predicate ErasesRelated(rel: (IndexReg, IndexReg) -> bool) {
    rel(ZERO_REG, ZERO_REG) && forall a, b :: rel(a, b) ==> rel(SetNewest(a, -1, false), SetNewest(b, -1, false))
  }

  /** The rollback loop keeps them related, whatever the relation is. */
  lemma {:induction false} EraseRelated(index: Table<IndexReg>, index': Table<IndexReg>, rel: (IndexReg, IndexReg) -> bool, serials: seq<int>, n: nat)
    requires Related(index, index', rel) && ErasesRelated(rel) && n <= |serials|
    ensures Related(EraseLoop(index, serials, n).0, EraseLoop(index', serials, n).0, rel)
    ensures rel(EraseLoop(index, serials, n).1, EraseLoop(index', serials, n).1)
  {
    if n > 0 {
      EraseRelated(index, index', rel, serials, n - 1);
      var before, before' := EraseLoop(index, serials, n - 1), EraseLoop(index', serials, n - 1);
      var k := serials[n - 1];
      assert rel(if k in before.0.slots then before.0.slots[k] else before.1, if k in before'.0.slots then before'.0.slots[k] else before'.1);
    }
  }

  lemma SimErase(index: Table<IndexReg>, data: Log, index': Table<IndexReg>, data': Log, serials: seq<int>, n: nat)
    requires IndexSim(index, data, index', data') && n <= |serials|
    ensures IndexSim(EraseLoop(index, serials, n).0, data, EraseLoop(index', serials, n).0, data')
    ensures RegSim(EraseLoop(index, serials, n).1, data, EraseLoop(index', serials, n).1, data')
  {
    var rel := (a: IndexReg, b: IndexReg) => RegSim(a, data, b, data');
    forall a, b | rel(a, b) ensures rel(SetNewest(a, -1, false), SetNewest(b, -1, false)) { SimNewest(a, data, b, data'); }
    EraseRelated(index, index', rel, serials, n);
    RelatedSim(EraseLoop(index, serials, n).0, data, EraseLoop(index', serials, n).0, data', rel);
  }

  lemma RelatedSim(index: Table<IndexReg>, data: Log, index': Table<IndexReg>, data': Log, rel: (IndexReg, IndexReg) -> bool)
    requires Related(index, index', rel) && forall a, b :: rel(a, b) <==> RegSim(a, data, b, data')
    ensures IndexSim(index, data, index', data')
  {
  }

  lemma SimNewest(reg: IndexReg, data: Log, reg': IndexReg, data': Log)
    requires RegSim(reg, data, reg', data')
    ensures RegSim(SetNewest(reg, -1, false), data, SetNewest(reg', -1, false), data')
  {
  }

  lemma SimWrite(index: Table<IndexReg>, data: Log, index': Table<IndexReg>, data': Log, k: nat, s: Slot, s': Slot)
    requires IndexSim(index, data, index', data') && SlotSim(s, data, s', data')
    ensures IndexSim(WriteSlot(index, k, s), data, WriteSlot(index', k, s'), data')
  {
    var reg, reg' := NewReg(index, k, s), NewReg(index', k, s');
    assert k in index.slots ==> RegSim(index.slots[k], data, index'.slots[k], data');
    SimPut(index, data, index', data', k, reg, reg');
  }

  /** One record, entered at its own offset on each side. */
  lemma SimStep(index: Table<IndexReg>, data: Log, n: nat, index': Table<IndexReg>, data': Log)
    requires n < |data|
    requires IndexSim(index, data, index', data')
    ensures IndexSim(IndexStep(index, data[n], OffsetOf(data, n)), data, IndexStep(index', data[n], End(data')), data' + [data[n]])
  {
    var r := data[n];
    SimGrows(index, data, index', data', r);
    if r.kind.Write? && r.serial >= 0 {
      LocateOffset(data, n);
      LocateOffset(data' + [r], |data'|);
      assert (data' + [r])[..|data'|] == data';
      SimWrite(index, data, index', data' + [r], r.serial,
               Slot(OffsetOf(data, n), r.sequence, r.autoCommit), Slot(End(data'), r.sequence, r.autoCommit));
    } else if r.kind.RollbackBegin? && r.body.Serials? {
      SimErase(index, data, index', data' + [r], r.body.serials, |r.body.serials|);
    }
  }

  /** The replica after the first n records of the master. */
  ghost predicate Mirrors(p: Store, data: Log, n: nat)
    requires n <= |data|
  {
    && p.rdwr && !p.rebuild && p.state.lastSequence >= 0
    && IndexSim(IndexOf(data[..n]), data, p.disk.index, p.disk.data)
    && p.state.lastCommit == LastCommit(data[..n])
    && p.state.dataCount == CountKind(data[..n], Write)
    && p.state.commitCount == CountKind(data[..n], Commit)
  }

  lemma MirrorFolds(p: Store, data: Log, n: nat, m: Store, auto: bool)
    requires n < |data| && WellFormed(data, auto)
    requires Mirrors(p, data, n) && m.rdwr && !m.rebuild
    requires IndexSim(IndexStep(IndexOf(data[..n]), data[n], OffsetOf(data, n)), data, m.disk.index, m.disk.data)
    requires m.state.commitCount == p.state.commitCount + (if data[n].kind.Commit? then 1 else 0)
    requires m.state.dataCount == p.state.dataCount + (if data[n].kind.Write? then 1 else 0)
    requires m.state.lastCommit == (if data[n].kind.Commit? then data[n].sequence else p.state.lastCommit)
    requires m.state.lastSequence >= 0
    ensures Mirrors(m, data, n + 1)
  {
    assert WellFormedAt(data, n, auto);
    PrefixFolds(data, n);
  }

  lemma MirrorRecord(p: Store, data: Log, n: nat, auto: bool)
    requires n < |data| && WellFormed(data, auto)
    requires Mirrors(p, data, n)
    ensures Mirrors(RecordStep(Counted(p, data[n]), data[n]), data, n + 1)
  {
    var r := data[n];
    assert WellFormedAt(data, n, auto);
    var m := RecordStep(Counted(p, r), r);
    if !r.kind.Status? {
      RecordEffect(p, r);
      SimStep(IndexOf(data[..n]), data, n, p.disk.index, p.disk.data);
    }
    MirrorFolds(p, data, n, m, auto);
  }

  lemma MirrorStatus(m: Store, data: Log, n: nat)
    requires n <= |data| && Mirrors(m, data, n)
    ensures Mirrors(StatusStep(m), data, n)
  {
    if m.state.count % STATUS_FREQ == STATUS_FREQ - 1 {
      StatusEffect(m);
      SimGrows(IndexOf(data[..n]), data, m.disk.index, m.disk.data, StatusRec(m.state.lastSequence + 1));
    }
  }

  lemma {:induction false} ReplicaFollows(data: Log, n: nat, auto: bool, autoCommit: bool)
    requires n <= |data| && WellFormed(data, auto)
    ensures Mirrors(ApplyAll(data, n, autoCommit), data, n)
  {
    if n > 0 {
      ReplicaFollows(data, n - 1, auto, autoCommit);
      var p := ApplyAll(data, n - 1, autoCommit);
      MirrorRecord(p, data, n - 1, auto);
      MirrorStatus(RecordStep(Counted(p, data[n - 1]), data[n - 1]), data, n);
    }
  }

  lemma SimRead(d: Disk, d': Disk, k: int, lastCommit: int, dirtyMode: bool, rdwr: bool)
    requires IndexSim(d.index, d.data, d'.index, d'.data)
    ensures ReadAs(d', k, lastCommit, dirtyMode, rdwr) == ReadAs(d, k, lastCommit, dirtyMode, rdwr)
  {
    if k in d.index.slots {
      SimPresent(d, d', k, lastCommit, dirtyMode, rdwr);
    } else {
      SimAbsent(d, d', k, lastCommit, dirtyMode, rdwr);
    }
  }

  lemma SimAbsent(d: Disk, d': Disk, k: int, lastCommit: int, dirtyMode: bool, rdwr: bool)
    requires k !in d.index.slots && k !in d'.index.slots && d.index.top == d'.index.top
    ensures ReadAs(d', k, lastCommit, dirtyMode, rdwr) == ReadAs(d, k, lastCommit, dirtyMode, rdwr)
  {
  }

  lemma SimPresent(d: Disk, d': Disk, k: int, lastCommit: int, dirtyMode: bool, rdwr: bool)
    requires IndexSim(d.index, d.data, d'.index, d'.data) && k in d.index.slots
    ensures ReadAs(d', k, lastCommit, dirtyMode, rdwr) == ReadAs(d, k, lastCommit, dirtyMode, rdwr)
  {
    var reg, reg' := d.index.slots[k], d'.index.slots[k];
    assert RegSim(reg, d.data, reg', d'.data);
    SimOffset(reg, d.data, reg', d'.data, lastCommit, dirtyMode || rdwr);
    ReadsAtOffset(d, k, lastCommit, dirtyMode, rdwr);
    ReadsAtOffset(d', k, lastCommit, dirtyMode, rdwr);
  }

  lemma ReadsAtOffset(d: Disk, k: int, lastCommit: int, dirtyMode: bool, rdwr: bool)
    requires k in d.index.slots
    ensures var offset := LastOffset(d.index.slots[k], lastCommit, dirtyMode || rdwr);
      ReadAs(d, k, lastCommit, dirtyMode, rdwr) == if offset <= 0 then Failed(E_SERIAL_NOT_FOUND) else ReadData(d.data, offset)
  {
  }

  /** Both registers pick a slot with the same version. */
  lemma SimOffset(reg: IndexReg, data: Log, reg': IndexReg, data': Log, lastCommit: int, dirtyRead: bool)
    requires RegSim(reg, data, reg', data')
    ensures var offset, offset' := LastOffset(reg, lastCommit, dirtyRead), LastOffset(reg', lastCommit, dirtyRead);
      && (offset <= 0 <==> offset' <= 0)
      && (offset > 0 ==> ReadData(data, offset) == ReadData(data', offset'))
  {
    assert SlotSim(reg.slots0, data, reg'.slots0, data') && SlotSim(reg.slots1, data, reg'.slots1, data');
  }

  /** A replica and its master answer alike, whatever the handle, mode and commit number. */
  ghost predicate Converged(p: Store, s: Store) {
    && (forall k, lastCommit, dirtyMode, rdwr ::
          ReadAs(p.disk, k, lastCommit, dirtyMode, rdwr) == ReadAs(s.disk, k, lastCommit, dirtyMode, rdwr))
    && p.state.lastCommit == s.state.lastCommit
    && p.state.dataCount == s.state.dataCount
    && p.state.commitCount == s.state.commitCount
  }

  lemma ReplicaOfInv(s: Store, autoCommit: bool)
    requires Inv(s)
    ensures Converged(ApplyAll(s.disk.data, |s.disk.data|, autoCommit), s)
  {
    var data := s.disk.data;
    ReplicaFollows(data, |data|, s.autoCommit, autoCommit);
    assert data[..|data|] == data;
    var p := ApplyAll(data, |data|, autoCommit);
    forall k, lastCommit, dirtyMode, rdwr
      ensures ReadAs(p.disk, k, lastCommit, dirtyMode, rdwr) == ReadAs(s.disk, k, lastCommit, dirtyMode, rdwr)
    {
      SimRead(s.disk, p.disk, k, lastCommit, dirtyMode, rdwr);
    }
  }

  /**
   Replica convergence: for every run of a master, a fresh replica given the master's records
   in order answers every read, in every mode and at every commit number, with the same
   payload or the same absence, and has the same commit number in memory.
   */
  lemma ReplicaConverges(calls: seq<Call>, auto: bool, autoCommit: bool)
    requires ValidCalls(calls)
    ensures var s := Run(calls, auto);
      Converged(ApplyAll(s.disk.data, |s.disk.data|, autoCommit), s)
  {
    RunsKeepInv(calls, auto);
    ReplicaOfInv(Run(calls, auto), autoCommit);
  }
}
