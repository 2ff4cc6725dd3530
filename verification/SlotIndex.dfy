/**
 The two-slot version index: how one slot pair is updated and read, what the whole index
 becomes when the data file is replayed, and what the slots of a serial hold after any log.
 */
module SlotIndex {
  import opened Records
  import opened Tables
  import opened VersionLog

  datatype Slot = Slot(offset: int, sequence: int, autoCommit: bool)

  datatype IndexReg = IndexReg(slots0: Slot, slots1: Slot)

  /** A memset-to-zero CSafeStorageIndexReg. */
  const ZERO_REG := IndexReg(Slot(0, 0, false), Slot(0, 0, false))

  /** setOldestOffset on a serial that has no slots yet. */
  function InitReg(s: Slot): IndexReg {
    IndexReg(s, Slot(-1, 0, false))
  }

  /** setOldestOffset: overwrite the slot with the smaller sequence, slot 1 on a tie. */
  function SetOldest(reg: IndexReg, s: Slot): IndexReg {
    if reg.slots1.sequence > reg.slots0.sequence then reg.(slots0 := s) else reg.(slots1 := s)
  }

  /** setNewestOffset: overwrite the slot with the larger sequence; the offset is stored as the sequence too. */
  function SetNewest(reg: IndexReg, offset: int, autoCommit: bool): IndexReg {
    var s := Slot(offset, offset, autoCommit);
    if reg.slots1.sequence > reg.slots0.sequence then reg.(slots1 := s) else reg.(slots0 := s)
  }

  predicate Visible(s: Slot, lastCommit: int, dirtyRead: bool) {
    s.autoCommit || s.sequence <= lastCommit || dirtyRead
  }

  /** getLastOffset: the offset of the visible slot with the largest sequence, or -1. */
  function LastOffset(reg: IndexReg, lastCommit: int, dirtyRead: bool): int {
    var take0 := reg.slots0.sequence >= 0 && Visible(reg.slots0, lastCommit, dirtyRead);
    var seq0 := if take0 then reg.slots0.sequence else 0;
    if reg.slots1.sequence >= seq0 && Visible(reg.slots1, lastCommit, dirtyRead) then reg.slots1.offset
    else if take0 then reg.slots0.offset
    else -1
  }

  // ---------- the index as a function of the data file ----------

  function WriteSlot(index: Table<IndexReg>, k: nat, s: Slot): Table<IndexReg> {
    index.Put(k, if k in index.slots then SetOldest(index.slots[k], s) else InitReg(s))
  }

  /** The rollback loop over the first n serials; a failed read keeps the register of the previous turn. */
  function EraseLoop(index: Table<IndexReg>, serials: seq<int>, n: nat): (r: (Table<IndexReg>, IndexReg))
    requires n <= |serials|
  {
    if n == 0 then (index, ZERO_REG)
    else
      var (before, stale) := EraseLoop(index, serials, n - 1);
      var k := serials[n - 1];
      var reg := SetNewest(if k in before.slots then before.slots[k] else stale, -1, false);
      (if k >= 0 then before.Put(k, reg) else before, reg)
  }

  function EraseAll(index: Table<IndexReg>, serials: seq<int>): Table<IndexReg> {
    EraseLoop(index, serials, |serials|).0
  }

  /** What replaying one record, whose frame starts at offset, does to the index. */
  function IndexStep(index: Table<IndexReg>, r: Rec, offset: int): Table<IndexReg> {
    if r.kind.Write? && r.serial >= 0 then
      WriteSlot(index, r.serial, Slot(offset, r.sequence, r.autoCommit))
    else if r.kind.RollbackBegin? && r.body.Serials? then
      EraseAll(index, r.body.serials)
    else index
  }

  const FRESH_INDEX: Table<IndexReg> := Table(map[], 1)

  function IndexOf(log: Log): Table<IndexReg> {
    if log == [] then FRESH_INDEX
    else
      var n := |log| - 1;
      IndexStep(IndexOf(log[..n]), log[n], OffsetOf(log, n))
  }

  lemma IndexAfter(log: Log, r: Rec)
    ensures IndexOf(log + [r]) == IndexStep(IndexOf(log), r, End(log))
  {
    Unfold(log, r);
  }

  // ---------- newest and oldest slot ----------

  function Hi(reg: IndexReg): Slot {
    if reg.slots1.sequence > reg.slots0.sequence then reg.slots1 else reg.slots0
  }

  function Lo(reg: IndexReg): Slot {
    if reg.slots1.sequence > reg.slots0.sequence then reg.slots0 else reg.slots1
  }

  const ERASED := Slot(-1, -1, false)

  /** A newer write becomes the newest slot and the old newest the oldest. */
  lemma SetOldestShifts(reg: IndexReg, s: Slot)
    requires s.sequence > Hi(reg).sequence
    ensures Hi(SetOldest(reg, s)) == s && Lo(SetOldest(reg, s)) == Hi(reg)
  {
  }

  /** Erasing removes the newest slot; the older one becomes the newest. */
  lemma EraseShifts(reg: IndexReg)
    requires Lo(reg).sequence >= -1
    ensures Lo(reg).sequence > -1 ==>
      Hi(SetNewest(reg, -1, false)) == Lo(reg) && Lo(SetNewest(reg, -1, false)) == ERASED
    ensures Lo(reg) == ERASED ==>
      Hi(SetNewest(reg, -1, false)) == ERASED && Lo(SetNewest(reg, -1, false)) == ERASED
  {
  }

  // ---------- one serial at a time ----------

  datatype Option<T> = None | Some(value: T)

  function RegAt(index: Table<IndexReg>, k: int): Option<IndexReg> {
    if k in index.slots then Some(index.slots[k]) else None
  }

  function EraseTimes(reg: IndexReg, n: nat): IndexReg {
    if n == 0 then reg else SetNewest(EraseTimes(reg, n - 1), -1, false)
  }

  /** The rollback loop erases each serial as often as it is listed, and touches no other. */
  lemma {:induction false} EraseLoopAt(index: Table<IndexReg>, serials: seq<int>, n: nat, k: int)
    requires n <= |serials|
    requires forall i :: 0 <= i < n ==> serials[i] >= 0 && serials[i] in index.slots
    ensures EraseLoop(index, serials, n).0.top >= index.top
    ensures RegAt(EraseLoop(index, serials, n).0, k) ==
      match RegAt(index, k)
      case None => None
      case Some(reg) => Some(EraseTimes(reg, Occurrences(serials[..n], k)))
  {
    if n > 0 {
      EraseLoopAt(index, serials, n - 1, k);
      EraseLoopAt(index, serials, n - 1, serials[n - 1]);
      EraseOne(index, serials, n, k);
    }
  }

  /** One turn of the rollback loop, for a serial that has slots. */
  lemma EraseOne(index: Table<IndexReg>, serials: seq<int>, n: nat, k: int)
    requires 0 < n <= |serials| && serials[n - 1] >= 0
    requires serials[n - 1] in EraseLoop(index, serials, n - 1).0.slots
    ensures EraseLoop(index, serials, n).0.top >= EraseLoop(index, serials, n - 1).0.top
    ensures RegAt(EraseLoop(index, serials, n).0, k) ==
      if serials[n - 1] == k then Some(SetNewest(EraseLoop(index, serials, n - 1).0.slots[k], -1, false))
      else RegAt(EraseLoop(index, serials, n - 1).0, k)
    ensures Occurrences(serials[..n], k) ==
      Occurrences(serials[..n - 1], k) + (if serials[n - 1] == k then 1 else 0)
  {
    assert serials[..n][..n - 1] == serials[..n - 1] && serials[..n][n - 1] == serials[n - 1];
  }

  // ---------- what the slots of a serial hold ----------

  /** A log as a session writes it: numbered, with rollbacks listing exactly the open transaction. */
  ghost predicate WellFormed(log: Log, auto: bool) {
    forall i :: 0 <= i < |log| ==> WellFormedAt(log, i, auto)
  }

  ghost predicate WellFormedAt(log: Log, i: nat, auto: bool)
    requires i < |log|
  {
    var r := log[i];
    && r.sequence == i + 1
    && (r.kind.Write? ==> r.serial >= 1 && r.autoCommit == auto && r.body.Bytes?)
    && (EndsTransaction(r) ==> !auto)
    && (r.kind.Commit? || r.kind.RollbackEnd? ==> r.body == NO_BODY)
    && (r.kind.RollbackBegin? ==> r.body == Serials(PendingSerials(log[..i])))
  }

  /** Every rolled-back transaction wrote each serial that has a committed version at most once. */
  ghost predicate RollbacksSafe(log: Log) {
    forall i, k {:trigger Pending(log[..i], k)} ::
      (0 <= i < |log| && log[i].kind.RollbackBegin? && Committed(log[..i], k) >= 0) ==> |Pending(log[..i], k)| <= 1
  }

  lemma SafePrefix(log: Log, n: nat)
    requires RollbacksSafe(log) && n <= |log|
    ensures RollbacksSafe(log[..n])
  {
    assert forall i :: 0 <= i < n ==> log[..n][..i] == log[..i];
  }

  lemma WellFormedPrefix(log: Log, auto: bool, n: nat)
    requires WellFormed(log, auto) && n <= |log|
    ensures WellFormed(log[..n], auto)
  {
    forall i | 0 <= i < n
      ensures log[..n][..i] == log[..i]
      ensures WellFormedAt(log[..n], i, auto)
    {
      assert log[..n][..i] == log[..i];
      assert WellFormedAt(log, i, auto);
    }
  }

  /** The slot a WRITE record is entered as. */
  function SlotAt(log: Log, i: nat): Slot
    requires i < |log|
  {
    Slot(OffsetOf(log, i), i + 1, log[i].autoCommit)
  }

  /** A slot is either erased (or never used) or it points to a WRITE of k with that very sequence. */
  ghost predicate SlotSound(s: Slot, log: Log, k: int) {
    && -1 <= s.sequence <= |log|
    && (s.sequence <= 0 ==> s.offset == -1 && !s.autoCommit)
    && (s.sequence > 0 ==> s == SlotAt(log, s.sequence - 1) && IsWriteOf(log[s.sequence - 1], k))
  }

  ghost predicate RegSound(reg: IndexReg, log: Log, k: int) {
    && SlotSound(Hi(reg), log, k)
    && SlotSound(Lo(reg), log, k)
    && (Lo(reg).sequence < Hi(reg).sequence || (Lo(reg) == Hi(reg) == ERASED))
  }

  /**
   The committed version of k that a rollback could still uncover; -1 if there is none, or if it
   was lost because a transaction that was rolled back had filled both slots.
   */
  function Surviving(log: Log, k: int): (i: int)
    ensures -1 <= i < |log|
    ensures i >= 0 ==> IsWriteOf(log[i], k)
  {
    if log == [] then -1
    else
      var n := |log| - 1;
      var w := Pending(log[..n], k);
      if log[n].kind.Commit? && w != [] then w[|w| - 1]
      else if log[n].kind.RollbackBegin? && |w| >= 2 then -1
      else Surviving(log[..n], k)
  }

  lemma SurvivingAfter(log: Log, r: Rec, k: int)
    ensures Surviving(log + [r], k) ==
      var w := Pending(log, k);
      if r.kind.Commit? && w != [] then w[|w| - 1]
      else if r.kind.RollbackBegin? && |w| >= 2 then -1
      else Surviving(log, k)
  {
    Unfold(log, r);
  }

  /** What survives is the committed version. */
  lemma {:induction false} SurvivingIsCommitted(log: Log, k: int)
    ensures Surviving(log, k) == Committed(log, k) || Surviving(log, k) == -1
  {
    if log != [] {
      SurvivingIsCommitted(log[..|log| - 1], k);
    }
  }

  /** Safe rollbacks lose nothing. */
  lemma {:induction false} SafeSurvives(log: Log, k: int)
    requires RollbacksSafe(log)
    ensures Surviving(log, k) == Committed(log, k)
  {
    if log != [] {
      var n := |log| - 1;
      SafePrefix(log, n);
      SafeSurvives(log[..n], k);
      if log[n].kind.RollbackBegin? {
        assert Committed(log[..n], k) >= 0 ==> |Pending(log[..n], k)| <= 1;
      }
    }
  }

  /** The slot of the newest version of k: its last pending write, else the surviving one. */
  function Top(log: Log, k: int): Option<Slot> {
    var c, w := Surviving(log, k), Pending(log, k);
    if w != [] then Some(SlotAt(log, w[|w| - 1])) else if c >= 0 then Some(SlotAt(log, c)) else None
  }

  /** With writes of k pending, the version before the newest one. */
  function Second(log: Log, k: int): Option<Slot> {
    var c, w := Surviving(log, k), Pending(log, k);
    if |w| >= 2 then Some(SlotAt(log, w[|w| - 2])) else if c >= 0 then Some(SlotAt(log, c)) else None
  }

  predicate IsVersion(s: Slot, v: Option<Slot>) {
    if v.None? then s.sequence <= 0 else s == v.value
  }

  /** The slots hold the last two of: the surviving version, then the pending writes. */
  ghost predicate Holds(reg: IndexReg, log: Log, k: int) {
    && RegSound(reg, log, k)
    && IsVersion(Hi(reg), Top(log, k))
    && (Pending(log, k) != [] ==> IsVersion(Lo(reg), Second(log, k)))
  }

  ghost predicate SlotsMatch(reg: Option<IndexReg>, log: Log, k: int) {
    match reg
    case None => Surviving(log, k) < 0 && Pending(log, k) == []
    case Some(r) => Holds(r, log, k)
  }

  lemma SlotAtStable(log: Log, r: Rec, i: nat)
    requires i < |log|
    ensures SlotAt(log + [r], i) == SlotAt(log, i)
  {
    OffsetStable(log, r, i);
  }

  lemma SlotSoundStable(s: Slot, log: Log, r: Rec, k: int)
    requires SlotSound(s, log, k)
    ensures SlotSound(s, log + [r], k)
  {
    if s.sequence > 0 {
      SlotAtStable(log, r, s.sequence - 1);
    }
  }

  /** Erasing every pending write of k uncovers the surviving version, unless both slots were overwritten. */
  lemma {:induction false} ErasedReg(reg: IndexReg, log: Log, k: int, n: nat)
    requires Holds(reg, log, k) && n <= |Pending(log, k)|
    ensures RegSound(EraseTimes(reg, n), log, k)
    ensures n == 0 ==> EraseTimes(reg, n) == reg
    ensures n == 1 ==> Hi(EraseTimes(reg, n)) == Lo(reg) && Lo(EraseTimes(reg, n)) == ERASED
    ensures n >= 2 ==> Hi(EraseTimes(reg, n)) == Lo(EraseTimes(reg, n)) == ERASED
  {
    if n > 0 {
      ErasedReg(reg, log, k, n - 1);
      EraseShifts(EraseTimes(reg, n - 1));
    }
  }

  lemma {:induction false} PendingRange(log: Log, k: int)
    ensures forall i, j :: 0 <= i < j < |Pending(log, k)| ==> Pending(log, k)[i] < Pending(log, k)[j]
  {
    if log != [] {
      PendingRange(log[..|log| - 1], k);
    }
  }

  /** Serials in the dirty list have slots. */
  lemma {:induction false} PendingHaveSlots(log: Log, auto: bool)
    requires WellFormed(log, auto)
    ensures forall i :: 0 <= i < |PendingSerials(log)| ==> PendingSerials(log)[i] >= 1
    ensures forall i :: 0 <= i < |PendingSerials(log)| ==> PendingSerials(log)[i] in IndexOf(log).slots
  {
    if log != [] {
      var n := |log| - 1;
      WellFormedPrefix(log, auto, n);
      PendingHaveSlots(log[..n], auto);
      assert WellFormedAt(log, n, auto);
    }
  }

  lemma RegSoundStable(reg: IndexReg, log: Log, r: Rec, k: int)
    requires RegSound(reg, log, k)
    ensures RegSound(reg, log + [r], k)
  {
    SlotSoundStable(Hi(reg), log, r, k);
    SlotSoundStable(Lo(reg), log, r, k);
  }

  /** Versions keep their slots when the log grows. */
  lemma SlotsStable(log: Log, r: Rec, k: int)
    ensures Surviving(log, k) >= 0 ==> SlotAt(log + [r], Surviving(log, k)) == SlotAt(log, Surviving(log, k))
    ensures forall i :: 0 <= i < |Pending(log, k)| ==> SlotAt(log + [r], Pending(log, k)[i]) == SlotAt(log, Pending(log, k)[i])
  {
    var c, w := Surviving(log, k), Pending(log, k);
    if c >= 0 { SlotAtStable(log, r, c); }
    forall i | 0 <= i < |w| ensures SlotAt(log + [r], w[i]) == SlotAt(log, w[i]) { SlotAtStable(log, r, w[i]); }
  }

  /** A further write of k is the newest version, and the former newest one comes second. */
  lemma VersionsAfterWrite(log: Log, r: Rec, k: int)
    requires IsWriteOf(r, k)
    ensures Top(log + [r], k) == Some(SlotAt(log + [r], |log|)) && Second(log + [r], k) == Top(log, k)
  {
    FoldsAfter(log, r, k);
    SurvivingAfter(log, r, k);
    SlotsStable(log, r, k);
  }

  /** Records that are neither a write of k nor a rollback leave the versions of k as they were. */
  lemma VersionsAfterOther(log: Log, r: Rec, k: int)
    requires !IsWriteOf(r, k) && !r.kind.RollbackBegin?
    ensures Top(log + [r], k) == Top(log, k)
    ensures Pending(log + [r], k) != [] ==> Pending(log, k) != [] && Second(log + [r], k) == Second(log, k)
  {
    FoldsAfter(log, r, k);
    SurvivingAfter(log, r, k);
    SlotsStable(log, r, k);
    if r.kind.Commit? {
      assert Pending(log + [r], k) == [];
    } else {
      assert Pending(log + [r], k) == Pending(log, k) && Surviving(log + [r], k) == Surviving(log, k);
    }
  }

  /** A rollback leaves the surviving version, unless two pending writes had filled both slots. */
  lemma VersionsAfterRollback(log: Log, r: Rec, k: int)
    requires r.kind.RollbackBegin?
    ensures Pending(log + [r], k) == []
    ensures Top(log + [r], k) ==
      match |Pending(log, k)|
      case 0 => Top(log, k)
      case 1 => Second(log, k)
      case _ => None
  {
    FoldsAfter(log, r, k);
    SurvivingAfter(log, r, k);
    SlotsStable(log, r, k);
  }

  /** A further write of k pushes the newest slot down to the oldest. */
  lemma HoldsAfterWrite(reg: Option<IndexReg>, log: Log, r: Rec, k: int)
    requires IsWriteOf(r, k) && SlotsMatch(reg, log, k)
    ensures var s := SlotAt(log + [r], |log|);
      Holds(if reg.Some? then SetOldest(reg.value, s) else InitReg(s), log + [r], k)
  {
    VersionsAfterWrite(log, r, k);
    if reg.Some? {
      RegSoundStable(reg.value, log, r, k);
      SetOldestShifts(reg.value, SlotAt(log + [r], |log|));
    }
  }

  lemma RegAfterWrite(log: Log, r: Rec, k: int, auto: bool)
    requires WellFormed(log + [r], auto) && IsWriteOf(r, k)
    requires SlotsMatch(RegAt(IndexOf(log), k), log, k)
    ensures SlotsMatch(RegAt(IndexOf(log + [r]), k), log + [r], k)
  {
    assert WellFormedAt(log + [r], |log|, auto);
    HoldsAfterWrite(RegAt(IndexOf(log), k), log, r, k);
    IndexAfter(log, r);
    assert (log + [r])[..|log|] == log;
  }

  lemma RegAfterOther(log: Log, r: Rec, k: int, auto: bool)
    requires WellFormed(log + [r], auto) && !IsWriteOf(r, k) && !r.kind.RollbackBegin?
    requires SlotsMatch(RegAt(IndexOf(log), k), log, k)
    ensures SlotsMatch(RegAt(IndexOf(log + [r]), k), log + [r], k)
  {
    FoldsAfter(log, r, k);
    SurvivingAfter(log, r, k);
    VersionsAfterOther(log, r, k);
    IndexAfter(log, r);
    assert RegAt(IndexOf(log + [r]), k) == RegAt(IndexOf(log), k);
    if k in IndexOf(log).slots { RegSoundStable(IndexOf(log).slots[k], log, r, k); }
  }

  /** A rollback erases the pending writes of every serial. */
  lemma ErasedByRollback(log: Log, r: Rec, k: int, auto: bool)
    requires WellFormed(log + [r], auto) && r.kind.RollbackBegin?
    ensures RegAt(IndexOf(log + [r]), k) ==
      match RegAt(IndexOf(log), k)
      case None => None
      case Some(reg) => Some(EraseTimes(reg, |Pending(log, k)|))
  {
    Unfold(log, r);
    var n := |log|;
    assert WellFormedAt(log + [r], n, auto);
    WellFormedPrefix(log + [r], auto, n);
    PendingHaveSlots(log, auto);
    var s := PendingSerials(log);
    EraseLoopAt(IndexOf(log), s, |s|, k);
    assert s[..|s|] == s;
    PendingCount(log, k);
  }

  lemma HoldsAfterRollback(reg: IndexReg, log: Log, r: Rec, k: int)
    requires Holds(reg, log, k) && r.kind.RollbackBegin?
    ensures Holds(EraseTimes(reg, |Pending(log, k)|), log + [r], k)
  {
    VersionsAfterRollback(log, r, k);
    ErasedReg(reg, log, k, |Pending(log, k)|);
    RegSoundStable(EraseTimes(reg, |Pending(log, k)|), log, r, k);
  }

  /** What a rollback leaves: the surviving version if there is one, otherwise nothing. */
  lemma RegAfterRollback(log: Log, r: Rec, k: int, auto: bool)
    requires WellFormed(log + [r], auto) && r.kind.RollbackBegin?
    requires SlotsMatch(RegAt(IndexOf(log), k), log, k)
    ensures SlotsMatch(RegAt(IndexOf(log + [r]), k), log + [r], k)
  {
    ErasedByRollback(log, r, k, auto);
    if k in IndexOf(log).slots {
      HoldsAfterRollback(IndexOf(log).slots[k], log, r, k);
    } else {
      FoldsAfter(log, r, k);
      SurvivingAfter(log, r, k);
    }
  }

  /**
   The two-slot index refines the log, for every serial and every log a session can write: the
   slots hold the surviving version and the pending writes, as far as two slots can.
   */
  lemma {:induction false} IndexRefinesLog(log: Log, k: int, auto: bool)
    requires WellFormed(log, auto)
    ensures SlotsMatch(RegAt(IndexOf(log), k), log, k)
  {
    if log != [] {
      var n := |log| - 1;
      var pre, r := log[..n], log[n];
      assert pre + [r] == log;
      WellFormedPrefix(log, auto, n);
      IndexRefinesLog(pre, k, auto);
      if IsWriteOf(r, k) {
        RegAfterWrite(pre, r, k, auto);
      } else if r.kind.RollbackBegin? {
        RegAfterRollback(pre, r, k, auto);
      } else {
        RegAfterOther(pre, r, k, auto);
      }
    }
  }
}
