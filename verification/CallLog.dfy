/** The data file of a session, record by record and byte by byte, told from its calls alone. */
module CallLog {
  import opened Bytes
  import opened Records
  import opened StoreModel
  import opened SessionInvariant
  import opened Discipline

  // ---------- the whole file ----------

  /** One more record, with the next sequence; the sequences 50, 100, 150, ... are those of STATUS records. */
  function Entered(log: Log, kind: Kind, serial: int, len: int, auto: bool, body: Body): Log {
    var q := |log| + 1;
    log + [Rec(kind, serial, q, len, auto, body)] +
    if (q + 1) % 50 == 0 then [Rec(Status, 0, q + 1, 0, false, Bytes([]))] else []
  }

  /** A call enters one record, a rollback two; with auto-commit only writes do. */
  function FileOf(calls: seq<Call>, auto: bool): Log {
    if calls == [] then []
    else
      var before := calls[..|calls| - 1];
      var log := FileOf(before, auto);
      match calls[|calls| - 1]
      case CallWrite(k, bytes) => Entered(log, Write, k, |bytes|, auto, Bytes(bytes))
      case CallCommit => if auto then log else Entered(log, Commit, 0, 0, false, Bytes([]))
      case CallRollback =>
        if auto then log
        else Entered(Entered(log, RollbackBegin, 0, 0, false, Serials(TxnWrites(before))), RollbackEnd, 0, 0, false, Bytes([]))
  }

  /** The STATUS record comes when the next sequence is a multiple of 50. */
  lemma StatusNext(n: nat)
    ensures MaybeStatus(n, n + 1) == if (n + 1) % 50 == 0 then [Rec(Status, 0, n + 1, 0, false, Bytes([]))] else []
  {
  }

  lemma WrittenEnters(s: Store, r: Rec, t: Store)
    requires Core(s) && Written(s, r, t) && r.sequence == |s.disk.data| + 1
    ensures t.disk.data == Entered(s.disk.data, r.kind, r.serial, r.len, r.autoCommit, r.body)
  {
    StatusNext(|s.disk.data| + 1);
    EntersRecord(s.disk.data, r);
  }

  lemma EntersRecord(data: Log, r: Rec)
    requires r.sequence == |data| + 1
    ensures Entered(data, r.kind, r.serial, r.len, r.autoCommit, r.body) ==
      data + [r] + if (|data| + 2) % 50 == 0 then [Rec(Status, 0, |data| + 2, 0, false, Bytes([]))] else []
  {
  }

  lemma RollbackEnters(s: Store)
    requires Inv(s) && !s.autoCommit
    ensures DoRollback(s).disk.data ==
      Entered(Entered(s.disk.data, RollbackBegin, 0, 0, false, Serials(s.dirty)), RollbackEnd, 0, 0, false, Bytes([]))
  {
    var s1, t := RollbackSteps(s);
    WrittenEnters(s, RollbackBeginRec(s), s1);
    WrittenEnters(s1, RollbackEndRec(s1), t);
  }

  lemma CallEnters(s: Store, c: Call, calls: seq<Call>)
    requires Inv(s) && (c.CallWrite? ==> c.serial >= 1) && s.disk.data == FileOf(calls, s.autoCommit)
    requires !s.autoCommit ==> s.dirty == TxnWrites(calls)
    ensures Do(s, c).disk.data == FileOf(calls + [c], s.autoCommit)
  {
    LastCall(calls, c);
    match c {
      case CallWrite(k, bytes) =>
        WriteKeepsInv(s, k, bytes);
        WrittenEnters(s, WriteRec(s, k, bytes), DoWrite(s, k, bytes));
      case CallCommit =>
        if !s.autoCommit {
          CommitKeepsInv(s);
          WrittenEnters(s, CommitRec(s), WriteFiles(s, CommitRec(s)));
        }
      case CallRollback => if !s.autoCommit { RollbackEnters(s); }
    }
  }

  /** Every field of every record of every session follows from the calls. */
  lemma {:induction false} DataFileOfCalls(calls: seq<Call>, auto: bool)
    requires ValidCalls(calls)
    ensures Run(calls, auto).disk.data == FileOf(calls, auto)
  {
    if calls != [] {
      var n := |calls| - 1;
      var before, c := calls[..n], calls[n];
      assert calls == before + [c];
      DataFileOfCalls(before, auto);
      RunsKeepInv(before, auto);
      if !auto { RunsMatch(before); }
      CallEnters(Run(before, auto), c, before);
    }
  }

  // ---------- the payloads ----------

  /** A serial, a length and a payload. */
  datatype Payload = Payload(serial: int, len: int, body: Body)

  /** What the write calls hand over, in order. */
  function Handed(calls: seq<Call>): seq<Payload> {
    if calls == [] then []
    else
      match calls[|calls| - 1]
      case CallWrite(k, bytes) => Handed(calls[..|calls| - 1]) + [Payload(k, |bytes|, Bytes(bytes))]
      case _ => Handed(calls[..|calls| - 1])
  }

  /** What the WRITE records hold, in order. */
  function Held(log: Log): seq<Payload> {
    if log == [] then []
    else
      var r := log[|log| - 1];
      Held(log[..|log| - 1]) + if r.kind.Write? then [Payload(r.serial, r.len, r.body)] else []
  }

  lemma HeldAfter(log: Log, r: Rec)
    ensures Held(log + [r]) == Held(log) + if r.kind.Write? then [Payload(r.serial, r.len, r.body)] else []
  {
    assert (log + [r])[..|log|] == log;
  }

  lemma HeldEntered(log: Log, kind: Kind, serial: int, len: int, auto: bool, body: Body)
    ensures Held(Entered(log, kind, serial, len, auto, body)) == Held(log) + if kind.Write? then [Payload(serial, len, body)] else []
  {
    var q := |log| + 1;
    var more := log + [Rec(kind, serial, q, len, auto, body)];
    HeldAfter(log, Rec(kind, serial, q, len, auto, body));
    if (q + 1) % 50 == 0 {
      HeldAfter(more, Rec(Status, 0, q + 1, 0, false, Bytes([])));
    } else {
      assert more + [] == more;
    }
  }

  lemma {:induction false} HeldInFile(calls: seq<Call>, auto: bool)
    ensures Held(FileOf(calls, auto)) == Handed(calls)
  {
    if calls != [] {
      var before := calls[..|calls| - 1];
      var log := FileOf(before, auto);
      HeldInFile(before, auto);
      match calls[|calls| - 1] {
        case CallWrite(k, bytes) => HeldEntered(log, Write, k, |bytes|, auto, Bytes(bytes));
        case CallCommit => HeldEntered(log, Commit, 0, 0, false, Bytes([]));
        case CallRollback =>
          var begun := Entered(log, RollbackBegin, 0, 0, false, Serials(TxnWrites(before)));
          HeldEntered(log, RollbackBegin, 0, 0, false, Serials(TxnWrites(before)));
          HeldEntered(begun, RollbackEnd, 0, 0, false, Bytes([]));
      }
    }
  }

  /** The WRITE records hold exactly the serials, lengths and payloads of the write calls, in order. */
  lemma PayloadsStored(calls: seq<Call>, auto: bool)
    requires ValidCalls(calls)
    ensures Held(Run(calls, auto).disk.data) == Handed(calls)
  {
    DataFileOfCalls(calls, auto);
    HeldInFile(calls, auto);
  }
}
