/** The records of the data file, and where the frame of each one starts. */
module Records {
  import opened Bytes

  /** The five record types (T_CSTORAGE_COMMIT .. T_CSTORAGE_STATUS). */
  datatype Kind = Commit | Write | RollbackBegin | RollbackEnd | Status

  /**
   The bytes behind the record header.  A ROLLBACK_BEGIN carries an array of int32:
   a count, then that many serials; it is kept here as the list of serials.
   */
  datatype Body = Bytes(bytes: seq<byte>) | Serials(serials: seq<int>)

  const NO_BODY := Bytes([])

  datatype Rec = Rec(kind: Kind, serial: int, sequence: int, len: int, autoCommit: bool, body: Body)

  type Log = seq<Rec>

  /** The header record is a static frame: 17 bytes of CSafeStorageDataReg and a CRC. */
  const HEADER_FRAME := 21

  function BodySize(b: Body): (n: nat)
  {
    match b
    case Bytes(bytes) => |bytes|
    case Serials(serials) => 4 * (|serials| + 1)
  }

  /** A dynamic frame: 4 bytes of length, the 17-byte header, the body, 4 bytes of CRC. */
  function FrameSize(r: Rec): (n: nat)
    ensures n >= 25
  {
    25 + BodySize(r.body)
  }

  /** The size of a data file that holds these records: where the next frame will start. */
  function End(log: Log): (n: nat)
    ensures n >= HEADER_FRAME
  {
    if log == [] then HEADER_FRAME else End(log[..|log| - 1]) + FrameSize(log[|log| - 1])
  }

  /** The offset of record i. */
  function OffsetOf(log: Log, i: nat): (n: nat)
    requires i <= |log|
  {
    End(log[..i])
  }

  /** Which record starts at this offset; -1 if none does. */
  function Locate(log: Log, offset: int): (i: int)
    ensures -1 <= i < |log|
    ensures i >= 0 ==> OffsetOf(log, i) == offset
  {
    if log == [] then -1
    else
      var n := |log| - 1;
      if End(log[..n]) == offset then n
      else
        var i := Locate(log[..n], offset);
        assert i >= 0 ==> log[..n][..i] == log[..i];
        i
  }

  lemma {:induction false} EndGrows(log: Log, i: nat)
    requires i < |log|
    ensures OffsetOf(log, i) + FrameSize(log[i]) <= End(log)
  {
    var n := |log| - 1;
    assert log[..n] + [log[n]] == log;
    if i < n {
      EndGrows(log[..n], i);
      assert log[..n][..i] == log[..i];
    }
  }

  /** A frame offset identifies its record, whatever is appended later. */
  lemma {:induction false} LocateOffset(log: Log, i: nat)
    requires i < |log|
    ensures Locate(log, OffsetOf(log, i)) == i
  {
    var n := |log| - 1;
    if i < n {
      EndGrows(log[..n], i);
      assert log[..n][..i] == log[..i];
      LocateOffset(log[..n], i);
    }
  }

  lemma OffsetStable(log: Log, r: Rec, i: nat)
    requires i <= |log|
    ensures OffsetOf(log + [r], i) == OffsetOf(log, i)
  {
    assert (log + [r])[..i] == log[..i];
  }
}

/**
 What an indexed file means to its user: a partial map from slot number to record,
 and how many slots the file spans.  Module IndexedFile proves that the byte-level
 file behaves this way.
 */
module Tables {

  datatype Lookup<R> = Ok(value: R) | Empty | Eof | BeforeStart

  datatype Table<R> = Table(slots: map<int, R>, top: nat)
  {
    function Put(i: nat, r: R): Table<R> {
      Table(slots[i := r], if top < i + 1 then i + 1 else top)
    }

    /**
     A hole is empty; past the end a write-mode handle sees a hole, a read-only one end of file;
     a negative number is an offset that cannot be reached.
     */
    function Get(i: int, writeMode: bool): Lookup<R> {
      if i in slots then Ok(slots[i])
      else if i < 0 then BeforeStart
      else if i >= top && !writeMode then Eof
      else Empty
    }
  }
}
