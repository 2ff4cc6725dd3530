/**
 The data file as bytes: a static header frame and appended dynamic frames.  Parsing it undoes
 the appends: by position, by recorded offset, and whatever is appended later.
 */
module DataFile {
  import opened Bytes
  import opened Frames
  import opened DataArrays
  import opened BaseSafeFile

  predicate Small(payload: seq<byte>) {
    |payload| + 8 < 0x8000_0000
  }

  ghost predicate AllSmall(payloads: seq<seq<byte>>) {
    forall i :: 0 <= i < |payloads| ==> Small(payloads[i])
  }

  /** The file after these appends. */
  ghost function FileOf(ck: Checksum, header: seq<byte>, payloads: seq<seq<byte>>): (f: seq<byte>)
    requires AllSmall(payloads)
    ensures |f| >= |header| + 4
  {
    if payloads == [] then StaticFrame(ck, header)
    else
      var n := |payloads| - 1;
      FileOf(ck, header, payloads[..n]) + DynamicFrame(ck, payloads[n])
  }

  /** Where record i starts: fdata.lastOffset() after its append. */
  ghost function Start(ck: Checksum, header: seq<byte>, payloads: seq<seq<byte>>, i: nat): (n: nat)
    requires AllSmall(payloads) && i <= |payloads|
    ensures n >= |header| + 4
  {
    |FileOf(ck, header, payloads[..i])|
  }

  lemma PrefixOfMore(a: seq<byte>, b: seq<byte>, x: seq<byte>)
    requires a <= b
    ensures a <= b + x
  {
    assert (b + x)[..|a|] == b[..|a|];
  }

  lemma InPlace(before: seq<byte>, frame: seq<byte>, whole: seq<byte>)
    requires before + frame <= whole
    ensures |before| + |frame| <= |whole| && whole[|before|..|before| + |frame|] == frame
  {
    var to := before + frame;
    assert whole[..|to|] == to;
    assert whole[|before|..|to|] == to[|before|..];
  }

  lemma LastFrame(ck: Checksum, header: seq<byte>, payloads: seq<seq<byte>>)
    requires AllSmall(payloads) && payloads != []
    ensures var n := |payloads| - 1;
            FileOf(ck, header, payloads) == FileOf(ck, header, payloads[..n]) + DynamicFrame(ck, payloads[n])
  {
  }

  lemma {:induction false} PrefixOfFile(ck: Checksum, header: seq<byte>, payloads: seq<seq<byte>>, i: nat)
    requires AllSmall(payloads) && i <= |payloads|
    ensures FileOf(ck, header, payloads[..i]) <= FileOf(ck, header, payloads)
  {
    if i == |payloads| {
      assert payloads[..i] == payloads;
    } else {
      var n := |payloads| - 1;
      assert payloads[..n][..i] == payloads[..i];
      PrefixOfFile(ck, header, payloads[..n], i);
      LastFrame(ck, header, payloads);
      PrefixOfMore(FileOf(ck, header, payloads[..i]), FileOf(ck, header, payloads[..n]), DynamicFrame(ck, payloads[n]));
    }
  }

  lemma HeaderInPlace(ck: Checksum, header: seq<byte>, payloads: seq<seq<byte>>)
    requires AllSmall(payloads)
    ensures StaticFrame(ck, header) <= FileOf(ck, header, payloads)
  {
    PrefixOfFile(ck, header, payloads, 0);
    assert payloads[..0] == [];
  }

  lemma NextStart(ck: Checksum, header: seq<byte>, payloads: seq<seq<byte>>, i: nat)
    requires AllSmall(payloads) && i < |payloads|
    ensures Start(ck, header, payloads, i + 1) == Start(ck, header, payloads, i) + |payloads[i]| + 8
    ensures FileOf(ck, header, payloads[..i + 1]) == FileOf(ck, header, payloads[..i]) + DynamicFrame(ck, payloads[i])
  {
    assert payloads[..i + 1][..i] == payloads[..i] && payloads[..i + 1][i] == payloads[i];
  }

  lemma FileThenFrame(ck: Checksum, header: seq<byte>, payloads: seq<seq<byte>>, i: nat)
    requires AllSmall(payloads) && i < |payloads|
    ensures FileOf(ck, header, payloads[..i]) + DynamicFrame(ck, payloads[i]) <= FileOf(ck, header, payloads)
  {
    NextStart(ck, header, payloads, i);
    PrefixOfFile(ck, header, payloads, i + 1);
  }

  lemma FrameInPlace(ck: Checksum, header: seq<byte>, payloads: seq<seq<byte>>, i: nat)
    requires AllSmall(payloads) && i < |payloads|
    ensures var at, file := Start(ck, header, payloads, i), FileOf(ck, header, payloads);
            at + |payloads[i]| + 8 <= |file| && file[at..at + |payloads[i]| + 8] == DynamicFrame(ck, payloads[i])
  {
    FileThenFrame(ck, header, payloads, i);
    InPlace(FileOf(ck, header, payloads[..i]), DynamicFrame(ck, payloads[i]), FileOf(ck, header, payloads));
  }

  /** A frame that lies in this file at this place is read back there. */
  lemma ReadsFrame(ck: Checksum, file: seq<byte>, at: nat, payload: seq<byte>, writeMode: bool, cached: bool, emptyData: bool, ignoreCrc: bool)
    requires Small(payload) && at + |payload| + 8 <= |file| && file[at..at + |payload| + 8] == DynamicFrame(ck, payload)
    ensures Readable(ck, file, at, payload, writeMode, cached, emptyData, ignoreCrc)
  {
    DynamicRead(ck, file, at, payload, writeMode, cached, emptyData, ignoreCrc);
  }

  predicate Readable(ck: Checksum, file: seq<byte>, at: nat, payload: seq<byte>, writeMode: bool, cached: bool, emptyData: bool, ignoreCrc: bool) {
    && ReadDynamic(ck, file, at, writeMode, cached, emptyData, ignoreCrc) == Ok(payload)
    && at + 4 <= |file| && DynamicEnd(file, at) == at + |payload| + 8
  }

  lemma RecordReadable(ck: Checksum, header: seq<byte>, payloads: seq<seq<byte>>, i: nat, writeMode: bool, cached: bool, emptyData: bool, ignoreCrc: bool)
    requires AllSmall(payloads) && i < |payloads|
    ensures Readable(ck, FileOf(ck, header, payloads), Start(ck, header, payloads, i), payloads[i], writeMode, cached, emptyData, ignoreCrc)
  {
    FrameInPlace(ck, header, payloads, i);
    ReadsFrame(ck, FileOf(ck, header, payloads), Start(ck, header, payloads, i), payloads[i], writeMode, cached, emptyData, ignoreCrc);
  }

  /** A read at a recorded offset returns that record and moves to the next one. */
  lemma ReadsRecord(ck: Checksum, header: seq<byte>, payloads: seq<seq<byte>>, i: nat, writeMode: bool, cached: bool, emptyData: bool, ignoreCrc: bool)
    requires AllSmall(payloads) && i < |payloads|
    ensures var file, at := FileOf(ck, header, payloads), Start(ck, header, payloads, i);
            && ReadDynamic(ck, file, at, writeMode, cached, emptyData, ignoreCrc) == Ok(payloads[i])
            && at + 4 <= |file| && DynamicEnd(file, at) == Start(ck, header, payloads, i + 1)
  {
    RecordReadable(ck, header, payloads, i, writeMode, cached, emptyData, ignoreCrc);
    NextStart(ck, header, payloads, i);
  }

  lemma StartStable(ck: Checksum, header: seq<byte>, payloads: seq<seq<byte>>, more: seq<seq<byte>>, i: nat)
    requires AllSmall(payloads + more) && i <= |payloads|
    ensures AllSmall(payloads) && Start(ck, header, payloads, i) == Start(ck, header, payloads + more, i)
  {
    forall j | 0 <= j < |payloads| ensures Small(payloads[j]) { assert (payloads + more)[j] == payloads[j]; }
    assert (payloads + more)[..i] == payloads[..i];
  }

  /** Whatever is appended later, a recorded offset keeps returning its record. */
  lemma AppendsKeepRecords(ck: Checksum, header: seq<byte>, payloads: seq<seq<byte>>, more: seq<seq<byte>>, i: nat, writeMode: bool, cached: bool)
    requires AllSmall(payloads + more) && i < |payloads|
    ensures AllSmall(payloads)
    ensures ReadDynamic(ck, FileOf(ck, header, payloads + more), Start(ck, header, payloads, i), writeMode, cached, false, false) == Ok(payloads[i])
  {
    StartStable(ck, header, payloads, more, i);
    ReadsRecord(ck, header, payloads + more, i, writeMode, cached, false, false);
  }

  /** Appending at the end of the file is one more record. */
  lemma AppendIsRecord(ck: Checksum, header: seq<byte>, payloads: seq<seq<byte>>, p: seq<byte>)
    requires AllSmall(payloads) && Small(p)
    ensures AllSmall(payloads + [p])
    ensures var file := FileOf(ck, header, payloads);
            FileOf(ck, header, payloads + [p]) == WriteAt(file, |file|, DynamicFrame(ck, p))
    ensures Start(ck, header, payloads + [p], |payloads|) == |FileOf(ck, header, payloads)|
  {
    var file, frame := FileOf(ck, header, payloads), DynamicFrame(ck, p);
    assert (payloads + [p])[..|payloads|] == payloads;
    var e := Extended(file, |file| + |frame|);
    assert e[..|file|] == file && e[|file| + |frame|..] == [];
    assert WriteAt(file, |file|, frame) == e[..|file|] + frame + e[|file| + |frame|..];
  }

  // ---------- the sequential scan ----------

  /** The records that reading on from this position returns, until a read delivers nothing. */
  ghost function Parse(ck: Checksum, file: seq<byte>, pos: nat, writeMode: bool, cached: bool): seq<seq<byte>>
    decreases |file| - pos
  {
    var res := ReadDynamic(ck, file, pos, writeMode, cached, false, false);
    if res.Err? || |res.value| == 0 then []
    else
      ReadLength(ck, file, pos, writeMode, cached);
      [res.value] + Parse(ck, file, DynamicEnd(file, pos), writeMode, cached)
  }

  /** A successful read ends inside the file. */
  lemma ReadLength(ck: Checksum, file: seq<byte>, pos: nat, writeMode: bool, cached: bool)
    requires ReadDynamic(ck, file, pos, writeMode, cached, false, false).Ok?
    ensures pos + 4 <= |file| && pos < DynamicEnd(file, pos) <= |file|
    ensures DynamicEnd(file, pos) == pos + |ReadDynamic(ck, file, pos, writeMode, cached, false, false).value| + 8
    ensures ReadEnd(file, pos, true, 0, writeMode, cached) == Ok(DynamicEnd(file, pos))
  {
  }

  /** Behind the last record there is nothing to read. */
  lemma EndOfData(ck: Checksum, file: seq<byte>, writeMode: bool, cached: bool)
    ensures ReadDynamic(ck, file, |file|, writeMode, cached, false, false) == Err(if writeMode then E_EMPTY_DATA else E_EOF)
  {
  }

  /** The records before the first one without payload. */
  function UntilEmpty(payloads: seq<seq<byte>>): seq<seq<byte>> {
    if payloads == [] || payloads[0] == [] then [] else [payloads[0]] + UntilEmpty(payloads[1..])
  }

  lemma ParseStops(ck: Checksum, file: seq<byte>, pos: nat, writeMode: bool, cached: bool)
    requires ReadDynamic(ck, file, pos, writeMode, cached, false, false).Err? || ReadDynamic(ck, file, pos, writeMode, cached, false, false) == Ok([])
    ensures Parse(ck, file, pos, writeMode, cached) == []
  {
  }

  lemma ParseGoesOn(ck: Checksum, file: seq<byte>, pos: nat, payload: seq<byte>, next: nat, writeMode: bool, cached: bool)
    requires ReadDynamic(ck, file, pos, writeMode, cached, false, false) == Ok(payload) && payload != []
    requires pos + 4 <= |file| && DynamicEnd(file, pos) == next
    ensures Parse(ck, file, pos, writeMode, cached) == [payload] + Parse(ck, file, next, writeMode, cached)
  {
  }

  /** One record of the scan. */
  lemma ParseOne(ck: Checksum, header: seq<byte>, payloads: seq<seq<byte>>, i: nat, writeMode: bool, cached: bool)
    requires AllSmall(payloads) && i < |payloads|
    ensures var file := FileOf(ck, header, payloads);
      Parse(ck, file, Start(ck, header, payloads, i), writeMode, cached) ==
      if payloads[i] == [] then [] else [payloads[i]] + Parse(ck, file, Start(ck, header, payloads, i + 1), writeMode, cached)
  {
    var file, at, next := FileOf(ck, header, payloads), Start(ck, header, payloads, i), Start(ck, header, payloads, i + 1);
    ReadsRecord(ck, header, payloads, i, writeMode, cached, false, false);
    if payloads[i] == [] {
      ParseStops(ck, file, at, writeMode, cached);
    } else {
      ParseGoesOn(ck, file, at, payloads[i], next, writeMode, cached);
    }
  }

  lemma ParseEnd(ck: Checksum, header: seq<byte>, payloads: seq<seq<byte>>, writeMode: bool, cached: bool)
    requires AllSmall(payloads)
    ensures Parse(ck, FileOf(ck, header, payloads), Start(ck, header, payloads, |payloads|), writeMode, cached) == []
  {
    var file := FileOf(ck, header, payloads);
    assert payloads[..|payloads|] == payloads;
    EndOfData(ck, file, writeMode, cached);
    ParseStops(ck, file, |file|, writeMode, cached);
  }

  lemma UntilEmptyFrom(payloads: seq<seq<byte>>, i: nat)
    requires i < |payloads|
    ensures UntilEmpty(payloads[i..]) == if payloads[i] == [] then [] else [payloads[i]] + UntilEmpty(payloads[i + 1..])
  {
    assert payloads[i..][1..] == payloads[i + 1..];
  }

  lemma {:induction false} ParseFrom(ck: Checksum, header: seq<byte>, payloads: seq<seq<byte>>, i: nat, writeMode: bool, cached: bool)
    requires AllSmall(payloads) && i <= |payloads|
    ensures Parse(ck, FileOf(ck, header, payloads), Start(ck, header, payloads, i), writeMode, cached) == UntilEmpty(payloads[i..])
    decreases |payloads| - i
  {
    if i == |payloads| {
      ParseEnd(ck, header, payloads, writeMode, cached);
    } else {
      ParseOne(ck, header, payloads, i, writeMode, cached);
      UntilEmptyFrom(payloads, i);
      ParseFrom(ck, header, payloads, i + 1, writeMode, cached);
    }
  }

  /** A scan from behind the header returns the appended records, in order. */
  lemma ScanReturnsAll(ck: Checksum, header: seq<byte>, payloads: seq<seq<byte>>, writeMode: bool, cached: bool)
    requires AllSmall(payloads)
    ensures var file := FileOf(ck, header, payloads);
            && ReadStatic(ck, file, 0, |header|, writeMode, cached, false, false) == Ok(header)
            && Parse(ck, file, |header| + 4, writeMode, cached) == UntilEmpty(payloads)
  {
    HeaderInPlace(ck, header, payloads);
    var file := FileOf(ck, header, payloads);
    assert file[0..0 + |header| + 4] == StaticFrame(ck, header);
    StaticRead(ck, file, 0, header, writeMode, cached, false, false);
    assert payloads[..0] == [] && payloads[0..] == payloads;
    ParseFrom(ck, header, payloads, 0, writeMode, cached);
  }

  predicate NonEmpty(payloads: seq<seq<byte>>) {
    payloads == [] || (payloads[0] != [] && NonEmpty(payloads[1..]))
  }

  /** Nothing is cut off exactly if every record has a payload, as all records of the store have. */
  lemma {:induction false} NoneEmpty(payloads: seq<seq<byte>>)
    ensures UntilEmpty(payloads) == payloads <==> NonEmpty(payloads)
  {
    if payloads != [] {
      NoneEmpty(payloads[1..]);
      assert payloads == [payloads[0]] + payloads[1..];
      var rest := UntilEmpty(payloads[1..]);
      assert ([payloads[0]] + rest)[1..] == rest;
    }
  }

  // ---------- the program ----------

  /** fdata.write: one more record at the end; its offset is remembered. */
  method Append(f: SafeFile, d: DataArray, ghost header: seq<byte>, ghost payloads: seq<seq<byte>>) returns (r: int)
    requires f.Valid() && f.writeMode && d.Valid() && f.workArea !in d.datas && d.size + 8 < 0x8000_0000
    requires AllSmall(payloads) && f.file == FileOf(f.ck, header, payloads)
    modifies f`file, f`cacheOffset, f`cacheLen, f`currentOffset, f`lastOffset, f`workArea, f.workArea
    ensures f.Valid() && (f.workArea == old(f.workArea) || fresh(f.workArea))
    ensures var more := payloads + [old(d.Bytes())];
            AllSmall(more) && f.file == FileOf(f.ck, header, more) && f.lastOffset == Start(f.ck, header, more, |payloads|) && r > 0
  {
    AppendIsRecord(f.ck, header, payloads, d.Bytes());
    r := f.Write(EndOfFile, true, d);
  }

  /** What a record buffer and a payload buffer of limited size take of a record. */
  function Taken(payload: seq<byte>, fixed: nat, room: nat): seq<byte> {
    if |payload| <= fixed + room then payload else payload[..fixed + room]
  }

  function AllTaken(payloads: seq<seq<byte>>, fixed: nat, room: nat): (t: seq<seq<byte>>)
    ensures |t| == |payloads|
  {
    seq(|payloads|, i requires 0 <= i < |payloads| => Taken(payloads[i], fixed, room))
  }

  lemma TwoPieces(pieces: seq<Piece>, payload: seq<byte>)
    requires |pieces| == 2 && !pieces[0].variable && pieces[1].variable && pieces[0].len <= |payload|
    ensures var fixed := pieces[0].len;
            Scatter(pieces, payload) == [payload[..fixed], payload[fixed..][..Min(pieces[1].len, |payload| - fixed)]]
  {
    assert Scatter(pieces[1..], payload[pieces[0].len..]) == [Share(pieces[1], payload[pieces[0].len..])];
  }

  /** What the buffers hold after a record was delivered to them. */
  method TakeRecord(d: DataArray, r: nat, ghost before: seq<seq<byte>>, ghost payload: seq<byte>) returns (record: seq<byte>)
    requires d.Valid() && |d.pieces| == 2 && !d.pieces[0].variable && d.pieces[1].variable
    requires |payload| == r >= d.pieces[0].len && |before| == 2
    requires forall i :: 0 <= i < 2 ==> |before[i]| == d.datas[i].Length
    requires d.Holds(before, Scatter(d.pieces, payload))
    ensures record == Taken(payload, d.pieces[0].len, d.pieces[1].len)
  {
    TwoPieces(d.pieces, payload);
    var fixed := d.pieces[0].len;
    var n := Min(d.pieces[1].len, r - fixed);
    assert d.datas[0][..] == Filled(before[0], payload[..fixed]);
    assert d.datas[1][..] == Filled(before[1], payload[fixed..][..n]);
    assert d.datas[0][..fixed] == payload[..fixed] && d.datas[1][..n] == payload[fixed..][..n];
    record := d.datas[0][..fixed] + d.datas[1][..n];
  }

  /** Read i of a scan delivers payload i and stops where read i + 1 starts. */
  ghost predicate ParsesAt(ck: Checksum, file: seq<byte>, starts: seq<nat>, payloads: seq<seq<byte>>, size: nat, writeMode: bool, cached: bool, i: nat)
    requires |starts| == |payloads| + 1 && i < |payloads|
  {
    && RawRead(file, starts[i], LENGTH_SIZE, writeMode, cached).Ok?
    && ReadFrame(ck, file, starts[i], true, size, writeMode, cached, false, false) == Ok(payloads[i])
    && ReadEnd(file, starts[i], true, size, writeMode, cached) == Ok(starts[i + 1])
  }

  /** The result of reading behind the last record: no data on a handle for writing, otherwise end of file. */
  function EndCode(writeMode: bool): int {
    if writeMode then -70 else -40
  }

  ghost predicate EndsAt(ck: Checksum, file: seq<byte>, at: nat, size: nat, writeMode: bool, cached: bool) {
    ReadFrame(ck, file, at, true, size, writeMode, cached, false, false) == Err(EndCode(writeMode))
  }

  ghost predicate Parses(ck: Checksum, file: seq<byte>, starts: seq<nat>, payloads: seq<seq<byte>>, size: nat, writeMode: bool, cached: bool) {
    && |starts| == |payloads| + 1
    && (forall i :: 0 <= i < |payloads| ==> ParsesAt(ck, file, starts, payloads, size, writeMode, cached, i))
    && EndsAt(ck, file, starts[|payloads|], size, writeMode, cached)
  }

  lemma RecordParses(ck: Checksum, header: seq<byte>, payloads: seq<seq<byte>>, i: nat, size: nat, writeMode: bool, cached: bool)
    requires AllSmall(payloads) && i < |payloads|
    ensures var file, at := FileOf(ck, header, payloads), Start(ck, header, payloads, i);
      && RawRead(file, at, LENGTH_SIZE, writeMode, cached).Ok?
      && ReadFrame(ck, file, at, true, size, writeMode, cached, false, false) == Ok(payloads[i])
      && ReadEnd(file, at, true, size, writeMode, cached) == Ok(Start(ck, header, payloads, i + 1))
  {
    ReadsRecord(ck, header, payloads, i, writeMode, cached, false, false);
    ReadLength(ck, FileOf(ck, header, payloads), Start(ck, header, payloads, i), writeMode, cached);
  }

  /** The reads of a scan of the file that these appends made. */
  lemma FileParses(ck: Checksum, header: seq<byte>, payloads: seq<seq<byte>>, size: nat, writeMode: bool, cached: bool) returns (starts: seq<nat>)
    requires AllSmall(payloads)
    ensures |starts| == |payloads| + 1 && forall i :: 0 <= i <= |payloads| ==> starts[i] == Start(ck, header, payloads, i)
    ensures Parses(ck, FileOf(ck, header, payloads), starts, payloads, size, writeMode, cached)
  {
    starts := seq(|payloads| + 1, i requires 0 <= i <= |payloads| => Start(ck, header, payloads, i));
    var file := FileOf(ck, header, payloads);
    forall i | 0 <= i < |payloads| ensures ParsesAt(ck, file, starts, payloads, size, writeMode, cached, i) {
      RecordParses(ck, header, payloads, i, size, writeMode, cached);
    }
    assert payloads[..|payloads|] == payloads;
    EndOfData(ck, file, writeMode, cached);
  }

  /** One record of the scan, as it arrives in the buffers. */
  method ReadNext(f: SafeFile, d: DataArray, ghost starts: seq<nat>, ghost payloads: seq<seq<byte>>, ghost i: nat) returns (r: int, record: seq<byte>)
    requires f.Valid() && f.workArea !in d.datas && f.cache !in d.datas && Receives(d, payloads)
    requires Parses(f.ck, f.file, starts, payloads, d.size, f.writeMode, f.Cached())
    requires i <= |payloads| && f.currentOffset == starts[i]
    modifies f`workArea, f`cacheOffset, f`cacheLen, f`currentOffset, f`lastOffset, f.cache, f.workArea, d.datas
    ensures f.Valid() && (f.workArea == old(f.workArea) || fresh(f.workArea))
    ensures if i == |payloads| then r == EndCode(f.writeMode) else
              && r == |payloads[i]| && f.lastOffset == starts[i] && f.currentOffset == starts[i + 1]
              && record == Taken(payloads[i], d.pieces[0].len, d.pieces[1].len)
  {
    ghost var before, at := d.All(), f.currentOffset;
    ghost var res := ReadFrame(f.ck, f.file, at, true, d.size, f.writeMode, f.Cached(), false, false);
    if i < |payloads| { assert ParsesAt(f.ck, f.file, starts, payloads, d.size, f.writeMode, f.Cached(), i); }
    r := f.Read(CurrentPosition, true, false, false, d);
    assert Outcome(res, r, d, before);
    if r < 0 { return r, []; }
    record := TakeRecord(d, r, before, payloads[i]);
  }

  /** A record buffer of this size, and room for a payload behind it. */
  ghost predicate Receives(d: DataArray, payloads: seq<seq<byte>>) {
    && d.Valid() && |d.pieces| == 2 && !d.pieces[0].variable && d.pieces[1].variable
    && forall i :: 0 <= i < |payloads| ==> |payloads[i]| >= d.pieces[0].len
  }

  method ScanFrom(f: SafeFile, d: DataArray, ghost starts: seq<nat>, ghost payloads: seq<seq<byte>>) returns (result: int, records: seq<seq<byte>>)
    requires f.Valid() && f.workArea !in d.datas && f.cache !in d.datas && Receives(d, payloads)
    requires Parses(f.ck, f.file, starts, payloads, d.size, f.writeMode, f.Cached()) && f.currentOffset == starts[0]
    requires forall i :: 0 <= i < |payloads| ==> payloads[i] != []
    modifies f`workArea, f`cacheOffset, f`cacheLen, f`currentOffset, f`lastOffset, f.cache, f.workArea, d.datas
    ensures f.Valid() && result == EndCode(f.writeMode)
    ensures records == AllTaken(payloads, d.pieces[0].len, d.pieces[1].len)
  {
    records := [];
    ghost var i := 0;
    var record;
    result, record := ReadNext(f, d, starts, payloads, i);
    while result > 0
      invariant f.Valid() && f.workArea !in d.datas && (f.workArea == old(f.workArea) || fresh(f.workArea))
      invariant 0 <= i == |records| <= |payloads|
      invariant if i == |payloads| then result == EndCode(f.writeMode) else
                  result == |payloads[i]| && f.currentOffset == starts[i + 1]
                  && record == Taken(payloads[i], d.pieces[0].len, d.pieces[1].len)
      invariant forall k :: 0 <= k < i ==> records[k] == Taken(payloads[k], d.pieces[0].len, d.pieces[1].len)
      decreases |payloads| - i
    {
      records := records + [record];
      i := i + 1;
      result, record := ReadNext(f, d, starts, payloads, i);
    }
  }

  /** The reading loop of rebuild(): every appended record, in order, as far as it fits the buffers. */
  method Scan(f: SafeFile, d: DataArray, ghost header: seq<byte>, ghost payloads: seq<seq<byte>>) returns (result: int, records: seq<seq<byte>>)
    requires f.Valid() && f.workArea !in d.datas && f.cache !in d.datas && Receives(d, payloads)
    requires AllSmall(payloads) && f.file == FileOf(f.ck, header, payloads) && f.currentOffset == |header| + 4
    requires forall i :: 0 <= i < |payloads| ==> payloads[i] != []
    modifies f`workArea, f`cacheOffset, f`cacheLen, f`currentOffset, f`lastOffset, f.cache, f.workArea, d.datas
    ensures f.Valid() && result == EndCode(f.writeMode)
    ensures records == AllTaken(payloads, d.pieces[0].len, d.pieces[1].len)
  {
    ghost var starts := FileParses(f.ck, header, payloads, d.size, f.writeMode, f.Cached());
    assert payloads[..0] == [];
    result, records := ScanFrom(f, d, starts, payloads);
  }

  lemma TakenIs(payload: seq<byte>, fixed: nat, room: nat)
    ensures |payload| <= fixed + room ==> Taken(payload, fixed, room) == payload
    ensures |payload| > fixed + room ==> |Taken(payload, fixed, room)| == fixed + room && Taken(payload, fixed, room) <= payload
  {
  }

  /** A record that fits the buffers arrives unchanged, a longer one as the prefix that fills them. */
  ghost predicate Arrives(payload: seq<byte>, record: seq<byte>, room: nat) {
    if |payload| <= room then record == payload else |record| == room && record <= payload
  }

  ghost predicate AllArrive(payloads: seq<seq<byte>>, records: seq<seq<byte>>, room: nat) {
    |records| == |payloads| && forall i :: 0 <= i < |records| ==> Arrives(payloads[i], records[i], room)
  }

  lemma TakenArrive(payloads: seq<seq<byte>>, fixed: nat, room: nat)
    ensures AllArrive(payloads, AllTaken(payloads, fixed, room), fixed + room)
  {
    forall i | 0 <= i < |payloads| ensures Arrives(payloads[i], AllTaken(payloads, fixed, room)[i], fixed + room) {
      TakenIs(payloads[i], fixed, room);
    }
  }

  /** The static read of the header, from wherever the position was: it leaves the position behind the frame. */
  method ReadHeader(f: SafeFile, h: DataArray, ghost header: seq<byte>, ghost payloads: seq<seq<byte>>) returns (first: int)
    requires f.Valid() && AllSmall(payloads) && f.file == FileOf(f.ck, header, payloads)
    requires h.Valid() && h.size == |header| && f.workArea !in h.datas && f.cache !in h.datas
    modifies f`workArea, f`cacheOffset, f`cacheLen, f`currentOffset, f`lastOffset, f.cache, f.workArea, h.datas
    ensures f.Valid() && (f.workArea == old(f.workArea) || fresh(f.workArea))
    ensures first == |header| && f.currentOffset == |header| + 4 && h.Holds(old(h.All()), Scatter(h.pieces, header))
  {
    ScanReturnsAll(f.ck, header, payloads, f.writeMode, f.Cached());
    first := f.Read(At(0), false, false, false, h);
  }

  /** The opening of rebuild(): the header at 0, then every record from where that read stopped. */
  method ReadAll(f: SafeFile, h: DataArray, d: DataArray, ghost header: seq<byte>, ghost payloads: seq<seq<byte>>)
      returns (first: int, result: int, records: seq<seq<byte>>)
    requires f.Valid() && AllSmall(payloads) && f.file == FileOf(f.ck, header, payloads)
    requires h.Valid() && h.size == |header| && f.workArea !in h.datas && f.cache !in h.datas
    requires f.workArea !in d.datas && f.cache !in d.datas && Receives(d, payloads)
    requires forall i :: 0 <= i < |payloads| ==> payloads[i] != []
    modifies f`workArea, f`cacheOffset, f`cacheLen, f`currentOffset, f`lastOffset, f.cache, f.workArea, h.datas, d.datas
    ensures f.Valid() && first == |header| && result == (if f.writeMode then -70 else -40)
    ensures AllArrive(payloads, records, d.pieces[0].len + d.pieces[1].len)
  {
    first := ReadHeader(f, h, header, payloads);
    result, records := Scan(f, d, header, payloads);
    TakenArrive(payloads, d.pieces[0].len, d.pieces[1].len);
  }
}
