/**
 The data records as bytes, and the bridge from the byte level to the store: what a read of the
 file returns at the offset of a record is that record.
 */
module RecordBytes {
  import opened Bytes
  import opened Records
  import Frames
  import DataFile

  const SIGNATURE := 0x5121_3298
  const HEADER_SIZE := 17
  const F_AUTO_COMMIT: byte := 1

  function TypeCode(k: Kind): (t: nat)
    ensures 1 <= t <= 5
  {
    match k
    case Commit => 1
    case Write => 2
    case RollbackBegin => 3
    case RollbackEnd => 4
    case Status => 5
  }

  function KindOf(t: int): Kind {
    if t == 1 then Commit else if t == 2 then Write else if t == 3 then RollbackBegin else if t == 4 then RollbackEnd else Status
  }

  function Ints(xs: seq<int>): (b: seq<byte>)
    requires forall i :: 0 <= i < |xs| ==> IsInt32(xs[i])
    ensures |b| == 4 * |xs|
  {
    if xs == [] then [] else IntBytes(xs[0]) + Ints(xs[1..])
  }

  /** The first n numbers. */
  function IntsIn(b: seq<byte>, n: nat): (xs: seq<int>)
    requires 4 * n <= |b|
    ensures |xs| == n
  {
    if n == 0 then [] else [LengthAt(b, 0)] + IntsIn(b[4..], n - 1)
  }

  /** The records that fit their int32 fields; only a ROLLBACK_BEGIN carries a list of serials. */
  ghost predicate Storable(r: Rec) {
    && IsInt32(r.serial) && IsInt32(r.sequence) && IsInt32(r.len) && FrameSize(r) < 0x8000_0000
    && (r.kind.RollbackBegin? <==> r.body.Serials?)
    && (r.body.Serials? ==> forall i :: 0 <= i < |r.body.serials| ==> IsInt32(r.body.serials[i]))
  }

  /** CSafeStorageDataReg, packed. */
  function Header(r: Rec): (b: seq<byte>)
    requires IsInt32(r.serial) && IsInt32(r.sequence) && IsInt32(r.len)
    ensures |b| == HEADER_SIZE
  {
    IntBytes(SIGNATURE + TypeCode(r.kind)) + IntBytes(r.serial) + IntBytes(r.sequence) + IntBytes(r.len)
    + [if r.autoCommit then F_AUTO_COMMIT else 0]
  }

  ghost function BodyBytes(r: Rec): (b: seq<byte>)
    requires Storable(r)
    ensures |b| == BodySize(r.body)
  {
    match r.body
    case Bytes(bytes) => bytes
    case Serials(serials) => IntBytes(|serials|) + Ints(serials)
  }

  ghost function Encode(r: Rec): (b: seq<byte>)
    requires Storable(r)
    ensures |b| + 8 == FrameSize(r)
  {
    Header(r) + BodyBytes(r)
  }

  function DecodeBody(kind: Kind, b: seq<byte>): Body {
    if kind.RollbackBegin? && |b| >= 4 && |b| == 4 * (LengthAt(b, 0) + 1) then Serials(IntsIn(b[4..], LengthAt(b, 0)))
    else Body.Bytes(b)
  }

  function Decode(b: seq<byte>): Rec
    requires |b| >= HEADER_SIZE
  {
    var kind := KindOf(LengthAt(b, 0) - SIGNATURE);
    Rec(kind, LengthAt(b, 4), LengthAt(b, 8), LengthAt(b, 12), b[16] == F_AUTO_COMMIT, DecodeBody(kind, b[HEADER_SIZE..]))
  }

  // ---------- decoding undoes encoding ----------

  lemma IntsParts(xs: seq<int>)
    requires xs != [] && forall j :: 0 <= j < |xs| ==> IsInt32(xs[j])
    ensures Ints(xs)[0..4] == IntBytes(xs[0]) && Ints(xs)[4..] == Ints(xs[1..])
  {
  }

  lemma {:induction false} IntsRoundTrip(xs: seq<int>)
    requires forall j :: 0 <= j < |xs| ==> IsInt32(xs[j])
    ensures IntsIn(Ints(xs), |xs|) == xs
  {
    if xs != [] {
      IntsParts(xs);
      IntRoundTrip(xs[0], Ints(xs), 0);
      IntsRoundTrip(xs[1..]);
    }
  }

  lemma ListRoundTrip(xs: seq<int>, b: seq<byte>)
    requires IsInt32(|xs|) && forall j :: 0 <= j < |xs| ==> IsInt32(xs[j])
    requires b == IntBytes(|xs|) + Ints(xs)
    ensures |b| == 4 + 4 * |xs| && LengthAt(b, 0) == |xs| && IntsIn(b[4..], |xs|) == xs
  {
    assert b[0..4] == IntBytes(|xs|) && b[4..] == Ints(xs);
    IntRoundTrip(|xs|, b, 0);
    IntsRoundTrip(xs);
  }

  lemma DecodesList(kind: Kind, b: seq<byte>, xs: seq<int>)
    requires kind.RollbackBegin? && |b| == 4 + 4 * |xs| && LengthAt(b, 0) == |xs| && IntsIn(b[4..], |xs|) == xs
    ensures DecodeBody(kind, b) == Serials(xs)
  {
  }

  lemma BodyRoundTrip(r: Rec)
    requires Storable(r)
    ensures DecodeBody(r.kind, BodyBytes(r)) == r.body
  {
    if r.body.Serials? {
      ListRoundTrip(r.body.serials, BodyBytes(r));
      DecodesList(r.kind, BodyBytes(r), r.body.serials);
    }
  }

  lemma HeaderParts(r: Rec, b: seq<byte>)
    requires Storable(r) && Header(r) <= b
    ensures b[0..4] == IntBytes(SIGNATURE + TypeCode(r.kind)) && b[4..8] == IntBytes(r.serial)
    ensures b[8..12] == IntBytes(r.sequence) && b[12..16] == IntBytes(r.len)
    ensures b[16] == if r.autoCommit then F_AUTO_COMMIT else 0
  {
    var h := Header(r);
    assert b[..17] == h;
    assert h[0..4] == IntBytes(SIGNATURE + TypeCode(r.kind)) && h[4..8] == IntBytes(r.serial);
    assert h[8..12] == IntBytes(r.sequence) && h[12..16] == IntBytes(r.len);
    assert b[0..4] == b[..17][0..4] && b[4..8] == b[..17][4..8] && b[8..12] == b[..17][8..12] && b[12..16] == b[..17][12..16];
    assert b[16] == b[..17][16];
  }

  lemma KindRoundTrip(k: Kind)
    ensures KindOf(TypeCode(k)) == k
  {
  }

  lemma HeaderRoundTrip(r: Rec, b: seq<byte>)
    requires Storable(r) && Header(r) <= b
    ensures LengthAt(b, 0) == SIGNATURE + TypeCode(r.kind) && LengthAt(b, 4) == r.serial
    ensures LengthAt(b, 8) == r.sequence && LengthAt(b, 12) == r.len && (b[16] == F_AUTO_COMMIT <==> r.autoCommit)
  {
    HeaderParts(r, b);
    IntRoundTrip(SIGNATURE + TypeCode(r.kind), b, 0);
    IntRoundTrip(r.serial, b, 4);
    IntRoundTrip(r.sequence, b, 8);
    IntRoundTrip(r.len, b, 12);
  }

  /** Every storable record is read back as it was stored. */
  lemma DecodeEncode(r: Rec)
    requires Storable(r)
    ensures Decode(Encode(r)) == r
  {
    var b := Encode(r);
    HeaderRoundTrip(r, b);
    KindRoundTrip(r.kind);
    assert b[HEADER_SIZE..] == BodyBytes(r);
    BodyRoundTrip(r);
  }

  lemma JoinHeader(r: Rec, b0: seq<byte>, b1: seq<byte>, b2: seq<byte>, b3: seq<byte>, b4: byte)
    requires IsInt32(r.serial) && IsInt32(r.sequence) && IsInt32(r.len)
    requires b0 == IntBytes(SIGNATURE + TypeCode(r.kind)) && b1 == IntBytes(r.serial) && b2 == IntBytes(r.sequence) && b3 == IntBytes(r.len)
    requires b4 == if r.autoCommit then F_AUTO_COMMIT else 0
    ensures Header(r) == b0 + b1 + b2 + b3 + [b4]
  {
  }

  // ---------- the data file of a store ----------

  ghost predicate AllStorable(log: Log) {
    forall i :: 0 <= i < |log| ==> Storable(log[i])
  }

  ghost function Payloads(log: Log): (p: seq<seq<byte>>)
    requires AllStorable(log)
    ensures |p| == |log| && DataFile.AllSmall(p)
    ensures forall i :: 0 <= i < |log| ==> p[i] == Encode(log[i])
  {
    seq(|log|, i requires 0 <= i < |log| => Encode(log[i]))
  }

  ghost function FileOfLog(ck: Frames.Checksum, header: seq<byte>, log: Log): seq<byte>
    requires AllStorable(log)
  {
    DataFile.FileOf(ck, header, Payloads(log))
  }

  lemma {:induction false} EndIsFileSize(ck: Frames.Checksum, header: seq<byte>, log: Log)
    requires AllStorable(log) && |header| == HEADER_SIZE
    ensures |FileOfLog(ck, header, log)| == End(log)
  {
    if log != [] {
      var n := |log| - 1;
      assert Payloads(log)[..n] == Payloads(log[..n]);
      EndIsFileSize(ck, header, log[..n]);
    }
  }

  /** The offset that the store computes for a record is where its frame starts. */
  lemma OffsetIsStart(ck: Frames.Checksum, header: seq<byte>, log: Log, i: nat)
    requires AllStorable(log) && |header| == HEADER_SIZE && i <= |log|
    ensures OffsetOf(log, i) == DataFile.Start(ck, header, Payloads(log), i)
  {
    EndIsFileSize(ck, header, log[..i]);
    assert Payloads(log)[..i] == Payloads(log[..i]);
  }

  /** fdata.read at the offset of a record returns that record. */
  lemma ReadsLocated(ck: Frames.Checksum, header: seq<byte>, log: Log, offset: nat, writeMode: bool, cached: bool)
    requires AllStorable(log) && |header| == HEADER_SIZE
    ensures var i, res := Locate(log, offset), Frames.ReadDynamic(ck, FileOfLog(ck, header, log), offset, writeMode, cached, false, false);
            i >= 0 ==> res.Ok? && |res.value| >= HEADER_SIZE && Decode(res.value) == log[i]
  {
    var i := Locate(log, offset);
    if i >= 0 {
      OffsetIsStart(ck, header, log, i);
      DataFile.ReadsRecord(ck, header, Payloads(log), i, writeMode, cached, false, false);
      DecodeEncode(log[i]);
    }
  }

  lemma PayloadsAppend(log: Log, r: Rec)
    requires AllStorable(log) && Storable(r)
    ensures AllStorable(log + [r]) && Payloads(log + [r]) == Payloads(log) + [Encode(r)]
  {
  }

  /** Appending the frame of a record to the file is appending the record to the log. */
  lemma AppendRefinesLog(ck: Frames.Checksum, header: seq<byte>, log: Log, r: Rec)
    requires AllStorable(log) && Storable(r) && |header| == HEADER_SIZE
    ensures AllStorable(log + [r])
    ensures FileOfLog(ck, header, log + [r]) ==
            Frames.WriteAt(FileOfLog(ck, header, log), End(log), Frames.DynamicFrame(ck, Encode(r)))
  {
    PayloadsAppend(log, r);
    DataFile.AppendIsRecord(ck, header, Payloads(log), Encode(r));
    EndIsFileSize(ck, header, log);
  }
}
