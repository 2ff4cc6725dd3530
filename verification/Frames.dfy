/**
 The bytes of a checked record file: POSIX reads and writes, static and dynamic frames, and
 what a read of a frame returns, with and without the read cache.  The checksum is a
 parameter ck here.
 */
module Frames {
  import opened Bytes
  import CrcTable

  type Checksum = seq<byte> -> bv32

  predicate CrcAt(ck: Checksum, data: seq<byte>) {
    ck(data) == CrcTable.Crc(data, 0)
  }

  /** ck is crc32() with its default initial value. */
  ghost predicate IsCrc(ck: Checksum) {
    forall data :: CrcAt(ck, data)
  }

  const E_EOF := -40
  const E_READ_SEEK := -52
  const E_WRITE_SEEK := -53
  const E_CRC := -54
  const E_READ := -55
  const E_WRITE := -56
  const E_EMPTY_DATA := -70

  datatype Result<T> = Ok(value: T) | Err(code: int)

  // ---------- the file as the operating system keeps it ----------

  function Zeroes(n: nat): (z: seq<byte>)
    ensures |z| == n && AllZero(z)
  {
    seq(n, _ => 0)
  }

  /** A write past the end fills the gap with zeros. */
  function Extended(file: seq<byte>, n: nat): (f: seq<byte>)
    ensures |f| >= n && |f| >= |file| && f[..|file|] == file
    ensures |f| == if |file| < n then n else |file|
  {
    if |file| < n then file + Zeroes(n - |file|) else file
  }

  function WriteAt(file: seq<byte>, offset: nat, bytes: seq<byte>): (f: seq<byte>)
    ensures |f| == if |file| < offset + |bytes| then offset + |bytes| else |file|
    ensures f[offset..offset + |bytes|] == bytes
  {
    var e := Extended(file, offset + |bytes|);
    var f := e[..offset] + bytes + e[offset + |bytes|..];
    assert f[offset..offset + |bytes|] == bytes;
    f
  }

  /** Bytes outside the written range keep their value; a gap reads as zeros. */
  lemma WriteElsewhere(file: seq<byte>, offset: nat, bytes: seq<byte>, i: nat)
    requires i < |WriteAt(file, offset, bytes)| && !(offset <= i < offset + |bytes|)
    ensures WriteAt(file, offset, bytes)[i] == if i < |file| then file[i] else 0
  {
    var e := Extended(file, offset + |bytes|);
    assert WriteAt(file, offset, bytes)[i] == e[i];
    assert i < |file| ==> e[..|file|][i] == file[i];
  }

  // ---------- raw reads ----------

  /**
   readWorkArea: n bytes at an offset.  Without the cache a single read() must deliver them
   all; with it, bytes are copied piece by piece until the file gives no more.
   */
  function RawRead(file: seq<byte>, offset: int, n: nat, writeMode: bool, cached: bool): (r: Result<seq<byte>>)
    ensures r.Ok? ==> |r.value| == n && offset >= 0
    ensures r.Ok? && n > 0 ==> offset + n <= |file| && r.value == file[offset..offset + n]
  {
    if offset + n > |file| && !writeMode then Err(E_EOF)
    else if offset < 0 then Err(E_READ_SEEK)
    else if n == 0 then if cached then Ok([]) else Err(E_EMPTY_DATA)
    else if offset + n <= |file| then Ok(file[offset..offset + n])
    else if cached || offset >= |file| then Err(E_EMPTY_DATA)
    else Err(E_READ)
  }

  /** Cached and plain reads differ exactly on empty reads and on reads that straddle the end of the file. */
  lemma RawReadsAgree(file: seq<byte>, offset: int, n: nat, writeMode: bool)
    ensures RawRead(file, offset, n, writeMode, true) == RawRead(file, offset, n, writeMode, false) <==>
      !(offset >= 0 && (writeMode || offset + n <= |file|) && (n == 0 || offset < |file| < offset + n))
  {
  }

  // ---------- frames ----------

  lemma ZeroesAreAllZero(data: seq<byte>)
    ensures AllZero(data) <==> data == Zeroes(|data|)
  {
  }

  function StaticFrame(ck: Checksum, data: seq<byte>): (f: seq<byte>)
    ensures |f| == |data| + 4
  {
    data + WordBytes(ck(data))
  }

  function DynamicFrame(ck: Checksum, data: seq<byte>): (f: seq<byte>)
    requires |data| + 8 < 0x8000_0000
    ensures |f| == |data| + 8
  {
    var body := LengthBytes(|data| + 8) + data;
    body + WordBytes(ck(body))
  }

  /** What the checksum of a frame covers. */
  function Body(dynamic: bool, data: seq<byte>): (b: seq<byte>)
    requires |data| + 8 < 0x8000_0000
    ensures |b| == |data| + if dynamic then 4 else 0
  {
    if dynamic then LengthBytes(|data| + 8) + data else data
  }

  function Frame(ck: Checksum, dynamic: bool, data: seq<byte>): (f: seq<byte>)
    requires |data| + 8 < 0x8000_0000
    ensures |f| == |data| + if dynamic then 8 else 4
  {
    Body(dynamic, data) + WordBytes(ck(Body(dynamic, data)))
  }

  /**
   memzero as read() calls it: for a dynamic frame (skip 4) the last four bytes of the payload
   are not looked at, so that only a frame without payload can pass.
   */
  predicate LooksEmpty(frame: seq<byte>, skip: nat)
    requires |frame| >= 4
  {
    var n := |frame| - 4 - skip;
    n >= 0 && frame[..n] == Zeroes(n)
  }

  /** The error that a stored checksum other than crc is, if any. */
  function Verdict(crc: bv32, frame: seq<byte>, skip: nat, emptyData: bool, ignoreCrc: bool): int
    requires |frame| >= 4
  {
    var stored := WordAt(frame, |frame| - 4);
    if stored == crc then 0
    else if emptyData && stored == 0 && LooksEmpty(frame, skip) then E_EMPTY_DATA
    else if !ignoreCrc then E_CRC
    else 0
  }

  /** The checksum test of read(): the frame without its first skip bytes and its checksum, or an error. */
  function Checked(ck: Checksum, frame: seq<byte>, skip: nat, emptyData: bool, ignoreCrc: bool): (r: Result<seq<byte>>)
    requires |frame| >= 4
  {
    var n := |frame| - 4;
    var code := Verdict(ck(frame[..n]), frame, skip, emptyData, ignoreCrc);
    if code != 0 then Err(code)
    else if n < skip then Err(n - skip)
    else Ok(frame[skip..n])
  }

  function ReadStatic(ck: Checksum, file: seq<byte>, offset: int, size: nat, writeMode: bool, cached: bool, emptyData: bool, ignoreCrc: bool): Result<seq<byte>> {
    match RawRead(file, offset, size + 4, writeMode, cached)
    case Err(code) => Err(code)
    case Ok(frame) => Checked(ck, frame, 0, emptyData, ignoreCrc)
  }

  function ReadDynamic(ck: Checksum, file: seq<byte>, offset: int, writeMode: bool, cached: bool, emptyData: bool, ignoreCrc: bool): Result<seq<byte>> {
    match RawRead(file, offset, 4, writeMode, cached)
    case Err(code) => Err(code)
    case Ok(prefix) =>
      var n := LengthAt(prefix, 0) - 4;
      if n < 0 then Err(E_READ)
      else ReadRest(ck, file, offset + 4, prefix, n, writeMode, cached, emptyData, ignoreCrc)
  }

  /** The part of a frame behind a prefix that was read before. */
  function ReadRest(ck: Checksum, file: seq<byte>, offset: int, prefix: seq<byte>, n: nat, writeMode: bool, cached: bool, emptyData: bool, ignoreCrc: bool): Result<seq<byte>>
    requires |prefix| + n >= 4
  {
    match RawRead(file, offset, n, writeMode, cached)
    case Err(code) => Err(code)
    case Ok(rest) => Checked(ck, prefix + rest, |prefix|, emptyData, ignoreCrc)
  }

  lemma StaticIsRest(ck: Checksum, file: seq<byte>, offset: int, size: nat, writeMode: bool, cached: bool, emptyData: bool, ignoreCrc: bool)
    ensures ReadStatic(ck, file, offset, size, writeMode, cached, emptyData, ignoreCrc) ==
            ReadRest(ck, file, offset, [], size + 4, writeMode, cached, emptyData, ignoreCrc)
  {
    var raw := RawRead(file, offset, size + 4, writeMode, cached);
    if raw.Ok? { assert [] + raw.value == raw.value; }
  }

  function ReadFrame(ck: Checksum, file: seq<byte>, offset: int, dynamic: bool, size: nat, writeMode: bool, cached: bool, emptyData: bool, ignoreCrc: bool): Result<seq<byte>> {
    if dynamic then ReadDynamic(ck, file, offset, writeMode, cached, emptyData, ignoreCrc)
    else ReadStatic(ck, file, offset, size, writeMode, cached, emptyData, ignoreCrc)
  }

  /** Where the bytes that a read takes from the file end, if it gets them, whatever they are. */
  function ReadEnd(file: seq<byte>, offset: int, dynamic: bool, size: nat, writeMode: bool, cached: bool): Result<nat> {
    if dynamic then
      match RawRead(file, offset, 4, writeMode, cached)
      case Err(code) => Err(code)
      case Ok(prefix) => RestEnd(file, offset + 4, LengthAt(prefix, 0) - 4, writeMode, cached)
    else RestEnd(file, offset, size + 4, writeMode, cached)
  }

  function RestEnd(file: seq<byte>, offset: int, n: int, writeMode: bool, cached: bool): Result<nat> {
    if n < 0 then Err(E_READ)
    else if RawRead(file, offset, n, writeMode, cached).Ok? then Ok(offset + n)
    else Err(RawRead(file, offset, n, writeMode, cached).code)
  }

  lemma RestEndIs(file: seq<byte>, offset: int, n: int, writeMode: bool, cached: bool)
    requires n == 0 ==> 0 <= offset <= |file|
    ensures var end := RestEnd(file, offset, n, writeMode, cached);
      if 0 <= offset && (n > 0 || (n == 0 && cached)) && offset + n <= |file| then end == Ok((offset + n) as nat) else end.Err?
  {
  }

  /** A static read moves behind its frame exactly if the file has the whole frame, good or damaged. */
  lemma StaticEndIs(file: seq<byte>, offset: int, size: nat, writeMode: bool, cached: bool)
    ensures var end := ReadEnd(file, offset, false, size, writeMode, cached);
      if 0 <= offset && offset + size + 4 <= |file| then end == Ok((offset + size + 4) as nat) else end.Err?
  {
    RestEndIs(file, offset, size + 4, writeMode, cached);
  }

  lemma PrefixEnd(file: seq<byte>, offset: int, size: nat, writeMode: bool, cached: bool)
    ensures var end := ReadEnd(file, offset, true, size, writeMode, cached);
      if 0 <= offset && offset + 4 <= |file|
      then end == RestEnd(file, offset + 4, LengthAt(file[offset..offset + 4], 0) - 4, writeMode, cached)
      else end.Err?
  {
  }

  /** So does a dynamic one; only with a cache is a frame passed that is no longer than its prefix. */
  lemma DynamicEndIs(file: seq<byte>, offset: int, size: nat, writeMode: bool, cached: bool)
    ensures var end := ReadEnd(file, offset, true, size, writeMode, cached);
      if 0 <= offset && offset + 4 <= |file| then
        var n := LengthAt(file[offset..offset + 4], 0);
        if (n > 4 || (n == 4 && cached)) && offset + n <= |file| then end == Ok((offset + n) as nat) else end.Err?
      else end.Err?
  {
    PrefixEnd(file, offset, size, writeMode, cached);
    if 0 <= offset && offset + 4 <= |file| {
      RestEndIs(file, offset + 4, LengthAt(file[offset..offset + 4], 0) - 4, writeMode, cached);
    }
  }

  lemma CheckedSize(ck: Checksum, frame: seq<byte>, skip: nat, emptyData: bool, ignoreCrc: bool)
    requires |frame| >= 4
    ensures match Checked(ck, frame, skip, emptyData, ignoreCrc)
      case Err(code) => code < 0
      case Ok(data) => |data| == |frame| - 4 - skip
  {
  }

  /** Where the rest of a frame was delivered, the position moves behind it. */
  lemma RestMoves(ck: Checksum, file: seq<byte>, offset: int, prefix: seq<byte>, n: nat, writeMode: bool, cached: bool, emptyData: bool, ignoreCrc: bool)
    requires |prefix| + n >= 4 && |prefix| <= 4
    ensures match ReadRest(ck, file, offset, prefix, n, writeMode, cached, emptyData, ignoreCrc)
      case Err(code) => code < 0
      case Ok(data) => offset >= 0 && |data| == n - 4 && RestEnd(file, offset, n, writeMode, cached) == Ok(offset + n)
  {
    var raw := RawRead(file, offset, n, writeMode, cached);
    if raw.Ok? { CheckedSize(ck, prefix + raw.value, |prefix|, emptyData, ignoreCrc); }
  }

  lemma StaticMoves(ck: Checksum, file: seq<byte>, offset: int, size: nat, writeMode: bool, cached: bool, emptyData: bool, ignoreCrc: bool)
    ensures match ReadStatic(ck, file, offset, size, writeMode, cached, emptyData, ignoreCrc)
      case Err(code) => code < 0
      case Ok(data) => offset >= 0 && |data| == size && ReadEnd(file, offset, false, size, writeMode, cached) == Ok(offset + |data| + 4)
  {
    StaticIsRest(ck, file, offset, size, writeMode, cached, emptyData, ignoreCrc);
    RestMoves(ck, file, offset, [], size + 4, writeMode, cached, emptyData, ignoreCrc);
  }

  lemma DynamicMoves(ck: Checksum, file: seq<byte>, offset: int, size: nat, writeMode: bool, cached: bool, emptyData: bool, ignoreCrc: bool)
    ensures match ReadDynamic(ck, file, offset, writeMode, cached, emptyData, ignoreCrc)
      case Err(code) => code < 0
      case Ok(data) => offset >= 0 && ReadEnd(file, offset, true, size, writeMode, cached) == Ok(offset + |data| + 8)
  {
    match RawRead(file, offset, 4, writeMode, cached) {
      case Err(_) => DynamicFails(ck, file, offset, size, writeMode, cached, emptyData, ignoreCrc);
      case Ok(prefix) =>
        var n := LengthAt(prefix, 0) - 4;
        DynamicGoesOn(ck, file, offset, size, writeMode, cached, emptyData, ignoreCrc, prefix, n,
                      ReadDynamic(ck, file, offset, writeMode, cached, emptyData, ignoreCrc), ReadEnd(file, offset, true, size, writeMode, cached));
        if n >= 0 { RestMoves(ck, file, offset + 4, prefix, n, writeMode, cached, emptyData, ignoreCrc); }
    }
  }

  /** A read that succeeds moves behind the frame it returned. */
  lemma MovesBehind(ck: Checksum, file: seq<byte>, offset: int, dynamic: bool, size: nat, writeMode: bool, cached: bool, emptyData: bool, ignoreCrc: bool)
    ensures match ReadFrame(ck, file, offset, dynamic, size, writeMode, cached, emptyData, ignoreCrc)
      case Err(code) => code < 0
      case Ok(data) =>
        && 0 <= offset && (!dynamic ==> |data| == size)
        && ReadEnd(file, offset, dynamic, size, writeMode, cached) == Ok(offset + |data| + if dynamic then 8 else 4)
  {
    if dynamic {
      DynamicMoves(ck, file, offset, size, writeMode, cached, emptyData, ignoreCrc);
    } else {
      StaticMoves(ck, file, offset, size, writeMode, cached, emptyData, ignoreCrc);
    }
  }

  /** A dynamic read fails with its prefix, or goes on behind it. */
  lemma DynamicFails(ck: Checksum, file: seq<byte>, offset: int, size: nat, writeMode: bool, cached: bool, emptyData: bool, ignoreCrc: bool)
    requires RawRead(file, offset, 4, writeMode, cached).Err?
    ensures var code := RawRead(file, offset, 4, writeMode, cached).code;
      && ReadDynamic(ck, file, offset, writeMode, cached, emptyData, ignoreCrc) == Err(code)
      && ReadEnd(file, offset, true, size, writeMode, cached) == Err(code)
  {
  }

  lemma DynamicGoesOn(ck: Checksum, file: seq<byte>, offset: int, size: nat, writeMode: bool, cached: bool, emptyData: bool, ignoreCrc: bool,
                      prefix: seq<byte>, n: int, res: Result<seq<byte>>, end: Result<nat>)
    requires RawRead(file, offset, 4, writeMode, cached) == Ok(prefix) && n == LengthAt(prefix, 0) - 4
    requires res == ReadDynamic(ck, file, offset, writeMode, cached, emptyData, ignoreCrc)
    requires end == ReadEnd(file, offset, true, size, writeMode, cached)
    ensures res == if n < 0 then Err(E_READ) else ReadRest(ck, file, offset + 4, prefix, n, writeMode, cached, emptyData, ignoreCrc)
    ensures end == if n < 0 then Err(E_READ) else RestEnd(file, offset + 4, n, writeMode, cached)
  {
  }

  /** How far a successful dynamic read moves the current position. */
  function DynamicEnd(file: seq<byte>, offset: nat): int
    requires offset + 4 <= |file|
  {
    offset + LengthAt(file[offset..offset + 4], 0)
  }

  // ---------- a frame that was written is read back ----------

  lemma StaticChecked(ck: Checksum, data: seq<byte>, emptyData: bool, ignoreCrc: bool)
    ensures Checked(ck, StaticFrame(ck, data), 0, emptyData, ignoreCrc) == Ok(data)
  {
    var f := StaticFrame(ck, data);
    assert f[..|data|] == data;
    StoredWord(data, ck(data));
  }

  lemma StoredWord(body: seq<byte>, w: bv32)
    ensures WordAt(body + WordBytes(w), |body|) == w
  {
    WordRoundTrip(w);
    var f := body + WordBytes(w);
    assert f[|body|] == WordBytes(w)[0] && f[|body| + 1] == WordBytes(w)[1];
    assert f[|body| + 2] == WordBytes(w)[2] && f[|body| + 3] == WordBytes(w)[3];
  }

  lemma DynamicChecked(ck: Checksum, data: seq<byte>, emptyData: bool, ignoreCrc: bool)
    requires |data| + 8 < 0x8000_0000
    ensures Checked(ck, DynamicFrame(ck, data), 4, emptyData, ignoreCrc) == Ok(data)
  {
    var body := LengthBytes(|data| + 8) + data;
    var f := DynamicFrame(ck, data);
    assert f[..|body|] == body && f[4..|body|] == data;
    StoredWord(body, ck(body));
  }

  /** A static frame in place is read back. */
  lemma StaticRead(ck: Checksum, file: seq<byte>, offset: nat, data: seq<byte>, writeMode: bool, cached: bool, emptyData: bool, ignoreCrc: bool)
    requires offset + |data| + 4 <= |file| && file[offset..offset + |data| + 4] == StaticFrame(ck, data)
    ensures ReadStatic(ck, file, offset, |data|, writeMode, cached, emptyData, ignoreCrc) == Ok(data)
  {
    StaticChecked(ck, data, emptyData, ignoreCrc);
  }

  lemma PrefixInPlace(ck: Checksum, file: seq<byte>, offset: nat, data: seq<byte>)
    requires |data| + 8 < 0x8000_0000
    requires offset + |data| + 8 <= |file| && file[offset..offset + |data| + 8] == DynamicFrame(ck, data)
    ensures LengthAt(file[offset..offset + 4], 0) == |data| + 8
    ensures file[offset..offset + 4] + file[offset + 4..offset + |data| + 8] == DynamicFrame(ck, data)
  {
    var f := DynamicFrame(ck, data);
    assert file[offset..offset + 4] == f[..4] == LengthBytes(|data| + 8);
    LengthRoundTrip(|data| + 8, file[offset..offset + 4], 0);
  }

  lemma RestRead(ck: Checksum, file: seq<byte>, offset: nat, prefix: seq<byte>, data: seq<byte>, writeMode: bool, cached: bool, emptyData: bool, ignoreCrc: bool)
    requires |data| + 8 < 0x8000_0000 && |prefix| == 4
    requires offset + |data| + 4 <= |file| && prefix + file[offset..offset + |data| + 4] == DynamicFrame(ck, data)
    ensures ReadRest(ck, file, offset, prefix, |data| + 4, writeMode, cached, emptyData, ignoreCrc) == Ok(data)
  {
    DynamicChecked(ck, data, emptyData, ignoreCrc);
  }

  /** A dynamic frame in place is read back, and the position moves to its end. */
  lemma DynamicRead(ck: Checksum, file: seq<byte>, offset: nat, data: seq<byte>, writeMode: bool, cached: bool, emptyData: bool, ignoreCrc: bool)
    requires |data| + 8 < 0x8000_0000
    requires offset + |data| + 8 <= |file| && file[offset..offset + |data| + 8] == DynamicFrame(ck, data)
    ensures ReadDynamic(ck, file, offset, writeMode, cached, emptyData, ignoreCrc) == Ok(data)
    ensures DynamicEnd(file, offset) == offset + |data| + 8
  {
    PrefixInPlace(ck, file, offset, data);
    RestRead(ck, file, offset + 4, file[offset..offset + 4], data, writeMode, cached, emptyData, ignoreCrc);
  }

  /** The cache never changes what a read delivers, nor whether it succeeds. */
  lemma CacheTransparentStatic(ck: Checksum, file: seq<byte>, offset: int, size: nat, writeMode: bool, emptyData: bool, ignoreCrc: bool)
    ensures var plain := ReadStatic(ck, file, offset, size, writeMode, false, emptyData, ignoreCrc);
            var cached := ReadStatic(ck, file, offset, size, writeMode, true, emptyData, ignoreCrc);
            (plain.Ok? <==> cached.Ok?) && (cached.Ok? ==> cached == plain)
  {
    RawReadsAgree(file, offset, size + 4, writeMode);
  }

  /** A frame whose length is 4 has no room for its own prefix and checksum. */
  lemma TooShort(ck: Checksum, prefix: seq<byte>, emptyData: bool, ignoreCrc: bool)
    requires |prefix| == 4
    ensures Checked(ck, prefix + [], 4, emptyData, ignoreCrc).Err?
  {
  }

  lemma CacheTransparentRest(ck: Checksum, file: seq<byte>, offset: int, prefix: seq<byte>, n: nat, writeMode: bool, emptyData: bool, ignoreCrc: bool)
    requires |prefix| == 4
    ensures var plain := ReadRest(ck, file, offset, prefix, n, writeMode, false, emptyData, ignoreCrc);
            var cached := ReadRest(ck, file, offset, prefix, n, writeMode, true, emptyData, ignoreCrc);
            (plain.Ok? <==> cached.Ok?) && (cached.Ok? ==> cached == plain)
  {
    RawReadsAgree(file, offset, n, writeMode);
    TooShort(ck, prefix, emptyData, ignoreCrc);
  }

  lemma CacheTransparentDynamic(ck: Checksum, file: seq<byte>, offset: int, writeMode: bool, emptyData: bool, ignoreCrc: bool)
    ensures var plain := ReadDynamic(ck, file, offset, writeMode, false, emptyData, ignoreCrc);
            var cached := ReadDynamic(ck, file, offset, writeMode, true, emptyData, ignoreCrc);
            (plain.Ok? <==> cached.Ok?) && (cached.Ok? ==> cached == plain)
  {
    RawReadsAgree(file, offset, 4, writeMode);
    if RawRead(file, offset, 4, writeMode, true).Ok? {
      var prefix := file[offset..offset + 4];
      var n := LengthAt(prefix, 0) - 4;
      if n >= 0 {
        CacheTransparentRest(ck, file, offset + 4, prefix, n, writeMode, emptyData, ignoreCrc);
      }
    }
  }

  // ---------- what every read returns ----------

  /** The error of bytes that the file does not have, by handle, place and cache. */
  lemma RawCodes(file: seq<byte>, offset: int, n: nat, writeMode: bool, cached: bool)
    requires n > 0
    ensures var inside, behind := 0 <= offset && offset + n <= |file|, offset >= |file|;
      RawRead(file, offset, n, writeMode, cached) ==
      if inside then Ok(file[offset..offset + n])
      else if offset + n > |file| && !writeMode then Err(-40)
      else if offset < 0 then Err(-52)
      else if behind || cached then Err(-70) else Err(-55)
  {
  }

  lemma WordAllZero(b: seq<byte>)
    requires |b| == 4
    ensures WordAt(b, 0) == 0 <==> AllZero(b)
  {
    WordZero(b[0], b[1], b[2], b[3]);
  }

  /** A frame of zeros is one whose contents look empty and whose stored checksum is zero. */
  lemma ZeroFrame(f: seq<byte>)
    requires |f| >= 4
    ensures AllZero(f) <==> WordAt(f, |f| - 4) == 0 && LooksEmpty(f, 0)
  {
    var n := |f| - 4;
    var head, tail := f[..n], f[n..];
    assert f == head + tail && WordAt(f, n) == WordAt(tail, 0);
    WordAllZero(tail);
    ZeroesAreAllZero(head);
    if AllZero(head) && AllZero(tail) {
      forall i | 0 <= i < |f| ensures f[i] == 0 { if i < n { assert head[i] == 0; } else { assert tail[i - n] == 0; } }
    }
  }

  lemma ValidIs(ck: Checksum, f: seq<byte>)
    requires IsCrc(ck) && |f| >= 4
    ensures CrcTable.Valid(f) <==> WordAt(f, |f| - 4) == ck(f[..|f| - 4])
  {
    assert CrcAt(ck, f[..|f| - 4]);
  }

  /** A static frame in the file is delivered if it is valid, reported empty if it is all zeros and that was asked for, and damaged otherwise. */
  lemma StaticOutcome(ck: Checksum, file: seq<byte>, offset: nat, size: nat, writeMode: bool, cached: bool, emptyData: bool, ignoreCrc: bool)
    requires IsCrc(ck) && offset + size + 4 <= |file|
    ensures var f := file[offset..offset + size + 4];
      ReadStatic(ck, file, offset, size, writeMode, cached, emptyData, ignoreCrc) ==
      if CrcTable.Valid(f) then Ok(f[..size])
      else if emptyData && AllZero(f) then Err(-70)
      else if ignoreCrc then Ok(f[..size]) else Err(-54)
  {
    var f := file[offset..offset + size + 4];
    ValidIs(ck, f);
    ZeroFrame(f);
  }

  /** A length above eight has a byte that is not zero among the first that many less eight. */
  lemma LengthNotZero(f: seq<byte>, n: int)
    requires |f| >= 4 && LengthAt(f, 0) == n
    ensures f[0] == 0 ==> n % 256 == 0
    ensures f[0] == f[1] == f[2] == f[3] == 0 ==> n == 0
  {
    ByteRange(f[0]);
    var rest := f[1] as int + 256 * f[2] as int + 65536 * f[3] as int;
    assert n == Wrap(f[0] as int + 256 * rest);
  }

  lemma ZerosBefore(f: seq<byte>, n: nat)
    requires n <= |f| && f[..n] == Zeroes(n)
    ensures forall i :: 0 <= i < n ==> f[i] == 0
  {
    assert forall i :: 0 <= i < n ==> f[i] == f[..n][i];
  }

  lemma EmptyOnlyAtEight(f: seq<byte>, size: int)
    requires |f| == size >= 8
    requires (f[0] == 0 ==> size % 256 == 0) && (f[0] == f[1] == f[2] == f[3] == 0 ==> size == 0)
    ensures LooksEmpty(f, 4) <==> size == 8
  {
    if size > 8 && LooksEmpty(f, 4) { ZerosBefore(f, size - 8); }
  }

  /** Behind a length prefix only a frame without payload looks empty. */
  lemma PrefixNotEmpty(f: seq<byte>, size: int)
    requires |f| == size >= 8 && LengthAt(f, 0) == size
    ensures LooksEmpty(f, 4) <==> size == 8
  {
    LengthNotZero(f, size);
    EmptyOnlyAtEight(f, size);
  }

  lemma DynamicChecks(ck: Checksum, f: seq<byte>, emptyData: bool, ignoreCrc: bool)
    requires IsCrc(ck) && |f| >= 8 && LengthAt(f, 0) == |f|
    ensures Checked(ck, f, 4, emptyData, ignoreCrc) ==
      if CrcTable.Valid(f) then Ok(f[4..|f| - 4])
      else if emptyData && |f| == 8 && WordAt(f, 4) == 0 then Err(-70)
      else if ignoreCrc then Ok(f[4..|f| - 4]) else Err(-54)
  {
    ValidIs(ck, f);
    PrefixNotEmpty(f, |f|);
  }

  /** So for a dynamic frame, but that it is reported empty only if it has no payload. */
  lemma DynamicOutcome(ck: Checksum, file: seq<byte>, offset: nat, n: nat, writeMode: bool, cached: bool, emptyData: bool, ignoreCrc: bool)
    requires IsCrc(ck) && n >= 8 && offset + n <= |file| && LengthAt(file[offset..offset + n], 0) == n
    ensures var f := file[offset..offset + n];
      ReadDynamic(ck, file, offset, writeMode, cached, emptyData, ignoreCrc) ==
      if CrcTable.Valid(f) then Ok(f[4..n - 4])
      else if emptyData && n == 8 && WordAt(f, 4) == 0 then Err(-70)
      else if ignoreCrc then Ok(f[4..n - 4]) else Err(-54)
  {
    var f := file[offset..offset + n];
    DynamicChecks(ck, f, emptyData, ignoreCrc);
    WholeFrame(ck, file, offset, n, f, writeMode, cached, emptyData, ignoreCrc);
  }

  lemma WholeFrame(ck: Checksum, file: seq<byte>, offset: nat, n: nat, f: seq<byte>, writeMode: bool, cached: bool, emptyData: bool, ignoreCrc: bool)
    requires n >= 8 && offset + n <= |file| && f == file[offset..offset + n] && LengthAt(f, 0) == n
    ensures ReadDynamic(ck, file, offset, writeMode, cached, emptyData, ignoreCrc) == Checked(ck, f, 4, emptyData, ignoreCrc)
  {
    var prefix := file[offset..offset + 4];
    assert f[..4] == prefix && prefix + file[offset + 4..offset + n] == f;
    assert LengthAt(prefix, 0) == LengthAt(f, 0);
  }

  // ---------- damage ----------

  lemma StoredIsValid(ck: Checksum, data: seq<byte>)
    requires IsCrc(ck)
    ensures CrcTable.Valid(StaticFrame(ck, data))
  {
    var f := StaticFrame(ck, data);
    assert f[..|data|] == data;
    StoredWord(data, ck(data));
    assert CrcAt(ck, data);
  }

  lemma StoredBodyIsValid(ck: Checksum, data: seq<byte>)
    requires IsCrc(ck) && |data| + 8 < 0x8000_0000
    ensures CrcTable.Valid(DynamicFrame(ck, data))
  {
    StoredIsValid(ck, LengthBytes(|data| + 8) + data);
  }

  lemma CheckedIsValid(ck: Checksum, frame: seq<byte>, skip: nat, emptyData: bool)
    requires IsCrc(ck) && |frame| >= 4 && !CrcTable.Valid(frame)
    ensures Checked(ck, frame, skip, emptyData, false).Err?
  {
    assert CrcAt(ck, frame[..|frame| - 4]);
  }

  lemma SubSlice(s: seq<byte>, a: nat, b: nat, c: nat, d: nat)
    requires a + c <= a + d <= b <= |s|
    ensures s[a..b][c..d] == s[a + c..a + d]
  {
    var u := s[a..b];
    forall i | 0 <= i < d - c ensures u[c..d][i] == s[a + c..a + d][i] {
      assert u[c + i] == s[a + c + i];
    }
  }

  lemma FrameParts(file: seq<byte>, offset: nat, n: nat, at: nat)
    requires offset + n <= |file| && at + 4 <= n
    ensures var f := file[offset..offset + n];
            && f[0..at] == file[0..offset + at][offset..offset + at]
            && f[at + 4..n] == file[offset + at + 4..|file|][0..n - at - 4]
            && f[at..at + 4] == file[offset + at..offset + at + 4]
  {
    SubSlice(file, offset, offset + n, 0, at);
    SubSlice(file, 0, offset + at, offset, offset + at);
    SubSlice(file, offset, offset + n, at + 4, n);
    SubSlice(file, offset + at + 4, |file|, 0, n - at - 4);
    SubSlice(file, offset, offset + n, at, at + 4);
  }

  lemma ThreeParts(s: seq<byte>, a: nat, b: nat)
    requires a <= b <= |s|
    ensures s == s[..a] + s[a..b] + s[b..]
  {
  }

  /** Two files that differ only in a window inside a frame: so do the frames. */
  lemma WindowInFrame(file: seq<byte>, file': seq<byte>, offset: nat, n: nat, at: nat)
    requires offset + n <= |file| == |file'| && at + 4 <= n
    requires file'[..offset + at] == file[..offset + at] && file'[offset + at + 4..] == file[offset + at + 4..]
    ensures var f, f' := file[offset..offset + n], file'[offset..offset + n];
            f'[..at] == f[..at] && f'[at + 4..] == f[at + 4..] && (f' == f ==> file' == file)
  {
    var f, f' := file[offset..offset + n], file'[offset..offset + n];
    FrameParts(file, offset, n, at);
    FrameParts(file', offset, n, at);
    ThreeParts(file, offset + at, offset + at + 4);
    ThreeParts(file', offset + at, offset + at + 4);
  }

  lemma DamagedFrame(ck: Checksum, data: seq<byte>, f': seq<byte>, at: nat, emptyData: bool)
    requires IsCrc(ck) && |f'| == |data| + 4 && at <= |data| && f' != StaticFrame(ck, data)
    requires f'[..at] == StaticFrame(ck, data)[..at] && f'[at + 4..] == StaticFrame(ck, data)[at + 4..]
    ensures Checked(ck, f', 0, emptyData, false).Err?
  {
    StoredIsValid(ck, data);
    CrcTable.BurstDetected(StaticFrame(ck, data), f', at);
    CheckedIsValid(ck, f', 0, emptyData);
  }

  lemma FrameRead(ck: Checksum, file: seq<byte>, offset: nat, size: nat, writeMode: bool, cached: bool, emptyData: bool)
    requires offset + size + 4 <= |file|
    ensures ReadStatic(ck, file, offset, size, writeMode, cached, emptyData, false) ==
            Checked(ck, file[offset..offset + size + 4], 0, emptyData, false)
  {
  }

  /**
   A change confined to four consecutive bytes of a stored static frame - payload, checksum or
   both - is never returned by a read that checks.
   */
  lemma DamageDetected(ck: Checksum, file: seq<byte>, file': seq<byte>, offset: nat, data: seq<byte>, at: nat, writeMode: bool, cached: bool, emptyData: bool)
    requires IsCrc(ck) && offset + |data| + 4 <= |file| == |file'|
    requires file[offset..offset + |data| + 4] == StaticFrame(ck, data)
    requires at <= |data|
    requires file'[..offset + at] == file[..offset + at] && file'[offset + at + 4..] == file[offset + at + 4..]
    requires file' != file
    ensures ReadStatic(ck, file', offset, |data|, writeMode, cached, emptyData, false).Err?
  {
    var n := |data| + 4;
    WindowInFrame(file, file', offset, n, at);
    DamagedFrame(ck, data, file'[offset..offset + n], at, emptyData);
    FrameRead(ck, file', offset, |data|, writeMode, cached, emptyData);
  }

  lemma SamePrefix(file: seq<byte>, file': seq<byte>, offset: nat, n: nat, at: nat)
    requires offset + n <= |file| == |file'| && 4 <= at <= n
    requires file'[..offset + at] == file[..offset + at]
    ensures file'[offset..offset + 4] == file[offset..offset + 4]
  {
    SubSlice(file, 0, offset + at, offset, offset + 4);
    SubSlice(file', 0, offset + at, offset, offset + 4);
  }

  lemma BrokenDynamicFrame(ck: Checksum, data: seq<byte>, f': seq<byte>, at: nat)
    requires IsCrc(ck) && |data| + 8 < 0x8000_0000 && |f'| == |data| + 8 && at <= |data| + 4 && f' != DynamicFrame(ck, data)
    requires f'[..at] == DynamicFrame(ck, data)[..at] && f'[at + 4..] == DynamicFrame(ck, data)[at + 4..]
    ensures !CrcTable.Valid(f')
  {
    StoredBodyIsValid(ck, data);
    CrcTable.BurstDetected(DynamicFrame(ck, data), f', at);
  }

  /** The same for a dynamic frame, behind its length prefix. */
  lemma DynamicDamageDetected(ck: Checksum, file: seq<byte>, file': seq<byte>, offset: nat, data: seq<byte>, at: nat, writeMode: bool, cached: bool, emptyData: bool)
    requires IsCrc(ck) && |data| + 8 < 0x8000_0000 && offset + |data| + 8 <= |file| == |file'|
    requires file[offset..offset + |data| + 8] == DynamicFrame(ck, data)
    requires 4 <= at <= |data| + 4
    requires file'[..offset + at] == file[..offset + at] && file'[offset + at + 4..] == file[offset + at + 4..]
    requires file' != file
    ensures ReadDynamic(ck, file', offset, writeMode, cached, emptyData, false).Err?
  {
    var n := |data| + 8;
    WindowInFrame(file, file', offset, n, at);
    BrokenDynamicFrame(ck, data, file'[offset..offset + n], at);
    SamePrefix(file, file', offset, n, at);
    PrefixInPlace(ck, file, offset, data);
    LengthInFrame(file', offset, n);
    DynamicOutcome(ck, file', offset, n, writeMode, cached, emptyData, false);
  }

  lemma LengthInFrame(file: seq<byte>, offset: nat, n: nat)
    requires n >= 4 && offset + n <= |file|
    ensures LengthAt(file[offset..offset + n], 0) == LengthAt(file[offset..offset + 4], 0)
  {
    assert file[offset..offset + n][..4] == file[offset..offset + 4];
  }
}
