/**
 A handle on a checked record file: the work area that grows, the read cache, and reads and
 writes proved against the byte-level functions of Frames.
 */
module BaseSafeFile {
  import opened Bytes
  import opened Frames
  import opened DataArrays
  import CrcTable

  const WORK_AREA_RESERV_SIZE := 128
  const CRC_SIZE := 4
  const LENGTH_SIZE := 4

  /** An offset, or one of the two marks beyond any file size: its end, and where the last operation stopped. */
  datatype Where = At(offset: int) | EndOfFile | CurrentPosition

  function ReadPosition(loff: Where, current: nat, size: nat): int {
    match loff
    case At(offset) => offset
    case EndOfFile => size
    case CurrentPosition => current
  }

  /** A write knows only one of the marks; the other one is not an offset that can be reached. */
  function WritePosition(loff: Where, size: nat): int {
    match loff
    case At(offset) => offset
    case EndOfFile => size
    case CurrentPosition => -1
  }

  /** How many of n bytes read() finds at this position. */
  function Available(size: nat, pos: nat, n: nat): nat {
    if pos >= size then 0 else if pos + n <= size then n else size - pos
  }

  class SafeFile {
    /** The contents of the file, kept by the operating system. */
    var file: seq<byte>
    const writeMode: bool
    const deltaPage: nat

    /** The checksum of this file's frames. */
    ghost const ck: Checksum

    /** The read cache; no bytes when it is switched off. */
    const cache: array<byte>
    var cacheOffset: int
    var cacheLen: nat

    var workArea: array<byte>
    var currentOffset: nat
    var lastOffset: int

    /** The cached bytes are the bytes of the file. */
    ghost predicate CacheOk()
      reads this, cache
    {
      && cacheLen <= cache.Length
      && (cacheLen > 0 ==> 0 <= cacheOffset && cacheOffset + cacheLen <= |file|)
      && (cacheLen > 0 ==> cache[..cacheLen] == file[cacheOffset..cacheOffset + cacheLen])
    }

    ghost predicate Valid()
      reads this, cache
    {
      IsCrc(ck) && deltaPage > 0 && workArea != cache && CacheOk()
    }

    ghost predicate Cached() {
      cache.Length > 0
    }

    constructor (file: seq<byte>, writeMode: bool, cacheSize: nat, maxDataSize: nat, deltaPage: nat)
      requires maxDataSize > 0 && deltaPage > 0
      ensures Valid() && this.file == file && this.writeMode == writeMode && cache.Length == cacheSize
      ensures currentOffset == 0 && fresh(workArea) && fresh(cache)
    {
      this.file, this.writeMode, this.deltaPage := file, writeMode, deltaPage;
      cache, cacheOffset, cacheLen := new byte[cacheSize], -1, 0;
      workArea := new byte[WORK_AREA_RESERV_SIZE + maxDataSize](_ => 0);
      currentOffset, lastOffset := 0, 0;
      ck := data => CrcTable.Crc(data, 0);
    }

    method CrcOf(data: seq<byte>) returns (crc: bv32)
      requires IsCrc(ck)
      ensures crc == ck(data)
    {
      crc := CrcTable.Compute(data, 0);
      assert CrcAt(ck, data);
    }

    // ---------- the work area ----------

    /** Grows the work area to whole pages; its old bytes stay. */
    method CheckWorkAreaSize(len: int)
      requires Valid()
      modifies this`workArea
      ensures Valid() && (workArea == old(workArea) || fresh(workArea))
      ensures len + WORK_AREA_RESERV_SIZE <= workArea.Length
      ensures workArea != old(workArea) ==> workArea.Length < len + WORK_AREA_RESERV_SIZE + deltaPage
      ensures workArea.Length >= old(workArea.Length) && workArea[..old(workArea.Length)] == old(workArea[..])
    {
      var need := len + WORK_AREA_RESERV_SIZE;
      if workArea.Length >= need { return; }
      PageRounding(need, deltaPage);
      var area := new byte[Pages(need, deltaPage) * deltaPage];
      Copy(area, 0, workArea, 0, workArea.Length);
      assert area[0..workArea.Length] == workArea[..];
      workArea := area;
    }

    // ---------- reading ----------

    /** read(): bytes of the file from this position on, as far as there are any. */
    method ReadFile(to: array<byte>, at: nat, pos: nat, n: nat) returns (bytes: nat)
      requires at + n <= to.Length
      modifies to
      ensures bytes == Available(|file|, pos, n)
      ensures bytes > 0 ==> to[at..at + bytes] == file[pos..pos + bytes]
      ensures to[..at] == old(to[..at])
    {
      bytes := Available(|file|, pos, n);
      forall i | 0 <= i < bytes {
        to[at + i] := file[pos + i];
      }
    }

    /** A cache miss: the cache starts again at this position. */
    method FillCache(pos: nat) returns (bytes: nat)
      requires Valid() && Cached()
      modifies this`cacheOffset, this`cacheLen, cache
      ensures Valid() && cacheOffset == pos && cacheLen == bytes == Available(|file|, pos, cache.Length)
    {
      cacheOffset, cacheLen := pos, 0;
      bytes := ReadFile(cache, 0, pos, cache.Length);
      if bytes == 0 { return; }
      cacheLen := bytes;
      assert cache[..bytes] == cache[0..0 + bytes];
    }

    /** A cache hit: the part of the wanted bytes that is cached. */
    method CopyHit(pos: nat, len: nat, skip: nat) returns (clen: nat)
      requires Valid() && cacheOffset <= pos < cacheOffset + cacheLen && 0 < len && skip + len <= workArea.Length
      modifies workArea
      ensures Valid() && 0 < clen <= len && pos + clen <= |file|
      ensures workArea[skip..skip + clen] == file[pos..pos + clen]
      ensures workArea[..skip] == old(workArea[..skip])
    {
      clen := cacheLen - (pos - cacheOffset);
      if clen > len { clen := len; }
      var from := pos - cacheOffset;
      Copy(workArea, skip, cache, from, clen);
      assert cache[from..from + clen] == cache[..cacheLen][from..from + clen];
      SubSlice(file, cacheOffset, cacheOffset + cacheLen, from, from + clen);
    }

    /** A cache hit that continues a read: the work area now holds the bytes from pos to loff + clen. */
    method CopyMore(pos: nat, loff: nat, left: nat, skip: nat, to: nat) returns (clen: nat)
      requires Valid() && cacheOffset <= loff < cacheOffset + cacheLen && 0 < left && to + left <= workArea.Length
      requires pos <= loff && skip <= to && loff - pos == to - skip
      requires loff > pos ==> workArea[skip..to] == file[pos..loff]
      modifies workArea
      ensures Valid() && 0 < clen <= left && loff + clen <= |file|
      ensures workArea[skip..to + clen] == file[pos..loff + clen]
      ensures workArea[..skip] == old(workArea[..skip])
    {
      ghost var area := workArea[..];
      clen := CopyHit(loff, left, to);
      Extend(area, workArea[..], skip, to, to + clen, file, pos);
    }

    /** The fill and copy loop of readWorkArea. */
    method ReadCached(pos: nat, len: nat, skip: nat) returns (ok: bool)
      requires Valid() && Cached() && skip + len <= workArea.Length
      modifies this`cacheOffset, this`cacheLen, cache, workArea
      ensures Valid()
      ensures ok <==> len == 0 || pos + len <= |file|
      ensures ok && len > 0 ==> workArea[skip..skip + len] == file[pos..pos + len]
      ensures workArea[..skip] == old(workArea[..skip])
    {
      var loff, left, to := pos, len, skip;
      while left > 0
        invariant Valid() && 0 <= left <= len && loff + left == pos + len && to + left == skip + len
        invariant loff == pos || loff <= |file|
        invariant loff > pos ==> workArea[skip..to] == file[pos..loff]
        invariant workArea[..skip] == old(workArea[..skip])
        decreases left, if cacheOffset <= loff < cacheOffset + cacheLen then 0 else 1
      {
        if cacheOffset < 0 || loff < cacheOffset || loff >= cacheOffset + cacheLen {
          var bytes := FillCache(loff);
          if bytes == 0 { return false; }
          continue;
        }
        var clen := CopyMore(pos, loff, left, skip, to);
        to, loff, left := to + clen, loff + clen, left - clen;
      }
      return true;
    }

    /** seek(): the position a read starts from, or the reason why it cannot. */
    method Seek(loff: Where, len: nat) returns (code: int, pos: nat)
      requires Valid()
      ensures var p := ReadPosition(loff, currentOffset, |file|);
              code == (if p + len > |file| && !writeMode then E_EOF else if p < 0 then E_READ_SEEK else 0)
              && (code == 0 ==> pos == p)
    {
      var p := ReadPosition(loff, currentOffset, |file|);
      if p + len > |file| && !writeMode { return E_EOF, 0; }
      if p < 0 { return E_READ_SEEK, 0; }
      return 0, p;
    }

    /** Reads len bytes into the work area, the first skip of which are there already. */
    method ReadWorkArea(loff: Where, len: nat, skip: nat) returns (code: int, pos: nat)
      requires Valid() && skip <= len && skip <= workArea.Length
      modifies this`workArea, this`cacheOffset, this`cacheLen, cache, workArea
      ensures Valid() && (workArea == old(workArea) || fresh(workArea)) && workArea.Length >= len + WORK_AREA_RESERV_SIZE
      ensures workArea[..skip] == old(workArea[..skip])
      ensures var raw := RawRead(file, ReadPosition(loff, currentOffset, |file|), len - skip, writeMode, Cached());
              match raw
              case Err(c) => code == c
              case Ok(bytes) => code == 0 && pos == ReadPosition(loff, currentOffset, |file|) && workArea[skip..len] == bytes
    {
      CheckWorkAreaSize(len);
      code, pos := Seek(loff, len - skip);
      if code != 0 { return; }
      if cache.Length > 0 {
        var ok := ReadCached(pos, len - skip, skip);
        if !ok { code := E_EMPTY_DATA; }
      } else {
        code := ReadPlain(pos, len - skip, skip);
      }
    }

    /** Without the cache, one read() must deliver all bytes. */
    method ReadPlain(pos: nat, n: nat, skip: nat) returns (code: int)
      requires Valid() && skip + n <= workArea.Length
      modifies workArea
      ensures Valid() && workArea[..skip] == old(workArea[..skip])
      ensures code == if n == 0 || pos >= |file| then E_EMPTY_DATA else if pos + n > |file| then E_READ else 0
      ensures code == 0 ==> workArea[skip..skip + n] == file[pos..pos + n]
    {
      var bytes := ReadFile(workArea, skip, pos, n);
      if bytes == 0 { return E_EMPTY_DATA; }
      if bytes != n { return E_READ; }
      return 0;
    }

    // ---------- writing ----------

    method PutBytes(at: nat, bytes: seq<byte>)
      requires at + |bytes| <= workArea.Length
      modifies workArea
      ensures workArea[..at] == old(workArea[..at]) && workArea[at + |bytes|..] == old(workArea[at + |bytes|..])
      ensures workArea[at..at + |bytes|] == bytes
    {
      forall i | 0 <= i < |bytes| {
        workArea[at + i] := bytes[i];
      }
    }

    /** The pieces, one after the other, from len on. */
    method CopyPieces(len: nat, d: DataArray) returns (end: nat)
      requires d.Valid() && workArea !in d.datas && len + d.size <= workArea.Length
      modifies workArea
      ensures end == len + d.size && workArea[len..end] == d.Bytes()
    {
      ghost var contents := d.Contents();
      assert d.Bytes() == Gather(contents);
      end := len;
      for index := 0 to |d.pieces|
        invariant len <= end == len + |Gather(contents[..index])| <= workArea.Length
        invariant workArea[len..end] == Gather(contents[..index])
        invariant d.Contents() == contents && |Gather(contents)| == d.size
      {
        GatherNext(contents, index);
        CopyPiece(len, end, d, index, Gather(contents[..index]));
        end := end + d.pieces[index].len;
      }
      assert contents[..|d.pieces|] == contents;
    }

    /** One piece, behind those that were copied before. */
    method CopyPiece(len: nat, end: nat, d: DataArray, index: nat, ghost copied: seq<byte>)
      requires d.Valid() && workArea !in d.datas && index < |d.pieces|
      requires len <= end <= end + d.pieces[index].len <= workArea.Length && workArea[len..end] == copied
      modifies workArea
      ensures workArea[len..end + d.pieces[index].len] == copied + d.Contents()[index]
    {
      ghost var area, content := workArea[..], d.Contents()[index];
      var n := d.pieces[index].len;
      Copy(workArea, end, d.datas[index], 0, n);
      PutBehind(area, workArea[..], len, end, end + n, copied, content);
    }

    /** The length prefix if there is one, and the pieces. */
    method FillBody(len: nat, d: DataArray, offsetLen: int, ghost data: seq<byte>) returns (end: nat)
      requires Valid() && d.Valid() && data == d.Bytes() && workArea !in d.datas && d.size + 8 < 0x8000_0000
      requires (len == 0 && offsetLen < 0) || (len == LENGTH_SIZE && offsetLen == 0)
      requires len + d.size + CRC_SIZE <= workArea.Length
      modifies workArea
      ensures Valid() && end == len + d.size && workArea[..end] == Body(offsetLen >= 0, data)
    {
      end := CopyPieces(len, d);
      if offsetLen >= 0 {
        ghost var area := workArea[..];
        PutBytes(0, LengthBytes(end + CRC_SIZE));
        PrefixPut(area, workArea[..], end, data);
      } else {
        assert workArea[..end] == workArea[0..end];
      }
    }

    /** The checksum of the first bytes, behind them. */
    method Seal(end: nat, ghost body: seq<byte>, ghost frame: seq<byte>)
      requires Valid() && end + CRC_SIZE <= workArea.Length && workArea[..end] == body
      requires frame == body + WordBytes(ck(body))
      modifies workArea
      ensures Valid() && workArea[..end + CRC_SIZE] == frame
    {
      var crc := CrcOf(workArea[..end]);
      ghost var word := WordBytes(crc);
      PutBytes(end, WordBytes(crc));
      assert workArea[..end + CRC_SIZE] == workArea[..end] + workArea[end..end + |word|];
    }

    /** Builds the frame in the work area: length prefix if wanted, pieces, checksum. */
    method FillWorkArea(len: nat, d: DataArray, offsetLen: int) returns (r: nat)
      requires Valid() && d.Valid() && workArea !in d.datas && d.size + 8 < 0x8000_0000
      requires (len == 0 && offsetLen < 0) || (len == LENGTH_SIZE && offsetLen == 0)
      modifies this`workArea, workArea
      ensures Valid() && (workArea == old(workArea) || fresh(workArea))
      ensures r == len + d.size + CRC_SIZE <= workArea.Length
      ensures workArea[..r] == Frame(ck, offsetLen >= 0, old(d.Bytes()))
    {
      ghost var data := d.Bytes();
      ghost var body, frame := Body(offsetLen >= 0, data), Frame(ck, offsetLen >= 0, data);
      CheckWorkAreaSize(d.size + len);
      assert data == d.Bytes();
      var end := FillBody(len, d, offsetLen, data);
      Seal(end, body, frame);
      r := end + CRC_SIZE;
    }

    /** Forgets the cached bytes if some of them may have been written over. */
    method ClearCache(pos: nat, len: nat, ghost before: seq<byte>)
      requires IsCrc(ck) && deltaPage > 0 && workArea != cache && cacheLen <= cache.Length
      requires cacheLen > 0 ==> 0 <= cacheOffset && cacheOffset + cacheLen <= |before| && cache[..cacheLen] == before[cacheOffset..cacheOffset + cacheLen]
      requires SameOutside(before, file, pos, len)
      modifies this`cacheOffset, this`cacheLen
      ensures Valid()
      ensures if WroteOverCache(old(cacheOffset), old(cacheLen), pos, len) then cacheOffset == -1 && cacheLen == 0 else cacheOffset == old(cacheOffset) && cacheLen == old(cacheLen)
    {
      if cacheOffset < 0 || cacheLen == 0 { return; }
      if pos < cacheOffset + cacheLen && pos + len > cacheOffset {
        cacheOffset, cacheLen := -1, 0;
      } else {
        SliceOutside(before, file, pos, len, cacheOffset, cacheLen);
      }
    }

    /** Writes the work area but for its first skip bytes; a write that fails clears the cache too. */
    method WriteWorkArea(loff: Where, len: nat, skip: nat) returns (code: int, next: nat)
      requires Valid() && skip <= len <= workArea.Length
      modifies this`file, this`cacheOffset, this`cacheLen, this`lastOffset
      ensures Valid()
      ensures var pos := WritePosition(loff, |old(file)|);
        && code == (if pos < 0 then E_WRITE_SEEK else if !writeMode then E_WRITE else 0)
        && lastOffset == (if pos < 0 then -1 else pos)
        && (code == 0 ==> next == pos + len - skip && file == WriteAt(old(file), pos, workArea[skip..len]))
        && (code != 0 ==> file == old(file))
        && (pos >= 0 && WroteOverCache(old(cacheOffset), old(cacheLen), pos, len - skip) ==> cacheLen == 0)
    {
      var pos, n := WritePosition(loff, |file|), len - skip;
      lastOffset := if pos < 0 then -1 else pos;
      if pos < 0 { return E_WRITE_SEEK, 0; }
      ghost var before := file;
      if writeMode {
        file := WriteAt(file, pos, workArea[skip..len]);
        WriteOutside(before, pos, workArea[skip..len]);
      }
      ClearCache(pos, n, before);
      if !writeMode { return E_WRITE, 0; }
      return 0, pos + n;
    }

    method Write(loff: Where, dynamic: bool, d: DataArray) returns (r: int)
      requires Valid() && d.Valid() && workArea !in d.datas && d.size + 8 < 0x8000_0000
      modifies this`file, this`cacheOffset, this`cacheLen, this`currentOffset, this`lastOffset, this`workArea, workArea
      ensures Valid() && (workArea == old(workArea) || fresh(workArea))
      ensures var pos, frame := WritePosition(loff, |old(file)|), Frame(ck, dynamic, old(d.Bytes()));
        if pos >= 0 && writeMode then
          && file == WriteAt(old(file), pos, frame) && r == |frame|
          && lastOffset == pos && currentOffset == pos + r
        else
          && file == old(file) && currentOffset == old(currentOffset)
          && r == if pos < 0 then E_WRITE_SEEK else E_WRITE
    {
      var len := FillWorkArea(if dynamic then LENGTH_SIZE else 0, d, if dynamic then 0 else -1);
      r := StoreFrame(loff, len, Frame(ck, dynamic, old(d.Bytes())));
    }

    /** The frame in the work area goes to the file, and the current position behind it. */
    method StoreFrame(loff: Where, len: nat, ghost frame: seq<byte>) returns (r: int)
      requires Valid() && len <= workArea.Length && workArea[..len] == frame
      modifies this`file, this`cacheOffset, this`cacheLen, this`currentOffset, this`lastOffset, this`workArea
      ensures Valid() && (workArea == old(workArea) || fresh(workArea))
      ensures var pos := WritePosition(loff, |old(file)|);
        if pos >= 0 && writeMode then
          && file == WriteAt(old(file), pos, frame) && r == |frame|
          && lastOffset == pos && currentOffset == pos + r
        else
          && file == old(file) && currentOffset == old(currentOffset)
          && r == if pos < 0 then E_WRITE_SEEK else E_WRITE
    {
      GrowKeeping(len, frame);
      var code, next := WriteWorkArea(loff, len, 0);
      if code != 0 { return code; }
      currentOffset := next;
      return len;
    }

    /** Growing the work area once more keeps the frame in it. */
    method GrowKeeping(len: nat, ghost frame: seq<byte>)
      requires Valid() && len <= workArea.Length && workArea[..len] == frame
      modifies this`workArea
      ensures Valid() && (workArea == old(workArea) || fresh(workArea))
      ensures len <= workArea.Length && workArea[0..len] == frame
    {
      ghost var n, area := workArea.Length, workArea[..];
      CheckWorkAreaSize(len);
      assert workArea[0..len] == workArea[..n][..len] == area[..len];
    }

    // ---------- reading records ----------

    /** memzero on what read() takes for the contents of the frame. */
    method FrameLooksEmpty(n: nat, skip: nat) returns (zero: bool)
      requires n + CRC_SIZE <= workArea.Length
      ensures zero == LooksEmpty(workArea[..n + CRC_SIZE], skip)
    {
      if n < skip { return false; }
      zero := MemZero(workArea[..n - skip]);
      ZeroesAreAllZero(workArea[..n - skip]);
      assert workArea[..n + CRC_SIZE][..n - skip] == workArea[..n - skip];
    }

    /** The checksum test on the frame of n + 4 bytes in the work area. */
    method CheckFrame(n: nat, skip: nat, emptyData: bool, ignoreCrc: bool) returns (code: int)
      requires IsCrc(ck) && n + CRC_SIZE <= workArea.Length && skip <= n + CRC_SIZE
      ensures code == Verdict(ck(workArea[..n]), workArea[..n + CRC_SIZE], skip, emptyData, ignoreCrc)
    {
      var crc := CrcOf(workArea[..n]);
      var dcrc := WordAt(workArea[..n + CRC_SIZE], n);
      if dcrc != crc {
        var zero := FrameLooksEmpty(n, skip);
        if zero && dcrc == 0 && emptyData { return E_EMPTY_DATA; }
        if !ignoreCrc { return E_CRC; }
      }
      return 0;
    }

    /** Checks the frame in the work area and hands its contents to the caller's buffers. */
    method Deliver(n: nat, skip: nat, emptyData: bool, ignoreCrc: bool, d: DataArray, ghost frame: seq<byte>, ghost res: Result<seq<byte>>) returns (r: int)
      requires IsCrc(ck) && n + CRC_SIZE <= workArea.Length && workArea[..n + CRC_SIZE] == frame && skip <= n + CRC_SIZE
      requires res == Checked(ck, frame, skip, emptyData, ignoreCrc)
      requires d.Valid() && workArea !in d.datas
      requires n < skip ==> d.pieces == [] || !d.pieces[0].variable
      modifies d.datas
      ensures Outcome(res, r, d, old(d.All()))
    {
      assert frame[..n] == workArea[..n];
      r := CheckFrame(n, skip, emptyData, ignoreCrc);
      CheckedByVerdict(ck, frame, n, skip, emptyData, ignoreCrc, r, res);
      if r == 0 {
        if n >= skip { assert frame[skip..n] == workArea[..][skip..skip + (n - skip)]; }
        r := DeliverChecked(n, skip, d, res);
      }
    }

    method DeliverChecked(n: nat, skip: nat, d: DataArray, ghost res: Result<seq<byte>>) returns (r: int)
      requires n + CRC_SIZE <= workArea.Length && skip <= n + CRC_SIZE
      requires d.Valid() && workArea !in d.datas
      requires n < skip ==> d.pieces == [] || !d.pieces[0].variable
      requires res == if n < skip then Err(n - skip) else Ok(workArea[..][skip..skip + (n - skip)])
      modifies d.datas
      ensures Outcome(res, r, d, old(d.All()))
    {
      ghost var got := Delivered(d.pieces, workArea[..], skip, n - skip);
      ghost var before := d.All();
      var _ := d.SetFromBuffer(workArea, skip, n - skip);
      assert d.Holds(before, got);
      if n >= skip {
        assert res.value == workArea[..][skip..skip + (n - skip)];
      }
      return n - skip;
    }

    /** The length prefix of a dynamic frame: what follows it has n bytes, checksum included. */
    method ReadPrefix(loff: Where) returns (code: int, at: nat, n: int)
      requires Valid()
      modifies this`workArea, this`cacheOffset, this`cacheLen, this`lastOffset, cache, workArea
      ensures Valid() && (workArea == old(workArea) || fresh(workArea))
      ensures var pos := ReadPosition(loff, currentOffset, |file|);
              match RawRead(file, pos, LENGTH_SIZE, writeMode, Cached())
              case Err(c) => code == c && code != 0
              case Ok(prefix) => && code == 0 && lastOffset == pos && at == pos + LENGTH_SIZE && n == LengthAt(prefix, 0) - LENGTH_SIZE
                                 && LENGTH_SIZE <= workArea.Length && workArea[..LENGTH_SIZE] == prefix
    {
      var pos;
      code, pos := ReadWorkArea(loff, LENGTH_SIZE, 0);
      if code != 0 { return code, 0, 0; }
      assert workArea[..LENGTH_SIZE] == workArea[0..LENGTH_SIZE];
      lastOffset, at := pos, pos + LENGTH_SIZE;
      n := LengthAt(workArea[..LENGTH_SIZE], 0) - LENGTH_SIZE;
    }

    /** The rest of a frame behind the prefix in the work area. */
    method ReadRemainder(at: Where, n: nat, skip: nat, ghost prefix: seq<byte>) returns (code: int)
      requires Valid() && skip == |prefix| <= workArea.Length && workArea[..skip] == prefix
      modifies this`workArea, this`cacheOffset, this`cacheLen, this`currentOffset, cache, workArea
      ensures Valid() && (workArea == old(workArea) || fresh(workArea))
      ensures var pos := ReadPosition(at, old(currentOffset), |file|);
        match RawRead(file, pos, n, writeMode, Cached())
        case Err(c) => code == c && code != 0 && currentOffset == old(currentOffset)
        case Ok(rest) => code == 0 && currentOffset == pos + n && skip + n <= workArea.Length && workArea[..skip + n] == prefix + rest
    {
      var pos;
      code, pos := ReadWorkArea(at, n + skip, skip);
      if code != 0 { return; }
      currentOffset := pos + n;
      assert workArea[..skip + n] == workArea[..skip] + workArea[skip..n + skip];
    }

    /** The rest of a frame, and its delivery. */
    method ReadAndDeliver(at: Where, n: nat, skip: nat, emptyData: bool, ignoreCrc: bool, d: DataArray, ghost prefix: seq<byte>, ghost res: Result<seq<byte>>)
        returns (r: int)
      requires Valid() && d.Valid() && workArea !in d.datas && cache !in d.datas
      requires skip == |prefix| <= LENGTH_SIZE && skip <= workArea.Length && workArea[..skip] == prefix && skip + n >= CRC_SIZE
      requires skip == 0 || d.pieces == [] || !d.pieces[0].variable
      requires res == ReadRest(ck, file, ReadPosition(at, currentOffset, |file|), prefix, n, writeMode, Cached(), emptyData, ignoreCrc)
      modifies this`workArea, this`cacheOffset, this`cacheLen, this`currentOffset, cache, workArea, d.datas
      ensures Valid() && (workArea == old(workArea) || fresh(workArea))
      ensures Outcome(res, r, d, old(d.All()))
      ensures var end := RestEnd(file, ReadPosition(at, old(currentOffset), |file|), n, writeMode, Cached());
              currentOffset == if end.Ok? then end.value else old(currentOffset)
    {
      ghost var before := d.All();
      var code := ReadRemainder(at, n, skip, prefix);
      assert d.All() == before;
      if code != 0 { return code; }
      ghost var frame := workArea[..skip + n];
      r := Deliver(skip + n - CRC_SIZE, skip, emptyData, ignoreCrc, d, frame, res);
    }

    /** What read() does behind the prefix of a dynamic record. */
    method FinishDynamic(at: nat, n: int, emptyData: bool, ignoreCrc: bool, d: DataArray, ghost prefix: seq<byte>, ghost res: Result<seq<byte>>, ghost end: Result<nat>)
        returns (r: int)
      requires Valid() && d.Valid() && workArea !in d.datas && cache !in d.datas
      requires d.pieces == [] || !d.pieces[0].variable
      requires |prefix| == LENGTH_SIZE <= workArea.Length && workArea[..LENGTH_SIZE] == prefix
      requires res == if n < 0 then Err(E_READ) else ReadRest(ck, file, at, prefix, n, writeMode, Cached(), emptyData, ignoreCrc)
      requires end == if n < 0 then Err(E_READ) else RestEnd(file, at, n, writeMode, Cached())
      modifies this`workArea, this`cacheOffset, this`cacheLen, this`currentOffset, cache, workArea, d.datas
      ensures Valid() && (workArea == old(workArea) || fresh(workArea))
      ensures Outcome(res, r, d, old(d.All()))
      ensures currentOffset == if end.Ok? then end.value else old(currentOffset)
    {
      if n < 0 { return E_READ; }
      r := ReadAndDeliver(At(at), n, LENGTH_SIZE, emptyData, ignoreCrc, d, prefix, res);
    }

    /** The first step of a dynamic read: it fails as a whole, or the frame goes on behind the prefix. */
    method StartDynamic(loff: Where, emptyData: bool, ignoreCrc: bool, ghost size: nat, ghost pos: int, ghost res: Result<seq<byte>>, ghost end: Result<nat>)
        returns (code: int, at: nat, n: int, ghost prefix: seq<byte>)
      requires Valid() && pos == ReadPosition(loff, currentOffset, |file|)
      requires res == ReadDynamic(ck, file, pos, writeMode, Cached(), emptyData, ignoreCrc)
      requires end == ReadEnd(file, pos, true, size, writeMode, Cached())
      modifies this`workArea, this`cacheOffset, this`cacheLen, this`lastOffset, cache, workArea
      ensures Valid() && (workArea == old(workArea) || fresh(workArea))
      ensures code != 0 ==> res == Err(code) && end == Err(code)
      ensures code == 0 ==>
        && |prefix| == LENGTH_SIZE <= workArea.Length && workArea[..LENGTH_SIZE] == prefix
        && res == (if n < 0 then Err(E_READ) else ReadRest(ck, file, at, prefix, n, writeMode, Cached(), emptyData, ignoreCrc))
        && end == (if n < 0 then Err(E_READ) else RestEnd(file, at, n, writeMode, Cached()))
      ensures RawRead(file, pos, LENGTH_SIZE, writeMode, Cached()).Ok? ==> lastOffset == pos
    {
      code, at, n := ReadPrefix(loff);
      prefix := [];
      if code != 0 {
        DynamicFails(ck, file, pos, size, writeMode, Cached(), emptyData, ignoreCrc);
      } else {
        prefix := workArea[..LENGTH_SIZE];
        DynamicGoesOn(ck, file, pos, size, writeMode, Cached(), emptyData, ignoreCrc, prefix, n, res, end);
      }
    }

    /** read() of a dynamic record at pos; res and end are what the bytes of the file say. */
    method ReadDynamicRecord(loff: Where, emptyData: bool, ignoreCrc: bool, d: DataArray, ghost pos: int, ghost res: Result<seq<byte>>, ghost end: Result<nat>) returns (r: int)
      requires Valid() && d.Valid() && workArea !in d.datas && cache !in d.datas
      requires d.pieces == [] || !d.pieces[0].variable
      requires pos == ReadPosition(loff, currentOffset, |file|)
      requires res == ReadDynamic(ck, file, pos, writeMode, Cached(), emptyData, ignoreCrc)
      requires end == ReadEnd(file, pos, true, d.size, writeMode, Cached())
      modifies this`workArea, this`cacheOffset, this`cacheLen, this`currentOffset, this`lastOffset, cache, workArea, d.datas
      ensures Valid() && (workArea == old(workArea) || fresh(workArea))
      ensures Outcome(res, r, d, old(d.All()))
      ensures currentOffset == if end.Ok? then end.value else old(currentOffset)
      ensures RawRead(file, pos, LENGTH_SIZE, writeMode, Cached()).Ok? ==> lastOffset == pos
    {
      ghost var before := d.All();
      var code, at, n;
      ghost var prefix;
      code, at, n, prefix := StartDynamic(loff, emptyData, ignoreCrc, d.size, pos, res, end);
      assert d.All() == before;
      if code != 0 { return code; }
      r := FinishDynamic(at, n, emptyData, ignoreCrc, d, prefix, res, end);
    }

    /** read() of a static record at pos. */
    method ReadStaticRecord(loff: Where, emptyData: bool, ignoreCrc: bool, d: DataArray, ghost pos: int, ghost res: Result<seq<byte>>, ghost end: Result<nat>) returns (r: int)
      requires Valid() && d.Valid() && workArea !in d.datas && cache !in d.datas
      requires pos == ReadPosition(loff, currentOffset, |file|)
      requires res == ReadStatic(ck, file, pos, d.size, writeMode, Cached(), emptyData, ignoreCrc)
      requires end == ReadEnd(file, pos, false, d.size, writeMode, Cached())
      modifies this`workArea, this`cacheOffset, this`cacheLen, this`currentOffset, cache, workArea, d.datas
      ensures Valid() && (workArea == old(workArea) || fresh(workArea))
      ensures Outcome(res, r, d, old(d.All()))
      ensures currentOffset == if end.Ok? then end.value else old(currentOffset)
    {
      StaticIsRest(ck, file, pos, d.size, writeMode, Cached(), emptyData, ignoreCrc);
      r := ReadAndDeliver(loff, d.size + CRC_SIZE, 0, emptyData, ignoreCrc, d, [], res);
    }

    /**
     Reads a record into the caller's pieces.  The result is the number of payload bytes, or the
     error.  A stored length below four is an error here; the program goes on with a negative size.
     */
    method Read(loff: Where, dynamic: bool, emptyData: bool, ignoreCrc: bool, d: DataArray) returns (r: int)
      requires Valid() && d.Valid() && workArea !in d.datas && cache !in d.datas
      requires dynamic ==> d.pieces == [] || !d.pieces[0].variable
      modifies this`workArea, this`cacheOffset, this`cacheLen, this`currentOffset, this`lastOffset, cache, workArea, d.datas
      ensures Valid() && (workArea == old(workArea) || fresh(workArea))
      ensures Outcome(ReadFrame(ck, file, ReadPosition(loff, old(currentOffset), |file|), dynamic, d.size, writeMode, Cached(), emptyData, ignoreCrc),
                      r, d, old(d.All()))
      ensures var end := ReadEnd(file, ReadPosition(loff, old(currentOffset), |file|), dynamic, d.size, writeMode, Cached());
              currentOffset == if end.Ok? then end.value else old(currentOffset)
      ensures var pos := ReadPosition(loff, old(currentOffset), |file|);
              if dynamic then RawRead(file, pos, LENGTH_SIZE, writeMode, Cached()).Ok? ==> lastOffset == pos else lastOffset == old(lastOffset)
      ensures var pos := ReadPosition(loff, old(currentOffset), |file|);
              r >= 0 ==> pos >= 0 && currentOffset == pos + r + if dynamic then 8 else 4
      ensures var pos := ReadPosition(loff, old(currentOffset), |file|);
              !dynamic ==> currentOffset == if 0 <= pos && pos + d.size + 4 <= |file| then pos + d.size + 4 else old(currentOffset)
    {
      ghost var pos := ReadPosition(loff, currentOffset, |file|);
      ghost var res := ReadFrame(ck, file, pos, dynamic, d.size, writeMode, Cached(), emptyData, ignoreCrc);
      ghost var end := ReadEnd(file, pos, dynamic, d.size, writeMode, Cached());
      MovesBehind(ck, file, pos, dynamic, d.size, writeMode, Cached(), emptyData, ignoreCrc);
      StaticEndIs(file, pos, d.size, writeMode, Cached());
      if dynamic {
        r := ReadDynamicRecord(loff, emptyData, ignoreCrc, d, pos, res, end);
      } else {
        r := ReadStaticRecord(loff, emptyData, ignoreCrc, d, pos, res, end);
      }
    }
  }

  lemma CheckedByVerdict(ck: Checksum, frame: seq<byte>, n: nat, skip: nat, emptyData: bool, ignoreCrc: bool, code: int, res: Result<seq<byte>>)
    requires |frame| == n + 4 && code == Verdict(ck(frame[..n]), frame, skip, emptyData, ignoreCrc)
    requires res == Checked(ck, frame, skip, emptyData, ignoreCrc)
    ensures res == if code != 0 then Err(code) else if n < skip then Err(n - skip) else Ok(frame[skip..n])
  {
  }

  /** What a read returns and leaves in the buffers. */
  ghost predicate Outcome(res: Result<seq<byte>>, r: int, d: DataArray, before: seq<seq<byte>>)
    reads d.datas
  {
    && |before| == |d.datas| == |d.pieces|
    && match res
       case Ok(data) => r == |data| && d.Holds(before, Scatter(d.pieces, data))
       case Err(code) => r == code && d.Holds(before, [])
  }


  lemma GatherNext(contents: seq<seq<byte>>, i: nat)
    requires i < |contents|
    ensures Gather(contents[..i + 1]) == Gather(contents[..i]) + contents[i]
    ensures |Gather(contents[..i + 1])| <= |Gather(contents)|
  {
    assert contents[..i + 1] == contents[..i] + [contents[i]];
    GatherAppend(contents[..i], [contents[i]]);
    GatherOne(contents[i]);
    assert contents == contents[..i + 1] + contents[i + 1..];
    GatherAppend(contents[..i + 1], contents[i + 1..]);
  }

  /** Bytes put behind others. */
  lemma PutBehind(before: seq<byte>, after: seq<byte>, a: nat, b: nat, c: nat, x: seq<byte>, y: seq<byte>)
    requires a <= b <= c <= |before| == |after|
    requires before[a..b] == x && after[..b] == before[..b] && after[b..c] == y
    ensures after[a..c] == x + y
  {
    assert after[a..c] == after[..b][a..] + after[b..c];
    assert before[..b][a..] == before[a..b];
  }

  lemma PrefixPut(before: seq<byte>, after: seq<byte>, end: nat, data: seq<byte>)
    requires end == |data| + 4 <= |before| == |after| && |data| + 8 < 0x8000_0000
    requires before[4..end] == data && after[0..4] == LengthBytes(|data| + 8) && after[4..] == before[4..]
    ensures after[..end] == LengthBytes(|data| + 8) + data
  {
    assert after[4..end] == after[4..][..end - 4];
    assert before[4..end] == before[4..][..end - 4];
    assert after[..end] == after[0..4] + after[4..end];
  }

  /** Some cached byte lies in this range of the file. */
  predicate WroteOverCache(cacheOffset: int, cacheLen: nat, pos: int, len: int) {
    cacheOffset >= 0 && cacheLen > 0 && pos < cacheOffset + cacheLen && pos + len > cacheOffset
  }

  /** The file kept its bytes but for this range, and may have grown. */
  ghost predicate SameOutside(before: seq<byte>, after: seq<byte>, pos: nat, len: nat) {
    |before| <= |after| && forall i :: 0 <= i < |before| && !(pos <= i < pos + len) ==> after[i] == before[i]
  }

  lemma WriteOutside(before: seq<byte>, pos: nat, bytes: seq<byte>)
    ensures SameOutside(before, WriteAt(before, pos, bytes), pos, |bytes|)
  {
    var after := WriteAt(before, pos, bytes);
    forall i | 0 <= i < |before| && !(pos <= i < pos + |bytes|) ensures after[i] == before[i] {
      WriteElsewhere(before, pos, bytes, i);
    }
  }

  lemma SliceOutside(before: seq<byte>, after: seq<byte>, pos: nat, len: nat, at: nat, n: nat)
    requires SameOutside(before, after, pos, len) && at + n <= |before| && (at + n <= pos || pos + len <= at)
    ensures after[at..at + n] == before[at..at + n]
  {
  }

  /** A write leaves the bytes elsewhere alone. */
  lemma WriteApart(before: seq<byte>, pos: nat, bytes: seq<byte>, at: nat, n: nat)
    requires at + n <= |before| && (at + n <= pos || pos + |bytes| <= at)
    ensures var after := WriteAt(before, pos, bytes);
            at + n <= |after| && after[at..at + n] == before[at..at + n]
  {
    WriteOutside(before, pos, bytes);
    SliceOutside(before, WriteAt(before, pos, bytes), pos, |bytes|, at, n);
  }

  lemma Extend(before: seq<byte>, after: seq<byte>, a: nat, b: nat, c: nat, file: seq<byte>, pos: nat)
    requires a <= b <= c <= |before| == |after| && pos + c - a <= |file|
    requires b > a ==> before[a..b] == file[pos..pos + b - a]
    requires after[..b] == before[..b] && after[b..c] == file[pos + b - a..pos + c - a]
    ensures after[a..c] == file[pos..pos + c - a] && after[..a] == before[..a]
  {
    assert after[a..c] == after[..b][a..] + after[b..c];
    assert before[..b][a..] == before[a..b];
    assert file[pos..pos + c - a] == file[pos..pos + b - a] + file[pos + b - a..pos + c - a];
    assert after[..a] == after[..b][..a];
  }
}
