/** Frames of a byte stream, put together again from whatever pieces read() returns. */
module Connection {
  import opened Bytes

  const BLOCK_SIZE := 4 * 1024
  const HEADER_SIZE := 16
  const LEN_AT := 4

  /** One call of onRequest: the header, and the bytes behind it. */
  datatype Request = Request(header: seq<byte>, data: seq<byte>)

  /** The len field, which counts the header too. */
  function LenOf(s: seq<byte>): int
    requires |s| >= HEADER_SIZE
  {
    LengthAt(s, LEN_AT)
  }

  /** A frame as it is sent. */
  ghost predicate WellFormed(r: Request) {
    |r.header| == HEADER_SIZE && LenOf(r.header) == HEADER_SIZE + |r.data|
  }

  ghost predicate AllWellFormed(rs: seq<Request>) {
    forall i :: 0 <= i < |rs| ==> WellFormed(rs[i])
  }

  function FrameOf(r: Request): seq<byte> {
    r.header + r.data
  }

  /** Frames as they follow each other in a stream. */
  function Wire(rs: seq<Request>): seq<byte> {
    if rs == [] then [] else Wire(rs[..|rs| - 1]) + FrameOf(rs[|rs| - 1])
  }

  // ---------- what the stream means ----------

  /** The complete frames at the front of a stream, up to a header whose len is no frame size. */
  function Completed(s: seq<byte>): (rs: seq<Request>)
  {
    if |s| < HEADER_SIZE || !(HEADER_SIZE <= LenOf(s) <= |s|) then []
    else [Request(s[..HEADER_SIZE], s[HEADER_SIZE..LenOf(s)])] + Completed(s[LenOf(s)..])
  }

  /** The bytes behind them. */
  function Unfinished(s: seq<byte>): (rest: seq<byte>)
  {
    if |s| < HEADER_SIZE || !(HEADER_SIZE <= LenOf(s) <= |s|) then s
    else Unfinished(s[LenOf(s)..])
  }

  lemma SameLen(s: seq<byte>, t: seq<byte>)
    requires |s| >= HEADER_SIZE && s <= t
    ensures LenOf(s) == LenOf(t)
  {
    assert s[LEN_AT] == t[LEN_AT] && s[LEN_AT + 1] == t[LEN_AT + 1] && s[LEN_AT + 2] == t[LEN_AT + 2] && s[LEN_AT + 3] == t[LEN_AT + 3];
  }

  lemma FrameParts(r: Request, rest: seq<byte>, s: seq<byte>)
    requires WellFormed(r) && s == FrameOf(r) + rest
    ensures |s| >= HEADER_SIZE && r.header <= s && s[..HEADER_SIZE] == r.header
    ensures s[HEADER_SIZE..HEADER_SIZE + |r.data|] == r.data && s[HEADER_SIZE + |r.data|..] == rest
  {
  }

  /** A frame in front of other bytes. */
  lemma FrameFirst(r: Request, rest: seq<byte>)
    requires WellFormed(r)
    ensures Completed(FrameOf(r) + rest) == [r] + Completed(rest)
    ensures Unfinished(FrameOf(r) + rest) == Unfinished(rest)
  {
    var s := FrameOf(r) + rest;
    FrameParts(r, rest, s);
    SameLen(r.header, s);
  }

  lemma FrameSplit(frame: seq<byte>, r: Request)
    requires |frame| >= HEADER_SIZE && LenOf(frame) == |frame|
    requires r == Request(frame[..HEADER_SIZE], frame[HEADER_SIZE..])
    ensures WellFormed(r) && FrameOf(r) == frame
  {
    SameLen(r.header, frame);
  }

  lemma WireLast(rs: seq<Request>, rest: seq<byte>)
    requires rs != []
    ensures var n := |rs| - 1;
            Wire(rs) + rest == Wire(rs[..n]) + (FrameOf(rs[n]) + rest)
  {
    var n := |rs| - 1;
    Regroup(Wire(rs[..n]), FrameOf(rs[n]), rest);
  }

  lemma Glue(rs: seq<Request>, more: seq<Request>)
    requires rs != []
    ensures rs[..|rs| - 1] + ([rs[|rs| - 1]] + more) == rs + more
  {
  }

  /** Frames in front of other bytes are all completed, in order, and nothing else is. */
  lemma {:induction false} FramesFirst(rs: seq<Request>, rest: seq<byte>, s: seq<byte>)
    requires AllWellFormed(rs) && s == Wire(rs) + rest
    ensures Completed(s) == rs + Completed(rest)
    ensures Unfinished(s) == Unfinished(rest)
  {
    if rs == [] {
      assert s == rest;
      assert [] + Completed(rest) == Completed(rest);
    } else {
      var n := |rs| - 1;
      WireLast(rs, rest);
      var tail := FrameOf(rs[n]) + rest;
      FramesFirst(rs[..n], tail, s);
      FrameFirst(rs[n], rest);
      Glue(rs, Completed(rest));
    }
  }

  /** No frame at the front: it is not complete, or its len is no frame size. */
  ghost predicate NoFrame(p: seq<byte>) {
    |p| < HEADER_SIZE || !(HEADER_SIZE <= LenOf(p) <= |p|)
  }

  /** Any frames, then bytes without one: exactly the frames are requests, and the other bytes are left. */
  lemma Reassembly(rs: seq<Request>, p: seq<byte>)
    requires AllWellFormed(rs) && NoFrame(p)
    ensures Completed(Wire(rs) + p) == rs && Unfinished(Wire(rs) + p) == p
  {
    FramesFirst(rs, p, Wire(rs) + p);
    assert rs + [] == rs;
  }

  // ---------- the program ----------

  /** What read() does when it has no more bytes. */
  datatype Last = EAgain | EndOrError

  /** Stuck: a header asks for a frame smaller than itself, and the room computed for it is negative. */
  datatype Outcome = Waiting | Closed | Stuck

  function Flat(chunks: seq<seq<byte>>): seq<byte> {
    if chunks == [] then [] else chunks[0] + Flat(chunks[1..])
  }

  function Front(chunks: seq<seq<byte>>, n: nat): (r: seq<seq<byte>>)
    requires chunks != [] && n <= |chunks[0]|
  {
    if n == |chunks[0]| then chunks[1..] else [chunks[0][n..]] + chunks[1..]
  }

  lemma FlatFront(chunks: seq<seq<byte>>, n: nat)
    requires chunks != [] && n <= |chunks[0]|
    ensures Flat(chunks) == chunks[0][..n] + Flat(Front(chunks, n))
  {
    assert chunks[0] == chunks[0][..n] + chunks[0][n..];
    if n < |chunks[0]| {
      assert Front(chunks, n)[1..] == chunks[1..];
      Regroup(chunks[0][..n], chunks[0][n..], Flat(chunks[1..]));
    }
  }

  class SafeStorageConnection {
    /** dbegin .. dend */
    var buffer: array<byte>
    /** dcur - dbegin */
    var dcur: nat
    /** The calls of onRequest so far. */
    var requests: seq<Request>
    /** Every byte that read() returned so far. */
    ghost var received: seq<byte>

    ghost predicate Holds()
      reads this, buffer
    {
      dcur <= buffer.Length && AllWellFormed(requests) && received == Wire(requests) + buffer[..dcur]
    }

    /** Between two rounds of the loop the buffer holds at most one frame. */
    ghost predicate Valid()
      reads this, buffer
    {
      Holds() && (dcur > HEADER_SIZE ==> dcur <= LenOf(buffer[..dcur]))
    }

    constructor ()
      ensures Valid() && received == [] && requests == [] && buffer.Length == 128 * 1024 && fresh(buffer)
    {
      buffer := new byte[128 * 1024];
      dcur, requests, received := 0, [], [];
    }

    method Realloc(size: nat)
      requires Valid()
      modifies this`buffer
      ensures Valid() && (buffer == old(buffer) || fresh(buffer))
      ensures size <= buffer.Length && buffer[..dcur] == old(buffer[..dcur])
      ensures buffer == old(buffer) || buffer.Length < size + BLOCK_SIZE
    {
      if buffer.Length >= size { return; }
      PageRounding(size, BLOCK_SIZE);
      var bigger := new byte[Pages(size, BLOCK_SIZE) * BLOCK_SIZE];
      Copy(bigger, 0, buffer, 0, buffer.Length);
      assert bigger[..dcur] == bigger[0..buffer.Length][..dcur] == buffer[..dcur];
      buffer := bigger;
    }

    /** onRequest with the frame in the buffer, which is empty afterwards. */
    method Fire()
      requires Holds() && dcur >= HEADER_SIZE && LenOf(buffer[..dcur]) == dcur
      modifies this`requests, this`dcur
      ensures Valid() && dcur == 0
      ensures requests == old(requests) + [Request(buffer[..HEADER_SIZE], buffer[HEADER_SIZE..old(dcur)])]
    {
      var r := Request(buffer[..HEADER_SIZE], buffer[HEADER_SIZE..dcur]);
      ghost var frame := buffer[..dcur];
      assert buffer[..HEADER_SIZE] == frame[..HEADER_SIZE] && buffer[HEADER_SIZE..dcur] == frame[HEADER_SIZE..];
      FrameSplit(frame, r);
      ghost var before := requests;
      requests, dcur := requests + [r], 0;
      WireMore(before, r, buffer[..0]);
    }

    /** Part of a chunk goes behind the bytes in the buffer. */
    method Receive(chunk: seq<byte>, n: nat)
      requires Holds() && n <= |chunk| && dcur + n <= buffer.Length
      modifies this`dcur, this`received, buffer
      ensures Holds() && dcur == old(dcur) + n
      ensures received == old(received) + chunk[..n] && buffer[..old(dcur)] == old(buffer[..dcur])
    {
      ghost var front := buffer[..dcur];
      forall i | 0 <= i < n {
        buffer[dcur + i] := chunk[i];
      }
      assert buffer[..dcur + n] == front + chunk[..n];
      Regroup(Wire(requests), front, chunk[..n]);
      received, dcur := received + chunk[..n], dcur + n;
    }

    /** How many bytes the frame in the buffer still lacks; negative if its len makes no sense. */
    function Missing(): int
      requires dcur <= buffer.Length
      reads this, buffer
    {
      if dcur < HEADER_SIZE then HEADER_SIZE - dcur else LenOf(buffer[..dcur]) - dcur
    }

    /** One read(): as many bytes of the next chunk as there are and as the frame lacks. */
    method ReadSome(chunks: seq<seq<byte>>, dmax: nat) returns (left: seq<seq<byte>>)
      requires Valid() && dmax == Missing() > 0 && dcur + dmax <= buffer.Length
      requires AllNonEmpty(chunks) && chunks != []
      modifies this`dcur, this`received, buffer
      ensures Valid() && AllNonEmpty(left) && received + Flat(left) == old(received) + Flat(chunks)
      ensures |Flat(left)| < |Flat(chunks)|
    {
      ghost var front := buffer[..dcur];
      var n := Min(dmax, |chunks[0]|);
      Receive(chunks[0], n);
      left := Front(chunks, n);
      NextBytes(old(received), chunks, n, left);
      if |front| >= HEADER_SIZE {
        assert front == buffer[..dcur][..|front|];
        SameLen(front, buffer[..dcur]);
      }
    }

    /**
     Consumes what the socket has.  Whatever the chunks, the requests are the frames of the
     bytes received so far, and the buffer holds the bytes behind them.
     */
    method OnData(chunks: seq<seq<byte>>, last: Last) returns (o: Outcome, left: seq<seq<byte>>)
      requires Valid() && AllNonEmpty(chunks)
      modifies this, buffer
      ensures Valid() && (buffer == old(buffer) || fresh(buffer))
      ensures received + Flat(left) == old(received) + Flat(chunks)
      ensures requests == Completed(received) && buffer[..dcur] == Unfinished(received)
      ensures if o.Stuck? then dcur == HEADER_SIZE && LenOf(buffer[..dcur]) < HEADER_SIZE
              else left == [] && o == (if last.EAgain? then Waiting else Closed)
    {
      left := chunks;
      while true
        invariant Valid() && (buffer == old(buffer) || fresh(buffer)) && AllNonEmpty(left)
        invariant received + Flat(left) == old(received) + Flat(chunks)
        decreases |Flat(left)|, if Missing() == 0 then 1 else 0
      {
        var dread, dmax := dcur, Missing();
        if dmax < 0 {
          Reassembly(requests, buffer[..dcur]);
          return Stuck, left;
        }
        if dcur + dmax > buffer.Length { Realloc(dread + dmax); }
        if dmax == 0 {
          Fire();
          continue;
        }
        if left == [] {
          Reassembly(requests, buffer[..dcur]);
          return if last.EAgain? then Waiting else Closed, left;
        }
        left := ReadSome(left, dmax);
      }
    }
  }

  ghost predicate AllNonEmpty(chunks: seq<seq<byte>>) {
    forall i :: 0 <= i < |chunks| ==> chunks[i] != []
  }

  lemma NextBytes(before: seq<byte>, chunks: seq<seq<byte>>, n: nat, left: seq<seq<byte>>)
    requires chunks != [] && n <= |chunks[0]| && left == Front(chunks, n)
    ensures (before + chunks[0][..n]) + Flat(left) == before + Flat(chunks)
  {
    FlatFront(chunks, n);
    Regroup(before, chunks[0][..n], Flat(left));
  }

  /** One more request, and nothing behind it. */
  lemma WireMore(rs: seq<Request>, r: Request, nothing: seq<byte>)
    requires AllWellFormed(rs) && WellFormed(r) && nothing == []
    ensures AllWellFormed(rs + [r]) && Wire(rs + [r]) + nothing == Wire(rs) + FrameOf(r)
  {
    assert (rs + [r])[..|rs|] == rs;
  }
}
