/** The pieces of a record: buffers gathered into one run of bytes, and scattered back from it. */
module DataArrays {
  import opened Bytes

  const F_CDARRAY_VLEN := 0x01
  const LENGTHS := 0x100_0000

  /** A variable piece takes all that is left, as far as it fits. */
  datatype Piece = Piece(len: nat, variable: bool)

  // ---------- a length and flags in one word ----------

  function Pack(p: Piece): nat
    requires p.len < LENGTHS
  {
    p.len + (if p.variable then F_CDARRAY_VLEN else 0) * LENGTHS
  }

  function Unpack(arg: nat): Piece {
    var flags := arg / LENGTHS % 0x100;
    Piece(arg % LENGTHS, flags % 2 == F_CDARRAY_VLEN)
  }

  lemma UnpackUndoesPack(p: Piece)
    requires p.len < LENGTHS
    ensures Unpack(Pack(p)) == p && Pack(p) < 0x1_0000_0000
  {
  }

  // ---------- gather and scatter ----------

  function Gather(contents: seq<seq<byte>>): seq<byte> {
    if contents == [] then [] else contents[0] + Gather(contents[1..])
  }

  /** What one piece takes from the bytes that are left. */
  function Share(p: Piece, data: seq<byte>): (s: seq<byte>)
    requires p.variable || p.len <= |data|
    ensures s <= data
  {
    data[..Min(p.len, |data|)]
  }

  /** What is left after it: a variable piece uses up everything. */
  function After(p: Piece, data: seq<byte>): (s: seq<byte>)
    requires p.variable || p.len <= |data|
  {
    if p.variable then [] else data[p.len..]
  }

  /** The pieces delivered: as many as can be served. */
  function Scatter(pieces: seq<Piece>, data: seq<byte>): (r: seq<seq<byte>>)
    ensures |r| <= |pieces|
  {
    if pieces == [] || !(pieces[0].variable || pieces[0].len <= |data|) then []
    else [Share(pieces[0], data)] + Scatter(pieces[1..], After(pieces[0], data))
  }

  function Fixed(contents: seq<seq<byte>>): (ps: seq<Piece>)
    ensures |ps| == |contents|
  {
    seq(|contents|, i requires 0 <= i < |contents| => Piece(|contents[i]|, false))
  }

  lemma FirstPart(c: seq<byte>, x: seq<byte>)
    ensures (c + x)[..|c|] == c && (c + x)[|c|..] == x
  {
  }

  lemma ScatterStep(c: seq<byte>, pieces: seq<Piece>, x: seq<byte>)
    ensures Scatter([Piece(|c|, false)] + pieces, c + x) == [c] + Scatter(pieces, x)
  {
    FirstPart(c, x);
    assert ([Piece(|c|, false)] + pieces)[1..] == pieces;
  }

  lemma FixedStep(contents: seq<seq<byte>>)
    requires contents != []
    ensures Fixed(contents) == [Piece(|contents[0]|, false)] + Fixed(contents[1..])
  {
  }

  /** Fixed pieces come back unchanged, followed by what the other pieces make of the rest. */
  lemma {:induction false} ScatterFixed(contents: seq<seq<byte>>, pieces: seq<Piece>, rest: seq<byte>)
    ensures Scatter(Fixed(contents) + pieces, Gather(contents) + rest) == contents + Scatter(pieces, rest)
  {
    if contents == [] {
      assert Fixed(contents) + pieces == pieces && Gather(contents) + rest == rest;
      assert contents + Scatter(pieces, rest) == Scatter(pieces, rest);
    } else {
      var c, more := contents[0], contents[1..];
      FixedStep(contents);
      Regroup([Piece(|c|, false)], Fixed(more), pieces);
      Regroup(c, Gather(more), rest);
      ScatterStep(c, Fixed(more) + pieces, Gather(more) + rest);
      ScatterFixed(more, pieces, rest);
      Regroup([c], more, Scatter(pieces, rest));
      assert contents == [c] + more;
    }
  }

  lemma {:induction false} GatherAppend(contents: seq<seq<byte>>, more: seq<seq<byte>>)
    ensures Gather(contents + more) == Gather(contents) + Gather(more)
  {
    if contents == [] {
      assert contents + more == more;
    } else {
      assert (contents + more)[1..] == contents[1..] + more;
      GatherAppend(contents[1..], more);
    }
  }

  lemma GatherOne(v: seq<byte>)
    ensures Gather([v]) == v
  {
  }

  lemma ScatterOne(p: Piece, v: seq<byte>)
    requires p.variable
    ensures Scatter([p], v) == [Share(p, v)]
  {
  }

  /** Without a variable piece, scattering returns what was gathered. */
  lemma FixedRoundTrip(contents: seq<seq<byte>>)
    ensures Scatter(Fixed(contents), Gather(contents)) == contents
  {
    ScatterFixed(contents, [], []);
    assert Fixed(contents) + [] == Fixed(contents) && Gather(contents) + [] == Gather(contents);
  }

  /**
   Fixed pieces followed by a variable one: every fixed piece returns unchanged, and of the
   variable one the longest prefix that fits the receiver.
   */
  lemma GatherScatter(contents: seq<seq<byte>>, v: seq<byte>, receiver: Piece)
    requires receiver.variable
    ensures var r := Scatter(Fixed(contents) + [receiver], Gather(contents + [v]));
            r == contents + [v[..Min(receiver.len, |v|)]]
  {
    GatherAppend(contents, [v]);
    GatherOne(v);
    ScatterFixed(contents, [receiver], v);
    ScatterOne(receiver, v);
  }

  /** The size of the fixed pieces before the first variable one. */
  function FixedSize(pieces: seq<Piece>): nat {
    if pieces == [] || pieces[0].variable then 0 else pieces[0].len + FixedSize(pieces[1..])
  }

  function Size(pieces: seq<Piece>): nat {
    if pieces == [] then 0 else pieces[0].len + Size(pieces[1..])
  }

  /** Pieces that can all be served from nothing. */
  predicate NoDemand(pieces: seq<Piece>) {
    pieces == [] || ((pieces[0].variable || pieces[0].len == 0) && NoDemand(pieces[1..]))
  }

  /** No fixed piece that needs bytes comes after a variable one. */
  predicate VariableLast(pieces: seq<Piece>) {
    pieces == [] || if pieces[0].variable then NoDemand(pieces[1..]) else VariableLast(pieces[1..])
  }

  lemma {:induction false} NothingLeft(pieces: seq<Piece>)
    ensures |Scatter(pieces, [])| == |pieces| <==> NoDemand(pieces)
  {
    if pieces != [] {
      assert pieces[0].variable || pieces[0].len == 0 ==> After(pieces[0], []) == [];
      NothingLeft(pieces[1..]);
    }
  }

  /** Every piece is served exactly when the fixed ones fit and none of them follows a variable one. */
  lemma {:induction false} AllServed(pieces: seq<Piece>, data: seq<byte>)
    ensures |Scatter(pieces, data)| == |pieces| <==> FixedSize(pieces) <= |data| && VariableLast(pieces)
  {
    if pieces != [] {
      if pieces[0].variable {
        NothingLeft(pieces[1..]);
      } else if pieces[0].len <= |data| {
        AllServed(pieces[1..], data[pieces[0].len..]);
      }
    }
  }

  // ---------- the program ----------

  class DataArray {
    const datas: seq<array<byte>>
    const pieces: seq<Piece>
    const size: nat
    const fsize: nat

    ghost predicate Valid() {
      Roomy() && size == Size(pieces) && fsize == FixedSize(pieces)
    }

    /** The buffers are different and hold as many bytes as their pieces say. */
    ghost predicate Roomy() {
      && |datas| == |pieces|
      && (forall i, j :: 0 <= i < j < |datas| ==> datas[i] != datas[j])
      && (forall i :: 0 <= i < |pieces| ==> pieces[i].len <= datas[i].Length)
    }

    /** Buffers and packed lengths, as the C++ constructor takes them; its arrays hold 1024 bytes. */
    constructor (args: seq<(array<byte>, nat)>)
      requires |args| * 13 <= 1024
      requires forall i, j :: 0 <= i < j < |args| ==> args[i].0 != args[j].0
      requires forall i :: 0 <= i < |args| ==> Unpack(args[i].1).len <= args[i].0.Length
      ensures Valid()
      ensures |datas| == |args| && forall i :: 0 <= i < |args| ==> datas[i] == args[i].0 && pieces[i] == Unpack(args[i].1)
    {
      var ds: seq<array<byte>>, us: seq<Piece>, total: nat, fixedTotal: nat, fixed := [], [], 0, 0, true;
      for index := 0 to |args|
        invariant |ds| == |us| == index
        invariant forall i :: 0 <= i < index ==> ds[i] == args[i].0 && us[i] == Unpack(args[i].1)
        invariant total == Size(us)
        invariant fixedTotal == FixedSize(us)
        invariant fixed <==> forall i :: 0 <= i < index ==> !us[i].variable
      {
        var u := Unpack(args[index].1);
        SizeOfMore(us, u);
        total := total + u.len;
        if u.variable { fixed := false; }
        if fixed { fixedTotal := fixedTotal + u.len; }
        ds, us := ds + [args[index].0], us + [u];
      }
      datas, pieces, size, fsize := ds, us, total, fixedTotal;
    }

    /** The bytes of every piece. */
    ghost function Contents(): (c: seq<seq<byte>>)
      requires Valid()
      reads datas
      ensures |c| == |pieces|
    {
      seq(|datas|, i requires 0 <= i < |datas| reads datas requires pieces[i].len <= datas[i].Length => datas[i][..pieces[i].len])
    }

    /** All bytes of the pieces, one after the other. */
    ghost function Bytes(): (b: seq<byte>)
      requires Valid()
      reads datas
      ensures b == Gather(Contents()) && |b| == size
    {
      GatherSize(Contents(), pieces);
      Gather(Contents())
    }

    /** The buffers in full. */
    ghost function All(): (c: seq<seq<byte>>)
      reads datas
      ensures |c| == |datas| && forall i :: 0 <= i < |c| ==> c[i] == datas[i][..]
    {
      seq(|datas|, i requires 0 <= i < |datas| reads datas => datas[i][..])
    }

    /** What the buffers hold once the first n of these pieces were delivered. */
    ghost predicate HoldsFirst(before: seq<seq<byte>>, got: seq<seq<byte>>, n: nat)
      requires |before| == |datas| && n <= |got| <= |datas|
      reads datas
    {
      forall i :: 0 <= i < |datas| ==> datas[i][..] == if i < n then Filled(before[i], got[i]) else before[i]
    }

    ghost predicate Holds(before: seq<seq<byte>>, got: seq<seq<byte>>)
      requires |before| == |datas| && |got| <= |datas|
      reads datas
    {
      HoldsFirst(before, got, |got|)
    }

    /** The bytes of one piece. */
    method Fill(index: nat, data: array<byte>, start: nat, dlen: nat, ghost rest: seq<byte>)
      requires Roomy() && index < |pieces| && data !in datas && start + dlen <= data.Length
      requires rest == data[..][start..start + dlen] && Served(pieces[index], rest)
      modifies datas[index]
      ensures datas[index][..] == Filled(old(datas[index][..]), Share(pieces[index], rest))
    {
      var piece, item := pieces[index], datas[index];
      var bcpy := if piece.variable then Min(piece.len, dlen) else piece.len;
      assert Share(piece, rest) == data[start..start + bcpy];
      ghost var before := item[..];
      Copy(item, 0, data, start, bcpy);
      FilledBy(item[..], before, data[..], start, bcpy);
    }

    /** One round of the loop of SetFromBuffer. */
    method Receive(index: nat, data: array<byte>, start: nat, dlen: nat, ghost before: seq<seq<byte>>, ghost got: seq<seq<byte>>, ghost rests: seq<seq<byte>>)
      requires Roomy() && data !in datas && start + dlen <= data.Length
      requires |rests| == |got| + 1 && index < |got| <= |pieces| && TraceAt(pieces, got, rests, index)
      requires rests[index] == data[..][start..start + dlen]
      requires |before| == |pieces| && HoldsFirst(before, got, index)
      modifies datas[index]
      ensures HoldsFirst(before, got, index + 1)
    {
      assert datas[index][..] == before[index];
      Fill(index, data, start, dlen, rests[index]);
      forall i | 0 <= i < |datas| ensures datas[i][..] == if i < index + 1 then Filled(before[i], got[i]) else before[i] {
        if i != index {
          assert datas[i] != datas[index] && datas[i][..] == old(datas[i][..]);
        }
      }
    }

    /** One piece of the loop, if it can be served; taken are the bytes it uses up. */
    method ServePiece(index: nat, data: array<byte>, start: nat, dlen: nat, ghost bytes: seq<byte>, ghost before: seq<seq<byte>>, ghost got: seq<seq<byte>>, ghost rests: seq<seq<byte>>)
        returns (served: bool, taken: nat)
      requires Roomy() && data !in datas && data[..] == bytes && start + dlen <= |bytes| && index < |pieces|
      requires Traced(pieces, got, rests) && index <= |got| && rests[index] == bytes[start..start + dlen]
      requires |before| == |pieces| && HoldsFirst(before, got, index)
      modifies datas[index]
      ensures served <==> index < |got|
      ensures served ==> taken <= dlen && HoldsFirst(before, got, index + 1) && rests[index + 1] == bytes[start + taken..start + dlen]
      ensures !served ==> HoldsFirst(before, got, index)
    {
      var piece := pieces[index];
      NextRound(pieces, got, rests, index, bytes, start, dlen);
      if !piece.variable && dlen < piece.len { return false, 0; }
      Receive(index, data, start, dlen, before, got, rests);
      return true, if piece.variable then dlen else piece.len;
    }

    /** The loop of SetFromBuffer; got are the pieces it will deliver, rests what is left before each of them. */
    method Serve(data: array<byte>, start: nat, dlen: nat, ghost bytes: seq<byte>, ghost got: seq<seq<byte>>, ghost rests: seq<seq<byte>>) returns (code: int)
      requires Roomy() && data !in datas && data[..] == bytes && start + dlen <= |bytes|
      requires Traced(pieces, got, rests) && rests[0] == bytes[start..start + dlen]
      modifies datas
      ensures HoldsFirst(old(All()), got, |got|) && code == if |got| == |pieces| then 0 else -1
    {
      ghost var before := All();
      var pdata, left, index := start, dlen, 0;
      while index < |pieces|
        invariant 0 <= index <= |got| && data[..] == bytes
        invariant 0 <= pdata && 0 <= left && pdata + left <= |bytes|
        invariant rests[index] == bytes[pdata..pdata + left]
        invariant HoldsFirst(before, got, index)
      {
        var served, idata := ServePiece(index, data, pdata, left, bytes, before, got, rests);
        if !served { return -1; }
        pdata, left := pdata + idata, left - idata;
        index := index + 1;
      }
      return 0;
    }

    /**
     Scatters dlen bytes over the pieces.  A piece that needs more than is left stops it; a
     negative length is what a damaged record can leave, and stops at the first piece.
     */
    method SetFromBuffer(data: array<byte>, start: nat, dlen: int) returns (code: int)
      requires Valid() && data !in datas && start <= data.Length && start + dlen <= data.Length
      requires dlen >= 0 || pieces == [] || !pieces[0].variable
      modifies datas
      ensures var got := Delivered(pieces, data[..], start, dlen);
              Holds(old(All()), got) && code == if |got| == |pieces| then 0 else -1
    {
      if dlen < 0 {
        code := if |pieces| == 0 then 0 else -1;
      } else {
        ghost var bytes := data[..][start..start + dlen];
        ghost var rests := ScatterTrace(pieces, bytes);
        code := Serve(data, start, dlen, data[..], Scatter(pieces, bytes), rests);
      }
    }
  }

  lemma FilledBy(after: seq<byte>, before: seq<byte>, data: seq<byte>, at: nat, n: nat)
    requires |after| == |before| && n <= |after| && at + n <= |data|
    requires after[n..] == before[n..] && after[0..n] == data[at..at + n]
    ensures after == Filled(before, data[at..at + n])
  {
    assert after == after[0..n] + after[n..];
  }

  predicate Served(piece: Piece, rest: seq<byte>) {
    piece.variable || piece.len <= |rest|
  }

  /** got[i] is what piece i takes from rests[i], and rests[i + 1] is what it leaves. */
  ghost predicate TraceAt(pieces: seq<Piece>, got: seq<seq<byte>>, rests: seq<seq<byte>>, i: nat)
    requires |rests| == |got| + 1 && i < |got| <= |pieces|
  {
    Served(pieces[i], rests[i]) && got[i] == Share(pieces[i], rests[i]) && rests[i + 1] == After(pieces[i], rests[i])
  }

  ghost predicate Trace(pieces: seq<Piece>, data: seq<byte>, got: seq<seq<byte>>, rests: seq<seq<byte>>) {
    && |rests| == |got| + 1 && |got| <= |pieces| && rests[0] == data
    && forall i :: 0 <= i < |got| ==> TraceAt(pieces, got, rests, i)
  }

  ghost predicate Stops(pieces: seq<Piece>, got: seq<seq<byte>>, rests: seq<seq<byte>>)
    requires |rests| == |got| + 1 && |got| <= |pieces|
  {
    |got| < |pieces| ==> !Served(pieces[|got|], rests[|got|])
  }

  /** A complete trace. */
  ghost predicate Traced(pieces: seq<Piece>, got: seq<seq<byte>>, rests: seq<seq<byte>>) {
    |rests| == |got| + 1 && |got| <= |pieces| && Trace(pieces, rests[0], got, rests) && Stops(pieces, got, rests)
  }

  /** A piece that can be served has its place in the trace; the other pieces end it. */
  lemma NextRound(pieces: seq<Piece>, got: seq<seq<byte>>, rests: seq<seq<byte>>, index: nat, data: seq<byte>, at: nat, n: nat)
    requires Traced(pieces, got, rests) && index < |pieces| && index <= |got| && at + n <= |data| && rests[index] == data[at..at + n]
    ensures index < |got| <==> pieces[index].variable || pieces[index].len <= n
    ensures index < |got| ==> TraceAt(pieces, got, rests, index)
    ensures index < |got| ==>
      var taken := if pieces[index].variable then n else pieces[index].len;
      rests[index + 1] == data[at + taken..at + n]
  {
    if index < |got| {
      assert TraceAt(pieces, got, rests, index);
    }
  }

  /** The rounds that scattering takes. */
  lemma {:induction false} ScatterTrace(pieces: seq<Piece>, data: seq<byte>) returns (rests: seq<seq<byte>>)
    ensures Trace(pieces, data, Scatter(pieces, data), rests) && Stops(pieces, Scatter(pieces, data), rests)
  {
    rests := [data];
    if pieces != [] && Served(pieces[0], data) {
      var later := ScatterTrace(pieces[1..], After(pieces[0], data));
      rests := [data] + later;
      var got, more := Scatter(pieces, data), Scatter(pieces[1..], After(pieces[0], data));
      forall i | 0 <= i < |got| ensures TraceAt(pieces, got, rests, i) {
        if i > 0 { assert TraceAt(pieces[1..], more, later, i - 1); }
      }
    }
  }

  /** The pieces delivered from dlen bytes of a buffer. */
  function Delivered(pieces: seq<Piece>, data: seq<byte>, start: nat, dlen: int): (got: seq<seq<byte>>)
    requires start + dlen <= |data|
    ensures |got| <= |pieces|
  {
    if dlen < 0 then [] else Scatter(pieces, data[start..start + dlen])
  }

  /** A buffer after a piece was copied into it: the rest keeps its bytes. */
  function Filled(before: seq<byte>, got: seq<byte>): seq<byte> {
    if |got| <= |before| then got + before[|got|..] else got
  }

  lemma {:induction false} GatherSize(contents: seq<seq<byte>>, pieces: seq<Piece>)
    requires |contents| == |pieces| && forall i :: 0 <= i < |pieces| ==> |contents[i]| == pieces[i].len
    ensures |Gather(contents)| == Size(pieces)
  {
    if pieces != [] {
      GatherSize(contents[1..], pieces[1..]);
    }
  }

  lemma {:induction false} SizeOfMore(us: seq<Piece>, u: Piece)
    ensures Size(us + [u]) == Size(us) + u.len
    ensures FixedSize(us + [u]) == FixedSize(us) +
      (if (forall i :: 0 <= i < |us| ==> !us[i].variable) && !u.variable then u.len else 0)
  {
    if us != [] {
      var rest := us[1..];
      assert (us + [u])[1..] == rest + [u];
      SizeOfMore(rest, u);
      if !us[0].variable {
        assert (forall i :: 0 <= i < |us| ==> !us[i].variable) <==> (forall i :: 0 <= i < |rest| ==> !rest[i].variable) by {
          if forall i :: 0 <= i < |rest| ==> !rest[i].variable {
            forall i | 0 <= i < |us| ensures !us[i].variable { if i > 0 { assert us[i] == rest[i - 1]; } }
          }
        }
      }
    }
  }
}