/** The state record as bytes: the fields that the model keeps, between those that it does not. */
module StateBytes {
  import opened Bytes
  import opened StoreModel

  const STATE_SIZE := 181

  predicate StateFits(st: State) {
    IsInt32(st.count) && IsInt32(st.commitCount) && IsInt32(st.dataCount) && IsInt32(st.lastCommit) && IsInt32(st.lastSequence)
  }

  /** Hash key and time; rollback counts; ring position; rollback and close sequences; close offset and ring. */
  datatype Others = Others(key: seq<byte>, rollbacks: seq<byte>, position: byte, sequences: seq<byte>, ring: seq<byte>)
  {
    predicate Fits() {
      |key| == 8 && |rollbacks| == 8 && |sequences| == 8 && |ring| == 136
    }
  }

  function FirstPart(st: State, o: Others): (b: seq<byte>)
    requires StateFits(st) && o.Fits()
    ensures |b| == 29
  {
    o.key + IntBytes(st.count) + IntBytes(st.commitCount) + o.rollbacks + IntBytes(st.dataCount) + [o.position]
  }

  function LastPart(st: State, o: Others): (b: seq<byte>)
    requires StateFits(st) && o.Fits()
    ensures |b| == 152
  {
    IntBytes(st.lastCommit) + o.sequences + IntBytes(st.lastSequence) + o.ring
  }

  /** CSafeStorageState, packed. */
  function EncodeState(st: State, o: Others): (b: seq<byte>)
    requires StateFits(st) && o.Fits()
    ensures |b| == STATE_SIZE
  {
    FirstPart(st, o) + LastPart(st, o)
  }

  function DecodeState(b: seq<byte>): State
    requires |b| == STATE_SIZE
  {
    State(LengthAt(b, 8), LengthAt(b, 12), LengthAt(b, 24), LengthAt(b, 29), LengthAt(b, 41))
  }

  lemma FirstParts(st: State, o: Others, b: seq<byte>)
    requires StateFits(st) && o.Fits() && |b| == STATE_SIZE && b[..29] == FirstPart(st, o)
    ensures b[8..12] == IntBytes(st.count) && b[12..16] == IntBytes(st.commitCount) && b[24..28] == IntBytes(st.dataCount)
  {
    var f := FirstPart(st, o);
    assert f[8..12] == IntBytes(st.count);
    assert f[12..16] == IntBytes(st.commitCount);
    assert f[24..28] == IntBytes(st.dataCount);
    assert b[8..12] == b[..29][8..12] && b[12..16] == b[..29][12..16] && b[24..28] == b[..29][24..28];
  }

  lemma LastParts(st: State, o: Others, b: seq<byte>)
    requires StateFits(st) && o.Fits() && |b| == STATE_SIZE && b[29..] == LastPart(st, o)
    ensures b[29..33] == IntBytes(st.lastCommit) && b[41..45] == IntBytes(st.lastSequence)
  {
    var l := LastPart(st, o);
    assert l[0..4] == IntBytes(st.lastCommit);
    assert l[12..16] == IntBytes(st.lastSequence);
    assert b[29..33] == b[29..][0..4] && b[41..45] == b[29..][12..16];
  }

  /** The fields of the model are read back, whatever the others hold. */
  lemma StateRoundTrip(st: State, o: Others)
    requires StateFits(st) && o.Fits()
    ensures DecodeState(EncodeState(st, o)) == st
  {
    var b := EncodeState(st, o);
    assert b[..29] == FirstPart(st, o) && b[29..] == LastPart(st, o);
    FirstParts(st, o, b);
    LastParts(st, o, b);
    IntRoundTrip(st.count, b, 8);
    IntRoundTrip(st.commitCount, b, 12);
    IntRoundTrip(st.dataCount, b, 24);
    IntRoundTrip(st.lastCommit, b, 29);
    IntRoundTrip(st.lastSequence, b, 41);
  }
}
