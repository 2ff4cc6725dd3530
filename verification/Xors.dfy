/**
 Exclusive or of 32-bit words as a function value m: the lemmas keep equations about m apart
 from facts about bits, so that each can be used alone.
 */
module Xors {

  type Mix = (bv32, bv32) -> bv32

  predicate XorAt(m: Mix, x: bv32, y: bv32) {
    m(x, y) == x ^ y
  }

  ghost predicate IsXor(m: Mix) {
    forall x, y :: XorAt(m, x, y)
  }

  // ---------- bits ----------

  lemma XorCancel(x: bv32, y: bv32)
    ensures x ^ y == 0 <==> x == y
  {
  }

  lemma XorZero(x: bv32)
    ensures x ^ 0 == x
  {
  }

  lemma XorComm(x: bv32, y: bv32)
    ensures x ^ y == y ^ x
  {
  }

  lemma XorAssoc(x: bv32, y: bv32, z: bv32)
    ensures (x ^ y) ^ z == x ^ (y ^ z)
  {
  }

  lemma HighXor(x: bv32, y: bv32)
    ensures (x ^ y) >> 8 == (x >> 8) ^ (y >> 8)
  {
  }

  lemma LowXor(x: bv32, y: bv32)
    ensures (x ^ y) & 0xFF == (x & 0xFF) ^ (y & 0xFF)
  {
  }

  lemma LeftXor(x: bv32, y: bv32)
    ensures (x ^ y) << 1 == (x << 1) ^ (y << 1)
  {
  }

  lemma FarLeftXor(x: bv32, y: bv32)
    ensures (x ^ y) << 24 == (x << 24) ^ (y << 24)
  {
  }

  predicate Top(x: bv32) {
    x & 0x8000_0000 != 0
  }

  lemma TopXor(x: bv32, y: bv32)
    ensures Top(x ^ y) <==> Top(x) != Top(y)
  {
  }

  // ---------- m ----------

  lemma MixIs(m: Mix, x: bv32, y: bv32)
    requires IsXor(m)
    ensures m(x, y) == x ^ y
  {
    assert XorAt(m, x, y);
  }

  lemma MixOnes(m: Mix, c: bv32, w: bv32)
    requires IsXor(m)
    ensures w == !c <==> m(c, w) == 0xFFFF_FFFF
  {
    MixIs(m, c, w);
    if w == !c { XorNot(c); } else { NotXor(c, w); }
  }

  lemma XorNot(c: bv32)
    ensures c ^ !c == 0xFFFF_FFFF
  {
  }

  lemma NotXor(c: bv32, w: bv32)
    requires w != !c
    ensures c ^ w != 0xFFFF_FFFF
  {
  }

  lemma MixComm(m: Mix, x: bv32, y: bv32)
    requires IsXor(m)
    ensures m(x, y) == m(y, x)
  {
    XorComm(x, y);
    MixIs(m, x, y);
    MixIs(m, y, x);
  }

  lemma MixAssoc(m: Mix, x: bv32, y: bv32, z: bv32)
    requires IsXor(m)
    ensures m(m(x, y), z) == m(x, m(y, z))
  {
    XorAssoc(x, y, z);
    MixIs(m, x, y);
    MixIs(m, y, z);
    MixIs(m, x ^ y, z);
    MixIs(m, x, y ^ z);
  }

  lemma MixSwap(m: Mix, a: bv32, b: bv32, c: bv32, d: bv32)
    requires IsXor(m)
    ensures m(m(a, b), m(c, d)) == m(m(a, c), m(b, d))
  {
    MixAssoc(m, a, b, m(c, d));
    MixAssoc(m, b, c, d);
    MixComm(m, b, c);
    MixAssoc(m, c, b, d);
    MixAssoc(m, a, c, m(b, d));
  }

  lemma MixCancel(m: Mix, x: bv32, y: bv32)
    requires IsXor(m)
    ensures m(x, y) == 0 <==> x == y
  {
    XorCancel(x, y);
    MixIs(m, x, y);
  }

  lemma MixZeroRight(m: Mix, x: bv32)
    requires IsXor(m)
    ensures m(x, 0) == x
  {
    XorZero(x);
    MixIs(m, x, 0);
  }

  lemma MixZero(m: Mix, x: bv32)
    requires IsXor(m)
    ensures m(x, 0) == x && m(0, x) == x
  {
    MixZeroRight(m, x);
    MixComm(m, x, 0);
  }

  lemma MixBack(m: Mix, c: bv32, x: bv32)
    requires IsXor(m)
    ensures m(c, m(c, x)) == x && m(m(x, c), c) == x
  {
    MixAssoc(m, c, c, x);
    MixAssoc(m, x, c, c);
    MixCancel(m, c, c);
    MixZero(m, x);
  }

  lemma MixSame(m: Mix, c: bv32, x: bv32, y: bv32)
    requires IsXor(m) && m(c, x) == m(c, y)
    ensures x == y
  {
    MixBack(m, c, x);
    MixBack(m, c, y);
  }

  lemma MixSameRight(m: Mix, x: bv32, y: bv32, c: bv32)
    requires IsXor(m) && m(x, c) == m(y, c)
    ensures x == y
  {
    MixBack(m, c, x);
    MixBack(m, c, y);
  }

  lemma MixHigh(m: Mix, x: bv32, y: bv32)
    requires IsXor(m)
    ensures m(x, y) >> 8 == m(x >> 8, y >> 8)
  {
    HighXor(x, y);
    MixIs(m, x, y);
    MixIs(m, x >> 8, y >> 8);
  }

  lemma MixLow(m: Mix, x: bv32, y: bv32)
    requires IsXor(m)
    ensures m(x, y) & 0xFF == m(x & 0xFF, y & 0xFF)
  {
    LowXor(x, y);
    MixIs(m, x, y);
    MixIs(m, x & 0xFF, y & 0xFF);
  }

  lemma MixLeft(m: Mix, x: bv32, y: bv32)
    requires IsXor(m)
    ensures m(x, y) << 1 == m(x << 1, y << 1)
  {
    LeftXor(x, y);
    MixIs(m, x, y);
    MixIs(m, x << 1, y << 1);
  }

  lemma MixFarLeft(m: Mix, x: bv32, y: bv32)
    requires IsXor(m)
    ensures m(x, y) << 24 == m(x << 24, y << 24)
  {
    FarLeftXor(x, y);
    MixIs(m, x, y);
    MixIs(m, x << 24, y << 24);
  }

  lemma MixTop(m: Mix, x: bv32, y: bv32)
    requires IsXor(m)
    ensures Top(m(x, y)) <==> Top(x) != Top(y)
  {
    TopXor(x, y);
    MixIs(m, x, y);
  }

  // ---------- longer chains ----------

  function Xor4(a: bv32, b: bv32, c: bv32, d: bv32): bv32 {
    a ^ b ^ c ^ d
  }

  lemma MixChain(m: Mix, a: bv32, b: bv32, c: bv32, d: bv32)
    requires IsXor(m)
    ensures m(m(m(a, b), c), d) == Xor4(a, b, c, d)
  {
    MixIs(m, m(m(a, b), c), d);
    MixIs(m, m(a, b), c);
    MixIs(m, a, b);
  }

  lemma MixPairs(m: Mix, a: bv32, b: bv32, c: bv32, d: bv32)
    requires IsXor(m)
    ensures m(m(a, b), m(c, d)) == (a ^ b) ^ (c ^ d)
  {
    MixIs(m, a, b);
    MixIs(m, c, d);
    MixIs(m, a ^ b, c ^ d);
  }

  lemma MixNested(m: Mix, a: bv32, b: bv32, c: bv32, d: bv32, e: bv32)
    requires IsXor(m)
    ensures m(m(m(m(a, b), c), d), e) == m(a, m(m(m(b, c), d), e))
  {
    MixAssoc(m, a, b, c);
    MixAssoc(m, a, m(b, c), d);
    MixAssoc(m, a, m(m(b, c), d), e);
  }

  lemma MixReversed(m: Mix, a: bv32, b: bv32, c: bv32, d: bv32)
    requires IsXor(m)
    ensures m(m(m(a, b), c), d) == m(m(d, c), m(b, a))
  {
    MixAssoc(m, m(a, b), c, d);
    MixComm(m, m(a, b), m(c, d));
    MixComm(m, a, b);
    MixComm(m, c, d);
  }
}
