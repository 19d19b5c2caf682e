/** 32-bit words as the C++ source stores them, and the number a word stands for. */
module Uint32 {

  type uint32 = bv32

  // Unsigned arithmetic wraps around.
  function Inc(w: uint32): uint32 { w + 1 }

  function Dec(w: uint32): uint32 { w - 1 }

  function Byte0(w: uint32): bv8 { (w & 0xff) as bv8 }

  function Byte1(w: uint32): bv8 { ((w >> 8) & 0xff) as bv8 }

  function Byte2(w: uint32): bv8 { ((w >> 16) & 0xff) as bv8 }

  function Byte3(w: uint32): bv8 { (w >> 24) as bv8 }

  // The number stored in a byte, by counting: the solver is slow on conversions of wider words.
  function ByteValue(b: bv8): nat
    decreases b as int
  {
    if b == 0 then 0 else PredecessorSmaller(b); ByteValue(b - 1) + 1
  }

  lemma PredecessorSmaller(b: bv8)
    requires b != 0
    ensures (b - 1) as int == b as int - 1
  {
  }

  lemma {:induction false} ByteValueIsInt(b: bv8)
    ensures ByteValue(b) == b as int
    decreases b as int
  {
    if b != 0 {
      PredecessorSmaller(b);
      ByteValueIsInt(b - 1);
    }
  }

  lemma ByteBound(b: bv8)
    ensures ByteValue(b) < 0x100
  {
    ByteValueIsInt(b);
  }

  lemma ByteInjective(a: bv8, b: bv8)
    requires ByteValue(a) == ByteValue(b)
    ensures a == b
  {
    ByteValueIsInt(a);
    ByteValueIsInt(b);
  }

  lemma ByteSuccessor(b: bv8)
    requires b != 0xff
    ensures ByteValue(b + 1) == ByteValue(b) + 1
  {
    assert b + 1 != 0 && (b + 1) - 1 == b;
  }

  // The unsigned number stored in a word; comparisons of uint32_t values are comparisons of these.
  function Value(w: uint32): nat {
    ByteValue(Byte0(w)) + 0x100 * ByteValue(Byte1(w)) +
    0x1_0000 * ByteValue(Byte2(w)) + 0x100_0000 * ByteValue(Byte3(w))
  }

  lemma ByteOrder(a: bv8, b: bv8)
    requires a <= b
    ensures ByteValue(a) <= ByteValue(b)
  {
    ByteValueIsInt(a);
    ByteValueIsInt(b);
  }

  lemma Carry(w: uint32)
    ensures Byte0(w) != 0xff ==>
      Byte0(w + 1) == Byte0(w) + 1 && Byte1(w + 1) == Byte1(w) && Byte2(w + 1) == Byte2(w) && Byte3(w + 1) == Byte3(w)
    ensures Byte0(w) == 0xff && Byte1(w) != 0xff ==>
      Byte0(w + 1) == 0 && Byte1(w + 1) == Byte1(w) + 1 && Byte2(w + 1) == Byte2(w) && Byte3(w + 1) == Byte3(w)
    ensures Byte0(w) == 0xff && Byte1(w) == 0xff && Byte2(w) != 0xff ==>
      Byte0(w + 1) == 0 && Byte1(w + 1) == 0 && Byte2(w + 1) == Byte2(w) + 1 && Byte3(w + 1) == Byte3(w)
    ensures w != 0xffff_ffff && Byte0(w) == 0xff && Byte1(w) == 0xff && Byte2(w) == 0xff ==>
      Byte0(w + 1) == 0 && Byte1(w + 1) == 0 && Byte2(w + 1) == 0 && Byte3(w + 1) == Byte3(w) + 1 && Byte3(w) != 0xff
  {
  }

  lemma ValueSuccessor(w: uint32)
    requires w != 0xffff_ffff
    ensures Value(w + 1) == Value(w) + 1
  {
    Carry(w);
    ByteValueIsInt(0xff);
    if Byte0(w) != 0xff {
      ByteSuccessor(Byte0(w));
    } else if Byte1(w) != 0xff {
      ByteSuccessor(Byte1(w));
    } else if Byte2(w) != 0xff {
      ByteSuccessor(Byte2(w));
    } else {
      ByteSuccessor(Byte3(w));
    }
  }

  lemma WordOfBytes(v: uint32, w: uint32)
    requires Byte0(v) == Byte0(w) && Byte1(v) == Byte1(w) && Byte2(v) == Byte2(w) && Byte3(v) == Byte3(w)
    ensures v == w
  {
  }

  lemma DigitsInjective(a: nat, b: nat, c: nat, d: nat, a': nat, b': nat, c': nat, d': nat)
    requires a < 0x100 && b < 0x100 && c < 0x100 && a' < 0x100 && b' < 0x100 && c' < 0x100
    requires a + 0x100 * b + 0x1_0000 * c + 0x100_0000 * d == a' + 0x100 * b' + 0x1_0000 * c' + 0x100_0000 * d'
    ensures a == a' && b == b' && c == c' && d == d'
  {
  }

  lemma ValueInjective(v: uint32, w: uint32)
    requires Value(v) == Value(w)
    ensures v == w
  {
    ByteBound(Byte0(v));
    ByteBound(Byte1(v));
    ByteBound(Byte2(v));
    ByteBound(Byte0(w));
    ByteBound(Byte1(w));
    ByteBound(Byte2(w));
    DigitsInjective(ByteValue(Byte0(v)), ByteValue(Byte1(v)), ByteValue(Byte2(v)), ByteValue(Byte3(v)),
                    ByteValue(Byte0(w)), ByteValue(Byte1(w)), ByteValue(Byte2(w)), ByteValue(Byte3(w)));
    ByteInjective(Byte0(v), Byte0(w));
    ByteInjective(Byte1(v), Byte1(w));
    ByteInjective(Byte2(v), Byte2(w));
    ByteInjective(Byte3(v), Byte3(w));
    WordOfBytes(v, w);
  }
}
