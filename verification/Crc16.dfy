/**
 The 16-bit CRC that protects both parts of a beacon: generator 0x1021, initial value 0, most significant
 bit first.
 */
module Crc16 {

  // One turn of the inner loop.
  function Shift(r: bv16): bv16 {
    if r & 0x8000 != 0 then (r << 1) ^ 0x1021 else r << 1
  }

  function Shifts(r: bv16, n: nat): bv16 {
    if n == 0 then r else Shift(Shifts(r, n - 1))
  }

  // A data byte is added to the upper half of the register.
  function Mix(r: bv16, b: bv8): bv16 {
    r ^ ((b as bv16) << 8)
  }

  function Absorb(r: bv16, b: bv8): bv16 {
    Shifts(Mix(r, b), 8)
  }

  function CrcFrom(r: bv16, data: seq<bv8>): bv16
    decreases |data|
  {
    if data == [] then r else CrcFrom(Absorb(r, data[0]), data[1..])
  }

  function Crc(data: seq<bv8>): bv16 {
    CrcFrom(0, data)
  }

  // A null pointer gives 0.
  method ComputeCrc16(data: array?<bv8>, size: nat) returns (r: bv16)
    requires data != null ==> size <= data.Length
    ensures r == if data == null then 0 else Crc(data[..size])
  {
    hide Shift, Mix;
    if data == null {
      return 0;
    }
    r := 0;
    var i := 0;
    while i < size
      invariant i <= size
      invariant CrcFrom(r, data[i..size]) == Crc(data[..size])
    {
      assert data[i..size][1..] == data[i + 1..size];
      ghost var mixed := Mix(r, data[i]);
      r := Mix(r, data[i]);
      var j := 0;
      while j < 8
        invariant j <= 8 && r == Shifts(mixed, j)
      {
        r := Shift(r);
        j := j + 1;
      }
      i := i + 1;
    }
    assert data[..size] == data[0..size];
  }

  // ---- linearity ----

  lemma XorShift(x: bv16, y: bv16)
    ensures (x ^ y) << 1 == (x << 1) ^ (y << 1)
  {
  }

  lemma XorTopBit(x: bv16, y: bv16)
    ensures (x ^ y) & 0x8000 != 0 <==> (x & 0x8000 != 0 <==> y & 0x8000 == 0)
  {
  }

  lemma XorRegroup(a: bv16, b: bv16, p: bv16)
    ensures (a ^ p) ^ (b ^ p) == a ^ b
    ensures (a ^ p) ^ b == (a ^ b) ^ p
    ensures a ^ (b ^ p) == (a ^ b) ^ p
  {
  }

  // Bitwise sums.
  function Sum(a: bv16, b: bv16): bv16 { a ^ b }

  function SumByte(a: bv8, b: bv8): bv8 { a ^ b }

  lemma ShiftLinear(x: bv16, y: bv16)
    ensures Shift(Sum(x, y)) == Sum(Shift(x), Shift(y))
  {
    XorShift(x, y);
    XorTopBit(x, y);
    XorRegroup(x << 1, y << 1, 0x1021);
  }

  lemma {:induction false} ShiftsLinear(x: bv16, y: bv16, n: nat)
    ensures Shifts(Sum(x, y), n) == Sum(Shifts(x, n), Shifts(y, n))
  {
    if n > 0 {
      hide Shift, Sum;
      ShiftsLinear(x, y, n - 1);
      ShiftLinear(Shifts(x, n - 1), Shifts(y, n - 1));
    }
  }

  lemma XorBytes(r: bv16, s: bv16, b: bv8, c: bv8)
    ensures (r ^ s) ^ (((b ^ c) as bv16) << 8) == (r ^ ((b as bv16) << 8)) ^ (s ^ ((c as bv16) << 8))
  {
  }

  lemma MixLinear(r: bv16, s: bv16, b: bv8, c: bv8)
    ensures Mix(Sum(r, s), SumByte(b, c)) == Sum(Mix(r, b), Mix(s, c))
  {
    XorBytes(r, s, b, c);
  }

  lemma AbsorbLinear(r: bv16, s: bv16, b: bv8, c: bv8)
    ensures Absorb(Sum(r, s), SumByte(b, c)) == Sum(Absorb(r, b), Absorb(s, c))
  {
    hide Shifts, Mix, Sum, SumByte;
    MixLinear(r, s, b, c);
    ShiftsLinear(Mix(r, b), Mix(s, c), 8);
  }

  function Xor(x: seq<bv8>, y: seq<bv8>): (d: seq<bv8>)
    requires |x| == |y|
    ensures |d| == |x|
  {
    seq(|x|, i requires 0 <= i < |x| => SumByte(x[i], y[i]))
  }

  lemma {:induction false} CrcFromLinear(r: bv16, s: bv16, x: seq<bv8>, y: seq<bv8>)
    requires |x| == |y|
    ensures CrcFrom(Sum(r, s), Xor(x, y)) == Sum(CrcFrom(r, x), CrcFrom(s, y))
    decreases |x|
  {
    hide Absorb, Sum, SumByte;
    if x != [] {
      AbsorbLinear(r, s, x[0], y[0]);
      CrcFromLinear(Absorb(r, x[0]), Absorb(s, y[0]), x[1..], y[1..]);
      assert Xor(x, y)[1..] == Xor(x[1..], y[1..]);
    }
  }

  lemma ZeroIsNeutral()
    ensures Sum(0, 0) == 0
  {
  }

  // The CRC of the bitwise sum of two messages of one length is the bitwise sum of their CRCs.
  lemma CrcLinear(x: seq<bv8>, y: seq<bv8>)
    requires |x| == |y|
    ensures Crc(Xor(x, y)) == Sum(Crc(x), Crc(y))
  {
    hide CrcFrom, Sum, Xor;
    ZeroIsNeutral();
    CrcFromLinear(0, 0, x, y);
  }

  // The CRC of a message can be computed piece by piece.
  lemma {:induction false} CrcFolds(r: bv16, a: seq<bv8>, b: seq<bv8>)
    ensures CrcFrom(r, a + b) == CrcFrom(CrcFrom(r, a), b)
    decreases |a|
  {
    hide Absorb;
    if a == [] {
      assert a + b == b;
    } else {
      CrcFolds(Absorb(r, a[0]), a[1..], b);
      assert (a + b)[1..] == a[1..] + b;
    }
  }

  // ---- burst errors ----

  // Shifting loses nothing.
  lemma ShiftKeepsNonZero(x: bv16)
    ensures Shift(x) == 0 <==> x == 0
  {
  }

  lemma {:induction false} ShiftsKeepNonZero(x: bv16, n: nat)
    ensures Shifts(x, n) == 0 <==> x == 0
  {
    if n > 0 {
      hide Shift;
      ShiftsKeepNonZero(x, n - 1);
      ShiftKeepsNonZero(Shifts(x, n - 1));
    }
  }

  lemma NoByte(r: bv16)
    ensures Mix(r, 0) == r
  {
  }

  lemma {:induction false} ZeroesKeepNonZero(r: bv16, zeroes: seq<bv8>)
    requires forall i :: 0 <= i < |zeroes| ==> zeroes[i] == 0
    ensures CrcFrom(r, zeroes) == 0 <==> r == 0
    decreases |zeroes|
  {
    if zeroes != [] {
      hide Shifts, Mix;
      NoByte(r);
      ShiftsKeepNonZero(r, 8);
      ZeroesKeepNonZero(Absorb(r, 0), zeroes[1..]);
    }
  }

  // The bits of three bytes outside the 16 bits from bit o (0..7, counted from the top) are 0.
  predicate InWindow(a: bv8, c: bv8, o: nat) {
    match o
    case 0 => a & 0 == 0 && c & 0xff == 0
    case 1 => a & 0x80 == 0 && c & 0x7f == 0
    case 2 => a & 0xc0 == 0 && c & 0x3f == 0
    case 3 => a & 0xe0 == 0 && c & 0x1f == 0
    case 4 => a & 0xf0 == 0 && c & 0xf == 0
    case 5 => a & 0xf8 == 0 && c & 7 == 0
    case 6 => a & 0xfc == 0 && c & 3 == 0
    case 7 => a & 0xfe == 0 && c & 1 == 0
    case _ => false
  }

  function Shift8(r: bv16): bv16 {
    Shift(Shift(Shift(Shift(Shift(Shift(Shift(Shift(r))))))))
  }

  lemma EightShifts(r: bv16)
    ensures Shifts(r, 8) == Shift8(r)
  {
    hide Shift;
    assert Shifts(r, 0) == r && Shifts(r, 1) == Shift(Shifts(r, 0));
    assert Shifts(r, 2) == Shift(Shifts(r, 1)) && Shifts(r, 3) == Shift(Shifts(r, 2));
    assert Shifts(r, 4) == Shift(Shifts(r, 3)) && Shifts(r, 5) == Shift(Shifts(r, 4));
    assert Shifts(r, 6) == Shift(Shifts(r, 5)) && Shifts(r, 7) == Shift(Shifts(r, 6));
    assert Shifts(r, 8) == Shift(Shifts(r, 7));
  }

  function Absorb8(r: bv16, b: bv8): bv16 {
    Shift8(Mix(r, b))
  }

  lemma Burst0(a: bv8, b: bv8, c: bv8)
    requires InWindow(a, c, 0) && Absorb8(Absorb8(Absorb8(0, a), b), c) == 0
    ensures a == 0 && b == 0 && c == 0
  {
  }

  lemma Burst1(a: bv8, b: bv8, c: bv8)
    requires InWindow(a, c, 1) && Absorb8(Absorb8(Absorb8(0, a), b), c) == 0
    ensures a == 0 && b == 0 && c == 0
  {
  }

  lemma Burst2(a: bv8, b: bv8, c: bv8)
    requires InWindow(a, c, 2) && Absorb8(Absorb8(Absorb8(0, a), b), c) == 0
    ensures a == 0 && b == 0 && c == 0
  {
  }

  lemma Burst3(a: bv8, b: bv8, c: bv8)
    requires InWindow(a, c, 3) && Absorb8(Absorb8(Absorb8(0, a), b), c) == 0
    ensures a == 0 && b == 0 && c == 0
  {
  }

  lemma Burst4(a: bv8, b: bv8, c: bv8)
    requires InWindow(a, c, 4) && Absorb8(Absorb8(Absorb8(0, a), b), c) == 0
    ensures a == 0 && b == 0 && c == 0
  {
  }

  lemma Burst5(a: bv8, b: bv8, c: bv8)
    requires InWindow(a, c, 5) && Absorb8(Absorb8(Absorb8(0, a), b), c) == 0
    ensures a == 0 && b == 0 && c == 0
  {
  }

  lemma Burst6(a: bv8, b: bv8, c: bv8)
    requires InWindow(a, c, 6) && Absorb8(Absorb8(Absorb8(0, a), b), c) == 0
    ensures a == 0 && b == 0 && c == 0
  {
  }

  lemma Burst7(a: bv8, b: bv8, c: bv8)
    requires InWindow(a, c, 7) && Absorb8(Absorb8(Absorb8(0, a), b), c) == 0
    ensures a == 0 && b == 0 && c == 0
  {
  }

  lemma CrcOfThree(a: bv8, b: bv8, c: bv8)
    ensures CrcFrom(0, [a, b, c]) == Absorb(Absorb(Absorb(0, a), b), c)
  {
    hide Absorb;
    CrcFolds(0, [a], [b] + [c]);
    CrcFolds(Absorb(0, a), [b], [c]);
    assert [a, b, c] == [a] + ([b] + [c]);
  }

  lemma ThreeBytes(a: bv8, b: bv8, c: bv8, o: nat)
    requires InWindow(a, c, o) && CrcFrom(0, [a, b, c]) == 0
    ensures a == 0 && b == 0 && c == 0
  {
    hide Shifts, Shift8, InWindow, Mix;
    EightShifts(Mix(0, a));
    EightShifts(Mix(Absorb(0, a), b));
    EightShifts(Mix(Absorb(Absorb(0, a), b), c));
    CrcOfThree(a, b, c);
    WindowCases(a, b, c, o);
  }

  lemma WindowCases(a: bv8, b: bv8, c: bv8, o: nat)
    requires InWindow(a, c, o) && Absorb8(Absorb8(Absorb8(0, a), b), c) == 0
    ensures a == 0 && b == 0 && c == 0
  {
    assert o <= 7;
    hide InWindow, Absorb8;
    match o {
      case 0 => Burst0(a, b, c);
      case 1 => Burst1(a, b, c);
      case 2 => Burst2(a, b, c);
      case 3 => Burst3(a, b, c);
      case 4 => Burst4(a, b, c);
      case 5 => Burst5(a, b, c);
      case 6 => Burst6(a, b, c);
      case 7 => Burst7(a, b, c);
    }
  }

  // A message that is 0 outside a window of 16 bits starting at bit o of byte i has CRC 0 only if it is 0.
  lemma WindowMessage(d: seq<bv8>, i: nat, o: nat)
    requires i + 2 < |d| && InWindow(d[i], d[i + 2], o)
    requires forall k :: 0 <= k < |d| && (k < i || k > i + 2) ==> d[k] == 0
    requires Crc(d) == 0
    ensures forall k :: 0 <= k < |d| ==> d[k] == 0
  {
    hide InWindow, Absorb, CrcFrom;
    var head, middle, tail := d[..i], [d[i], d[i + 1], d[i + 2]], d[i + 3..];
    assert d == head + (middle + tail);
    CrcFolds(0, head, middle + tail);
    ZeroesKeepNonZero(0, head);
    CrcFolds(0, middle, tail);
    ZeroesKeepNonZero(CrcFrom(0, middle), tail);
    ThreeBytes(d[i], d[i + 1], d[i + 2], o);
  }

  lemma XorZero(x: bv8, y: bv8)
    ensures SumByte(x, y) == 0 <==> x == y
  {
  }

  lemma XorCancels16(x: bv16, y: bv16)
    ensures (x ^ y) ^ y == x && x ^ x == 0 && 0 ^ x == x
  {
  }

  lemma SumCancels(x: bv16, y: bv16)
    ensures Sum(Sum(x, y), y) == x && Sum(x, x) == 0 && Sum(0, x) == x
  {
    XorCancels16(x, y);
  }

  lemma XorZero16(x: bv16, y: bv16)
    ensures Sum(x, y) == 0 <==> x == y
  {
    hide Sum;
    SumCancels(x, y);
    SumCancels(y, y);
  }

  // The difference of two messages in one byte, 0 past their end.
  function Difference(x: seq<bv8>, y: seq<bv8>, k: nat): bv8
    requires |x| == |y|
  {
    if k < |x| then SumByte(x[k], y[k]) else 0
  }

  // Any two messages of one length that differ, and only inside 16 consecutive bits, have different CRCs.
  lemma BurstDetected(x: seq<bv8>, y: seq<bv8>, i: nat, o: nat)
    requires |x| == |y| && x != y
    requires forall k :: 0 <= k < |x| && (k < i || k > i + 2) ==> x[k] == y[k]
    requires InWindow(Difference(x, y, i), Difference(x, y, i + 2), o)
    ensures Crc(x) != Crc(y)
  {
    hide InWindow, Absorb, CrcFrom, Sum, SumByte;
    var pad := seq(i + 3, _ => 0 as bv8);
    var d := Xor(x, y) + pad;
    if Crc(x) == Crc(y) {
      CrcLinear(x, y);
      XorZero16(Crc(x), Crc(y));
      CrcFolds(0, Xor(x, y), pad);
      ZeroesKeepNonZero(Crc(Xor(x, y)), pad);
      forall k | 0 <= k < |d| && (k < i || k > i + 2) ensures d[k] == 0 {
        if k < |x| {
          XorZero(x[k], y[k]);
        }
      }
      WindowMessage(d, i, o);
      forall k | 0 <= k < |x| ensures x[k] == y[k] {
        assert d[k] == SumByte(x[k], y[k]);
        XorZero(x[k], y[k]);
      }
    }
  }

  // ---- the same, said bit by bit ----

  // Bit k of a byte, the most significant one first.
  predicate BitOf(b: bv8, k: nat)
    requires k < 8
  {
    match k
    case 0 => b & 0x80 != 0
    case 1 => b & 0x40 != 0
    case 2 => b & 0x20 != 0
    case 3 => b & 0x10 != 0
    case 4 => b & 8 != 0
    case 5 => b & 4 != 0
    case 6 => b & 2 != 0
    case 7 => b & 1 != 0
  }

  predicate MessageBit(x: seq<bv8>, n: nat)
    requires n < 8 * |x|
  {
    BitOf(x[n / 8], n % 8)
  }

  lemma SameBits(a: bv8, b: bv8)
    requires forall k :: 0 <= k < 8 ==> BitOf(a, k) == BitOf(b, k)
    ensures a == b
  {
    assert BitOf(a, 0) == BitOf(b, 0) && BitOf(a, 1) == BitOf(b, 1);
    assert BitOf(a, 2) == BitOf(b, 2) && BitOf(a, 3) == BitOf(b, 3);
    assert BitOf(a, 4) == BitOf(b, 4) && BitOf(a, 5) == BitOf(b, 5);
    assert BitOf(a, 6) == BitOf(b, 6) && BitOf(a, 7) == BitOf(b, 7);
  }

  // Bytes that agree in their first o bits, and bytes that agree in all but their first o bits.
  lemma SumInWindow(a: bv8, a': bv8, c: bv8, c': bv8, o: nat)
    requires o < 8
    requires forall k :: 0 <= k < o ==> BitOf(a, k) == BitOf(a', k)
    requires forall k :: o <= k < 8 ==> BitOf(c, k) == BitOf(c', k)
    ensures InWindow(SumByte(a, a'), SumByte(c, c'), o)
  {
    assert o > 0 ==> BitOf(a, 0) == BitOf(a', 0);
    assert o > 1 ==> BitOf(a, 1) == BitOf(a', 1);
    assert o > 2 ==> BitOf(a, 2) == BitOf(a', 2);
    assert o > 3 ==> BitOf(a, 3) == BitOf(a', 3);
    assert o > 4 ==> BitOf(a, 4) == BitOf(a', 4);
    assert o > 5 ==> BitOf(a, 5) == BitOf(a', 5);
    assert o > 6 ==> BitOf(a, 6) == BitOf(a', 6);
    assert o <= 0 ==> BitOf(c, 0) == BitOf(c', 0);
    assert o <= 1 ==> BitOf(c, 1) == BitOf(c', 1);
    assert o <= 2 ==> BitOf(c, 2) == BitOf(c', 2);
    assert o <= 3 ==> BitOf(c, 3) == BitOf(c', 3);
    assert o <= 4 ==> BitOf(c, 4) == BitOf(c', 4);
    assert o <= 5 ==> BitOf(c, 5) == BitOf(c', 5);
    assert o <= 6 ==> BitOf(c, 6) == BitOf(c', 6);
    assert o <= 7 ==> BitOf(c, 7) == BitOf(c', 7);
  }

  lemma BitAt(x: seq<bv8>, k: nat, b: nat)
    requires k < |x| && b < 8
    ensures MessageBit(x, 8 * k + b) == BitOf(x[k], b)
  {
    assert (8 * k + b) / 8 == k && (8 * k + b) % 8 == b;
  }

  // Two different messages of one length whose bits agree everywhere except in 16 consecutive positions have
  // different CRCs.
  lemma BurstOfBitsDetected(x: seq<bv8>, y: seq<bv8>, p: nat)
    requires |x| == |y| && x != y
    requires forall n :: 0 <= n < 8 * |x| && (n < p || n >= p + 16) ==> MessageBit(x, n) == MessageBit(y, n)
    ensures Crc(x) != Crc(y)
  {
    hide BitOf, MessageBit, InWindow, SumByte, CrcFrom;
    var i, o := p / 8, p % 8;
    forall k, b | 0 <= k < |x| && 0 <= b < 8 && (8 * k + b < p || 8 * k + b >= p + 16)
      ensures BitOf(x[k], b) == BitOf(y[k], b)
    {
      BitAt(x, k, b);
      BitAt(y, k, b);
    }
    forall k | 0 <= k < |x| && (k < i || k > i + 2) ensures x[k] == y[k] {
      SameBits(x[k], y[k]);
    }
    var a, a' := if i < |x| then x[i] else 0, if i < |x| then y[i] else 0;
    var c, c' := if i + 2 < |x| then x[i + 2] else 0, if i + 2 < |x| then y[i + 2] else 0;
    XorZero(0, 0);
    SumInWindow(a, a', c, c', o);
    BurstDetected(x, y, i, o);
  }
}
