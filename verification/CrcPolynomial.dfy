/**
 The CRC as polynomial arithmetic. A bit sequence is a polynomial over the integers modulo 2, the highest power first;
 the CRC of a message is the remainder of the message times x^16 divided by x^16 + x^12 + x^5 + 1.
 */
module CrcPolynomial {
  import opened Crc16

  type Bits = seq<bool>

  // The coefficients of x^15 .. x^0 of the generator; that of x^16 is 1.
  const GENERATOR: Bits :=
    [false, false, false, true, false, false, false, false, false, false, true, false, false, false, false, true]

  function Plus(x: Bits, y: Bits): (z: Bits)
    requires |x| == |y|
    ensures |z| == |x|
  {
    seq(|x|, i requires 0 <= i < |x| => x[i] != y[i])
  }

  // y is added to the leading coefficients of x.
  function PlusLeading(x: Bits, y: Bits): (z: Bits)
    requires |y| <= |x|
    ensures |z| == |x|
  {
    Plus(x[..|y|], y) + x[|y|..]
  }

  // Long division without carries: while there are more than 16 coefficients, a leading 1 is cancelled by the
  // generator and a leading 0 dropped.
  function Remainder(p: Bits): (r: Bits)
    ensures |p| >= 16 ==> |r| == 16
    decreases |p|
  {
    if |p| <= 16 then p
    else if p[0] then Remainder(PlusLeading(p[1..], GENERATOR))
    else Remainder(p[1..])
  }

  function Zeros(n: nat): (z: Bits)
    ensures |z| == n
  {
    seq(n, _ => false)
  }

  function ByteBits(b: bv8): (s: Bits)
    ensures |s| == 8
  {
    seq(8, i requires 0 <= i < 8 => BitOf(b, i))
  }

  function MessageBits(data: seq<bv8>): (s: Bits)
    ensures |s| == 8 * |data|
  {
    if data == [] then [] else ByteBits(data[0]) + MessageBits(data[1..])
  }

  predicate HasBit(r: bv16, m: bv16) {
    r & m != 0
  }

  function MaskAt(i: nat): bv16 {
    match i
    case 0 => 0x8000
    case 1 => 0x4000
    case 2 => 0x2000
    case 3 => 0x1000
    case 4 => 0x800
    case 5 => 0x400
    case 6 => 0x200
    case 7 => 0x100
    case 8 => 0x80
    case 9 => 0x40
    case 10 => 0x20
    case 11 => 0x10
    case 12 => 8
    case 13 => 4
    case 14 => 2
    case _ => 1
  }

  // The highest bit first.
  function WordBits(r: bv16): (s: Bits)
    ensures |s| == 16
  {
    seq(16, i requires 0 <= i < 16 => HasBit(r, MaskAt(i)))
  }

  // ---- one step of the register is one step of the division ----

  lemma MaskIsSingle(i: nat)
    ensures MaskAt(i) & (MaskAt(i) - 1) == 0
    ensures i > 0 ==> MaskAt(i) & 0x8000 == 0
    ensures i < 15 ==> MaskAt(i + 1) << 1 == MaskAt(i)
  {
  }

  lemma XorAnd(x: bv16, y: bv16, m: bv16)
    ensures (x ^ y) & m == (x & m) ^ (y & m)
  {
  }

  lemma OneBit(x: bv16, m: bv16)
    requires m & (m - 1) == 0
    ensures x & m == 0 || x & m == m
  {
  }

  lemma XorUnits(m: bv16)
    ensures m ^ m == 0 && 0 ^ m == m && m ^ 0 == m
  {
  }

  lemma XorBit(x: bv16, y: bv16, m: bv16)
    requires m & (m - 1) == 0
    ensures (x ^ y) & m != 0 <==> ((x & m != 0) != (y & m != 0))
  {
    XorAnd(x, y, m);
    OneBit(x, m);
    OneBit(y, m);
    XorUnits(m);
  }

  lemma SumBit(x: bv16, y: bv16, m: bv16)
    requires m & (m - 1) == 0
    ensures HasBit(Sum(x, y), m) <==> (HasBit(x, m) != HasBit(y, m))
  {
    XorBit(x, y, m);
  }

  lemma BitsOfSum(x: bv16, y: bv16)
    ensures WordBits(Sum(x, y)) == Plus(WordBits(x), WordBits(y))
  {
    hide HasBit, Sum, MaskAt;
    forall i | 0 <= i < 16 ensures HasBit(Sum(x, y), MaskAt(i)) == (HasBit(x, MaskAt(i)) != HasBit(y, MaskAt(i))) {
      MaskIsSingle(i);
      SumBit(x, y, MaskAt(i));
    }
  }

  function Twice(r: bv16): bv16 { r << 1 }

  lemma TwiceBit(x: bv16, m: bv16)
    requires m & 0x8000 == 0 && m & (m - 1) == 0
    ensures HasBit(Twice(x), m << 1) <==> HasBit(x, m)
    ensures !HasBit(Twice(x), 1)
  {
  }

  lemma BitsOfTwice(x: bv16)
    ensures WordBits(Twice(x)) == WordBits(x)[1..] + [false]
  {
    assert MaskAt(15) == 1;
    hide HasBit, Twice, MaskAt;
    forall i | 0 <= i < 16
      ensures HasBit(Twice(x), MaskAt(i)) == (i < 15 && HasBit(x, MaskAt(i + 1)))
    {
      if i < 15 {
        MaskIsSingle(i);
        MaskIsSingle(i + 1);
        TwiceBit(x, MaskAt(i + 1));
      } else {
        TwiceBit(x, 0);
      }
    }
  }

  lemma GeneratorBits()
    ensures WordBits(0x1021) == GENERATOR
  {
    forall i | 0 <= i < 16 ensures HasBit(0x1021, MaskAt(i)) == GENERATOR[i] {
      GeneratorBit(i);
    }
  }

  lemma GeneratorBit(i: nat)
    requires i < 16
    ensures HasBit(0x1021, MaskAt(i)) == GENERATOR[i]
  {
  }

  // A turn of the loop doubles the register and adds the generator if the highest bit was set.
  lemma ShiftIsStep(r: bv16)
    ensures Shift(r) == if HasBit(r, 0x8000) then Sum(Twice(r), 0x1021) else Twice(r)
  {
  }

  lemma BitsOfShift(r: bv16)
    ensures var w := WordBits(r);
      && w[0] == HasBit(r, 0x8000)
      && WordBits(Shift(r)) == if w[0] then Plus(w[1..] + [false], GENERATOR) else w[1..] + [false]
  {
    GeneratorBits();
    assert MaskAt(0) == 0x8000;
    hide Shift, Sum, Twice, HasBit, MaskAt, Plus;
    ShiftIsStep(r);
    BitsOfTwice(r);
    BitsOfSum(Twice(r), 0x1021);
  }

  lemma PlusAssoc(x: Bits, y: Bits, z: Bits)
    requires |x| == |y| == |z|
    ensures Plus(Plus(x, y), z) == Plus(x, Plus(y, z))
  {
  }

  lemma LeadingTwice(x: Bits, y: Bits, z: Bits)
    requires |y| == |z| <= |x|
    ensures PlusLeading(PlusLeading(x, y), z) == PlusLeading(x, Plus(y, z))
  {
    PlusAssoc(x[..|y|], y, z);
    var u := PlusLeading(x, y);
    assert u[..|y|] == Plus(x[..|y|], y) && u[|y|..] == x[|y|..];
  }

  // The dividend with the register added to its leading coefficients; the first coefficient has been read.
  lemma LeadingStep(q: Bits, w: Bits)
    requires |w| == 16 <= |q|
    ensures PlusLeading([false] + q, w)[0] == w[0]
    ensures PlusLeading([false] + q, w)[1..] == PlusLeading(q, w[1..] + [false])
  {
    var x, v := PlusLeading([false] + q, w), PlusLeading(q, w[1..] + [false]);
    forall i | 0 <= i < |q| ensures x[i + 1] == v[i] {
      LeadingAt([false] + q, w, i + 1);
      LeadingAt(q, w[1..] + [false], i);
    }
    assert x[1..] == v;
  }

  lemma LeadingAt(x: Bits, y: Bits, i: nat)
    requires |y| <= |x| && i < |x|
    ensures PlusLeading(x, y)[i] == if i < |y| then x[i] != y[i] else x[i]
  {
  }

  lemma ShiftDivides(q: Bits, r: bv16)
    requires |q| >= 16
    ensures Remainder(PlusLeading([false] + q, WordBits(r))) == Remainder(PlusLeading(q, WordBits(Shift(r))))
  {
    hide Shift, WordBits, Plus, PlusLeading;
    var w := WordBits(r);
    LeadingStep(q, w);
    BitsOfShift(r);
    if w[0] {
      LeadingTwice(q, w[1..] + [false], GENERATOR);
    }
  }

  lemma {:induction false} ShiftsDivide(q: Bits, r: bv16, n: nat)
    requires |q| >= 16
    ensures Remainder(PlusLeading(Zeros(n) + q, WordBits(r))) == Remainder(PlusLeading(q, WordBits(Shifts(r, n))))
    decreases n
  {
    hide Shift, WordBits, PlusLeading, Remainder;
    if n == 0 {
      assert Zeros(0) + q == q;
    } else {
      assert Zeros(n) + q == Zeros(n - 1) + ([false] + q);
      ShiftsDivide([false] + q, r, n - 1);
      ShiftDivides(q, Shifts(r, n - 1));
    }
  }

  // ---- a data byte ----

  function Placed(b: bv8): bv16 { (b as bv16) << 8 }

  lemma MixIsXor(r: bv16, b: bv8)
    ensures Mix(r, b) == r ^ Placed(b)
  {
  }

  lemma MixIsSum(r: bv16, b: bv8)
    ensures Mix(r, b) == Sum(r, Placed(b))
  {
    hide Mix, Placed;
    MixIsXor(r, b);
  }

  lemma PlacedBit0(b: bv8)
    ensures HasBit(Placed(b), 0x8000) == BitOf(b, 0)
  {
  }

  lemma PlacedBit1(b: bv8)
    ensures HasBit(Placed(b), 0x4000) == BitOf(b, 1)
  {
  }

  lemma PlacedBit2(b: bv8)
    ensures HasBit(Placed(b), 0x2000) == BitOf(b, 2)
  {
  }

  lemma PlacedBit3(b: bv8)
    ensures HasBit(Placed(b), 0x1000) == BitOf(b, 3)
  {
  }

  lemma PlacedBit4(b: bv8)
    ensures HasBit(Placed(b), 0x800) == BitOf(b, 4)
  {
  }

  lemma PlacedBit5(b: bv8)
    ensures HasBit(Placed(b), 0x400) == BitOf(b, 5)
  {
  }

  lemma PlacedBit6(b: bv8)
    ensures HasBit(Placed(b), 0x200) == BitOf(b, 6)
  {
  }

  lemma PlacedBit7(b: bv8)
    ensures HasBit(Placed(b), 0x100) == BitOf(b, 7)
  {
  }

  lemma PlacedLow(b: bv8, m: bv16)
    requires m & 0xff00 == 0
    ensures !HasBit(Placed(b), m)
  {
  }

  lemma LowMaskAt(i: nat)
    requires 8 <= i
    ensures MaskAt(i) & 0xff00 == 0
  {
  }

  lemma MasksAbove()
    ensures MaskAt(0) == 0x8000 && MaskAt(1) == 0x4000 && MaskAt(2) == 0x2000 && MaskAt(3) == 0x1000
    ensures MaskAt(4) == 0x800 && MaskAt(5) == 0x400 && MaskAt(6) == 0x200 && MaskAt(7) == 0x100
  {
  }

  lemma PlacedBit(b: bv8, i: nat)
    requires i < 8
    ensures HasBit(Placed(b), MaskAt(i)) == BitOf(b, i)
  {
    hide HasBit, Placed, BitOf, MaskAt;
    MasksAbove();
    match i {
      case 0 => PlacedBit0(b);
      case 1 => PlacedBit1(b);
      case 2 => PlacedBit2(b);
      case 3 => PlacedBit3(b);
      case 4 => PlacedBit4(b);
      case 5 => PlacedBit5(b);
      case 6 => PlacedBit6(b);
      case 7 => PlacedBit7(b);
    }
  }

  lemma PlacedBits(b: bv8)
    ensures WordBits(Placed(b)) == ByteBits(b) + Zeros(8)
  {
    hide HasBit, Placed, BitOf, MaskAt;
    forall i | 0 <= i < 16 ensures HasBit(Placed(b), MaskAt(i)) == (i < 8 && BitOf(b, i)) {
      if i < 8 {
        PlacedBit(b, i);
      } else {
        LowMaskAt(i);
        PlacedLow(b, MaskAt(i));
      }
    }
  }

  lemma ByteMoves(q: Bits, s: Bits, w: Bits)
    requires |q| >= 16 && |s| == 8 && |w| == 16
    ensures PlusLeading(s + q, w) == PlusLeading(Zeros(8) + q, Plus(w, s + Zeros(8)))
  {
    var x, y := PlusLeading(s + q, w), PlusLeading(Zeros(8) + q, Plus(w, s + Zeros(8)));
    assert forall i :: 0 <= i < 8 ==> x[i] == (s[i] != w[i]) && y[i] == (false != (w[i] != s[i]));
    assert forall i :: 8 <= i < 16 ==> x[i] == (q[i - 8] != w[i]) && y[i] == (q[i - 8] != (w[i] != false));
    assert forall i :: 16 <= i < |x| ==> x[i] == q[i - 8] && y[i] == q[i - 8];
  }

  lemma AbsorbDivides(q: Bits, r: bv16, b: bv8)
    requires |q| >= 16
    ensures Remainder(PlusLeading(ByteBits(b) + q, WordBits(r))) == Remainder(PlusLeading(q, WordBits(Absorb(r, b))))
  {
    hide Shift, Shifts, Mix, Sum, Placed, WordBits, ByteBits, Plus, PlusLeading, Remainder;
    ByteMoves(q, ByteBits(b), WordBits(r));
    PlacedBits(b);
    MixIsSum(r, b);
    BitsOfSum(r, Placed(b));
    ShiftsDivide(q, Mix(r, b), 8);
  }

  lemma {:induction false} CrcDivides(r: bv16, data: seq<bv8>)
    ensures Remainder(PlusLeading(MessageBits(data) + Zeros(16), WordBits(r))) == WordBits(CrcFrom(r, data))
    decreases |data|
  {
    hide Absorb, WordBits, ByteBits, PlusLeading;
    if data == [] {
      assert MessageBits(data) + Zeros(16) == Zeros(16);
      RegisterAlone(r);
    } else {
      var q := MessageBits(data[1..]) + Zeros(16);
      assert MessageBits(data) + Zeros(16) == ByteBits(data[0]) + q;
      AbsorbDivides(q, r, data[0]);
      CrcDivides(Absorb(r, data[0]), data[1..]);
    }
  }

  lemma RegisterAlone(r: bv16)
    ensures PlusLeading(Zeros(16), WordBits(r)) == WordBits(r)
  {
    hide WordBits;
  }

  lemma EmptyRegister(p: Bits)
    requires |p| >= 16
    ensures PlusLeading(p, WordBits(0)) == p
  {
    assert forall i :: 0 <= i < 16 ==> !WordBits(0)[i];
    hide WordBits;
    assert p[..16] + p[16..] == p;
    assert Plus(p[..16], WordBits(0)) == p[..16];
  }

  // For every message, the CRC is the remainder of the message followed by 16 zeros.
  lemma CrcIsRemainder(data: seq<bv8>)
    ensures WordBits(Crc(data)) == Remainder(MessageBits(data) + Zeros(16))
  {
    hide WordBits, CrcFrom;
    CrcDivides(0, data);
    EmptyRegister(MessageBits(data) + Zeros(16));
  }

  // ---- the remainder of a division ----

  // The product of a polynomial with the generator.
  function Product(q: Bits): (p: Bits)
    ensures |p| == |q| + 16
  {
    if q == [] then Zeros(16)
    else
      var rest := [false] + Product(q[1..]);
      if q[0] then Plus([true] + GENERATOR + Zeros(|q| - 1), rest) else rest
  }

  lemma ShiftedSumAt(g: Bits, tail: Bits, n: nat, i: nat)
    requires |g| == 16 && |tail| == n + 16 && 0 < i <= |tail|
    ensures Plus([true] + g + Zeros(n), [false] + tail)[i] ==
            if i <= 16 then g[i - 1] != tail[i - 1] else tail[i - 1]
  {
  }

  lemma ProductAt(q: Bits, i: nat)
    requires q != [] && q[0] && 0 < i < |q| + 16
    ensures Product(q)[i] == (if i <= 16 then GENERATOR[i - 1] != Product(q[1..])[i - 1] else Product(q[1..])[i - 1])
  {
    hide Plus;
    ShiftedSumAt(GENERATOR, Product(q[1..]), |q| - 1, i);
  }

  lemma ProductOfDropped(q: Bits)
    requires q != [] && !q[0]
    ensures Product(q) == [false] + Product(q[1..])
  {
    hide Plus, Zeros;
  }

  // One coefficient of the sums, whatever generator and products stand in them.
  lemma CancelAt(p: Bits, g: Bits, product: Bits, z: Bits, i: nat)
    requires |g| == 16 && |p| == |product| + 1 == |z| + 1 && |product| >= 16 && 0 < i < |p|
    requires PlusLeading(p[1..], g) == Plus(product, z)
    ensures p[i] == ((if i <= 16 then g[i - 1] != product[i - 1] else product[i - 1]) != z[i - 1])
  {
    LeadingAt(p[1..], g, i - 1);
    assert Plus(product, z)[i - 1] == (product[i - 1] != z[i - 1]);
  }

  lemma SumAt(x: Bits, y: Bits, i: nat)
    requires |x| == |y| && i < |x|
    ensures Plus(x, y)[i] == (x[i] != y[i])
  {
  }

  lemma PaddedAt(n: nat, r: Bits, i: nat)
    requires 0 < i <= n + |r|
    ensures (Zeros(n + 1) + r)[i] == (Zeros(n) + r)[i - 1]
    ensures !(Zeros(n + 1) + r)[0]
  {
  }

  // One step of the division, when the leading coefficient is 1 and when it is 0.
  lemma CancelStep(p: Bits, q: Bits, r: Bits)
    requires |p| == |q| + 17 && |r| == 16 && p[0]
    requires PlusLeading(p[1..], GENERATOR) == Plus(Product(q), Zeros(|q|) + r)
    ensures p == Plus(Product([true] + q), Zeros(|q| + 1) + r)
  {
    var q' := [true] + q;
    assert q'[1..] == q && Product(q')[0];
    hide Product, Zeros, PlusLeading;
    forall i | 0 <= i < |p| ensures p[i] == (Product(q')[i] != (Zeros(|q| + 1) + r)[i]) {
      if i == 0 {
        PaddedAt(|q|, r, 1);
      } else {
        ProductAt(q', i);
        CancelAt(p, GENERATOR, Product(q), Zeros(|q|) + r, i);
        PaddedAt(|q|, r, i);
      }
    }
  }

  lemma DropStep(p: Bits, q: Bits, r: Bits)
    requires |p| == |q| + 17 && |r| == 16 && !p[0]
    requires p[1..] == Plus(Product(q), Zeros(|q|) + r)
    ensures p == Plus(Product([false] + q), Zeros(|q| + 1) + r)
  {
    var q' := [false] + q;
    hide Product, Zeros, Plus;
    ProductOfDropped(q');
    assert q'[1..] == q;
    forall i | 0 <= i < |p| ensures p[i] == Plus(Product(q'), Zeros(|q| + 1) + r)[i] {
      SumAt(Product(q'), Zeros(|q| + 1) + r, i);
      if i == 0 {
        PaddedAt(|q|, r, 1);
      } else {
        PaddedAt(|q|, r, i);
        SumAt(Product(q), Zeros(|q|) + r, i - 1);
        assert p[i] == p[1..][i - 1];
      }
    }
  }

  // Dividend, quotient and remainder: the remainder has at most 16 coefficients, and the rest is a multiple of the
  // generator.
  lemma {:induction false} DivisionIsExact(p: Bits) returns (q: Bits)
    requires |p| >= 16
    ensures |q| == |p| - 16 && p == Plus(Product(q), Zeros(|q|) + Remainder(p))
    decreases |p|
  {
    if |p| == 16 {
      q := [];
    } else {
      hide Plus, PlusLeading, Product;
      if p[0] {
        var q' := DivisionIsExact(PlusLeading(p[1..], GENERATOR));
        CancelStep(p, q', Remainder(p));
        q := [true] + q';
      } else {
        var q' := DivisionIsExact(p[1..]);
        DropStep(p, q', Remainder(p));
        q := [false] + q';
      }
    }
  }
}
