/** The low bits of a word, as a remainder of the number it stands for. */
module LowBits {
  import opened Arithmetic
  import opened Uint32

  function TwoTo(k: nat): (p: nat)
    ensures p > 0
  {
    if k == 0 then 1 else 2 * TwoTo(k - 1)
  }

  // ---- one byte ----

  // Counting up, the bits under a mask of low bits count up too and start again.
  lemma MaskStep(b: bv8, m: bv8)
    requires m & (m + 1) == 0
    ensures (b + 1) & m == if b & m == m then 0 else (b & m) + 1
    ensures b & m != m ==> b & m != 0xff
  {
  }

  lemma MaskOfZero(m: bv8)
    ensures 0 & m == 0
  {
  }

  lemma PredecessorOf(b: bv8)
    requires b != 0
    ensures b - 1 != 0xff && (b - 1) + 1 == b
  {
  }

  lemma ModSuccessor(x: nat, p: nat)
    requires p > 0
    ensures (x + 1) % p == if x % p == p - 1 then 0 else x % p + 1
  {
    DivMod(x, p);
    if x % p == p - 1 {
      Distribute(x / p, 1, p);
      QuotientUnique(x + 1, p, x / p + 1, 0);
    } else {
      QuotientUnique(x + 1, p, x / p, x % p + 1);
    }
  }

  lemma {:induction false} ByteLowBits(b: bv8, m: bv8)
    requires m & (m + 1) == 0
    ensures ByteValue(b & m) == ByteValue(b) % (ByteValue(m) + 1)
    decreases ByteValue(b)
  {
    if b == 0 {
      MaskOfZero(m);
      QuotientUnique(0, ByteValue(m) + 1, 0, 0);
    } else {
      var c := b - 1;
      PredecessorOf(b);
      ByteSuccessor(c);
      ByteLowBits(c, m);
      MaskStep(c, m);
      ModSuccessor(ByteValue(c), ByteValue(m) + 1);
      if c & m != m {
        ByteSuccessor(c & m);
        if ByteValue(c & m) == ByteValue(m) {
          ByteInjective(c & m, m);
        }
      }
    }
  }

  // ---- words ----

  function Join(b3: bv8, b2: bv8, b1: bv8, b0: bv8): uint32 {
    ((b3 as uint32) << 24) | ((b2 as uint32) << 16) | ((b1 as uint32) << 8) | (b0 as uint32)
  }

  lemma BytesOfJoin(b3: bv8, b2: bv8, b1: bv8, b0: bv8)
    ensures var w := Join(b3, b2, b1, b0); Byte3(w) == b3 && Byte2(w) == b2 && Byte1(w) == b1 && Byte0(w) == b0
  {
  }

  lemma BytesOfAnd(v: uint32, w: uint32)
    ensures Byte3(v & w) == Byte3(v) & Byte3(w) && Byte2(v & w) == Byte2(v) & Byte2(w)
    ensures Byte1(v & w) == Byte1(v) & Byte1(w) && Byte0(v & w) == Byte0(v) & Byte0(w)
  {
  }

  // A mask that is a low mask in each byte.
  lemma MaskedValue(w: uint32, m3: bv8, m2: bv8, m1: bv8, m0: bv8)
    requires m3 & (m3 + 1) == 0 && m2 & (m2 + 1) == 0 && m1 & (m1 + 1) == 0 && m0 & (m0 + 1) == 0
    ensures Value(w & Join(m3, m2, m1, m0)) ==
            ByteValue(Byte0(w)) % (ByteValue(m0) + 1) + 0x100 * (ByteValue(Byte1(w)) % (ByteValue(m1) + 1))
            + 0x1_0000 * (ByteValue(Byte2(w)) % (ByteValue(m2) + 1))
            + 0x100_0000 * (ByteValue(Byte3(w)) % (ByteValue(m3) + 1))
  {
    hide Join, Byte0, Byte1, Byte2, Byte3, ByteValue;
    BytesOfJoin(m3, m2, m1, m0);
    BytesOfAnd(w, Join(m3, m2, m1, m0));
    ByteLowBits(Byte0(w), m0);
    ByteLowBits(Byte1(w), m1);
    ByteLowBits(Byte2(w), m2);
    ByteLowBits(Byte3(w), m3);
  }

  // The widths of the parts of addresses and network identifiers.
  predicate IsWidth(k: nat) {
    k == 6 || k == 7 || k == 9 || k == 10 || k == 11 || k == 12 || k == 13 || k == 15
    || k == 17 || k == 20 || k == 24 || k == 25
  }

  // 2^k - 1
  function LowMask(k: nat): uint32 {
    match k
    case 6 => 0x3f
    case 7 => 0x7f
    case 9 => 0x1ff
    case 10 => 0x3ff
    case 11 => 0x7ff
    case 12 => 0xfff
    case 13 => 0x1fff
    case 15 => 0x7fff
    case 17 => 0x1_ffff
    case 20 => 0xf_ffff
    case 24 => 0xff_ffff
    case 25 => 0x1ff_ffff
    case _ => 0
  }

  lemma Regroup(x: nat, y: nat, z: nat)
    ensures (x * y) * z == (z * x) * y && x * (y * z) == y * (x * z)
  {
  }

  // The digits above a digit do not matter for its own low part.
  lemma LowDigit(d: nat, rest: nat, p: nat, q: nat)
    requires p > 0 && p * q == 0x100
    ensures (d + 0x100 * rest) % p == d % p
  {
    DivMod(d, p);
    Distribute(d / p, q * rest, p);
    Regroup(q, rest, p);
    QuotientUnique(d + 0x100 * rest, p, d / p + q * rest, d % p);
  }

  // The digits below are kept.
  lemma UpperDigit(low: nat, c: nat, x: nat, p: nat)
    requires low < c && p > 0
    ensures c * p > 0 && (low + c * x) % (c * p) == low + c * (x % p)
  {
    var e, r := x / p, x % p;
    DivMod(x, p);
    Distribute(e * p, r, c);
    Regroup(e, p, c);
    Regroup(c, p, e);
    MulLe(r + 1, p, c);
    Distribute(r, 1, c);
    assert low + c * x == e * (c * p) + (low + c * r);
    QuotientUnique(low + c * x, c * p, e, low + c * r);
  }

  lemma DigitAt(low: nat, c: nat, d: nat, rest: nat, p: nat, q: nat)
    requires low < c && p > 0 && p * q == 0x100
    ensures c * p > 0 && (low + c * (d + 0x100 * rest)) % (c * p) == low + c * (d % p)
  {
    UpperDigit(low, c, d + 0x100 * rest, p);
    LowDigit(d, rest, p, q);
  }

  lemma FullBytes()
    ensures ByteValue(0) == 0 && ByteValue(0xff) == 0xff
  {
    ByteValueIsInt(0xff);
  }

  lemma FullDigit(b: bv8)
    ensures ByteValue(b) % 0x100 == ByteValue(b)
  {
    ByteBound(b);
  }

  // Which byte the top of the mask lies in, and the mask there.
  lemma MaskInByte0(w: uint32, m: bv8, p: nat, q: nat)
    requires m & (m + 1) == 0 && p == ByteValue(m) + 1 && p * q == 0x100
    ensures Value(w & Join(0, 0, 0, m)) == Value(w) % p
  {
    hide Join, Byte0, Byte1, Byte2, Byte3;
    FullBytes();
    hide ByteValue;
    MaskedValue(w, 0, 0, 0, m);
    LowDigit(ByteValue(Byte0(w)),
             ByteValue(Byte1(w)) + 0x100 * ByteValue(Byte2(w)) + 0x1_0000 * ByteValue(Byte3(w)), p, q);
  }

  lemma MaskInByte1(w: uint32, m: bv8, p: nat, q: nat)
    requires m & (m + 1) == 0 && p == ByteValue(m) + 1 && p * q == 0x100
    ensures Value(w & Join(0, 0, m, 0xff)) == Value(w) % (0x100 * p)
  {
    hide Join, Byte0, Byte1, Byte2, Byte3;
    FullBytes();
    FullDigit(Byte0(w));
    hide ByteValue;
    MaskedValue(w, 0, 0, m, 0xff);
    ByteBound(Byte0(w));
    DigitAt(ByteValue(Byte0(w)), 0x100, ByteValue(Byte1(w)),
            ByteValue(Byte2(w)) + 0x100 * ByteValue(Byte3(w)), p, q);
  }

  lemma MaskInByte2(w: uint32, m: bv8, p: nat, q: nat)
    requires m & (m + 1) == 0 && p == ByteValue(m) + 1 && p * q == 0x100
    ensures Value(w & Join(0, m, 0xff, 0xff)) == Value(w) % (0x1_0000 * p)
  {
    hide Join, Byte0, Byte1, Byte2, Byte3;
    FullBytes();
    FullDigit(Byte0(w));
    FullDigit(Byte1(w));
    hide ByteValue;
    MaskedValue(w, 0, m, 0xff, 0xff);
    ByteBound(Byte0(w));
    ByteBound(Byte1(w));
    DigitAt(ByteValue(Byte0(w)) + 0x100 * ByteValue(Byte1(w)), 0x1_0000, ByteValue(Byte2(w)),
            ByteValue(Byte3(w)), p, q);
  }

  lemma MaskInByte3(w: uint32, m: bv8, p: nat, q: nat)
    requires m & (m + 1) == 0 && p == ByteValue(m) + 1 && p * q == 0x100
    ensures Value(w & Join(m, 0xff, 0xff, 0xff)) == Value(w) % (0x100_0000 * p)
  {
    hide Join, Byte0, Byte1, Byte2, Byte3;
    FullBytes();
    FullDigit(Byte0(w));
    FullDigit(Byte1(w));
    FullDigit(Byte2(w));
    hide ByteValue;
    MaskedValue(w, m, 0xff, 0xff, 0xff);
    ByteBound(Byte0(w));
    ByteBound(Byte1(w));
    ByteBound(Byte2(w));
    DigitAt(ByteValue(Byte0(w)) + 0x100 * ByteValue(Byte1(w)) + 0x1_0000 * ByteValue(Byte2(w)), 0x100_0000,
            ByteValue(Byte3(w)), 0, p, q);
  }

  lemma Masks()
    ensures LowMask(6) == Join(0, 0, 0, 0x3f) && LowMask(7) == Join(0, 0, 0, 0x7f)
    ensures LowMask(9) == Join(0, 0, 1, 0xff) && LowMask(10) == Join(0, 0, 3, 0xff)
    ensures LowMask(11) == Join(0, 0, 7, 0xff) && LowMask(12) == Join(0, 0, 0xf, 0xff)
    ensures LowMask(13) == Join(0, 0, 0x1f, 0xff) && LowMask(15) == Join(0, 0, 0x7f, 0xff)
    ensures LowMask(17) == Join(0, 1, 0xff, 0xff) && LowMask(20) == Join(0, 0xf, 0xff, 0xff)
    ensures LowMask(24) == Join(0, 0xff, 0xff, 0xff) && LowMask(25) == Join(1, 0xff, 0xff, 0xff)
  {
  }

  lemma Powers()
    ensures TwoTo(6) == 0x40 && TwoTo(7) == 0x80 && TwoTo(9) == 0x200 && TwoTo(10) == 0x400 && TwoTo(11) == 0x800
    ensures TwoTo(12) == 0x1000 && TwoTo(13) == 0x2000 && TwoTo(15) == 0x8000 && TwoTo(17) == 0x2_0000
    ensures TwoTo(20) == 0x10_0000 && TwoTo(24) == 0x100_0000 && TwoTo(25) == 0x200_0000
  {
  }

  lemma LowBitsOfOneByte(w: uint32, k: nat)
    requires k == 6 || k == 7
    ensures Value(w & LowMask(k)) == Value(w) % TwoTo(k)
  {
    Masks();
    Powers();
    hide LowMask, Join, TwoTo, Value;
    ByteValueIsInt(0x3f);
    ByteValueIsInt(0x7f);
    hide ByteValue;
    match k {
      case 6 => MaskInByte0(w, 0x3f, 64, 4);
      case 7 => MaskInByte0(w, 0x7f, 128, 2);
    }
  }

  lemma LowBitsTo11(w: uint32, k: nat)
    requires k == 9 || k == 10 || k == 11
    ensures Value(w & LowMask(k)) == Value(w) % TwoTo(k)
  {
    Masks();
    Powers();
    hide LowMask, Join, TwoTo, Value;
    ByteValueIsInt(1);
    ByteValueIsInt(3);
    ByteValueIsInt(7);
    hide ByteValue;
    match k {
      case 9 => MaskInByte1(w, 1, 2, 128);
      case 10 => MaskInByte1(w, 3, 4, 64);
      case 11 => MaskInByte1(w, 7, 8, 32);
    }
  }

  lemma LowBitsTo15(w: uint32, k: nat)
    requires k == 12 || k == 13 || k == 15
    ensures Value(w & LowMask(k)) == Value(w) % TwoTo(k)
  {
    Masks();
    Powers();
    hide LowMask, Join, TwoTo, Value;
    ByteValueIsInt(0xf);
    ByteValueIsInt(0x1f);
    ByteValueIsInt(0x7f);
    hide ByteValue;
    match k {
      case 12 => MaskInByte1(w, 0xf, 16, 16);
      case 13 => MaskInByte1(w, 0x1f, 32, 8);
      case 15 => MaskInByte1(w, 0x7f, 128, 2);
    }
  }

  lemma LowBitsTo20(w: uint32, k: nat)
    requires k == 17 || k == 20
    ensures Value(w & LowMask(k)) == Value(w) % TwoTo(k)
  {
    Masks();
    Powers();
    hide LowMask, Join, TwoTo, Value;
    ByteValueIsInt(1);
    ByteValueIsInt(0xf);
    hide ByteValue;
    match k {
      case 17 => MaskInByte2(w, 1, 2, 128);
      case 20 => MaskInByte2(w, 0xf, 16, 16);
    }
  }

  lemma LowBitsTo25(w: uint32, k: nat)
    requires k == 24 || k == 25
    ensures Value(w & LowMask(k)) == Value(w) % TwoTo(k)
  {
    Masks();
    Powers();
    hide LowMask, Join, TwoTo, Value;
    ByteValueIsInt(1);
    ByteValueIsInt(0xff);
    hide ByteValue;
    match k {
      case 24 => MaskInByte2(w, 0xff, 256, 1);
      case 25 => MaskInByte3(w, 1, 2, 128);
    }
  }

  // A mask of k low bits is the remainder modulo 2^k.
  lemma LowBitsValue(w: uint32, k: nat)
    requires IsWidth(k)
    ensures Value(w & LowMask(k)) == Value(w) % TwoTo(k)
  {
    hide LowMask, TwoTo, Value;
    if k < 9 {
      LowBitsOfOneByte(w, k);
    } else if k < 12 {
      LowBitsTo11(w, k);
    } else if k < 17 {
      LowBitsTo15(w, k);
    } else if k < 24 {
      LowBitsTo20(w, k);
    } else {
      LowBitsTo25(w, k);
    }
  }

  predicate OnlyLowBits(w: uint32, k: nat) {
    w & LowMask(k) == w
  }

  // A word has only k low bits exactly when its number is below 2^k.
  lemma LowBitsOnly(w: uint32, k: nat)
    requires IsWidth(k)
    ensures OnlyLowBits(w, k) <==> Value(w) < TwoTo(k)
  {
    hide LowMask, TwoTo, Value;
    LowBitsValue(w, k);
    if Value(w) < TwoTo(k) {
      QuotientUnique(Value(w), TwoTo(k), 0, Value(w));
      ValueInjective(w & LowMask(k), w);
    } else {
      DivMod(Value(w), TwoTo(k));
    }
  }
}
