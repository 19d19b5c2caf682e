/**
 Which argument of set() goes to which bits of which byte, command by command, in plain arithmetic on the bytes of the
 payload: the structures of the protocol header, without the table of fields that the model of set() is driven by.
 */
module MacLayout {
  import opened Basics
  import opened Arithmetic
  import opened MacStream
  import opened MacFields

  type Payload = p: seq<byte> | |p| == 5 witness [0, 0, 0, 0, 0]

  // ---- fields as numbers ----

  // The number that two, three or four bytes hold, low byte first.
  function LittleEndian(bytes: seq<byte>): nat {
    if bytes == [] then 0 else bytes[0] + 0x100 * LittleEndian(bytes[1..])
  }

  // A field is part of one byte, or is made of whole bytes.
  predicate Simple(f: Field) {
    && f.Within(DATA_BITS)
    && f.width > 0
    && (f.pos % 8 + f.width <= 8 || (f.pos % 8 == 0 && f.width % 8 == 0))
  }

  // Bits s to s + width of a byte.
  function Part(b: byte, s: nat, width: nat): nat {
    b / Pow2(s) % Pow2(width)
  }

  function Number(p: Payload, f: Field): nat
    requires Simple(f)
  {
    if f.pos % 8 + f.width <= 8 then Part(p[f.pos / 8], f.pos % 8, f.width)
    else LittleEndian(p[f.pos / 8..f.pos / 8 + f.width / 8])
  }

  lemma {:induction false} ValueIsRemainder(v: int, width: nat)
    ensures ValueOf(BitsOf(v, width)) == v % Pow2(width)
  {
    BitsOfMod(v, width);
    ValueOfBits(v % Pow2(width), width);
  }

  lemma Twice(p: nat, q: nat)
    ensures 2 * p * q == 2 * (p * q)
  {
  }

  lemma {:induction false} ValueOfSum(x: seq<bool>, y: seq<bool>)
    ensures ValueOf(x + y) == ValueOf(x) + Pow2(|x|) * ValueOf(y)
  {
    if x == [] {
      assert x + y == y;
    } else {
      ValueOfSum(x[1..], y);
      assert (x + y)[1..] == x[1..] + y;
      Twice(Pow2(|x| - 1), ValueOf(y));
    }
  }

  lemma {:induction false} ValueOfBytes(bytes: seq<byte>)
    ensures ValueOf(DataBits(bytes)) == LittleEndian(bytes)
  {
    if bytes != [] {
      hide BitsOf;
      ValueOfBytes(bytes[1..]);
      assert Pow2(8) == 0x100;
      ValueOfBits(bytes[0], 8);
      ValueOfSum(BitsOf(bytes[0], 8), DataBits(bytes[1..]));
    }
  }

  lemma {:induction false} BitsOfRest(bytes: seq<byte>, n: nat)
    requires n <= |bytes|
    ensures DataBits(bytes[n..]) == DataBits(bytes)[8 * n..]
  {
    if n > 0 {
      hide BitsOf;
      BitsOfRest(bytes[1..], n - 1);
      assert bytes[n..] == bytes[1..][n - 1..];
    }
  }

  lemma BitsOfBytesAt(bytes: seq<byte>, from: nat, n: nat)
    requires from + n <= |bytes|
    ensures DataBits(bytes[from..from + n]) == DataBits(bytes)[8 * from..8 * from + 8 * n]
  {
    hide DataBits;
    BitsOfRest(bytes, from);
    BitsOfPrefix(bytes[from..], n);
    assert bytes[from..][..n] == bytes[from..from + n];
  }

  // Bits s to s + width of a byte hold its quotient by 2^s, as a number of that width.
  lemma BitsWithin(v: int, s: nat, width: nat)
    requires s + width <= 8
    ensures BitsOf(v, 8)[s..s + width] == BitsOf(v / Pow2(s), width)
  {
    hide BitsOf, Pow2;
    BitsSplit(v, s, 8 - s);
    BitsSplit(v / Pow2(s), width, 8 - s - width);
    MiddleOfThree(BitsOf(v, s), BitsOf(v / Pow2(s), width), BitsOf(v / Pow2(s) / Pow2(width), 8 - s - width));
  }

  lemma MiddleOfThree(x: seq<bool>, y: seq<bool>, z: seq<bool>)
    ensures (x + (y + z))[|x|..|x| + |y|] == y
  {
  }

  lemma SliceOfSlice(bits: seq<bool>, lo: nat, hi: nat, s: nat, e: nat)
    requires lo <= hi <= |bits| && s <= e <= hi - lo
    ensures bits[lo..hi][s..e] == bits[lo + s..lo + e]
  {
    var x, y := bits[lo..hi][s..e], bits[lo + s..lo + e];
    assert |x| == |y| && forall i :: 0 <= i < |x| ==> x[i] == bits[lo + s + i] == y[i];
    assert x == y;
  }

  // Reading a field of a command is plain arithmetic on the bytes of its payload.
  lemma ReadIsNumber(b: Buffer, f: Field)
    requires Simple(f)
    ensures Get(b, f) == Number(b[1..], f)
  {
    hide BitsOf, DataBits, ValueOf, LittleEndian, Pow2;
    var j, s := f.pos / 8, f.pos % 8;
    var bits := DataBits(b[1..]);
    assert f.pos == 8 * j + s;
    if s + f.width <= 8 {
      BitsOfBytesAt(b[1..], j, 1);
      SingleByte(b[1..][j]);
      assert b[1..][j..j + 1] == [b[1..][j]];
      SliceOfSlice(bits, 8 * j, 8 * j + 8, s, s + f.width);
      BitsWithin(b[1..][j], s, f.width);
      ValueIsRemainder(b[1..][j] / Pow2(s), f.width);
    } else {
      var n := f.width / 8;
      assert f.pos == 8 * j && f.width == 8 * n;
      BitsOfBytesAt(b[1..], j, n);
      ValueOfBytes(b[1..][j..j + n]);
    }
  }

  lemma SingleByte(b: byte)
    ensures DataBits([b]) == BitsOf(b, 8)
  {
    hide BitsOf;
    DataBitsCons(b, []);
    assert [b] + [] == [b];
  }

  // ---- the payloads ----

  lemma LittleEndianCons(b: byte, rest: seq<byte>)
    ensures LittleEndian([b] + rest) == b + 0x100 * LittleEndian(rest)
  {
    assert ([b] + rest)[1..] == rest;
  }

  // The low byte of a number and the low bytes of the rest of it.
  lemma LowByteAndRest(v: int, m: nat)
    requires m > 0
    ensures v % 0x100 + 0x100 * (v / 0x100 % m) == v % (0x100 * m)
  {
    var q, r := v / 0x100 / m, v / 0x100 % m;
    DivMod(v / 0x100, m);
    assert v == 0x100 * (q * m + r) + v % 0x100;
    assert 0x100 * (q * m) == q * (0x100 * m);
    QuotientUnique(v, 0x100 * m, q, 0x100 * r + v % 0x100);
  }

  function TwoBytes(v: int): (r: seq<byte>)
    ensures |r| == 2 && LittleEndian(r) == v % 0x1_0000
  {
    hide LittleEndian;
    LowByteAndRest(v, 0x100);
    LittleEndianCons(v % 0x100, [v / 0x100 % 0x100]);
    LittleEndianCons(v / 0x100 % 0x100, []);
    LittleEndianEmpty();
    [v % 0x100] + ([v / 0x100 % 0x100] + [])
  }

  lemma LittleEndianEmpty()
    ensures LittleEndian([]) == 0
  {
  }

  function ThreeBytes(v: int): (r: seq<byte>)
    ensures |r| == 3 && LittleEndian(r) == v % 0x100_0000
  {
    hide LittleEndian;
    LowByteAndRest(v, 0x1_0000);
    LittleEndianCons(v % 0x100, TwoBytes(v / 0x100));
    [v % 0x100] + TwoBytes(v / 0x100)
  }

  function FourBytes(v: int): (r: seq<byte>)
    ensures |r| == 4 && LittleEndian(r) == v % 0x1_0000_0000
  {
    hide LittleEndian;
    LowByteAndRest(v, 0x100_0000);
    LittleEndianCons(v % 0x100, ThreeBytes(v / 0x100));
    [v % 0x100] + ThreeBytes(v / 0x100)
  }

  lemma Powers()
    ensures Pow2(0) == 1 && Pow2(1) == 2 && Pow2(2) == 4 && Pow2(3) == 8 && Pow2(4) == 0x10 && Pow2(5) == 0x20
    ensures Pow2(6) == 0x40 && Pow2(7) == 0x80 && Pow2(8) == 0x100 && Pow2(16) == 0x1_0000 && Pow2(24) == 0x100_0000
    ensures Pow2(32) == 0x1_0000_0000
  {
  }

  lemma PartIs(b: byte)
    ensures Part(b, 0, 1) == b % 2 && Part(b, 1, 1) == b / 2 % 2 && Part(b, 2, 1) == b / 4 % 2
    ensures Part(b, 4, 1) == b / 0x10 % 2 && Part(b, 5, 1) == b / 0x20 % 2 && Part(b, 7, 1) == b / 0x80
    ensures Part(b, 1, 7) == b / 2 && Part(b, 2, 6) == b / 4 && Part(b, 3, 5) == b / 8 && Part(b, 6, 2) == b / 0x40
    ensures Part(b, 0, 3) == b % 8 && Part(b, 3, 3) == b / 8 % 8 && Part(b, 4, 3) == b / 0x10 % 8
    ensures Part(b, 0, 4) == b % 0x10 && Part(b, 4, 4) == b / 0x10 && Part(b, 0, 8) == b
  {
    hide Pow2;
    Powers();
  }

  // Two values of four bits in one byte, the first in the low bits.
  function Nibbles(x: int, y: int): (r: byte)
    ensures Part(r, 0, 4) == x % 0x10 && Part(r, 4, 4) == y % 0x10
  {
    hide Part;
    PartIs(x % 0x10 + 0x10 * (y % 0x10));
    x % 0x10 + 0x10 * (y % 0x10)
  }

  // A value of four bits and one of three.
  function NibbleAndTriple(x: int, y: int): (r: byte)
    ensures Part(r, 0, 4) == x % 0x10 && Part(r, 4, 3) == y % 8 && Part(r, 7, 1) == 0
  {
    hide Part;
    var r := x % 0x10 + 0x10 * (y % 8);
    assert r / 0x10 == y % 8 && r / 0x80 == 0;
    PartIs(r);
    r
  }

  // A value of four bits and two single bits.
  function NibbleAndFlags(x: int, y: int, z: int): (r: byte)
    ensures Part(r, 0, 4) == x % 0x10 && Part(r, 4, 1) == y % 2 && Part(r, 5, 1) == z % 2 && Part(r, 6, 2) == 0
  {
    hide Part;
    var high := y % 2 + 2 * (z % 2);
    var r := x % 0x10 + 0x10 * high;
    assert r / 0x10 == high;
    assert r / 0x20 == z % 2 && r / 0x40 == 0;
    PartIs(r);
    r
  }

  // Two values of three bits.
  function Triples(x: int, y: int): (r: byte)
    ensures Part(r, 0, 3) == x % 8 && Part(r, 3, 3) == y % 8 && Part(r, 6, 2) == 0
  {
    hide Part;
    var r := x % 8 + 8 * (y % 8);
    assert r / 8 == y % 8 && r / 0x40 == 0;
    PartIs(r);
    r
  }

  // Two single bits, and three.
  function TwoFlags(x: int, y: int): (r: byte)
    ensures Part(r, 0, 1) == x % 2 && Part(r, 1, 1) == y % 2 && Part(r, 2, 6) == 0
  {
    hide Part;
    PartIs(x % 2 + 2 * (y % 2));
    x % 2 + 2 * (y % 2)
  }

  function ThreeFlags(x: int, y: int, z: int): (r: byte)
    ensures Part(r, 0, 1) == x % 2 && Part(r, 1, 1) == y % 2 && Part(r, 2, 1) == z % 2 && Part(r, 3, 5) == 0
  {
    hide Part;
    PartIs(x % 2 + 2 * (y % 2) + 4 * (z % 2));
    x % 2 + 2 * (y % 2) + 4 * (z % 2)
  }

  // One value in a byte, with zeros above.
  lemma SinglePart(v: int)
    ensures Part(v % 2, 0, 1) == v % 2 && Part(v % 2, 1, 7) == 0
    ensures Part(v % 8, 0, 3) == v % 8 && Part(v % 8, 3, 5) == 0
    ensures Part(v % 0x10, 0, 4) == v % 0x10 && Part(v % 0x10, 4, 4) == 0
    ensures Part(v % 0x100, 0, 8) == v % 0x100
  {
    hide Part;
    PartIs(v % 2);
    PartIs(v % 8);
    PartIs(v % 0x10);
    PartIs(v % 0x100);
  }

  // The payload after set() of a command that a gateway sends, from the payload before.
  function GatewayPayload(cid: byte, v: seq<int>, clock: (int, int), was: Payload): Payload {
    match cid
    case 0x01 => [1] + was[1..]
    case 0x02 => if |v| < 2 then was else [v[0] % 0x100, v[1] % 0x100] + was[2..]
    case 0x03 =>
      if |v| < 5 then was
      else [Nibbles(v[0], v[1])] + TwoBytes(v[2]) + [NibbleAndTriple(v[3], v[4])] + was[4..]
    case 0x04 => if |v| < 1 then was else [v[0] % 0x10] + was[1..]
    case 0x05 => if |v| < 3 then was else [NibbleAndTriple(v[2], v[1])] + ThreeBytes(v[0]) + was[4..]
    case 0x07 =>
      if |v| < 4 then was else [v[0] % 0x100] + ThreeBytes(v[1]) + [Nibbles(v[2], v[3])]
    case 0x08 => if |v| < 1 then was else [v[0] % 0x10] + was[1..]
    case 0x09 =>
      if |v| < 3 then was else [NibbleAndFlags(v[2], v[1], v[0])] + was[1..]
    case 0x0a => if |v| < 2 then was else [v[0] % 0x100] + ThreeBytes(v[1]) + was[4..]
    case 0x0b => [1] + was[1..]
    case 0x0c => if |v| < 2 then was else [Nibbles(v[1], v[0])] + was[1..]
    case 0x0d => FourBytes(clock.0) + [clock.1 % 0x100]
    case 0x0e =>
      if |v| < 3 then was else [NibbleAndTriple(was[0], v[2]), Triples(v[1], v[0])] + was[2..]
    case 0x0f => if |v| < 2 then was else [Nibbles(v[1], v[0])] + was[1..]
    case 0x11 => if |v| < 2 then was else [v[1] % 0x10] + ThreeBytes(v[0]) + was[4..]
    case 0x12 => if |v| < 2 then was else [v[1] % 0x100] + TwoBytes(v[0]) + was[3..]
    case 0x13 => if |v| < 1 then was else ThreeBytes(v[0]) + was[3..]
    case 0x20 => if |v| < 1 then was else [v[0] % 0x100] + was[1..]
    case _ => was
  }

  // The same of a command that a device sends.
  function DevicePayload(cid: byte, v: seq<int>, was: Payload): Payload {
    match cid
    case 0x01 => [1] + was[1..]
    case 0x03 => if |v| < 3 then was else [ThreeFlags(v[2], v[1], v[0])] + was[1..]
    case 0x05 => if |v| < 3 then was else [ThreeFlags(v[2], v[1], v[0])] + was[1..]
    case 0x06 => if |v| < 2 then was else [v[0] % 0x100, v[1] % 0x100] + was[2..]
    case 0x07 => if |v| < 2 then was else [TwoFlags(v[0], v[1])] + was[1..]
    case 0x0a => if |v| < 2 then was else [TwoFlags(v[0], v[1])] + was[1..]
    case 0x0b => [1] + was[1..]
    case 0x0f => if |v| < 1 then was else [v[0] % 2] + was[1..]
    case 0x10 => if |v| < 1 then was else [v[0] % 8] + was[1..]
    case 0x11 => if |v| < 2 then was else [TwoFlags(v[1], v[0])] + was[1..]
    case 0x13 => if |v| < 1 then was else [v[0] % 2] + was[1..]
    case 0x20 => if |v| < 1 then was else [v[0] % 0x100] + was[1..]
    case _ => was
  }

  // ---- from the fields to the bytes ----

  lemma {:induction false} BytesOfBits(bytes: seq<byte>)
    ensures DataBytes(DataBits(bytes)) == bytes
  {
    if bytes != [] {
      hide BitsOf, ValueOf;
      assert Pow2(8) == 0x100;
      ValueOfBits(bytes[0], 8);
      BytesOfBits(bytes[1..]);
      assert DataBits(bytes)[..8] == BitsOf(bytes[0], 8) && DataBits(bytes)[8..] == DataBits(bytes[1..]);
    }
  }

  function Bits(p: Payload): seq<bool> {
    DataBits(p)
  }

  // A field that reads the same in two payloads has the same bits in them.
  lemma SameBits(p: Payload, q: Payload, f: Field, k: nat)
    requires Simple(f) && Number(p, f) == Number(q, f) && f.pos <= k < f.pos + f.width
    ensures Bits(p)[k] == Bits(q)[k]
  {
    hide BitsOf, DataBits, ValueOf, Number;
    ReadIsNumber([0] + p, f);
    ReadIsNumber([0] + q, f);
    assert ([0] + p)[1..] == p && ([0] + q)[1..] == q;
    var x, y := Bits(p)[f.pos..f.pos + f.width], Bits(q)[f.pos..f.pos + f.width];
    BitsOfValue(x);
    BitsOfValue(y);
    assert x[k - f.pos] == y[k - f.pos];
  }

  // A payload in which every field reads what it was given, with the other bits as they were, is the payload after set.
  lemma PayloadIs(buffer: Buffer, cid: byte, values: seq<int>, clientSide: bool, clock: (int, int), q: Payload)
    requires |values| >= Needed(cid, clientSide)
    requires forall f :: f in FieldsOf(cid, clientSide) ==>
      Simple(f) && Number(q, f) == FieldValue(f.source, values, clock) % Pow2(f.width)
    requires forall k :: 0 <= k < DATA_BITS && Elsewhere(FieldsOf(cid, clientSide), k) ==>
      Bits(q)[k] == BitAt(buffer, k)
    ensures SetCommand(buffer, cid, values, clientSide, clock) == [cid] + q
  {
    hide Needed, FieldsOf, BitsOf, DataBits, DataBytes, ValueOf, SetCommand, Number, FieldValue, Get, Pow2;
    var b, fields := SetCommand(buffer, cid, values, clientSide, clock), FieldsOf(cid, clientSide);
    SetIsComplete(buffer, cid, values, clientSide, clock);
    var p: Payload := b[1..];
    forall k | 0 <= k < DATA_BITS ensures Bits(p)[k] == Bits(q)[k] {
      if Elsewhere(fields, k) {
        assert BitAt(b, k) == BitAt(buffer, k);
      } else {
        var i :| 0 <= i < |fields| && fields[i].pos <= k < fields[i].pos + fields[i].width;
        var f := fields[i];
        assert f in fields;
        ReadIsNumber(b, f);
        ValueIsRemainder(FieldValue(f.source, values, clock), f.width);
        SameBits(p, q, f, k);
      }
    }
    BytesOfBits(p);
    BytesOfBits(q);
    assert Bits(p) == Bits(q);
    assert b == [b[0]] + p;
  }

  // ---- command by command ----

  // The fields of a command fill its bytes; only ForceRejoin leaves four bits as they were.
  lemma SixFields(fields: seq<Field>, k: nat)
    requires |fields| <= 6 && Elsewhere(fields, k)
    ensures |fields| > 0 ==> !(fields[0].pos <= k < fields[0].pos + fields[0].width)
    ensures |fields| > 1 ==> !(fields[1].pos <= k < fields[1].pos + fields[1].width)
    ensures |fields| > 2 ==> !(fields[2].pos <= k < fields[2].pos + fields[2].width)
    ensures |fields| > 3 ==> !(fields[3].pos <= k < fields[3].pos + fields[3].width)
    ensures |fields| > 4 ==> !(fields[4].pos <= k < fields[4].pos + fields[4].width)
    ensures |fields| > 5 ==> !(fields[5].pos <= k < fields[5].pos + fields[5].width)
  {
  }

  lemma GatewayCovers(cid: byte, k: nat)
    requires Elsewhere(GatewayFields(cid), k)
    ensures GatewayFields(cid) != [] && k < 8 * (CommandSize(cid, true) - 1) ==> cid == 0x0e && k < 4
  {
    SixFields(GatewayFields(cid), k);
  }

  lemma DeviceCovers(cid: byte, k: nat)
    requires Elsewhere(DeviceFields(cid), k)
    ensures DeviceFields(cid) != [] ==> k >= 8 * (CommandSize(cid, false) - 1)
  {
    SixFields(DeviceFields(cid), k);
  }

  lemma DeviceNumbers(cid: byte, v: seq<int>, clock: (int, int), was: Payload, f: Field)
    requires |v| >= Needed(cid, false) && f in DeviceFields(cid)
    ensures Simple(f) && Number(DevicePayload(cid, v, was), f) == FieldValue(f.source, v, clock) % Pow2(f.width)
  {
    hide Pow2, LittleEndian, Part, TwoFlags, ThreeFlags;
    Powers();
    SinglePart(1);
    SinglePart(FieldValue(f.source, v, clock));
    forall i | 0 <= i < |v| {
      SinglePart(v[i]);
    }
  }

  lemma GatewayNumbersLow(cid: byte, v: seq<int>, clock: (int, int), was: Payload, f: Field)
    requires |v| >= Needed(cid, true) && f in GatewayFields(cid) && f.width <= 8 && cid < 9
    ensures Simple(f) && Number(GatewayPayload(cid, v, clock, was), f) == FieldValue(f.source, v, clock) % Pow2(f.width)
  {
    hide Pow2, LittleEndian, Part, TwoBytes, ThreeBytes, FourBytes;
    hide Nibbles, NibbleAndTriple, NibbleAndFlags, Triples;
    Powers();
    SinglePart(1);
    SinglePart(FieldValue(f.source, v, clock));
    forall i | 0 <= i < |v| {
      SinglePart(v[i]);
    }
  }

  lemma GatewayNumbersHigh(cid: byte, v: seq<int>, clock: (int, int), was: Payload, f: Field)
    requires |v| >= Needed(cid, true) && f in GatewayFields(cid) && f.width <= 8 && cid >= 9
    ensures Simple(f) && Number(GatewayPayload(cid, v, clock, was), f) == FieldValue(f.source, v, clock) % Pow2(f.width)
  {
    hide Pow2, LittleEndian, Part, TwoBytes, ThreeBytes, FourBytes;
    hide Nibbles, NibbleAndTriple, NibbleAndFlags, Triples;
    Powers();
    SinglePart(1);
    SinglePart(FieldValue(f.source, v, clock));
    forall i | 0 <= i < |v| {
      SinglePart(v[i]);
    }
  }

  lemma GatewayNumbersWide(cid: byte, v: seq<int>, clock: (int, int), was: Payload, f: Field)
    requires |v| >= Needed(cid, true) && f in GatewayFields(cid) && f.width > 8
    ensures Simple(f) && Number(GatewayPayload(cid, v, clock, was), f) == FieldValue(f.source, v, clock) % Pow2(f.width)
  {
    hide Pow2, LittleEndian, TwoBytes, ThreeBytes, FourBytes, Part, Nibbles, NibbleAndTriple, NibbleAndFlags, Triples;
    Powers();
    var bytes := GatewayPayload(cid, v, clock, was)[f.pos / 8..f.pos / 8 + f.width / 8];
    match f.width
    case 16 => assert bytes == TwoBytes(FieldValue(f.source, v, clock));
    case 24 => assert bytes == ThreeBytes(FieldValue(f.source, v, clock));
    case 32 => assert bytes == FourBytes(FieldValue(f.source, v, clock));
  }

  // ---- the result ----

  // Bits that no field covers: behind the bytes of the command, or the low four of ForceRejoin.
  lemma BitBehind(p: Payload, q: Payload, n: nat, k: nat)
    requires n <= 5 && p[n..] == q[n..] && 8 * n <= k < DATA_BITS
    ensures Bits(p)[k] == Bits(q)[k]
  {
    hide DataBits;
    BitsOfRest(p, n);
    BitsOfRest(q, n);
    assert Bits(p)[k] == DataBits(p[n..])[k - 8 * n];
    assert Bits(q)[k] == DataBits(q[n..])[k - 8 * n];
  }

  lemma GatewayBehindLow(cid: byte, v: seq<int>, clock: (int, int), was: Payload)
    requires |v| >= Needed(cid, true) && cid < 9
    ensures var q, n := GatewayPayload(cid, v, clock, was), CommandSize(cid, true) - 1;
      if GatewayFields(cid) == [] then q == was else 0 < n <= 5 && q[n..] == was[n..]
  {
    hide Pow2, LittleEndian, TwoBytes, ThreeBytes, FourBytes;
    hide Nibbles, NibbleAndTriple, NibbleAndFlags, Triples;
  }

  lemma GatewayBehindHigh(cid: byte, v: seq<int>, clock: (int, int), was: Payload)
    requires |v| >= Needed(cid, true) && cid >= 9
    ensures var q, n := GatewayPayload(cid, v, clock, was), CommandSize(cid, true) - 1;
      if GatewayFields(cid) == [] then q == was else 0 < n <= 5 && q[n..] == was[n..]
  {
    hide Pow2, LittleEndian, TwoBytes, ThreeBytes, FourBytes;
    hide Nibbles, NibbleAndTriple, NibbleAndFlags, Triples;
  }

  lemma GatewayBehind(cid: byte, v: seq<int>, clock: (int, int), was: Payload)
    requires |v| >= Needed(cid, true)
    ensures var q, n := GatewayPayload(cid, v, clock, was), CommandSize(cid, true) - 1;
      if GatewayFields(cid) == [] then q == was else 0 < n <= 5 && q[n..] == was[n..]
  {
    hide Needed, GatewayFields, GatewayPayload, CommandSize;
    if cid < 9 {
      GatewayBehindLow(cid, v, clock, was);
    } else {
      GatewayBehindHigh(cid, v, clock, was);
    }
  }

  lemma DeviceBehind(cid: byte, v: seq<int>, was: Payload)
    requires |v| >= Needed(cid, false)
    ensures var q, n := DevicePayload(cid, v, was), CommandSize(cid, false) - 1;
      if DeviceFields(cid) == [] then q == was else 0 < n <= 5 && q[n..] == was[n..]
  {
    hide TwoFlags, ThreeFlags;
  }

  function PayloadAfter(cid: byte, v: seq<int>, clientSide: bool, clock: (int, int), was: Payload): Payload {
    if clientSide then GatewayPayload(cid, v, clock, was) else DevicePayload(cid, v, was)
  }

  lemma Numbers(cid: byte, v: seq<int>, clientSide: bool, clock: (int, int), was: Payload, f: Field)
    requires |v| >= Needed(cid, clientSide) && f in FieldsOf(cid, clientSide)
    ensures Simple(f)
    ensures Number(PayloadAfter(cid, v, clientSide, clock, was), f) == FieldValue(f.source, v, clock) % Pow2(f.width)
  {
    hide Needed, Number, Simple, GatewayPayload, DevicePayload, GatewayFields, DeviceFields, FieldValue, Pow2;
    if !clientSide {
      DeviceNumbers(cid, v, clock, was, f);
    } else if f.width > 8 {
      GatewayNumbersWide(cid, v, clock, was, f);
    } else if cid < 9 {
      GatewayNumbersLow(cid, v, clock, was, f);
    } else {
      GatewayNumbersHigh(cid, v, clock, was, f);
    }
  }

  // The first four bits of ForceRejoin are not assigned.
  lemma RejoinKeeps(v: seq<int>, clock: (int, int), was: Payload, k: nat)
    requires k < 4 && |v| >= 3
    ensures Bits(GatewayPayload(0x0e, v, clock, was))[k] == Bits(was)[k]
  {
    hide Bits, NibbleAndTriple, Triples, Part, Pow2;
    var q := GatewayPayload(0x0e, v, clock, was);
    SinglePart(was[0]);
    PartIs(was[0]);
    SameBits(q, was, Field(0, 4, Const(0)), k);
  }

  // The bits in no field are as before.
  lemma Keeps(cid: byte, v: seq<int>, clientSide: bool, clock: (int, int), was: Payload, k: nat)
    requires |v| >= Needed(cid, clientSide) && Elsewhere(FieldsOf(cid, clientSide), k) && k < DATA_BITS
    ensures Bits(PayloadAfter(cid, v, clientSide, clock, was))[k] == Bits(was)[k]
  {
    if clientSide && cid == 0x0e && k < 4 {
      RejoinKeeps(v, clock, was, k);
    } else {
      hide Needed, GatewayPayload, DevicePayload, GatewayFields, DeviceFields, Bits, Elsewhere, CommandSize;
      var q := PayloadAfter(cid, v, clientSide, clock, was);
      if clientSide {
        GatewayBehind(cid, v, clock, was);
        GatewayCovers(cid, k);
      } else {
        DeviceBehind(cid, v, was);
        DeviceCovers(cid, k);
      }
      if FieldsOf(cid, clientSide) != [] {
        BitBehind(q, was, CommandSize(cid, clientSide) - 1, k);
      }
    }
  }

  lemma TooFew(cid: byte, v: seq<int>, clientSide: bool, clock: (int, int), was: Payload)
    requires |v| < Needed(cid, clientSide)
    ensures PayloadAfter(cid, v, clientSide, clock, was) == was
  {
  }

  // The whole buffer after set(), for every identifier, every number of arguments of any size, and both directions.
  lemma SetWrites(buffer: Buffer, cid: byte, values: seq<int>, clientSide: bool, clock: (int, int))
    ensures SetCommand(buffer, cid, values, clientSide, clock)
      == [cid] + PayloadAfter(cid, values, clientSide, clock, buffer[1..])
  {
    hide Needed, FieldsOf, CommandSize, Number, Simple, DataBits, FieldValue, Pow2, PayloadAfter, Elsewhere;
    var was: Payload := buffer[1..];
    var q := PayloadAfter(cid, values, clientSide, clock, was);
    if |values| < Needed(cid, clientSide) {
      TooFew(cid, values, clientSide, clock, was);
    } else {
      forall f | f in FieldsOf(cid, clientSide)
        ensures Simple(f) && Number(q, f) == FieldValue(f.source, values, clock) % Pow2(f.width)
      {
        Numbers(cid, values, clientSide, clock, was, f);
      }
      forall k | 0 <= k < DATA_BITS && Elsewhere(FieldsOf(cid, clientSide), k) ensures Bits(q)[k] == BitAt(buffer, k) {
        Keeps(cid, values, clientSide, clock, was, k);
      }
      hide SetCommand, Bits, BitAt;
      PayloadIs(buffer, cid, values, clientSide, clock, q);
    }
  }

  lemma SixWithin(fields: seq<Field>, limit: nat)
    requires |fields| <= 6 && AllWithin(fields, limit)
    ensures |fields| > 0 ==> fields[0].Within(limit)
    ensures |fields| > 1 ==> fields[1].Within(limit)
    ensures |fields| > 2 ==> fields[2].Within(limit)
    ensures |fields| > 3 ==> fields[3].Within(limit)
    ensures |fields| > 4 ==> fields[4].Within(limit)
    ensures |fields| > 5 ==> fields[5].Within(limit)
  {
  }

  lemma LastBitTaken(cid: byte, clientSide: bool)
    requires FieldsOf(cid, clientSide) != [] && CommandSize(cid, clientSide) > 1
    requires AllWithin(FieldsOf(cid, clientSide), 8 * (CommandSize(cid, clientSide) - 1) - 1)
    ensures false
  {
    SixWithin(FieldsOf(cid, clientSide), 8 * (CommandSize(cid, clientSide) - 1) - 1);
  }

  // A known command is printed in one byte if it has no fields, and otherwise in the identifier and just the bytes
  // that its fields fill.
  lemma SizeOfFields(cid: byte, clientSide: bool)
    requires IsMACCommand(cid) == Known
    ensures var fields, n := FieldsOf(cid, clientSide), CommandSize(cid, clientSide);
      if fields == [] then n == 1
      else n > 1 && AllWithin(fields, 8 * (n - 1)) && !AllWithin(fields, 8 * (n - 1) - 1)
  {
    AllFieldsFit(cid, clientSide);
    hide AllWithin;
    var fields, n := FieldsOf(cid, clientSide), CommandSize(cid, clientSide);
    if fields != [] && n > 1 && AllWithin(fields, 8 * (n - 1) - 1) {
      LastBitTaken(cid, clientSide);
    }
  }
}
