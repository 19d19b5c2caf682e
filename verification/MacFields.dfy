/**
 Building a MAC command from a list of arguments, printing it, and reading it back. A command's payload is
 a packed structure; bits are numbered from the least significant bit of the first payload byte on, so
 that a bit field, a 16-bit word and a 24-bit frequency are all one range of bits.
 */
module MacFields {
  import opened Arithmetic
  import opened Basics
  import opened MacStream

  const DATA_BITS := 40

  // ---- numbers as bits, least significant first ----

  function Pow2(k: nat): (p: nat)
    ensures p >= 1
  {
    if k == 0 then 1 else 2 * Pow2(k - 1)
  }

  // The low bits of a number, as an assignment to a bit field or a cast to a smaller type keeps them.
  function BitsOf(v: int, width: nat): (bits: seq<bool>)
    ensures |bits| == width
    decreases width
  {
    if width == 0 then [] else [v % 2 == 1] + BitsOf(v / 2, width - 1)
  }

  function ValueOf(bits: seq<bool>): nat {
    if bits == [] then 0 else (if bits[0] then 1 else 0) + 2 * ValueOf(bits[1..])
  }

  lemma {:induction false} ValueOfBits(v: int, width: nat)
    ensures ValueOf(BitsOf(v, width)) < Pow2(width)
    ensures 0 <= v < Pow2(width) ==> ValueOf(BitsOf(v, width)) == v
    ensures v < 0 <= v + Pow2(width) ==> ValueOf(BitsOf(v, width)) == v + Pow2(width)
    decreases width
  {
    if width > 0 {
      ValueOfBits(v / 2, width - 1);
      assert BitsOf(v, width)[1..] == BitsOf(v / 2, width - 1);
    }
  }

  lemma {:induction false} BitsOfValue(bits: seq<bool>)
    ensures ValueOf(bits) < Pow2(|bits|)
    ensures BitsOf(ValueOf(bits), |bits|) == bits
  {
    if bits != [] {
      BitsOfValue(bits[1..]);
      var v := ValueOf(bits);
      assert v / 2 == ValueOf(bits[1..]) && (v % 2 == 1 <==> bits[0]);
    }
  }

  // ---- payload bytes as bits ----

  function DataBits(bytes: seq<byte>): (bits: seq<bool>)
    ensures |bits| == 8 * |bytes|
  {
    if bytes == [] then [] else BitsOf(bytes[0], 8) + DataBits(bytes[1..])
  }

  function DataBytes(bits: seq<bool>): (bytes: seq<byte>)
    requires |bits| % 8 == 0
    ensures |bytes| == |bits| / 8
  {
    if bits == [] then []
    else
      BitsOfValue(bits[..8]);
      assert Pow2(8) == 0x100;
      [ValueOf(bits[..8])] + DataBytes(bits[8..])
  }

  lemma {:induction false} BitsOfBytes(bits: seq<bool>)
    requires |bits| % 8 == 0
    ensures DataBits(DataBytes(bits)) == bits
  {
    if bits != [] {
      BitsOfValue(bits[..8]);
      BitsOfBytes(bits[8..]);
      assert bits == bits[..8] + bits[8..];
    }
  }

  // The bits of the first n bytes are the first 8 n bits.
  lemma {:induction false} BitsOfPrefix(bytes: seq<byte>, n: nat)
    requires n <= |bytes|
    ensures DataBits(bytes[..n]) == DataBits(bytes)[..8 * n]
  {
    if n > 0 {
      hide BitsOf;
      BitsOfPrefix(bytes[1..], n - 1);
      assert bytes[..n][1..] == bytes[1..][..n - 1];
      PrefixOfSum(BitsOf(bytes[0], 8), DataBits(bytes[1..]), 8 * (n - 1));
    }
  }

  lemma PrefixOfSum(x: seq<bool>, y: seq<bool>, k: nat)
    requires k <= |y|
    ensures (x + y)[..|x| + k] == x + y[..k]
  {
  }

  // ---- fields ----

  // Where the value of a field comes from: an argument, a constant, or the clock (DeviceTime).
  datatype Source = Arg(i: nat) | Const(v: int) | Clock(part: nat)

  datatype Field = Field(pos: nat, width: nat, source: Source) {
    predicate Within(limit: nat) {
      pos + width <= limit
    }

    predicate Apart(other: Field) {
      pos + width <= other.pos || other.pos + other.width <= pos
    }
  }

  function FieldValue(source: Source, values: seq<int>, clock: (int, int)): int {
    match source
    case Arg(i) => if i < |values| then values[i] else 0
    case Const(v) => v
    case Clock(part) => if part == 0 then clock.0 else clock.1
  }

  function WriteField(bits: seq<bool>, f: Field, v: int): (r: seq<bool>)
    requires f.Within(|bits|)
    ensures |r| == |bits|
  {
    bits[..f.pos] + BitsOf(v, f.width) + bits[f.pos + f.width..]
  }

  function ReadField(bits: seq<bool>, f: Field): nat
    requires f.Within(|bits|)
  {
    ValueOf(bits[f.pos..f.pos + f.width])
  }

  predicate AllWithin(fields: seq<Field>, limit: nat) {
    forall i :: 0 <= i < |fields| ==> fields[i].Within(limit)
  }

  predicate PairwiseApart(fields: seq<Field>) {
    forall i, j :: 0 <= i < j < |fields| ==> fields[i].Apart(fields[j])
  }

  function WriteFields(bits: seq<bool>, fields: seq<Field>, values: seq<int>, clock: (int, int)): (r: seq<bool>)
    requires AllWithin(fields, |bits|)
    ensures |r| == |bits|
  {
    if fields == [] then bits
    else
      var n := |fields| - 1;
      WriteField(WriteFields(bits, fields[..n], values, clock), fields[n], FieldValue(fields[n].source, values, clock))
  }

  // Fields that do not overlap keep what was written to each of them.
  lemma {:induction false} FieldsKept(bits: seq<bool>, fields: seq<Field>, values: seq<int>, clock: (int, int), i: nat)
    requires AllWithin(fields, |bits|) && PairwiseApart(fields) && i < |fields|
    ensures var f := fields[i];
      WriteFields(bits, fields, values, clock)[f.pos..f.pos + f.width]
        == BitsOf(FieldValue(f.source, values, clock), f.width)
  {
    var n := |fields| - 1;
    if i < n {
      FieldsKept(bits, fields[..n], values, clock, i);
      assert fields[i].Apart(fields[n]);
    }
  }

  // ---- the assignments of set(), case by case ----

  // How many arguments a command needs before anything is assigned.
  function Needed(cid: byte, clientSide: bool): nat {
    if clientSide then
      match cid
      case 0x02 => 2 case 0x03 => 5 case 0x04 => 1 case 0x05 => 3 case 0x07 => 4 case 0x08 => 1 case 0x09 => 3
      case 0x0a => 2 case 0x0c => 2 case 0x0e => 3 case 0x0f => 2 case 0x11 => 2 case 0x12 => 2 case 0x13 => 1
      case 0x20 => 1 case _ => 0
    else
      match cid
      case 0x03 => 3 case 0x05 => 3 case 0x06 => 2 case 0x07 => 2 case 0x0a => 2 case 0x0f => 1 case 0x10 => 1
      case 0x11 => 2 case 0x13 => 1 case 0x20 => 1 case _ => 0
  }

  function GatewayFields(cid: byte): seq<Field> {
    match cid
    case 0x01 => [Field(4, 4, Const(0)), Field(0, 4, Const(1))]
    case 0x02 => [Field(0, 8, Arg(0)), Field(8, 8, Arg(1))]
    case 0x03 => [Field(0, 4, Arg(0)), Field(4, 4, Arg(1)), Field(8, 16, Arg(2)), Field(24, 4, Arg(3)),
                  Field(28, 3, Arg(4)), Field(31, 1, Const(0))]
    case 0x04 => [Field(0, 4, Arg(0)), Field(4, 4, Const(0))]
    case 0x05 => [Field(8, 24, Arg(0)), Field(4, 3, Arg(1)), Field(0, 4, Arg(2)), Field(7, 1, Const(0))]
    case 0x07 => [Field(0, 8, Arg(0)), Field(8, 24, Arg(1)), Field(32, 4, Arg(2)), Field(36, 4, Arg(3))]
    case 0x08 => [Field(0, 4, Arg(0)), Field(4, 4, Const(0))]
    case 0x09 => [Field(5, 1, Arg(0)), Field(4, 1, Arg(1)), Field(0, 4, Arg(2)), Field(6, 2, Const(0))]
    case 0x0a => [Field(0, 8, Arg(0)), Field(8, 24, Arg(1))]
    case 0x0b => [Field(0, 4, Const(1)), Field(4, 4, Const(0))]
    case 0x0c => [Field(4, 4, Arg(0)), Field(0, 4, Arg(1))]
    case 0x0d => [Field(0, 32, Clock(0)), Field(32, 8, Clock(1))]
    case 0x0e => [Field(11, 3, Arg(0)), Field(8, 3, Arg(1)), Field(4, 3, Arg(2)), Field(7, 1, Const(0)),
                  Field(14, 2, Const(0))]
    case 0x0f => [Field(4, 4, Arg(0)), Field(0, 4, Arg(1))]
    case 0x11 => [Field(8, 24, Arg(0)), Field(0, 4, Arg(1)), Field(4, 4, Const(0))]
    case 0x12 => [Field(8, 16, Arg(0)), Field(0, 8, Arg(1))]
    case 0x13 => [Field(0, 24, Arg(0))]
    case 0x20 => [Field(0, 8, Arg(0))]
    case _ => []
  }

  function DeviceFields(cid: byte): seq<Field> {
    match cid
    case 0x01 => [Field(4, 4, Const(0)), Field(0, 4, Const(1))]
    case 0x03 => [Field(2, 1, Arg(0)), Field(1, 1, Arg(1)), Field(0, 1, Arg(2)), Field(3, 5, Const(0))]
    case 0x05 => [Field(2, 1, Arg(0)), Field(1, 1, Arg(1)), Field(0, 1, Arg(2)), Field(3, 5, Const(0))]
    case 0x06 => [Field(0, 8, Arg(0)), Field(8, 8, Arg(1))]
    case 0x07 => [Field(0, 1, Arg(0)), Field(1, 1, Arg(1)), Field(2, 6, Const(0))]
    case 0x0a => [Field(0, 1, Arg(0)), Field(1, 1, Arg(1)), Field(2, 6, Const(0))]
    case 0x0b => [Field(0, 4, Const(1)), Field(4, 4, Const(0))]
    case 0x0f => [Field(0, 1, Arg(0)), Field(1, 7, Const(0))]
    case 0x10 => [Field(0, 3, Arg(0)), Field(3, 5, Const(0))]
    case 0x11 => [Field(1, 1, Arg(0)), Field(0, 1, Arg(1)), Field(2, 6, Const(0))]
    case 0x13 => [Field(0, 1, Arg(0)), Field(1, 7, Const(0))]
    case 0x20 => [Field(0, 8, Arg(0))]
    case _ => []
  }

  function FieldsOf(cid: byte, clientSide: bool): seq<Field> {
    if clientSide then GatewayFields(cid) else DeviceFields(cid)
  }

  predicate FieldsFit(fields: seq<Field>, size: nat) {
    && AllWithin(fields, DATA_BITS)
    && PairwiseApart(fields)
    && (size > 0 ==> AllWithin(fields, 8 * (size - 1)))
  }

  lemma GatewayFieldsFitLow(cid: byte)
    requires cid < 0x0a
    ensures FieldsFit(GatewayFields(cid), CommandSize(cid, true))
  {
  }

  lemma GatewayFieldsFitHigh(cid: byte)
    requires cid >= 0x0a
    ensures FieldsFit(GatewayFields(cid), CommandSize(cid, true))
  {
  }

  lemma DeviceFieldsFit(cid: byte)
    ensures FieldsFit(DeviceFields(cid), CommandSize(cid, false))
  {
  }

  // The fields of every command lie inside the bytes that are printed, and apart from each other.
  lemma AllFieldsFit(cid: byte, clientSide: bool)
    ensures FieldsFit(FieldsOf(cid, clientSide), CommandSize(cid, clientSide))
  {
    hide GatewayFields, DeviceFields, CommandSize, FieldsFit;
    if cid < 0x0a {
      GatewayFieldsFitLow(cid);
    } else {
      GatewayFieldsFitHigh(cid);
    }
    DeviceFieldsFit(cid);
  }

  // ---- set, print, parse ----

  // The command buffer after set().
  function SetCommand(buffer: Buffer, cid: byte, values: seq<int>, clientSide: bool, clock: (int, int)): Buffer {
    if |values| < Needed(cid, clientSide) then buffer[0 := cid]
    else
      AllFieldsFit(cid, clientSide);
      [cid] + DataBytes(WriteFields(DataBits(buffer[1..]), FieldsOf(cid, clientSide), values, clock))
  }

  /** One MAC command. */
  class MacData {
    var command: Buffer
    var errcode: int
    var isClientSide: bool

    constructor ()
      ensures command == ZEROES && errcode == 0 && !isClientSide
    {
      command := ZEROES;
      errcode := 0;
      isClientSide := false;
    }

    // The parsing constructor; junk is what the buffer held before.
    constructor FromString(junk: Buffer, value: seq<byte>, sentByGateway: bool)
      ensures isClientSide == sentByGateway
      ensures command == ParseOne(junk, value, sentByGateway).1
      ensures errcode != 0 <==> Stuck(value, sentByGateway)
      ensures errcode != 0 ==> errcode == ParseOne(junk, value, sentByGateway).0 && command == junk
      ensures errcode == 0 ==> Value().ToString() == value[..CommandSize(value[0], sentByGateway)] != []
    {
      ParseOneCuts(junk, value, sentByGateway);
      var (r, b) := ParseOne(junk, value, sentByGateway);
      isClientSide := sentByGateway;
      command := b;
      errcode := if r < 0 then r else 0;
    }

    function Value(): Mac
      reads this
    {
      Mac(command, errcode, isClientSide)
    }

    method Set(cid: byte, values: seq<int>, clientSide: bool, clock: (int, int)) returns (r: bool)
      modifies this
      ensures r && errcode == old(errcode) && isClientSide == clientSide
      ensures command == SetCommand(old(command), cid, values, clientSide, clock)
      ensures command[0] == cid
      ensures |values| < Needed(cid, clientSide) ==> command[1..] == old(command)[1..]
      ensures |values| >= Needed(cid, clientSide) ==> forall f :: f in FieldsOf(cid, clientSide) ==>
        f.Within(DATA_BITS) && Get(command, f) == ValueOf(BitsOf(FieldValue(f.source, values, clock), f.width))
      ensures forall k :: 0 <= k < DATA_BITS && Elsewhere(FieldsOf(cid, clientSide), k) ==>
        BitAt(command, k) == BitAt(old(command), k)
    {
      hide Needed, FieldsOf, Get, BitsOf, ValueOf, Elsewhere, BitAt;
      SetIsComplete(command, cid, values, clientSide, clock);
      command := SetCommand(command, cid, values, clientSide, clock);
      isClientSide := clientSide;
      return true;
    }
  }

  // Reading a field of a command.
  function Get(buffer: Buffer, f: Field): nat
    requires f.Within(DATA_BITS)
  {
    ReadField(DataBits(buffer[1..]), f)
  }

  // A field holds the low bits of the value it was given, whatever the buffer held before. By ValueOfBits
  // that is the value itself if it is in range, and its two's complement if it is negative.
  lemma SetThenGet(buffer: Buffer, cid: byte, values: seq<int>, clientSide: bool, clock: (int, int), f: Field)
    requires |values| >= Needed(cid, clientSide) && f in FieldsOf(cid, clientSide) && f.Within(DATA_BITS)
    ensures Get(SetCommand(buffer, cid, values, clientSide, clock), f)
      == ValueOf(BitsOf(FieldValue(f.source, values, clock), f.width))
  {
    hide Needed, CommandSize, FieldsOf, DataBits, DataBytes, BitsOf, ValueOf, WriteFields;
    AllFieldsFit(cid, clientSide);
    var fields := FieldsOf(cid, clientSide);
    var i :| 0 <= i < |fields| && fields[i] == f;
    var bits := WriteFields(DataBits(buffer[1..]), fields, values, clock);
    FieldsKept(DataBits(buffer[1..]), fields, values, clock, i);
    BitsOfBytes(bits);
    var b := SetCommand(buffer, cid, values, clientSide, clock);
    assert b[1..] == DataBytes(bits);
  }

  // Bit k of the payload lies in none of the fields.
  predicate Elsewhere(fields: seq<Field>, k: nat) {
    forall i :: 0 <= i < |fields| ==> !(fields[i].pos <= k < fields[i].pos + fields[i].width)
  }

  function BitAt(buffer: Buffer, k: nat): bool
    requires k < DATA_BITS
  {
    DataBits(buffer[1..])[k]
  }

  lemma {:induction false} BitsElsewhereKept(bits: seq<bool>, fields: seq<Field>, values: seq<int>, clock: (int, int),
                                             k: nat)
    requires AllWithin(fields, |bits|) && k < |bits| && Elsewhere(fields, k)
    ensures WriteFields(bits, fields, values, clock)[k] == bits[k]
  {
    if fields != [] {
      hide BitsOf;
      BitsElsewhereKept(bits, fields[..|fields| - 1], values, clock, k);
    }
  }

  // What a caller of set sees: the identifier, every field, and every other bit as it was.
  lemma SetIsComplete(buffer: Buffer, cid: byte, values: seq<int>, clientSide: bool, clock: (int, int))
    ensures var b := SetCommand(buffer, cid, values, clientSide, clock);
      && b[0] == cid
      && (|values| < Needed(cid, clientSide) ==> b[1..] == buffer[1..])
      && (|values| >= Needed(cid, clientSide) ==> forall f :: f in FieldsOf(cid, clientSide) ==>
            f.Within(DATA_BITS) && Get(b, f) == ValueOf(BitsOf(FieldValue(f.source, values, clock), f.width)))
      && (forall k :: 0 <= k < DATA_BITS && Elsewhere(FieldsOf(cid, clientSide), k) ==> BitAt(b, k) == BitAt(buffer, k))
  {
    hide Needed, FieldsOf, Get, BitsOf, DataBits, DataBytes, ValueOf, WriteFields, Elsewhere;
    var b, fields := SetCommand(buffer, cid, values, clientSide, clock), FieldsOf(cid, clientSide);
    if |values| >= Needed(cid, clientSide) {
      AllFieldsFit(cid, clientSide);
      var bits := WriteFields(DataBits(buffer[1..]), fields, values, clock);
      BitsOfBytes(bits);
      assert b[1..] == DataBytes(bits);
      forall f | f in fields
        ensures f.Within(DATA_BITS) && Get(b, f) == ValueOf(BitsOf(FieldValue(f.source, values, clock), f.width))
      {
        SetThenGet(buffer, cid, values, clientSide, clock, f);
      }
      forall k | 0 <= k < DATA_BITS && Elsewhere(fields, k) ensures BitAt(b, k) == BitAt(buffer, k) {
        BitsElsewhereKept(DataBits(buffer[1..]), fields, values, clock, k);
      }
    } else {
      assert b[1..] == buffer[1..];
    }
  }

  // Reading a field only needs the bytes that are printed.
  lemma GetOfPrefix(b: Buffer, c: Buffer, n: nat, f: Field)
    requires 0 < n <= MAC_COMMAND_SIZE && b[..n] == c[..n] && f.Within(8 * (n - 1))
    ensures f.Within(DATA_BITS) && Get(b, f) == Get(c, f)
  {
    hide BitsOf, DataBits, ValueOf;
    BitsOfPrefix(b[1..], n - 1);
    BitsOfPrefix(c[1..], n - 1);
    assert b[1..][..n - 1] == b[..n][1..] && c[1..][..n - 1] == c[..n][1..];
    var e := f.pos + f.width;
    SliceOfPrefix(DataBits(b[1..]), 8 * (n - 1), f.pos, e);
    SliceOfPrefix(DataBits(c[1..]), 8 * (n - 1), f.pos, e);
  }

  lemma SliceOfPrefix(bits: seq<bool>, k: nat, lo: nat, hi: nat)
    requires lo <= hi <= k <= |bits|
    ensures bits[lo..hi] == bits[..k][lo..hi]
  {
  }

  // Building a command, printing it and parsing the bytes in the same direction takes all the bytes, prints the same
  // bytes again, and every field reads as in the command that was built. set does not reset an error: a command
  // whose error code is not 0 prints nothing, and nothing is read back.
  lemma BuildThenParse(buffer: Buffer, errcode: int, junk: Buffer, cid: byte, values: seq<int>, clientSide: bool,
                       clock: (int, int))
    requires IsMACCommand(cid) == Known
    ensures var built := Mac(SetCommand(buffer, cid, values, clientSide, clock), errcode, clientSide);
      var (r, b) := ParseOne(junk, built.ToString(), clientSide);
      if errcode != 0 then built.ToString() == [] && r == ERR_CODE_MAC_TOO_SHORT && b == junk
      else
        && r == |built.ToString()| > 0
        && Mac(b, 0, clientSide).ToString() == built.ToString()
        && forall f :: f in FieldsOf(cid, clientSide) ==> f.Within(DATA_BITS) && Get(b, f) == Get(built.command, f)
  {
    if errcode == 0 {
      BuiltIsRead(buffer, junk, cid, values, clientSide, clock);
    }
  }

  lemma BuiltIsRead(buffer: Buffer, junk: Buffer, cid: byte, values: seq<int>, clientSide: bool, clock: (int, int))
    requires IsMACCommand(cid) == Known
    ensures var built := Mac(SetCommand(buffer, cid, values, clientSide, clock), 0, clientSide);
      var (r, b) := ParseOne(junk, built.ToString(), clientSide);
      && r == |built.ToString()| > 0
      && Mac(b, 0, clientSide).ToString() == built.ToString()
      && forall f :: f in FieldsOf(cid, clientSide) ==> f.Within(DATA_BITS) && Get(b, f) == Get(built.command, f)
  {
    TablesAgree(cid, clientSide);
    AllFieldsFit(cid, clientSide);
    var built := Mac(SetCommand(buffer, cid, values, clientSide, clock), 0, clientSide);
    var n := CommandSize(cid, clientSide);
    assert built.command[0] == cid && built.ToString() == built.command[..n];
    hide CommandSize, FieldsOf, Parsed, SetCommand, Get;
    var (r, b) := ParseOne(junk, built.ToString(), clientSide);
    assert b[..n] == built.command[..n] && b[0] == cid;
    forall f | f in FieldsOf(cid, clientSide) ensures f.Within(DATA_BITS) && Get(b, f) == Get(built.command, f) {
      GetOfPrefix(b, built.command, n, f);
    }
  }

  // ---- a 24-bit frequency as three bytes ----

  lemma {:induction false} BitsSplit(v: int, low: nat, high: nat)
    ensures BitsOf(v, low + high) == BitsOf(v, low) + BitsOf(v / Pow2(low), high)
    decreases low
  {
    if low > 0 {
      BitsSplit(v / 2, low - 1, high);
      DivTwice(v, Pow2(low - 1));
    }
  }

  lemma DivTwice(v: int, p: nat)
    requires p > 0
    ensures v / 2 / p == v / (2 * p)
  {
    var q, r := v / 2 / p, v / 2 % p;
    assert v == q * (2 * p) + (2 * r + v % 2);
    QuotientUnique(v, 2 * p, q, 2 * r + v % 2);
  }

  lemma {:induction false} BitsOfMod(v: int, width: nat)
    ensures BitsOf(v % Pow2(width), width) == BitsOf(v, width)
  {
    var q := v / Pow2(width);
    BitsOfMultiple(v % Pow2(width), q, width);
    assert v == v % Pow2(width) + q * Pow2(width);
  }

  lemma {:induction false} BitsOfMultiple(v: int, q: int, width: nat)
    ensures BitsOf(v + q * Pow2(width), width) == BitsOf(v, width)
    decreases width
  {
    if width > 0 {
      var w := q * Pow2(width - 1);
      assert q * Pow2(width) == 2 * w;
      BitsOfMultiple(v / 2, q, width - 1);
    }
  }

  // The three assignments that store a frequency, low byte first, write the 24-bit range of bits.
  lemma FrequencyBytes(v: int)
    ensures BitsOf(v, 24) == DataBits([v % 0x100, v / 0x100 % 0x100, v / 0x1_0000 % 0x100])
  {
    assert Pow2(8) == 0x100 && Pow2(16) == 0x1_0000;
    BitsSplit(v, 8, 16);
    BitsSplit(v / 0x100, 8, 8);
    DivTwiceByte(v);
    BitsOfMod(v, 8);
    BitsOfMod(v / 0x100, 8);
    BitsOfMod(v / 0x1_0000, 8);
    var a, b, c := v % 0x100, v / 0x100 % 0x100, v / 0x1_0000 % 0x100;
    DataBitsCons(a, [b, c]);
    DataBitsCons(b, [c]);
    DataBitsCons(c, []);
    assert [a] + [b, c] == [a, b, c] && [b] + [c] == [b, c];
  }

  lemma DataBitsCons(b: byte, bytes: seq<byte>)
    ensures DataBits([b] + bytes) == BitsOf(b, 8) + DataBits(bytes)
  {
    assert ([b] + bytes)[1..] == bytes;
  }

  lemma DivTwiceByte(v: int)
    ensures v / 0x100 / 0x100 == v / 0x1_0000
  {
  }
}
