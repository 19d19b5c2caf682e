/** The 24-bit network identifier: three type bits, then the identifier the NwkId is taken from. */
module NetIds {
  import opened Arithmetic
  import opened LowBits
  import opened Uint32
  import opened DevAddrCodec
  import opened DevAddrTypes

  type NetId = bv24

  function NetType(netid: NetId): (t: nat)
    ensures t <= 7
  {
    var bits := netid >> 21;
    if bits == 0 then 0
    else if bits == 1 then 1
    else if bits == 2 then 2
    else if bits == 3 then 3
    else if bits == 4 then 4
    else if bits == 5 then 5
    else if bits == 6 then 6
    else 7
  }

  function MaskNwkId(t: nat): uint32
    requires t <= 7
  {
    match t
    case 0 => 0x3f
    case 1 => 0x3f
    case 2 => 0x1ff
    case 3 => 0x3ff
    case 4 => 0x7ff
    case 5 => 0x1fff
    case 6 => 0x7fff
    case _ => 0x1_ffff
  }

  function NetNwkId(netid: NetId): uint32 {
    (netid as uint32) & MaskNwkId(NetType(netid))
  }

  // A NwkId that comes from a network identifier never reaches into the address prefix.
  lemma NwkIdIsSafe(netid: NetId)
    ensures PrefixSurvives(NetType(netid), NetNwkId(netid)) && NwkIdFits(NetType(netid), NetNwkId(netid))
  {
  }

  // ---- type and NwkId as numbers ----

  // How many bits of the identifier become the NwkId. Types 3 and 4 have one more in section 13 of the LoRaWAN Backend
  // Interfaces specification.
  function NwkIdWidth(t: nat): nat
    requires t <= 7
  {
    match t
    case 0 => 6
    case 1 => 6
    case 2 => 9
    case 3 => 10
    case 4 => 11
    case 5 => 13
    case 6 => 15
    case _ => 17
  }

  // The number the 24 bits stand for.
  function Number(netid: NetId): nat {
    Value(netid as uint32)
  }

  lemma NwkIdMask(t: nat)
    requires t <= 7
    ensures IsWidth(NwkIdWidth(t)) && MaskNwkId(t) == LowMask(NwkIdWidth(t))
  {
  }

  // The NwkId is the low bits of the identifier.
  lemma NwkIdIsLowBits(netid: NetId)
    ensures Value(NetNwkId(netid)) == Number(netid) % TwoTo(NwkIdWidth(NetType(netid)))
  {
    hide NetType, MaskNwkId, LowMask, Value, TwoTo, NwkIdWidth;
    NwkIdMask(NetType(netid));
    LowBitsValue(netid as uint32, NwkIdWidth(NetType(netid)));
  }

  lemma HighStep(b: bv8)
    requires b != 0xff
    ensures (b + 1) >> 5 == if b & 0x1f == 0x1f then (b >> 5) + 1 else b >> 5
    ensures (b + 1) & 0x1f == if b & 0x1f == 0x1f then 0 else (b & 0x1f) + 1
    ensures b >> 5 != 0xff && b & 0x1f != 0xff
  {
  }

  lemma {:induction false} HighBits(b: bv8)
    ensures ByteValue(b) == 32 * ByteValue(b >> 5) + ByteValue(b & 0x1f)
    decreases ByteValue(b)
  {
    if b == 0 {
      assert b >> 5 == 0 && b & 0x1f == 0;
    } else {
      var c := b - 1;
      PredecessorOf(b);
      ByteSuccessor(c);
      HighBits(c);
      HighStep(c);
      ByteSuccessor(c >> 5);
      ByteSuccessor(c & 0x1f);
      ByteValueIsInt(0x1f);
    }
  }

  lemma TopByte(netid: NetId)
    ensures Byte3(netid as uint32) == 0
    ensures ByteValue(Byte2(netid as uint32) >> 5) == NetType(netid)
  {
    ByteValueIsInt(1);
    ByteValueIsInt(2);
    ByteValueIsInt(3);
    ByteValueIsInt(4);
    ByteValueIsInt(5);
    ByteValueIsInt(6);
    ByteValueIsInt(7);
    assert Byte2(netid as uint32) >> 5 == (netid >> 21) as bv8;
    hide ByteValue;
    TopBits(netid);
  }

  lemma TopBits(netid: NetId)
    ensures netid >> 21 <= 7
    ensures (netid >> 21) as bv8 <= 7
  {
  }

  lemma LowBelow32(b: bv8)
    ensures ByteValue(b & 0x1f) < 32
  {
    ByteLowBits(b, 0x1f);
    ByteValueIsInt(0x1f);
  }

  // The type is the top three bits of the identifier.
  lemma TypeIsTopBits(netid: NetId)
    ensures NetType(netid) == Number(netid) / 0x20_0000
  {
    hide NetType, Byte0, Byte1, Byte2, Byte3;
    var w := netid as uint32;
    TopByte(netid);
    assert ByteValue(0) == 0;
    hide ByteValue;
    HighBits(Byte2(w));
    LowBelow32(Byte2(w));
    ByteBound(Byte0(w));
    ByteBound(Byte1(w));
    QuotientUnique(Number(netid), 0x20_0000, NetType(netid),
                   ByteValue(Byte0(w)) + 0x100 * ByteValue(Byte1(w)) + 0x1_0000 * ByteValue(Byte2(w) & 0x1f));
  }
}
