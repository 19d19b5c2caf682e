/**
 The 32-bit LoRaWAN device address: a type prefix, a network identifier NwkId and a network address
 NwkAddr (section 13 of the LoRaWAN Backend Interfaces specification, version 1.1 widths).
 The four bytes of the source are one little-endian word here; byte 3 holds the prefix.
 */
module DevAddrCodec {
  import opened Basics
  import opened Uint32

  const ERR_CODE_TYPE_OUT_OF_RANGE: int := -604
  const ERR_CODE_NWK_OUT_OF_RANGE: int := -605
  const ERR_CODE_ADDR_OUT_OF_RANGE: int := -606
  const ERR_CODE_ADDR_SPACE_FULL: int := -607

  const INVALID_ID: uint32 := 0xffff_ffff

  // ---- reading an address ----

  // 0..7, or 8 for a word whose top byte is 0xff
  function NetIdType(w: uint32): (t: nat)
    ensures t <= 8
  {
    var p := w >> 24;
    if p == 0xfe then 7
    else if p >> 1 == 0x7e then 6
    else if p >> 2 == 0x3e then 5
    else if p >> 3 == 0x1e then 4
    else if p >> 4 == 0xe then 3
    else if p >> 5 == 6 then 2
    else if p >> 6 == 2 then 1
    else if p >> 7 == 0 then 0
    else 8
  }

  function NwkId(w: uint32): uint32 {
    var d3, d2, d1, d0 := w >> 24, (w >> 16) & 0xff, (w >> 8) & 0xff, w & 0xff;
    match NetIdType(w)
    case 0 => (d3 & 0x7f) >> 1
    case 1 => d3 & 0x3f
    case 2 => ((d3 & 0x1f) << 4) | (d2 >> 4)
    case 3 => ((d3 & 0xf) << 7) | (d2 >> 1)
    case 4 => ((d3 & 7) << 9) | (d2 << 1) | (d0 >> 7)
    case 5 => ((d3 & 3) << 11) | (d2 << 3) | (d1 >> 5)
    case 6 => ((d3 & 1) << 14) | (d2 << 6) | (d1 >> 2)
    case 7 => (d2 << 9) | (d1 << 1) | (d0 >> 7)
    case _ => INVALID_ID
  }

  function NwkAddr(w: uint32): uint32 {
    var d3, d2, d1, d0 := w >> 24, (w >> 16) & 0xff, (w >> 8) & 0xff, w & 0xff;
    match NetIdType(w)
    case 0 => ((d3 & 1) << 24) | (d2 << 16) | (d1 << 8) | d0
    case 1 => (d2 << 16) | (d1 << 8) | d0
    case 2 => ((d2 & 0xf) << 16) | (d1 << 8) | d0
    case 3 => ((d2 & 1) << 16) | (d1 << 8) | d0
    case 4 => ((d1 & 0x7f) << 8) | d0
    case 5 => ((d1 & 0x1f) << 8) | d0
    case 6 => ((d1 & 3) << 8) | d0
    case 7 => d0 & 0x7f
    case _ => INVALID_ID
  }

  function MaxNwkAddr(t: nat): uint32
    requires t <= 7
  {
    match t
    case 0 => 0x1ff_ffff
    case 1 => 0xff_ffff
    case 2 => 0xf_ffff
    case 3 => 0x1_ffff
    case 4 => 0x7fff
    case 5 => 0x1fff
    case 6 => 0x3ff
    case _ => 0x7f
  }

  // The range checks of the two setters.
  predicate NwkIdFits(t: nat, n: uint32) {
    match t
    case 0 => n < 0x40
    case 1 => n < 0x40
    case 2 => n < 0x200
    case 3 => n < 0x800
    case 4 => n < 0x1000
    case 5 => n < 0x2000
    case 6 => n < 0x8000
    case 7 => n < 0x2_0000
    case _ => false
  }

  predicate NwkAddrFits(t: nat, a: uint32) {
    match t
    case 0 => a < 0x200_0000
    case 1 => a < 0x100_0000
    case 2 => a < 0x10_0000
    case 3 => a < 0x2_0000
    case 4 => a < 0x8000
    case 5 => a < 0x2000
    case 6 => a < 0x400
    case 7 => a < 0x80
    case _ => false
  }

  // ---- the layout of the specification ----

  // 0, 10, 110, ... 11111110
  function Prefix(t: nat): uint32
    requires t <= 7
  {
    match t
    case 0 => 0
    case 1 => 0x8000_0000
    case 2 => 0xc000_0000
    case 3 => 0xe000_0000
    case 4 => 0xf000_0000
    case 5 => 0xf800_0000
    case 6 => 0xfc00_0000
    case _ => 0xfe00_0000
  }

  // Prefix, then NwkId directly above the NwkAddr bits.
  function SpecNetwork(t: nat, n: uint32): uint32
    requires t <= 7
  {
    match t
    case 0 => Prefix(0) | (n << 25)
    case 1 => Prefix(1) | (n << 24)
    case 2 => Prefix(2) | (n << 20)
    case 3 => Prefix(3) | (n << 17)
    case 4 => Prefix(4) | (n << 15)
    case 5 => Prefix(5) | (n << 13)
    case 6 => Prefix(6) | (n << 10)
    case _ => Prefix(7) | (n << 7)
  }

  // Then NwkAddr.
  function SpecWord(t: nat, n: uint32, a: uint32): uint32
    requires t <= 7
  {
    SpecNetwork(t, n) | a
  }

  // ---- what the setters leave in the word ----

  // devaddr[3] = b
  function WithByte3(w: uint32, b: uint32): uint32 {
    (w & 0xff_ffff) | (b << 24)
  }

  function WithType(w: uint32, t: nat): uint32
    requires t <= 7
  {
    var d3 := w >> 24;
    match t
    case 0 => WithByte3(w, d3 & 0x7f)
    case 1 => WithByte3(w, (d3 & 0x3f) | 0x80)
    case 2 => WithByte3(w, (d3 & 0x1f) | 0xc0)
    case 3 => WithByte3(w, (d3 & 0xf) | 0xe0)
    case 4 => WithByte3(w, (d3 & 7) | 0xf0)
    case 5 => WithByte3(w, (d3 & 3) | 0xf8)
    case 6 => WithByte3(w, (d3 & 1) | 0xfc)
    case _ => WithByte3(w, 0xfe)
  }

  // The shift distances are those of the source: one bit too far for type 3 and type 4.
  function WithNwkId(w: uint32, t: nat, n: uint32): uint32
    requires t <= 7
  {
    match t
    case 0 => (w & 0x81ff_ffff) | (n << 25)
    case 1 => (w & 0xc0ff_ffff) | (n << 24)
    case 2 => (w & 0xe00f_ffff) | (n << 20)
    case 3 => (w & 0xf001_ffff) | (n << 18)
    case 4 => (w & 0xf800_7fff) | (n << 16)
    case 5 => (w & 0xfc00_7fff) | (n << 13)
    case 6 => (w & 0xfe00_03ff) | (n << 10)
    case _ => (w & 0xff00_007f) | (n << 7)
  }

  // The bits above NwkAddr. The masks are those of the source: type 5 clears two NwkId bits as well.
  function AddrClear(t: nat): uint32
    requires t <= 7
  {
    match t
    case 0 => 0xfe00_0000
    case 1 => 0xff00_0000
    case 2 => 0xfff0_0000
    case 3 => 0xfffe_0000
    case 4 => 0xffff_8000
    case 5 => 0xffff_8000
    case 6 => 0xffff_fc00
    case _ => 0xffff_ff80
  }

  function WithNwkAddr(w: uint32, t: nat, a: uint32): uint32
    requires t <= 7
  {
    (w & AddrClear(t)) | a
  }

  // Result code and word after set(t, n, a) on a word w; a failing step leaves the earlier steps done.
  function SetResult(w: uint32, t: nat, n: uint32, a: uint32): (int, uint32) {
    if t > 7 then (ERR_CODE_TYPE_OUT_OF_RANGE, w)
    else if !NwkIdFits(t, n) then (ERR_CODE_NWK_OUT_OF_RANGE, WithType(w, t))
    else if !NwkAddrFits(t, a) then (ERR_CODE_ADDR_OUT_OF_RANGE, WithNwkId(WithType(w, t), t, n))
    else (LORA_OK, WithNwkAddr(WithNwkId(WithType(w, t), t, n), t, a))
  }

  // Result code and word after setAddr(a).
  function SetAddrResult(w: uint32, a: uint32): (int, uint32) {
    var t := NetIdType(w);
    if !NwkAddrFits(t, a) then (ERR_CODE_ADDR_OUT_OF_RANGE, w) else (LORA_OK, WithNwkAddr(w, t, a))
  }

  // Result code and word after increment() and decrement().
  function Incremented(w: uint32): (int, uint32) {
    SetAddrResult(w, Inc(NwkAddr(w)))
  }

  function Decremented(w: uint32): (int, uint32) {
    SetAddrResult(w, Dec(NwkAddr(w)))
  }

  /** A device address that is overwritten in place. */
  class DevAddr {
    var devaddr: uint32

    // Uninitialised storage: the bytes are whatever the memory held.
    constructor Uninitialised(junk: uint32)
      ensures devaddr == junk
    {
      devaddr := junk;
    }

    method SetNetIdType(value: nat) returns (r: int)
      modifies this
      ensures r == if value <= 7 then LORA_OK else ERR_CODE_TYPE_OUT_OF_RANGE
      ensures devaddr == if value <= 7 then WithType(old(devaddr), value) else old(devaddr)
    {
      if value > 7 {
        return ERR_CODE_TYPE_OUT_OF_RANGE;
      }
      devaddr := WithType(devaddr, value);
      return LORA_OK;
    }

    method SetNwkId(netIdType: nat, value: uint32) returns (r: int)
      modifies this
      ensures r == if NwkIdFits(netIdType, value) then LORA_OK else ERR_CODE_NWK_OUT_OF_RANGE
      ensures devaddr ==
        if NwkIdFits(netIdType, value) then WithNwkId(old(devaddr), netIdType, value) else old(devaddr)
    {
      if !NwkIdFits(netIdType, value) {
        return ERR_CODE_NWK_OUT_OF_RANGE;
      }
      devaddr := WithNwkId(devaddr, netIdType, value);
      return LORA_OK;
    }

    method SetNwkAddr(netIdType: nat, value: uint32) returns (r: int)
      modifies this
      ensures r == if NwkAddrFits(netIdType, value) then LORA_OK else ERR_CODE_ADDR_OUT_OF_RANGE
      ensures devaddr ==
        if NwkAddrFits(netIdType, value) then WithNwkAddr(old(devaddr), netIdType, value) else old(devaddr)
    {
      if !NwkAddrFits(netIdType, value) {
        return ERR_CODE_ADDR_OUT_OF_RANGE;
      }
      devaddr := WithNwkAddr(devaddr, netIdType, value);
      return LORA_OK;
    }

    method Set(netTypeId: nat, nwkId: uint32, nwkAddr: uint32) returns (r: int)
      modifies this
      ensures (r, devaddr) == SetResult(old(devaddr), netTypeId, nwkId, nwkAddr)
    {
      r := SetNetIdType(netTypeId);
      if r != 0 {
        return r;
      }
      r := SetNwkId(netTypeId, nwkId);
      if r != 0 {
        return r;
      }
      r := SetNwkAddr(netTypeId, nwkAddr);
    }

    // setMinAddress and setMaxAddress of a network with the given type and NwkId
    method SetMinAddress(netTypeId: nat, nwkId: uint32) returns (r: int)
      modifies this
      ensures (r, devaddr) == SetResult(old(devaddr), netTypeId, nwkId, 0)
    {
      r := Set(netTypeId, nwkId, 0);
    }

    method SetMaxAddress(netTypeId: nat, nwkId: uint32) returns (r: int)
      requires netTypeId <= 7
      modifies this
      ensures (r, devaddr) == SetResult(old(devaddr), netTypeId, nwkId, MaxNwkAddr(netTypeId))
    {
      r := Set(netTypeId, nwkId, MaxNwkAddr(netTypeId));
    }

    method SetAddr(nwkAddr: uint32) returns (r: int)
      modifies this
      ensures (r, devaddr) == SetAddrResult(old(devaddr), nwkAddr)
    {
      r := SetNwkAddr(NetIdType(devaddr), nwkAddr);
    }

    method Increment() returns (r: int)
      modifies this
      ensures (r, devaddr) == Incremented(old(devaddr))
    {
      r := SetAddr(Inc(NwkAddr(devaddr)));
    }

    method Decrement() returns (r: int)
      modifies this
      ensures (r, devaddr) == Decremented(old(devaddr))
    {
      r := SetAddr(Dec(NwkAddr(devaddr)));
    }
  }

  // What set leaves above the NwkAddr bits, whatever the word held before.
  function StoredNetwork(t: nat, n: uint32): uint32
    requires t <= 7
  {
    match t
    case 3 => Prefix(3) | (n << 18)
    case 4 => Prefix(4) | (n << 16)
    case 5 => Prefix(5) | ((n >> 2) << 15)
    case _ => SpecNetwork(t, n)
  }

  // What set stores for parts in range.
  function StoredWord(t: nat, n: uint32, a: uint32): uint32
    requires t <= 7
  {
    StoredNetwork(t, n) | a
  }
}
