/**
 Bit-level facts about device addresses, family by family. Each fact is shown for the eight address
 types one at a time: with the type known, masks and shift distances are constants.
 */
module DevAddrTypes {
  import opened Uint32
  import opened DevAddrCodec
  import opened LowBits

  // The parts for which the stored word is the specified one.
  predicate SetIsExact(t: nat, n: uint32) {
    match t
    case 3 => n == 0
    case 4 => n == 0
    case 5 => n & 3 == 0
    case _ => true
  }

  // The parts which the getters return after set.
  predicate RoundTrips(t: nat, n: uint32, a: uint32) {
    SetIsExact(t, n) && (t == 4 ==> a & 0x80 == 0)
  }

  // The words which set rebuilds from their own parts.
  predicate Canonical(w: uint32, t: nat) {
    match t
    case 3 => w & 0x0ffe_0000 == 0
    case 4 => w & 0x07ff_8080 == 0
    case 5 => w & 0x6000 == 0
    case _ => true
  }

  // NwkId values that leave the prefix alone.
  predicate PrefixSurvives(t: nat, n: uint32) {
    NwkIdFits(t, n) && (t == 3 ==> n < 0x400) && (t == 4 ==> n < 0x800)
  }

  function AddressBits(w: uint32, t: nat): uint32
    requires t <= 7
  {
    w & MaxNwkAddr(t)
  }

  // The bytes an address in range can have.
  predicate BytesWithin(a: uint32, t: nat)
    requires t <= 7
  {
    match t
    case 0 => Byte3(a) <= 1
    case 1 => Byte3(a) == 0
    case 2 => Byte3(a) == 0 && Byte2(a) <= 0xf
    case 3 => Byte3(a) == 0 && Byte2(a) <= 1
    case 4 => Byte3(a) == 0 && Byte2(a) == 0 && Byte1(a) <= 0x7f
    case 5 => Byte3(a) == 0 && Byte2(a) == 0 && Byte1(a) <= 0x1f
    case 6 => Byte3(a) == 0 && Byte2(a) == 0 && Byte1(a) <= 3
    case _ => Byte3(a) == 0 && Byte2(a) == 0 && Byte1(a) == 0 && Byte0(a) <= 0x7f
  }

  // What rewriting the address does to the bits above it: type 5 loses two bits of its NwkId.
  function Cleared(w: uint32, t: nat): uint32 {
    if t == 5 then w & 0xffff_9fff else w
  }

  // When writing address a leaves the NwkId getter's answer alone: type 4 reads an address bit as NwkId.
  predicate NwkIdUndisturbed(w: uint32, t: nat, a: uint32) {
    match t
    case 4 => a & 0x80 == w & 0x80
    case 5 => w & 0x6000 == 0
    case _ => true
  }

  lemma Type5Shift(x: uint32, y: uint32, a: uint32)
    requires x < 0x800 && y < 0x800 && a < 0x2000
    ensures (0xf800_0000 | (x << 15)) | a == (0xf800_0000 | (y << 15)) | a <==> x == y
  {
  }

  lemma MergeTwice(w: uint32, mask: uint32, a: uint32, b: uint32)
    requires a & mask == 0
    ensures (((w & mask) | a) & mask) | b == (w & mask) | b
  {
  }

  // The parts for which the stored word is the specified one.
  predicate Layout(t: nat, n: uint32, a: uint32)
    requires t <= 7
  {
    NwkIdFits(t, n) && NwkAddrFits(t, a) ==> (StoredWord(t, n, a) == SpecWord(t, n, a) <==> SetIsExact(t, n))
  }

  lemma Layout0(n: uint32, a: uint32)
    ensures Layout(0, n, a)
  {
    hide SpecNetwork;
  }

  lemma Layout1(n: uint32, a: uint32)
    ensures Layout(1, n, a)
  {
    hide SpecNetwork;
  }

  lemma Layout2(n: uint32, a: uint32)
    ensures Layout(2, n, a)
  {
    hide SpecNetwork;
  }

  lemma Type3Shift(n: uint32, a: uint32)
    requires n < 0x800 && a < 0x2_0000
    ensures (0xe000_0000 | (n << 18)) | a == (0xe000_0000 | (n << 17)) | a <==> n == 0
  {
  }

  lemma Layout3(n: uint32, a: uint32)
    ensures Layout(3, n, a)
  {
    if n < 0x800 && a < 0x2_0000 {
      Type3Shift(n, a);
    }
  }

  lemma Type4Shift(n: uint32, a: uint32)
    requires n < 0x1000 && a < 0x8000
    ensures (0xf000_0000 | (n << 16)) | a == (0xf000_0000 | (n << 15)) | a <==> n == 0
  {
  }

  lemma Layout4(n: uint32, a: uint32)
    ensures Layout(4, n, a)
  {
    if n < 0x1000 && a < 0x8000 {
      Type4Shift(n, a);
    }
  }

  lemma Layout5(n: uint32, a: uint32)
    ensures Layout(5, n, a)
  {
  }

  lemma Layout6(n: uint32, a: uint32)
    ensures Layout(6, n, a)
  {
    hide SpecNetwork;
  }

  lemma Layout7(n: uint32, a: uint32)
    ensures Layout(7, n, a)
  {
    hide SpecNetwork;
  }

  lemma LayoutAny(t: nat, n: uint32, a: uint32)
    requires t <= 7
    ensures Layout(t, n, a)
  {
    hide *;
    match t {
      case 0 => Layout0(n, a);
      case 1 => Layout1(n, a);
      case 2 => Layout2(n, a);
      case 3 => Layout3(n, a);
      case 4 => Layout4(n, a);
      case 5 => Layout5(n, a);
      case 6 => Layout6(n, a);
      case 7 => Layout7(n, a);
    }
  }

  // The network part after set does not depend on the earlier bytes.
  predicate Stored(w: uint32, t: nat, n: uint32)
    requires t <= 7
  {
    NwkIdFits(t, n) ==> WithNwkId(WithType(w, t), t, n) & AddrClear(t) == StoredNetwork(t, n)
  }

  lemma Stored0(w: uint32, n: uint32)
    ensures Stored(w, 0, n)
  {
  }

  lemma Stored1(w: uint32, n: uint32)
    ensures Stored(w, 1, n)
  {
  }

  lemma Stored2(w: uint32, n: uint32)
    ensures Stored(w, 2, n)
  {
  }

  lemma Stored3(w: uint32, n: uint32)
    ensures Stored(w, 3, n)
  {
  }

  lemma Stored4(w: uint32, n: uint32)
    ensures Stored(w, 4, n)
  {
  }

  lemma Stored5(w: uint32, n: uint32)
    ensures Stored(w, 5, n)
  {
  }

  lemma Stored6(w: uint32, n: uint32)
    ensures Stored(w, 6, n)
  {
  }

  lemma Stored7(w: uint32, n: uint32)
    ensures Stored(w, 7, n)
  {
  }

  lemma StoredAny(w: uint32, t: nat, n: uint32)
    requires t <= 7
    ensures Stored(w, t, n)
  {
    hide *;
    match t {
      case 0 => Stored0(w, n);
      case 1 => Stored1(w, n);
      case 2 => Stored2(w, n);
      case 3 => Stored3(w, n);
      case 4 => Stored4(w, n);
      case 5 => Stored5(w, n);
      case 6 => Stored6(w, n);
      case 7 => Stored7(w, n);
    }
  }

  // An interrupted set still leaves the type readable.
  predicate Partial(w: uint32, t: nat, n: uint32)
    requires t <= 7
  {
    PrefixSurvives(t, n) ==> NetIdType(WithNwkId(WithType(w, t), t, n)) == t
  }

  lemma Partial0(w: uint32, n: uint32)
    ensures Partial(w, 0, n)
  {
  }

  lemma Partial1(w: uint32, n: uint32)
    ensures Partial(w, 1, n)
  {
  }

  lemma Partial2(w: uint32, n: uint32)
    ensures Partial(w, 2, n)
  {
  }

  lemma Partial3(w: uint32, n: uint32)
    ensures Partial(w, 3, n)
  {
  }

  lemma Partial4(w: uint32, n: uint32)
    ensures Partial(w, 4, n)
  {
  }

  lemma Partial5(w: uint32, n: uint32)
    ensures Partial(w, 5, n)
  {
  }

  lemma Partial6(w: uint32, n: uint32)
    ensures Partial(w, 6, n)
  {
  }

  lemma Partial7(w: uint32, n: uint32)
    ensures Partial(w, 7, n)
  {
  }

  lemma PartialAny(w: uint32, t: nat, n: uint32)
    requires t <= 7
    ensures Partial(w, t, n)
  {
    hide *;
    match t {
      case 0 => Partial0(w, n);
      case 1 => Partial1(w, n);
      case 2 => Partial2(w, n);
      case 3 => Partial3(w, n);
      case 4 => Partial4(w, n);
      case 5 => Partial5(w, n);
      case 6 => Partial6(w, n);
      case 7 => Partial7(w, n);
    }
  }

  // An interrupted set leaves the address bits the word held before.
  predicate JunkAddress(w: uint32, t: nat, n: uint32)
    requires t <= 7
  {
    NwkIdFits(t, n) ==> AddressBits(WithNwkId(WithType(w, t), t, n), t) == AddressBits(w, t)
  }

  lemma JunkAddress0(w: uint32, n: uint32)
    ensures JunkAddress(w, 0, n)
  {
  }

  lemma JunkAddress1(w: uint32, n: uint32)
    ensures JunkAddress(w, 1, n)
  {
  }

  lemma JunkAddress2(w: uint32, n: uint32)
    ensures JunkAddress(w, 2, n)
  {
  }

  lemma JunkAddress3(w: uint32, n: uint32)
    ensures JunkAddress(w, 3, n)
  {
  }

  lemma JunkAddress4(w: uint32, n: uint32)
    ensures JunkAddress(w, 4, n)
  {
  }

  lemma JunkAddress5(w: uint32, n: uint32)
    ensures JunkAddress(w, 5, n)
  {
  }

  lemma JunkAddress6(w: uint32, n: uint32)
    ensures JunkAddress(w, 6, n)
  {
  }

  lemma JunkAddress7(w: uint32, n: uint32)
    ensures JunkAddress(w, 7, n)
  {
  }

  lemma JunkAddressAny(w: uint32, t: nat, n: uint32)
    requires t <= 7
    ensures JunkAddress(w, t, n)
  {
    hide *;
    match t {
      case 0 => JunkAddress0(w, n);
      case 1 => JunkAddress1(w, n);
      case 2 => JunkAddress2(w, n);
      case 3 => JunkAddress3(w, n);
      case 4 => JunkAddress4(w, n);
      case 5 => JunkAddress5(w, n);
      case 6 => JunkAddress6(w, n);
      case 7 => JunkAddress7(w, n);
    }
  }

  // The stored word shows its type exactly when the NwkId does not reach into the prefix.
  predicate TypeKept(t: nat, n: uint32, a: uint32)
    requires t <= 7
  {
    NwkIdFits(t, n) && NwkAddrFits(t, a) ==> (NetIdType(StoredWord(t, n, a)) == t <==> PrefixSurvives(t, n))
  }

  lemma TypeKept0(n: uint32, a: uint32)
    ensures TypeKept(0, n, a)
  {
  }

  lemma TypeKept1(n: uint32, a: uint32)
    ensures TypeKept(1, n, a)
  {
  }

  lemma TypeKept2(n: uint32, a: uint32)
    ensures TypeKept(2, n, a)
  {
  }

  lemma TypeKept3(n: uint32, a: uint32)
    ensures TypeKept(3, n, a)
  {
  }

  lemma TypeKept4(n: uint32, a: uint32)
    ensures TypeKept(4, n, a)
  {
  }

  lemma TypeKept5(n: uint32, a: uint32)
    ensures TypeKept(5, n, a)
  {
  }

  lemma TypeKept6(n: uint32, a: uint32)
    ensures TypeKept(6, n, a)
  {
  }

  lemma TypeKept7(n: uint32, a: uint32)
    ensures TypeKept(7, n, a)
  {
  }

  lemma TypeKeptAny(t: nat, n: uint32, a: uint32)
    requires t <= 7
    ensures TypeKept(t, n, a)
  {
    hide *;
    match t {
      case 0 => TypeKept0(n, a);
      case 1 => TypeKept1(n, a);
      case 2 => TypeKept2(n, a);
      case 3 => TypeKept3(n, a);
      case 4 => TypeKept4(n, a);
      case 5 => TypeKept5(n, a);
      case 6 => TypeKept6(n, a);
      case 7 => TypeKept7(n, a);
    }
  }

  // The NwkId getter on a stored word.
  predicate NwkIdKept(t: nat, n: uint32, a: uint32)
    requires t <= 7
  {
    NwkIdFits(t, n) && NwkAddrFits(t, a) && NetIdType(StoredWord(t, n, a)) == t ==>
      (NwkId(StoredWord(t, n, a)) == n <==> RoundTrips(t, n, a))
  }

  lemma NwkIdKept0(n: uint32, a: uint32)
    ensures NwkIdKept(0, n, a)
  {
  }

  lemma NwkIdKept1(n: uint32, a: uint32)
    ensures NwkIdKept(1, n, a)
  {
  }

  lemma NwkIdKept2(n: uint32, a: uint32)
    ensures NwkIdKept(2, n, a)
  {
  }

  lemma NwkIdKept3(n: uint32, a: uint32)
    ensures NwkIdKept(3, n, a)
  {
  }

  lemma NwkIdKept4(n: uint32, a: uint32)
    ensures NwkIdKept(4, n, a)
  {
  }

  lemma NwkIdKept5(n: uint32, a: uint32)
    ensures NwkIdKept(5, n, a)
  {
  }

  lemma NwkIdKept6(n: uint32, a: uint32)
    ensures NwkIdKept(6, n, a)
  {
  }

  lemma NwkIdKept7(n: uint32, a: uint32)
    ensures NwkIdKept(7, n, a)
  {
  }

  lemma NwkIdKeptAny(t: nat, n: uint32, a: uint32)
    requires t <= 7
    ensures NwkIdKept(t, n, a)
  {
    hide *;
    match t {
      case 0 => NwkIdKept0(n, a);
      case 1 => NwkIdKept1(n, a);
      case 2 => NwkIdKept2(n, a);
      case 3 => NwkIdKept3(n, a);
      case 4 => NwkIdKept4(n, a);
      case 5 => NwkIdKept5(n, a);
      case 6 => NwkIdKept6(n, a);
      case 7 => NwkIdKept7(n, a);
    }
  }

  // Different NwkIds make different words, but for the two low bits of type 5.
  predicate SameNetwork(t: nat, n: uint32, m: uint32, a: uint32)
    requires t <= 7
  {
    PrefixSurvives(t, n) && PrefixSurvives(t, m) && NwkAddrFits(t, a) ==>
      (StoredWord(t, n, a) == StoredWord(t, m, a) <==> n == m || (t == 5 && n >> 2 == m >> 2))
  }

  lemma SameNetwork0(n: uint32, m: uint32, a: uint32)
    ensures SameNetwork(0, n, m, a)
  {
  }

  lemma SameNetwork1(n: uint32, m: uint32, a: uint32)
    ensures SameNetwork(1, n, m, a)
  {
  }

  lemma SameNetwork2(n: uint32, m: uint32, a: uint32)
    ensures SameNetwork(2, n, m, a)
  {
  }

  lemma SameNetwork3(n: uint32, m: uint32, a: uint32)
    ensures SameNetwork(3, n, m, a)
  {
  }

  lemma SameNetwork4(n: uint32, m: uint32, a: uint32)
    ensures SameNetwork(4, n, m, a)
  {
  }

  lemma SameNetwork5(n: uint32, m: uint32, a: uint32)
    ensures SameNetwork(5, n, m, a)
  {
    if n < 0x2000 && m < 0x2000 && a < 0x2000 {
      Type5Shift(n >> 2, m >> 2, a);
    }
  }

  lemma SameNetwork6(n: uint32, m: uint32, a: uint32)
    ensures SameNetwork(6, n, m, a)
  {
  }

  lemma SameNetwork7(n: uint32, m: uint32, a: uint32)
    ensures SameNetwork(7, n, m, a)
  {
  }

  lemma SameNetworkAny(t: nat, n: uint32, m: uint32, a: uint32)
    requires t <= 7
    ensures SameNetwork(t, n, m, a)
  {
    hide *;
    match t {
      case 0 => SameNetwork0(n, m, a);
      case 1 => SameNetwork1(n, m, a);
      case 2 => SameNetwork2(n, m, a);
      case 3 => SameNetwork3(n, m, a);
      case 4 => SameNetwork4(n, m, a);
      case 5 => SameNetwork5(n, m, a);
      case 6 => SameNetwork6(n, m, a);
      case 7 => SameNetwork7(n, m, a);
    }
  }

  // The getters return values in range.
  predicate PartsFit(w: uint32, t: nat)
    requires t <= 7
  {
    NetIdType(w) == t ==> NwkIdFits(t, NwkId(w)) && NwkAddrFits(t, NwkAddr(w))
  }

  lemma PartsFit0(w: uint32)
    ensures PartsFit(w, 0)
  {
  }

  lemma PartsFit1(w: uint32)
    ensures PartsFit(w, 1)
  {
  }

  lemma PartsFit2(w: uint32)
    ensures PartsFit(w, 2)
  {
  }

  lemma PartsFit3(w: uint32)
    ensures PartsFit(w, 3)
  {
  }

  lemma PartsFit4(w: uint32)
    ensures PartsFit(w, 4)
  {
  }

  lemma PartsFit5(w: uint32)
    ensures PartsFit(w, 5)
  {
  }

  lemma PartsFit6(w: uint32)
    ensures PartsFit(w, 6)
  {
  }

  lemma PartsFit7(w: uint32)
    ensures PartsFit(w, 7)
  {
  }

  lemma PartsFitAny(w: uint32, t: nat)
    requires t <= 7
    ensures PartsFit(w, t)
  {
    hide *;
    match t {
      case 0 => PartsFit0(w);
      case 1 => PartsFit1(w);
      case 2 => PartsFit2(w);
      case 3 => PartsFit3(w);
      case 4 => PartsFit4(w);
      case 5 => PartsFit5(w);
      case 6 => PartsFit6(w);
      case 7 => PartsFit7(w);
    }
  }

  // set applied to the parts of a word.
  predicate Rebuilt(w: uint32, previous: uint32, t: nat)
    requires t <= 7
  {
    NetIdType(w) == t ==>
      (WithNwkAddr(WithNwkId(WithType(previous, t), t, NwkId(w)), t, NwkAddr(w)) == w <==> Canonical(w, t))
  }

  lemma Rebuilt0(w: uint32, previous: uint32)
    ensures Rebuilt(w, previous, 0)
  {
  }

  lemma Rebuilt1(w: uint32, previous: uint32)
    ensures Rebuilt(w, previous, 1)
  {
  }

  lemma Rebuilt2(w: uint32, previous: uint32)
    ensures Rebuilt(w, previous, 2)
  {
  }

  lemma Rebuilt3(w: uint32, previous: uint32)
    ensures Rebuilt(w, previous, 3)
  {
  }

  lemma Rebuilt4(w: uint32, previous: uint32)
    ensures Rebuilt(w, previous, 4)
  {
  }

  lemma Rebuilt5(w: uint32, previous: uint32)
    ensures Rebuilt(w, previous, 5)
  {
  }

  lemma Rebuilt6(w: uint32, previous: uint32)
    ensures Rebuilt(w, previous, 6)
  {
  }

  lemma Rebuilt7(w: uint32, previous: uint32)
    ensures Rebuilt(w, previous, 7)
  {
  }

  lemma RebuiltAny(w: uint32, previous: uint32, t: nat)
    requires t <= 7
    ensures Rebuilt(w, previous, t)
  {
    hide *;
    match t {
      case 0 => Rebuilt0(w, previous);
      case 1 => Rebuilt1(w, previous);
      case 2 => Rebuilt2(w, previous);
      case 3 => Rebuilt3(w, previous);
      case 4 => Rebuilt4(w, previous);
      case 5 => Rebuilt5(w, previous);
      case 6 => Rebuilt6(w, previous);
      case 7 => Rebuilt7(w, previous);
    }
  }

  // The address getter is a mask.
  predicate AddressMask(w: uint32, t: nat)
    requires t <= 7
  {
    NetIdType(w) == t ==> NwkAddr(w) == AddressBits(w, t)
  }

  lemma AddressMask0(w: uint32)
    ensures AddressMask(w, 0)
  {
  }

  lemma AddressMask1(w: uint32)
    ensures AddressMask(w, 1)
  {
  }

  lemma AddressMask2(w: uint32)
    ensures AddressMask(w, 2)
  {
  }

  lemma AddressMask3(w: uint32)
    ensures AddressMask(w, 3)
  {
  }

  lemma AddressMask4(w: uint32)
    ensures AddressMask(w, 4)
  {
  }

  lemma AddressMask5(w: uint32)
    ensures AddressMask(w, 5)
  {
  }

  lemma AddressMask6(w: uint32)
    ensures AddressMask(w, 6)
  {
  }

  lemma AddressMask7(w: uint32)
    ensures AddressMask(w, 7)
  {
  }

  lemma AddressMaskAny(w: uint32, t: nat)
    requires t <= 7
    ensures AddressMask(w, t)
  {
    hide *;
    match t {
      case 0 => AddressMask0(w);
      case 1 => AddressMask1(w);
      case 2 => AddressMask2(w);
      case 3 => AddressMask3(w);
      case 4 => AddressMask4(w);
      case 5 => AddressMask5(w);
      case 6 => AddressMask6(w);
      case 7 => AddressMask7(w);
    }
  }

  // A written address is read back, and the type stays.
  predicate AddressRead(w: uint32, t: nat, a: uint32)
    requires t <= 7
  {
    NetIdType(w) == t && NwkAddrFits(t, a) ==>
      NetIdType(WithNwkAddr(w, t, a)) == t && NwkAddr(WithNwkAddr(w, t, a)) == a
  }

  lemma TypeZero(w: uint32)
    ensures NetIdType(w) == 0 <==> w >> 31 == 0
  {
  }

  lemma MergeZero(w: uint32, a: uint32)
    requires a < 0x200_0000
    ensures ((w & 0xfe00_0000) | a) >> 31 == w >> 31 && ((w & 0xfe00_0000) | a) & 0x1ff_ffff == a
  {
  }

  lemma AddressRead0(w: uint32, a: uint32)
    ensures AddressRead(w, 0, a)
  {
    hide NetIdType, NwkAddr;
    if NwkAddrFits(0, a) {
      var v := WithNwkAddr(w, 0, a);
      MergeZero(w, a);
      TypeZero(w);
      TypeZero(v);
      AddressMask0(v);
    }
  }

  lemma AddressRead1(w: uint32, a: uint32)
    ensures AddressRead(w, 1, a)
  {
  }

  lemma AddressRead2(w: uint32, a: uint32)
    ensures AddressRead(w, 2, a)
  {
  }

  lemma AddressRead3(w: uint32, a: uint32)
    ensures AddressRead(w, 3, a)
  {
  }

  lemma AddressRead4(w: uint32, a: uint32)
    ensures AddressRead(w, 4, a)
  {
  }

  lemma AddressRead5(w: uint32, a: uint32)
    ensures AddressRead(w, 5, a)
  {
  }

  lemma AddressRead6(w: uint32, a: uint32)
    ensures AddressRead(w, 6, a)
  {
  }

  lemma AddressRead7(w: uint32, a: uint32)
    ensures AddressRead(w, 7, a)
  {
  }

  lemma AddressReadAny(w: uint32, t: nat, a: uint32)
    requires t <= 7
    ensures AddressRead(w, t, a)
  {
    hide *;
    match t {
      case 0 => AddressRead0(w, a);
      case 1 => AddressRead1(w, a);
      case 2 => AddressRead2(w, a);
      case 3 => AddressRead3(w, a);
      case 4 => AddressRead4(w, a);
      case 5 => AddressRead5(w, a);
      case 6 => AddressRead6(w, a);
      case 7 => AddressRead7(w, a);
    }
  }

  // An address in range has no other bits.
  predicate WholeAddress(t: nat, a: uint32)
    requires t <= 7
  {
    NwkAddrFits(t, a) ==> AddressBits(a, t) == a
  }

  lemma WholeAddress0(a: uint32)
    ensures WholeAddress(0, a)
  {
  }

  lemma WholeAddress1(a: uint32)
    ensures WholeAddress(1, a)
  {
  }

  lemma WholeAddress2(a: uint32)
    ensures WholeAddress(2, a)
  {
  }

  lemma WholeAddress3(a: uint32)
    ensures WholeAddress(3, a)
  {
  }

  lemma WholeAddress4(a: uint32)
    ensures WholeAddress(4, a)
  {
  }

  lemma WholeAddress5(a: uint32)
    ensures WholeAddress(5, a)
  {
  }

  lemma WholeAddress6(a: uint32)
    ensures WholeAddress(6, a)
  {
  }

  lemma WholeAddress7(a: uint32)
    ensures WholeAddress(7, a)
  {
  }

  lemma WholeAddressAny(t: nat, a: uint32)
    requires t <= 7
    ensures WholeAddress(t, a)
  {
    hide *;
    match t {
      case 0 => WholeAddress0(a);
      case 1 => WholeAddress1(a);
      case 2 => WholeAddress2(a);
      case 3 => WholeAddress3(a);
      case 4 => WholeAddress4(a);
      case 5 => WholeAddress5(a);
      case 6 => WholeAddress6(a);
      case 7 => WholeAddress7(a);
    }
  }

  // The range check, byte by byte.
  predicate AddressBytes(t: nat, a: uint32)
    requires t <= 7
  {
    NwkAddrFits(t, a) ==> BytesWithin(a, t)
  }

  lemma AddressBytes0(a: uint32)
    ensures AddressBytes(0, a)
  {
  }

  lemma AddressBytes1(a: uint32)
    ensures AddressBytes(1, a)
  {
  }

  lemma AddressBytes2(a: uint32)
    ensures AddressBytes(2, a)
  {
  }

  lemma AddressBytes3(a: uint32)
    ensures AddressBytes(3, a)
  {
  }

  lemma AddressBytes4(a: uint32)
    ensures AddressBytes(4, a)
  {
  }

  lemma AddressBytes5(a: uint32)
    ensures AddressBytes(5, a)
  {
  }

  lemma AddressBytes6(a: uint32)
    ensures AddressBytes(6, a)
  {
  }

  lemma AddressBytes7(a: uint32)
    ensures AddressBytes(7, a)
  {
  }

  lemma AddressBytesAny(t: nat, a: uint32)
    requires t <= 7
    ensures AddressBytes(t, a)
  {
    hide *;
    match t {
      case 0 => AddressBytes0(a);
      case 1 => AddressBytes1(a);
      case 2 => AddressBytes2(a);
      case 3 => AddressBytes3(a);
      case 4 => AddressBytes4(a);
      case 5 => AddressBytes5(a);
      case 6 => AddressBytes6(a);
      case 7 => AddressBytes7(a);
    }
  }

  // An address in range stays out of the bits above it.
  predicate Disjoint(t: nat, a: uint32)
    requires t <= 7
  {
    NwkAddrFits(t, a) ==> a & AddrClear(t) == 0
  }

  lemma Disjoint0(a: uint32)
    ensures Disjoint(0, a)
  {
  }

  lemma Disjoint1(a: uint32)
    ensures Disjoint(1, a)
  {
  }

  lemma Disjoint2(a: uint32)
    ensures Disjoint(2, a)
  {
  }

  lemma Disjoint3(a: uint32)
    ensures Disjoint(3, a)
  {
  }

  lemma Disjoint4(a: uint32)
    ensures Disjoint(4, a)
  {
  }

  lemma Disjoint5(a: uint32)
    ensures Disjoint(5, a)
  {
  }

  lemma Disjoint6(a: uint32)
    ensures Disjoint(6, a)
  {
  }

  lemma Disjoint7(a: uint32)
    ensures Disjoint(7, a)
  {
  }

  // The last address written wins.
  predicate Overwritten(w: uint32, t: nat, a: uint32, b: uint32)
    requires t <= 7
  {
    NwkAddrFits(t, a) ==> WithNwkAddr(WithNwkAddr(w, t, a), t, b) == WithNwkAddr(w, t, b)
  }

  lemma Overwritten0(w: uint32, a: uint32, b: uint32)
    ensures Overwritten(w, 0, a, b)
  {
    if NwkAddrFits(0, a) {
      Disjoint0(a);
      MergeTwice(w, 0xfe00_0000, a, b);
    }
  }

  lemma Overwritten1(w: uint32, a: uint32, b: uint32)
    ensures Overwritten(w, 1, a, b)
  {
    if NwkAddrFits(1, a) {
      Disjoint1(a);
      MergeTwice(w, 0xff00_0000, a, b);
    }
  }

  lemma Overwritten2(w: uint32, a: uint32, b: uint32)
    ensures Overwritten(w, 2, a, b)
  {
    if NwkAddrFits(2, a) {
      Disjoint2(a);
      MergeTwice(w, 0xfff0_0000, a, b);
    }
  }

  lemma Overwritten3(w: uint32, a: uint32, b: uint32)
    ensures Overwritten(w, 3, a, b)
  {
    if NwkAddrFits(3, a) {
      Disjoint3(a);
      MergeTwice(w, 0xfffe_0000, a, b);
    }
  }

  lemma Overwritten4(w: uint32, a: uint32, b: uint32)
    ensures Overwritten(w, 4, a, b)
  {
    if NwkAddrFits(4, a) {
      Disjoint4(a);
      MergeTwice(w, 0xffff_8000, a, b);
    }
  }

  lemma Overwritten5(w: uint32, a: uint32, b: uint32)
    ensures Overwritten(w, 5, a, b)
  {
    if NwkAddrFits(5, a) {
      Disjoint5(a);
      MergeTwice(w, 0xffff_8000, a, b);
    }
  }

  lemma Overwritten6(w: uint32, a: uint32, b: uint32)
    ensures Overwritten(w, 6, a, b)
  {
    if NwkAddrFits(6, a) {
      Disjoint6(a);
      MergeTwice(w, 0xffff_fc00, a, b);
    }
  }

  lemma Overwritten7(w: uint32, a: uint32, b: uint32)
    ensures Overwritten(w, 7, a, b)
  {
    if NwkAddrFits(7, a) {
      Disjoint7(a);
      MergeTwice(w, 0xffff_ff80, a, b);
    }
  }

  lemma OverwrittenAny(w: uint32, t: nat, a: uint32, b: uint32)
    requires t <= 7
    ensures Overwritten(w, t, a, b)
  {
    hide *;
    match t {
      case 0 => Overwritten0(w, a, b);
      case 1 => Overwritten1(w, a, b);
      case 2 => Overwritten2(w, a, b);
      case 3 => Overwritten3(w, a, b);
      case 4 => Overwritten4(w, a, b);
      case 5 => Overwritten5(w, a, b);
      case 6 => Overwritten6(w, a, b);
      case 7 => Overwritten7(w, a, b);
    }
  }

  // Writing an address leaves the NwkId getter alone except for two types.
  predicate NwkIdRead(w: uint32, t: nat, a: uint32)
    requires t <= 7
  {
    NetIdType(w) == t && NwkAddrFits(t, a) && NetIdType(WithNwkAddr(w, t, a)) == t ==>
      (NwkId(WithNwkAddr(w, t, a)) == NwkId(w) <==> NwkIdUndisturbed(w, t, a))
  }

  lemma NwkIdRead0(w: uint32, a: uint32)
    ensures NwkIdRead(w, 0, a)
  {
  }

  lemma NwkIdRead1(w: uint32, a: uint32)
    ensures NwkIdRead(w, 1, a)
  {
  }

  lemma NwkIdRead2(w: uint32, a: uint32)
    ensures NwkIdRead(w, 2, a)
  {
  }

  lemma NwkIdRead3(w: uint32, a: uint32)
    ensures NwkIdRead(w, 3, a)
  {
  }

  lemma NwkIdRead4(w: uint32, a: uint32)
    ensures NwkIdRead(w, 4, a)
  {
  }

  lemma NwkIdRead5(w: uint32, a: uint32)
    ensures NwkIdRead(w, 5, a)
  {
  }

  lemma NwkIdRead6(w: uint32, a: uint32)
    ensures NwkIdRead(w, 6, a)
  {
  }

  lemma NwkIdRead7(w: uint32, a: uint32)
    ensures NwkIdRead(w, 7, a)
  {
  }

  lemma NwkIdReadAny(w: uint32, t: nat, a: uint32)
    requires t <= 7
    ensures NwkIdRead(w, t, a)
  {
    hide *;
    match t {
      case 0 => NwkIdRead0(w, a);
      case 1 => NwkIdRead1(w, a);
      case 2 => NwkIdRead2(w, a);
      case 3 => NwkIdRead3(w, a);
      case 4 => NwkIdRead4(w, a);
      case 5 => NwkIdRead5(w, a);
      case 6 => NwkIdRead6(w, a);
      case 7 => NwkIdRead7(w, a);
    }
  }

  // The neighbours of an address in range.
  predicate Range(t: nat, a: uint32)
    requires t <= 7
  {
    NwkAddrFits(t, a) ==>
      (NwkAddrFits(t, Inc(a)) <==> a != MaxNwkAddr(t)) && (NwkAddrFits(t, Dec(a)) <==> a != 0)
  }

  lemma Range0(a: uint32)
    ensures Range(0, a)
  {
  }

  lemma Range1(a: uint32)
    ensures Range(1, a)
  {
  }

  lemma Range2(a: uint32)
    ensures Range(2, a)
  {
  }

  lemma Range3(a: uint32)
    ensures Range(3, a)
  {
  }

  lemma Range4(a: uint32)
    ensures Range(4, a)
  {
  }

  lemma Range5(a: uint32)
    ensures Range(5, a)
  {
  }

  lemma Range6(a: uint32)
    ensures Range(6, a)
  {
  }

  lemma Range7(a: uint32)
    ensures Range(7, a)
  {
  }

  lemma RangeAny(t: nat, a: uint32)
    requires t <= 7
    ensures Range(t, a)
  {
    hide *;
    match t {
      case 0 => Range0(a);
      case 1 => Range1(a);
      case 2 => Range2(a);
      case 3 => Range3(a);
      case 4 => Range4(a);
      case 5 => Range5(a);
      case 6 => Range6(a);
      case 7 => Range7(a);
    }
  }

  // The address step is the successor of the word.
  predicate Successor(w: uint32, t: nat)
    requires t <= 7
  {
    NetIdType(w) == t && NwkAddr(w) != MaxNwkAddr(t) ==> WithNwkAddr(w, t, Inc(NwkAddr(w))) == Inc(Cleared(w, t))
  }

  lemma Successor0(w: uint32)
    ensures Successor(w, 0)
  {
  }

  lemma Successor1(w: uint32)
    ensures Successor(w, 1)
  {
  }

  lemma Successor2(w: uint32)
    ensures Successor(w, 2)
  {
  }

  lemma Successor3(w: uint32)
    ensures Successor(w, 3)
  {
  }

  lemma Successor4(w: uint32)
    ensures Successor(w, 4)
  {
  }

  lemma Successor5(w: uint32)
    ensures Successor(w, 5)
  {
  }

  lemma Successor6(w: uint32)
    ensures Successor(w, 6)
  {
  }

  lemma Successor7(w: uint32)
    ensures Successor(w, 7)
  {
  }

  lemma SuccessorAny(w: uint32, t: nat)
    requires t <= 7
    ensures Successor(w, t)
  {
    hide *;
    match t {
      case 0 => Successor0(w);
      case 1 => Successor1(w);
      case 2 => Successor2(w);
      case 3 => Successor3(w);
      case 4 => Successor4(w);
      case 5 => Successor5(w);
      case 6 => Successor6(w);
      case 7 => Successor7(w);
    }
  }

  // The step back is the predecessor of the word.
  predicate Predecessor(w: uint32, t: nat)
    requires t <= 7
  {
    NetIdType(w) == t && NwkAddr(w) != 0 ==> WithNwkAddr(w, t, Dec(NwkAddr(w))) == Dec(Cleared(w, t))
  }

  lemma Predecessor0(w: uint32)
    ensures Predecessor(w, 0)
  {
  }

  lemma Predecessor1(w: uint32)
    ensures Predecessor(w, 1)
  {
  }

  lemma Predecessor2(w: uint32)
    ensures Predecessor(w, 2)
  {
  }

  lemma Predecessor3(w: uint32)
    ensures Predecessor(w, 3)
  {
  }

  lemma Predecessor4(w: uint32)
    ensures Predecessor(w, 4)
  {
  }

  lemma Predecessor5(w: uint32)
    ensures Predecessor(w, 5)
  {
  }

  lemma Predecessor6(w: uint32)
    ensures Predecessor(w, 6)
  {
  }

  lemma Predecessor7(w: uint32)
    ensures Predecessor(w, 7)
  {
  }

  lemma PredecessorAny(w: uint32, t: nat)
    requires t <= 7
    ensures Predecessor(w, t)
  {
    hide *;
    match t {
      case 0 => Predecessor0(w);
      case 1 => Predecessor1(w);
      case 2 => Predecessor2(w);
      case 3 => Predecessor3(w);
      case 4 => Predecessor4(w);
      case 5 => Predecessor5(w);
      case 6 => Predecessor6(w);
      case 7 => Predecessor7(w);
    }
  }

  // The widths of NwkId and NwkAddr in section 13 of the LoRaWAN Backend Interfaces specification.
  function NwkIdBits(t: nat): nat
    requires t <= 7
  {
    match t
    case 0 => 6
    case 1 => 6
    case 2 => 9
    case 3 => 11
    case 4 => 12
    case 5 => 13
    case 6 => 15
    case _ => 17
  }

  function NwkAddrBits(t: nat): nat
    requires t <= 7
  {
    match t
    case 0 => 25
    case 1 => 24
    case 2 => 20
    case 3 => 17
    case 4 => 15
    case 5 => 13
    case 6 => 10
    case _ => 7
  }

  // The range checks are masks of these widths.
  predicate Widths(t: nat, v: uint32)
    requires t <= 7
  {
    && (NwkIdFits(t, v) <==> OnlyLowBits(v, NwkIdBits(t)))
    && (NwkAddrFits(t, v) <==> OnlyLowBits(v, NwkAddrBits(t)))
  }

  lemma Below6(v: uint32)
    ensures OnlyLowBits(v, 6) <==> v < 0x40
  {
  }

  lemma Below7(v: uint32)
    ensures OnlyLowBits(v, 7) <==> v < 0x80
  {
  }

  lemma Below9(v: uint32)
    ensures OnlyLowBits(v, 9) <==> v < 0x200
  {
  }

  lemma Below10(v: uint32)
    ensures OnlyLowBits(v, 10) <==> v < 0x400
  {
  }

  lemma Below11(v: uint32)
    ensures OnlyLowBits(v, 11) <==> v < 0x800
  {
  }

  lemma Below12(v: uint32)
    ensures OnlyLowBits(v, 12) <==> v < 0x1000
  {
  }

  lemma Below13(v: uint32)
    ensures OnlyLowBits(v, 13) <==> v < 0x2000
  {
  }

  lemma Below15(v: uint32)
    ensures OnlyLowBits(v, 15) <==> v < 0x8000
  {
  }

  lemma Below17(v: uint32)
    ensures OnlyLowBits(v, 17) <==> v < 0x2_0000
  {
  }

  lemma Below20(v: uint32)
    ensures OnlyLowBits(v, 20) <==> v < 0x10_0000
  {
  }

  lemma Below24(v: uint32)
    ensures OnlyLowBits(v, 24) <==> v < 0x100_0000
  {
  }

  lemma Below25(v: uint32)
    ensures OnlyLowBits(v, 25) <==> v < 0x200_0000
  {
  }

  lemma WidthTable0(v: uint32)
    ensures NwkIdBits(0) == 6 && NwkAddrBits(0) == 25
    ensures NwkIdFits(0, v) == (v < 0x40) && NwkAddrFits(0, v) == (v < 0x200_0000)
  {
  }

  lemma Widths0(v: uint32)
    ensures Widths(0, v)
  {
    hide NwkIdFits, NwkAddrFits, OnlyLowBits, NwkIdBits, NwkAddrBits;
    WidthTable0(v);
    Below6(v);
    Below25(v);
  }

  lemma WidthTable1(v: uint32)
    ensures NwkIdBits(1) == 6 && NwkAddrBits(1) == 24
    ensures NwkIdFits(1, v) == (v < 0x40) && NwkAddrFits(1, v) == (v < 0x100_0000)
  {
  }

  lemma Widths1(v: uint32)
    ensures Widths(1, v)
  {
    hide NwkIdFits, NwkAddrFits, OnlyLowBits, NwkIdBits, NwkAddrBits;
    WidthTable1(v);
    Below6(v);
    Below24(v);
  }

  lemma WidthTable2(v: uint32)
    ensures NwkIdBits(2) == 9 && NwkAddrBits(2) == 20
    ensures NwkIdFits(2, v) == (v < 0x200) && NwkAddrFits(2, v) == (v < 0x10_0000)
  {
  }

  lemma Widths2(v: uint32)
    ensures Widths(2, v)
  {
    hide NwkIdFits, NwkAddrFits, OnlyLowBits, NwkIdBits, NwkAddrBits;
    WidthTable2(v);
    Below9(v);
    Below20(v);
  }

  lemma WidthTable3(v: uint32)
    ensures NwkIdBits(3) == 11 && NwkAddrBits(3) == 17
    ensures NwkIdFits(3, v) == (v < 0x800) && NwkAddrFits(3, v) == (v < 0x2_0000)
  {
  }

  lemma Widths3(v: uint32)
    ensures Widths(3, v)
  {
    hide NwkIdFits, NwkAddrFits, OnlyLowBits, NwkIdBits, NwkAddrBits;
    WidthTable3(v);
    Below11(v);
    Below17(v);
  }

  lemma WidthTable4(v: uint32)
    ensures NwkIdBits(4) == 12 && NwkAddrBits(4) == 15
    ensures NwkIdFits(4, v) == (v < 0x1000) && NwkAddrFits(4, v) == (v < 0x8000)
  {
  }

  lemma Widths4(v: uint32)
    ensures Widths(4, v)
  {
    hide NwkIdFits, NwkAddrFits, OnlyLowBits, NwkIdBits, NwkAddrBits;
    WidthTable4(v);
    Below12(v);
    Below15(v);
  }

  lemma WidthTable5(v: uint32)
    ensures NwkIdBits(5) == 13 && NwkAddrBits(5) == 13
    ensures NwkIdFits(5, v) == (v < 0x2000) && NwkAddrFits(5, v) == (v < 0x2000)
  {
  }

  lemma Widths5(v: uint32)
    ensures Widths(5, v)
  {
    hide NwkIdFits, NwkAddrFits, OnlyLowBits, NwkIdBits, NwkAddrBits;
    WidthTable5(v);
    Below13(v);
    Below13(v);
  }

  lemma WidthTable6(v: uint32)
    ensures NwkIdBits(6) == 15 && NwkAddrBits(6) == 10
    ensures NwkIdFits(6, v) == (v < 0x8000) && NwkAddrFits(6, v) == (v < 0x400)
  {
  }

  lemma Widths6(v: uint32)
    ensures Widths(6, v)
  {
    hide NwkIdFits, NwkAddrFits, OnlyLowBits, NwkIdBits, NwkAddrBits;
    WidthTable6(v);
    Below15(v);
    Below10(v);
  }

  lemma WidthTable7(v: uint32)
    ensures NwkIdBits(7) == 17 && NwkAddrBits(7) == 7
    ensures NwkIdFits(7, v) == (v < 0x2_0000) && NwkAddrFits(7, v) == (v < 0x80)
  {
  }

  lemma Widths7(v: uint32)
    ensures Widths(7, v)
  {
    hide NwkIdFits, NwkAddrFits, OnlyLowBits, NwkIdBits, NwkAddrBits;
    WidthTable7(v);
    Below17(v);
    Below7(v);
  }

  lemma WidthsAny(t: nat, v: uint32)
    requires t <= 7
    ensures Widths(t, v)
  {
    hide *;
    match t {
      case 0 => Widths0(v);
      case 1 => Widths1(v);
      case 2 => Widths2(v);
      case 3 => Widths3(v);
      case 4 => Widths4(v);
      case 5 => Widths5(v);
      case 6 => Widths6(v);
      case 7 => Widths7(v);
    }
  }
}
