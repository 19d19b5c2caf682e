/** What the device address operations guarantee, for all eight address types and all words. */
module DevAddrLaws {
  import opened Basics
  import opened Uint32
  import opened DevAddrCodec
  import opened DevAddrTypes
  import opened LowBits

  // The last step of set makes the stored word, whatever the word held before.
  lemma SetLastStep(w: uint32, t: nat, n: uint32, a: uint32)
    requires t <= 7 && NwkIdFits(t, n)
    ensures WithNwkAddr(WithNwkId(WithType(w, t), t, n), t, a) == StoredWord(t, n, a)
  {
    hide NwkIdFits, WithType, WithNwkId, AddrClear, StoredNetwork;
    StoredAny(w, t, n);
  }

  // set on parts in range succeeds, and the result does not depend on the previous bytes.
  lemma SetStores(w: uint32, t: nat, n: uint32, a: uint32)
    requires t <= 7 && NwkIdFits(t, n) && NwkAddrFits(t, a)
    ensures SetResult(w, t, n, a) == (LORA_OK, StoredWord(t, n, a))
  {
    hide NwkIdFits, NwkAddrFits, WithType, WithNwkId, WithNwkAddr, StoredWord;
    SetLastStep(w, t, n, a);
  }

  // set produces the specified layout exactly for these parts.
  lemma SetMeetsLayout(w: uint32, t: nat, n: uint32, a: uint32)
    requires t <= 7 && NwkIdFits(t, n) && NwkAddrFits(t, a)
    ensures SetResult(w, t, n, a) == (LORA_OK, SpecWord(t, n, a)) <==> SetIsExact(t, n)
  {
    hide NwkIdFits, NwkAddrFits, SetResult, StoredWord, SpecWord, SetIsExact;
    SetStores(w, t, n, a);
    LayoutAny(t, n, a);
  }

  // Reading the address bits of a stored word.
  lemma StoredAddress(t: nat, n: uint32, a: uint32)
    requires t <= 7 && PrefixSurvives(t, n) && NwkAddrFits(t, a)
    ensures NetIdType(StoredWord(t, n, a)) == t && NwkAddr(StoredWord(t, n, a)) == a
  {
    var u := WithNwkId(WithType(0, t), t, n);
    assert PrefixSurvives(t, n) ==> NwkIdFits(t, n);
    hide NetIdType, NwkAddr, NwkIdFits, NwkAddrFits, PrefixSurvives, WithType, WithNwkId, WithNwkAddr, StoredWord;
    PartialAny(0, t, n);
    SetLastStep(0, t, n, a);
    AddressReadAny(u, t, a);
  }

  // set then get returns the three parts exactly under this condition.
  lemma SetThenGet(w: uint32, t: nat, n: uint32, a: uint32)
    requires t <= 7 && NwkIdFits(t, n) && NwkAddrFits(t, a)
    ensures var (r, v) := SetResult(w, t, n, a);
      && r == LORA_OK
      && ((NetIdType(v) == t && NwkId(v) == n && NwkAddr(v) == a) <==> PrefixSurvives(t, n) && RoundTrips(t, n, a))
  {
    hide NetIdType, NwkId, NwkAddr, NwkIdFits, NwkAddrFits, SetResult, StoredWord, PrefixSurvives, RoundTrips;
    SetStores(w, t, n, a);
    TypeKeptAny(t, n, a);
    NwkIdKeptAny(t, n, a);
    if PrefixSurvives(t, n) {
      StoredAddress(t, n, a);
    }
  }

  // get then set rebuilds a word exactly under this condition.
  lemma GetThenSet(w: uint32, previous: uint32)
    ensures SetResult(previous, NetIdType(w), NwkId(w), NwkAddr(w)) == (LORA_OK, w)
      <==> NetIdType(w) <= 7 && Canonical(w, NetIdType(w))
  {
    hide NetIdType, NwkId, NwkAddr, NwkIdFits, NwkAddrFits, WithType, WithNwkId, WithNwkAddr, Canonical;
    var t := NetIdType(w);
    if t <= 7 {
      PartsFitAny(w, t);
      RebuiltAny(w, previous, t);
    }
  }

  // ---- stepping through the addresses of a network ----

  lemma InvalidType(w: uint32)
    requires NetIdType(w) > 7
    ensures NwkAddr(w) == INVALID_ID
    ensures !NwkAddrFits(NetIdType(w), NwkAddr(w) + 1) && !NwkAddrFits(NetIdType(w), NwkAddr(w) - 1)
  {
  }

  // increment moves to the next word and keeps the type; it fails without change exactly at the maximum.
  lemma IncrementIsSuccessor(w: uint32)
    ensures var (r, v) := Incremented(w);
      var t := NetIdType(w);
      if t > 7 || NwkAddr(w) == MaxNwkAddr(t) then
        r == ERR_CODE_ADDR_OUT_OF_RANGE && v == w
      else
        r == LORA_OK && v == Inc(Cleared(w, t)) && NetIdType(v) == t && NwkAddr(v) == Inc(NwkAddr(w))
  {
    hide NetIdType, NwkAddr, NwkIdFits, NwkAddrFits, MaxNwkAddr, WithNwkAddr, Cleared;
    var t := NetIdType(w);
    if t > 7 {
      InvalidType(w);
    } else {
      PartsFitAny(w, t);
      RangeAny(t, NwkAddr(w));
      SuccessorAny(w, t);
      if NwkAddr(w) != MaxNwkAddr(t) {
        AddressReadAny(w, t, NwkAddr(w) + 1);
      }
    }
  }

  // decrement moves to the previous word; it fails without change exactly at address 0.
  lemma DecrementIsPredecessor(w: uint32)
    ensures var (r, v) := Decremented(w);
      var t := NetIdType(w);
      if t > 7 || NwkAddr(w) == 0 then
        r == ERR_CODE_ADDR_OUT_OF_RANGE && v == w
      else
        r == LORA_OK && v == Dec(Cleared(w, t)) && NetIdType(v) == t && NwkAddr(v) == Dec(NwkAddr(w))
  {
    hide NetIdType, NwkAddr, NwkIdFits, NwkAddrFits, MaxNwkAddr, WithNwkAddr, Cleared;
    var t := NetIdType(w);
    if t > 7 {
      InvalidType(w);
    } else {
      PartsFitAny(w, t);
      RangeAny(t, NwkAddr(w));
      PredecessorAny(w, t);
      if NwkAddr(w) != 0 {
        AddressReadAny(w, t, NwkAddr(w) - 1);
      }
    }
  }

  // increment leaves the NwkId alone but for two types: type 4 reads an address bit as part of the NwkId, type 5
  // loses two bits of it.
  lemma IncrementKeepsNwkId(w: uint32)
    requires Incremented(w).0 == LORA_OK
    ensures NwkId(Incremented(w).1) == NwkId(w) <==> NwkIdUndisturbed(w, NetIdType(w), Inc(NwkAddr(w)))
  {
    hide NetIdType, NwkId, NwkAddr, NwkAddrFits, WithNwkAddr, Cleared, NwkIdUndisturbed, MaxNwkAddr, Inc;
    IncrementIsSuccessor(w);
    NwkIdReadAny(w, NetIdType(w), Inc(NwkAddr(w)));
  }

  lemma ForthAndBack(w: uint32)
    ensures (w + 1) - 1 == w
  {
  }

  lemma ForthAndBack5(w: uint32)
    requires w & 0x1fff != 0x1fff
    ensures (((w & 0xffff_9fff) + 1) & 0xffff_9fff) - 1 == w & 0xffff_9fff
  {
  }

  lemma NextIsNotZero(a: uint32)
    requires a != 0xffff_ffff
    ensures Inc(a) != 0
  {
  }

  lemma NotMaximal5(w: uint32)
    requires NetIdType(w) == 5 && NwkAddr(w) != MaxNwkAddr(5)
    ensures w & 0x1fff != 0x1fff
  {
    hide NetIdType, NwkAddr;
    AddressMaskAny(w, 5);
    assert AddressBits(w, 5) == w & 0x1fff;
  }

  lemma ClearedForthAndBack(w: uint32, t: nat)
    requires t != 5
    ensures Dec(Cleared(Inc(Cleared(w, t)), t)) == Cleared(w, t)
  {
    ForthAndBack(w);
  }

  lemma ClearedForthAndBack5(w: uint32)
    requires w & 0x1fff != 0x1fff
    ensures Dec(Cleared(Inc(Cleared(w, 5)), 5)) == Cleared(w, 5)
  {
    ForthAndBack5(w);
  }

  lemma ClearedStep(w: uint32, t: nat)
    requires t <= 7 && NetIdType(w) == t && NwkAddr(w) != MaxNwkAddr(t)
    ensures Dec(Cleared(Inc(Cleared(w, t)), t)) == Cleared(w, t)
  {
    hide NetIdType, NwkAddr, MaxNwkAddr, Inc, Dec, Cleared;
    if t == 5 {
      NotMaximal5(w);
      ClearedForthAndBack5(w);
    } else {
      ClearedForthAndBack(w, t);
    }
  }

  lemma AddressIsNotInvalid(w: uint32, t: nat)
    requires t <= 7 && NetIdType(w) == t
    ensures NwkAddr(w) != 0xffff_ffff
  {
    assert forall a | a == 0xffff_ffff :: !NwkAddrFits(t, a);
    hide NetIdType, NwkAddr, NwkAddrFits;
    PartsFitAny(w, t);
  }

  // decrement undoes increment, but for two NwkId bits of type 5.
  lemma DecrementUndoesIncrement(w: uint32)
    requires Incremented(w).0 == LORA_OK
    ensures Decremented(Incremented(w).1) == (LORA_OK, Cleared(w, NetIdType(w)))
  {
    hide NetIdType, NwkAddr, SetAddrResult, MaxNwkAddr, Cleared, Incremented, Decremented, Inc, Dec;
    var t, v := NetIdType(w), Incremented(w).1;
    IncrementIsSuccessor(w);
    DecrementIsPredecessor(v);
    AddressIsNotInvalid(w, t);
    NextIsNotZero(NwkAddr(w));
    ClearedStep(w, t);
  }

  // ---- the addresses of one network ----

  lemma StoredRewrite(t: nat, n: uint32, a: uint32, b: uint32)
    requires t <= 7 && PrefixSurvives(t, n) && NwkAddrFits(t, a)
    ensures WithNwkAddr(StoredWord(t, n, a), t, b) == StoredWord(t, n, b)
  {
    var u := WithNwkId(WithType(0, t), t, n);
    assert NwkIdFits(t, n);
    hide NwkIdFits, NwkAddrFits, PrefixSurvives, WithType, WithNwkId, WithNwkAddr, StoredWord;
    SetLastStep(0, t, n, a);
    SetLastStep(0, t, n, b);
    OverwrittenAny(u, t, a, b);
  }

  // increment inside a network is the successor of the address.
  lemma StoredIncrement(t: nat, n: uint32, a: uint32)
    requires t <= 7 && PrefixSurvives(t, n) && NwkAddrFits(t, a)
    ensures a == MaxNwkAddr(t) ==> Incremented(StoredWord(t, n, a)) == (ERR_CODE_ADDR_OUT_OF_RANGE, StoredWord(t, n, a))
    ensures a != MaxNwkAddr(t) ==>
      Incremented(StoredWord(t, n, a)) == (LORA_OK, StoredWord(t, n, Inc(a)))
      && NwkAddrFits(t, Inc(a)) && Value(Inc(a)) == Value(a) + 1
  {
    assert a != INVALID_ID;
    ValueSuccessor(a);
    assert Value(Inc(a)) == Value(a) + 1;
    hide NetIdType, NwkAddr, NwkAddrFits, PrefixSurvives, MaxNwkAddr, WithNwkAddr, StoredWord, Inc, Dec, Value;
    StoredAddress(t, n, a);
    RangeAny(t, a);
    StoredRewrite(t, n, a, Inc(a));
  }

  // A constructor whose address is out of range leaves a word of the right network with some address in it.
  lemma PartialStep(junk: uint32, t: nat, n: uint32, b: uint32)
    requires t <= 7 && PrefixSurvives(t, n)
    ensures var u := WithNwkId(WithType(junk, t), t, n);
      && NetIdType(u) == t && NwkAddrFits(t, NwkAddr(u)) && NwkAddr(u) == AddressBits(junk, t)
      && SetAddrResult(u, b) ==
           if NwkAddrFits(t, b) then (LORA_OK, StoredWord(t, n, b)) else (ERR_CODE_ADDR_OUT_OF_RANGE, u)
  {
    assert NwkIdFits(t, n);
    hide NetIdType, NwkAddr, NwkIdFits, NwkAddrFits, PrefixSurvives, WithType, WithNwkId, WithNwkAddr,
      AddressBits, StoredWord;
    PartialAny(junk, t, n);
    SetLastStep(junk, t, n, b);
    JunkAddressAny(junk, t, n);
    AddressMaskAny(WithNwkId(WithType(junk, t), t, n), t);
    PartsFitAny(WithNwkId(WithType(junk, t), t, n), t);
  }

  lemma StoredInjective(t: nat, n: uint32, a: uint32, b: uint32)
    requires t <= 7 && PrefixSurvives(t, n) && NwkAddrFits(t, a) && NwkAddrFits(t, b)
    requires StoredWord(t, n, a) == StoredWord(t, n, b)
    ensures a == b
  {
    hide StoredWord, NwkAddr, PrefixSurvives, NwkAddrFits;
    StoredAddress(t, n, a);
    StoredAddress(t, n, b);
  }

  // size(): the largest address as a number, 2^bits - 1
  function Size(t: nat): nat
    requires t <= 7
  {
    match t
    case 0 => 0x1ff_ffff
    case 1 => 0xff_ffff
    case 2 => 0xf_ffff
    case 3 => 0x1_ffff
    case 4 => 0x7fff
    case 5 => 0x1fff
    case 6 => 0x3ff
    case _ => 0x7f
  }

  lemma WidthsAreWidths(t: nat)
    requires t <= 7
    ensures IsWidth(NwkIdBits(t)) && IsWidth(NwkAddrBits(t))
  {
  }

  lemma SizeIsPower(t: nat)
    requires t <= 7
    ensures Size(t) + 1 == TwoTo(NwkAddrBits(t))
  {
    Powers();
  }

  // The range checks accept exactly the numbers of the specified widths, and size() is the largest address.
  lemma FitsIsWidth(t: nat, v: uint32)
    requires t <= 7
    ensures NwkIdFits(t, v) <==> Value(v) < TwoTo(NwkIdBits(t))
    ensures NwkAddrFits(t, v) <==> Value(v) < TwoTo(NwkAddrBits(t))
    ensures Size(t) + 1 == TwoTo(NwkAddrBits(t))
  {
    hide NwkIdFits, NwkAddrFits, NwkIdBits, NwkAddrBits, OnlyLowBits, Value, TwoTo, IsWidth, Size;
    WidthsAreWidths(t);
    SizeIsPower(t);
    WidthsAny(t, v);
    LowBitsOnly(v, NwkIdBits(t));
    LowBitsOnly(v, NwkAddrBits(t));
  }

  lemma ByteAtMost(b: bv8, limit: bv8)
    requires b <= limit
    ensures ByteValue(b) <= limit as int
  {
    ByteOrder(b, limit);
    ByteValueIsInt(limit);
  }

  lemma BytesWithinValue(t: nat, a: uint32)
    requires t <= 7 && BytesWithin(a, t)
    ensures Value(a) <= Size(t)
  {
    ByteValueIsInt(0);
    hide Byte0, Byte1, Byte2, Byte3, ByteValue;
    ByteBound(Byte0(a));
    ByteBound(Byte1(a));
    ByteBound(Byte2(a));
    match t {
      case 0 => ByteAtMost(Byte3(a), 1);
      case 1 =>
      case 2 => ByteAtMost(Byte2(a), 0xf);
      case 3 => ByteAtMost(Byte2(a), 1);
      case 4 => ByteAtMost(Byte1(a), 0x7f);
      case 5 => ByteAtMost(Byte1(a), 0x1f);
      case 6 => ByteAtMost(Byte1(a), 3);
      case 7 => ByteAtMost(Byte0(a), 0x7f);
    }
  }

  lemma AddressValue(t: nat, a: uint32)
    requires t <= 7 && NwkAddrFits(t, a)
    ensures Value(a) <= Size(t)
  {
    hide NwkAddrFits, BytesWithin, Value;
    AddressBytesAny(t, a);
    BytesWithinValue(t, a);
  }

  lemma MaxValue(t: nat)
    requires t <= 7
    ensures Value(MaxNwkAddr(t)) == Size(t)
    ensures NwkAddrFits(t, MaxNwkAddr(t)) && NwkAddrFits(t, 0) && Value(0) == 0
  {
    ByteValueIsInt(1);
    ByteValueIsInt(3);
    ByteValueIsInt(0xf);
    ByteValueIsInt(0x1f);
    ByteValueIsInt(0x7f);
    ByteValueIsInt(0xff);
    var m := MaxNwkAddr(t);
    match t {
      case 0 => assert Byte3(m) == 1 && Byte2(m) == 0xff && Byte1(m) == 0xff && Byte0(m) == 0xff;
      case 1 => assert Byte3(m) == 0 && Byte2(m) == 0xff && Byte1(m) == 0xff && Byte0(m) == 0xff;
      case 2 => assert Byte3(m) == 0 && Byte2(m) == 0xf && Byte1(m) == 0xff && Byte0(m) == 0xff;
      case 3 => assert Byte3(m) == 0 && Byte2(m) == 1 && Byte1(m) == 0xff && Byte0(m) == 0xff;
      case 4 => assert Byte3(m) == 0 && Byte2(m) == 0 && Byte1(m) == 0x7f && Byte0(m) == 0xff;
      case 5 => assert Byte3(m) == 0 && Byte2(m) == 0 && Byte1(m) == 0x1f && Byte0(m) == 0xff;
      case 6 => assert Byte3(m) == 0 && Byte2(m) == 0 && Byte1(m) == 3 && Byte0(m) == 0xff;
      case 7 => assert Byte3(m) == 0 && Byte2(m) == 0 && Byte1(m) == 0 && Byte0(m) == 0x7f;
    }
  }

  // k increments in a row; the first failure stops.
  function IncrementTimes(w: uint32, k: nat): (int, uint32)
    decreases k
  {
    if k == 0 then (LORA_OK, w)
    else
      var (r, v) := Incremented(w);
      if r != LORA_OK then (r, v) else IncrementTimes(v, k - 1)
  }

  lemma {:induction false} Enumerates(t: nat, n: uint32, a: uint32, k: nat)
    requires t <= 7 && PrefixSurvives(t, n) && NwkAddrFits(t, a)
    requires Value(a) + k == Size(t)
    ensures IncrementTimes(StoredWord(t, n, a), k) == (LORA_OK, StoredWord(t, n, MaxNwkAddr(t)))
    decreases k
  {
    hide NwkAddrFits, PrefixSurvives, MaxNwkAddr, StoredWord, Value, Incremented;
    MaxValue(t);
    if k == 0 {
      ValueInjective(a, MaxNwkAddr(t));
    } else {
      StoredIncrement(t, n, a);
      Enumerates(t, n, Inc(a), k - 1);
    }
  }

  // Exactly size() increments lead from a network's minimum address to its maximum address.
  lemma SizeIncrements(junk: uint32, junk': uint32, t: nat, n: uint32)
    requires t <= 7 && PrefixSurvives(t, n)
    ensures var (r, min) := SetResult(junk, t, n, 0);
      var (r', max) := SetResult(junk', t, n, MaxNwkAddr(t));
      && r == LORA_OK && r' == LORA_OK
      && IncrementTimes(min, Size(t)) == (LORA_OK, max)
      && Incremented(max) == (ERR_CODE_ADDR_OUT_OF_RANGE, max)
  {
    assert NwkIdFits(t, n);
    hide NwkIdFits, NwkAddrFits, PrefixSurvives, MaxNwkAddr, StoredWord, Value, SetResult, Incremented;
    MaxValue(t);
    SetStores(junk, t, n, 0);
    SetStores(junk', t, n, MaxNwkAddr(t));
    Enumerates(t, n, 0, Size(t));
    StoredIncrement(t, n, MaxNwkAddr(t));
  }
}
