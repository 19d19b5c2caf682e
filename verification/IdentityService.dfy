/**
 The identity service that keeps devices in a map from address to device and hands out addresses:
 a fast path one above the highest address seen, and a linear search when that fails.
 */
module IdentityService {
  import opened Basics
  import opened Uint32
  import opened DevAddrCodec
  import opened DevAddrTypes
  import opened DevAddrLaws
  import opened LowBits
  import opened NetIds

  // The key of the map: the address as one integer.
  datatype DevAddrInt = DevAddrInt(a: uint32)

  datatype DeviceId = DeviceId(devEUI: nat, joinNonce: nat)

  datatype NetworkIdentity = NetworkIdentity(devaddr: uint32, device: DeviceId)

  // The addresses of a network are the words set() builds for it.
  function BlockWord(netid: NetId, a: uint32): uint32 {
    StoredWord(NetType(netid), NetNwkId(netid), a)
  }

  function Key(netid: NetId, a: uint32): DevAddrInt {
    DevAddrInt(BlockWord(netid, a))
  }

  predicate Fits(netid: NetId, a: uint32) {
    NwkAddrFits(NetType(netid), a)
  }

  predicate IsFree(taken: set<DevAddrInt>, netid: NetId, a: uint32) {
    Fits(netid, a) && Key(netid, a) !in taken
  }

  function Last(netid: NetId): uint32 {
    MaxNwkAddr(NetType(netid))
  }

  // How many addresses a network has.
  function Capacity(netid: NetId): nat {
    Size(NetType(netid)) + 1
  }

  // ---- the laws of the codec, for the addresses of a network ----

  lemma BlockAddress(netid: NetId, a: uint32)
    requires Fits(netid, a)
    ensures NetIdType(BlockWord(netid, a)) == NetType(netid) && NwkAddr(BlockWord(netid, a)) == a
  {
    hide NetIdType, NwkAddr, NwkAddrFits, StoredWord, NetType, NetNwkId, PrefixSurvives;
    NwkIdIsSafe(netid);
    StoredAddress(NetType(netid), NetNwkId(netid), a);
  }

  // The NwkId is read back from an address of the network exactly where the layout and the getter allow it.
  lemma BlockNwkId(netid: NetId, a: uint32)
    requires Fits(netid, a)
    ensures NwkId(BlockWord(netid, a)) == NetNwkId(netid) <==> RoundTrips(NetType(netid), NetNwkId(netid), a)
  {
    hide NwkId, NetIdType, NwkIdFits, NwkAddrFits, StoredWord, NetType, NetNwkId, RoundTrips, PrefixSurvives;
    NwkIdIsSafe(netid);
    BlockAddress(netid, a);
    NwkIdKeptAny(NetType(netid), NetNwkId(netid), a);
  }

  // The types whose layout is the specified one for every NwkId.
  predicate ExactType(t: nat) {
    t <= 2 || t == 6 || t == 7
  }

  // Type and NwkId that are read from an address of the network are the top three and the low bits of its identifier.
  ghost predicate OfNetwork(netid: NetId, w: uint32) {
    && NetIdType(w) == Number(netid) / 0x20_0000
    && (ExactType(NetIdType(w)) ==> Value(NwkId(w)) == Number(netid) % TwoTo(NwkIdWidth(NetType(netid))))
  }

  lemma BlockIsOfNetwork(netid: NetId, a: uint32)
    requires Fits(netid, a)
    ensures OfNetwork(netid, BlockWord(netid, a))
  {
    assert forall n :: ExactType(NetType(netid)) ==> RoundTrips(NetType(netid), n, a);
    hide NwkId, NetIdType, NwkAddrFits, StoredWord, NetType, NetNwkId, RoundTrips, Value, TwoTo, NwkIdWidth;
    BlockAddress(netid, a);
    BlockNwkId(netid, a);
    TypeIsTopBits(netid);
    NwkIdIsLowBits(netid);
  }

  lemma BlockStep(netid: NetId, a: uint32)
    requires Fits(netid, a)
    ensures a == Last(netid) ==> Incremented(BlockWord(netid, a)) == (ERR_CODE_ADDR_OUT_OF_RANGE, BlockWord(netid, a))
    ensures a != Last(netid) ==>
      Incremented(BlockWord(netid, a)) == (LORA_OK, BlockWord(netid, Inc(a)))
      && Fits(netid, Inc(a)) && Value(Inc(a)) == Value(a) + 1
  {
    hide NwkAddrFits, MaxNwkAddr, StoredWord, NetType, NetNwkId, PrefixSurvives, Incremented, Inc, Value;
    NwkIdIsSafe(netid);
    StoredIncrement(NetType(netid), NetNwkId(netid), a);
  }

  lemma BlockRange(netid: NetId, a: uint32)
    ensures Fits(netid, a) ==> Value(a) <= Value(Last(netid))
    ensures Value(Last(netid)) + 1 == Capacity(netid)
    ensures Fits(netid, Last(netid)) && Fits(netid, 0) && Value(0) == 0
  {
    hide NwkAddrFits, MaxNwkAddr, NetType, Size, Value;
    MaxValue(NetType(netid));
    if Fits(netid, a) {
      AddressValue(NetType(netid), a);
    }
  }

  // ---- the search ----

  // The first free address from a on.
  function FirstFree(taken: set<DevAddrInt>, netid: NetId, a: uint32): Option<uint32>
    requires Fits(netid, a)
    decreases Value(Last(netid)) - Value(a)
  {
    BlockStep(netid, a);
    BlockRange(netid, a);
    if Key(netid, a) !in taken then Some(a)
    else if a == Last(netid) then None
    else BlockRange(netid, Inc(a)); FirstFree(taken, netid, Inc(a))
  }

  // Least free address at or above a: every smaller one from a on is taken.
  ghost predicate IsFirstFree(taken: set<DevAddrInt>, netid: NetId, from: uint32, found: Option<uint32>) {
    && (found.Some? ==> IsFree(taken, netid, found.value) && Value(from) <= Value(found.value))
    && forall b :: Fits(netid, b) && Value(from) <= Value(b) && (found.Some? ==> Value(b) < Value(found.value)) ==>
         Key(netid, b) in taken
  }

  lemma {:induction false} FirstFreeIsLeast(taken: set<DevAddrInt>, netid: NetId, a: uint32)
    requires Fits(netid, a)
    ensures IsFirstFree(taken, netid, a, FirstFree(taken, netid, a))
    decreases Value(Last(netid)) - Value(a)
  {
    hide Fits, BlockWord, Value, Last, Inc;
    BlockStep(netid, a);
    BlockRange(netid, a);
    var found := FirstFree(taken, netid, a);
    if Key(netid, a) in taken && a != Last(netid) {
      BlockRange(netid, Inc(a));
      FirstFreeIsLeast(taken, netid, Inc(a));
    }
    forall b | Fits(netid, b) && Value(a) <= Value(b) && (found.Some? ==> Value(b) < Value(found.value))
      ensures Key(netid, b) in taken
    {
      BlockRange(netid, b);
      if Value(b) == Value(a) {
        ValueInjective(a, b);
      }
    }
  }

  // The answer of the linear search.
  function LeastFree(taken: set<DevAddrInt>, netid: NetId): Option<uint32> {
    BlockRange(netid, 0);
    FirstFree(taken, netid, 0)
  }

  // The address the fast path starts from: the high-water mark, or, when it is out of range for the
  // network, the bits which the uninitialised word happened to hold.
  function StartAddress(netid: NetId, mark: uint32, junk: uint32): uint32 {
    if Fits(netid, mark) then mark else AddressBits(junk, NetType(netid))
  }

  // The address next() answers with, None if it fails.
  function NextAddress(taken: set<DevAddrInt>, netid: NetId, mark: uint32, junk: uint32): Option<uint32> {
    var start := StartAddress(netid, mark, junk);
    if start == Last(netid) || Key(netid, Inc(start)) in taken then LeastFree(taken, netid)
    else Some(Inc(start))
  }

  lemma StartFits(netid: NetId, mark: uint32, junk: uint32)
    ensures Fits(netid, StartAddress(netid, mark, junk))
  {
    hide NwkAddrFits, AddressBits, NetType, NetNwkId, PrefixSurvives, WithType, WithNwkId, SetAddrResult, StoredWord;
    NwkIdIsSafe(netid);
    PartialStep(junk, NetType(netid), NetNwkId(netid), 0);
  }

  // Word and step of the address object the fast path works on.
  lemma StartStep(netid: NetId, mark: uint32, junk: uint32)
    ensures var start := StartAddress(netid, mark, junk);
      var w := SetResult(junk, NetType(netid), NetNwkId(netid), mark).1;
      Incremented(w) ==
        if start == Last(netid) then (ERR_CODE_ADDR_OUT_OF_RANGE, w) else (LORA_OK, BlockWord(netid, Inc(start)))
  {
    var t, n := NetType(netid), NetNwkId(netid);
    hide NetType, NetNwkId, PrefixSurvives, NwkIdFits, NwkAddrFits, MaxNwkAddr, NetIdType, NwkAddr, AddressBits,
      WithType, WithNwkId, WithNwkAddr, StoredWord, Inc, Value;
    NwkIdIsSafe(netid);
    var start := StartAddress(netid, mark, junk);
    if Fits(netid, mark) {
      SetStores(junk, t, n, mark);
      hide SetResult, Incremented;
      BlockStep(netid, mark);
    } else {
      hide SetAddrResult;
      PartialStep(junk, t, n, Inc(start));
      hide Incremented;
      BlockStep(netid, start);
      RangeAny(t, start);
    }
  }

  // The two tests of the fast path, on the address object, decide between its candidate and the linear search.
  lemma NextCases(taken: set<DevAddrInt>, netid: NetId, mark: uint32, junk: uint32)
    ensures var (r, w) := Incremented(SetResult(junk, NetType(netid), NetNwkId(netid), mark).1);
      var answer := NextAddress(taken, netid, mark, junk);
      if r != LORA_OK || DevAddrInt(w) in taken then answer == LeastFree(taken, netid)
      else answer.Some? && w == BlockWord(netid, answer.value)
  {
    hide NetType, NetNwkId, BlockWord, Fits, Last, Inc, SetResult, StartAddress, LeastFree, Incremented;
    StartStep(netid, mark, junk);
  }

  // The high-water mark after seeing an address.
  function Raised(mark: uint32, devaddr: uint32): uint32 {
    if Value(NwkAddr(devaddr)) > Value(mark) then NwkAddr(devaddr) else mark
  }

  // Result code and identity when the answer is the given address: the identity changes only on success.
  predicate Answers(netid: NetId, identity: NetworkIdentity, answer: Option<uint32>, r: int, retval: NetworkIdentity) {
    match answer
    case Some(a) => r == LORA_OK && retval == identity.(devaddr := BlockWord(netid, a))
    case None => r == ERR_CODE_ADDR_OUT_OF_RANGE && retval == identity
  }

  function RightsOf(rights: map<DevAddrInt, nat32>, k: DevAddrInt): nat32 {
    if k in rights then rights[k] else 0
  }

  function WithRights(rights: map<DevAddrInt, nat32>, k: DevAddrInt, value: nat32): (r: map<DevAddrInt, nat32>)
    ensures RightsOf(r, k) == value
    ensures forall other :: other != k ==> RightsOf(r, other) == RightsOf(rights, other)
  {
    if value != 0 then rights[k := value] else rights - {k}
  }

  /** The service with its address map and the highest NwkAddr it has seen. */
  class JsonFileIdentityService {
    var netid: NetId
    var storage: map<DevAddrInt, DeviceId>
    var maxDevNwkAddr: uint32
    var rightsMask: map<DevAddrInt, nat32>

    constructor (netid: NetId)
      ensures this.netid == netid && storage == map[] && maxDevNwkAddr == 0 && rightsMask == map[]
    {
      this.netid := netid;
      storage := map[];
      maxDevNwkAddr := 0;
      rightsMask := map[];
    }

    method SetNetworkId(value: NetId)
      modifies this
      ensures netid == value && storage == old(storage) && maxDevNwkAddr == old(maxDevNwkAddr)
      ensures rightsMask == old(rightsMask)
    {
      netid := value;
    }

    // The rights stay.
    method Clear()
      modifies this
      ensures netid == old(netid) && storage == map[] && maxDevNwkAddr == 0 && rightsMask == old(rightsMask)
    {
      storage := map[];
      maxDevNwkAddr := 0;
    }

    // Remember the highest address seen: put() and the loader's "addr" attribute do this.
    method NoteAddress(devaddr: uint32)
      modifies this
      ensures netid == old(netid) && storage == old(storage) && rightsMask == old(rightsMask)
      ensures maxDevNwkAddr == Raised(old(maxDevNwkAddr), devaddr)
    {
      var na := NwkAddr(devaddr);
      if Value(na) > Value(maxDevNwkAddr) {
        maxDevNwkAddr := na;
      }
    }

    method Put(devaddr: uint32, id: DeviceId)
      modifies this
      ensures netid == old(netid) && storage == old(storage)[DevAddrInt(devaddr) := id]
      ensures rightsMask == old(rightsMask)
      ensures maxDevNwkAddr == Raised(old(maxDevNwkAddr), devaddr)
    {
      storage := storage[DevAddrInt(devaddr) := id];
      NoteAddress(devaddr);
    }

    method Rm(devaddr: uint32)
      modifies this
      ensures netid == old(netid) && maxDevNwkAddr == old(maxDevNwkAddr) && rightsMask == old(rightsMask)
      ensures storage == old(storage) - {DevAddrInt(devaddr)}
    {
      storage := storage - {DevAddrInt(devaddr)};
    }

    // No rights are kept as no entry.
    method SetRightsMask(devaddr: uint32, value: nat32)
      modifies this
      ensures netid == old(netid) && storage == old(storage) && maxDevNwkAddr == old(maxDevNwkAddr)
      ensures rightsMask == WithRights(old(rightsMask), DevAddrInt(devaddr), value)
    {
      if value != 0 {
        rightsMask := rightsMask[DevAddrInt(devaddr) := value];
      } else if DevAddrInt(devaddr) in rightsMask {
        rightsMask := rightsMask - {DevAddrInt(devaddr)};
      }
    }

    method GetRightsMask(devaddr: uint32) returns (r: nat32)
      ensures r == RightsOf(rightsMask, DevAddrInt(devaddr))
    {
      if DevAddrInt(devaddr) !in rightsMask {
        return 0;
      }
      return rightsMask[DevAddrInt(devaddr)];
    }

    // junk stands for the bytes of the local address object before it is set.
    method NextBruteForce(identity: NetworkIdentity, junk: uint32) returns (r: int, retval: NetworkIdentity)
      ensures Answers(netid, identity, LeastFree(storage.Keys, netid), r, retval)
    {
      hide NetType, NetNwkId, NwkIdFits, Fits, BlockWord, Last, Value, Inc, SetResult, SetAddrResult;
      NwkIdIsSafe(netid);
      r := ERR_CODE_ADDR_SPACE_FULL;
      retval := identity;
      var nextAddr := new DevAddr.Uninitialised(junk);
      var ignored := nextAddr.SetMinAddress(NetType(netid), NetNwkId(netid));
      ghost var cur: uint32 := 0;
      BlockRange(netid, cur);
      assert nextAddr.devaddr == BlockWord(netid, cur) by {
        MinimumWord(netid, junk);
      }
      while true
        invariant Fits(netid, cur) && nextAddr.devaddr == BlockWord(netid, cur)
        invariant LeastFree(storage.Keys, netid) == FirstFree(storage.Keys, netid, cur)
        invariant retval == identity
        decreases Value(Last(netid)) - Value(cur)
      {
        if DevAddrInt(nextAddr.devaddr) !in storage {
          retval := identity.(devaddr := nextAddr.devaddr);
          r := LORA_OK;
          break;
        }
        BlockStep(netid, cur);
        BlockRange(netid, cur);
        r := nextAddr.Increment();
        if r != 0 {
          return r, retval;
        }
        cur := Inc(cur);
        BlockRange(netid, cur);
      }
    }

    // junk and junk' stand for the bytes of the two local address objects before they are set.
    method Next(identity: NetworkIdentity, junk: uint32, junk': uint32) returns (r: int, retval: NetworkIdentity)
      ensures Answers(netid, identity, NextAddress(storage.Keys, netid, maxDevNwkAddr, junk), r, retval)
      ensures r == LORA_OK <==> exists a :: IsFree(storage.Keys, netid, a)
      ensures r == LORA_OK ==> InBlock(netid, retval.devaddr) && DevAddrInt(retval.devaddr) !in storage
      ensures r == LORA_OK ==> OfNetwork(netid, retval.devaddr) && retval.device == identity.device
    {
      hide NetType, NetNwkId, BlockWord, SetResult, LeastFree, Incremented, IsFree, InBlock, NextAddress, OfNetwork;
      NextCases(storage.Keys, netid, maxDevNwkAddr, junk);
      var nextAddr := new DevAddr.Uninitialised(junk);
      var ignored := nextAddr.Set(NetType(netid), NetNwkId(netid), maxDevNwkAddr);
      r := nextAddr.Increment();
      if r != 0 {
        r, retval := NextBruteForce(identity, junk');
      } else if DevAddrInt(nextAddr.devaddr) in storage {
        r, retval := NextBruteForce(identity, junk');
      } else {
        retval := identity.(devaddr := nextAddr.devaddr);
        r := LORA_OK;
      }
      assert Answers(netid, identity, NextAddress(storage.Keys, netid, maxDevNwkAddr, junk), r, retval);
      AnswerMeans(storage.Keys, netid, maxDevNwkAddr, junk, identity, r, retval);
    }
  }

  // What an answer of next() says.
  lemma AnswerMeans(taken: set<DevAddrInt>, netid: NetId, mark: uint32, junk: uint32,
                    identity: NetworkIdentity, r: int, retval: NetworkIdentity)
    requires Answers(netid, identity, NextAddress(taken, netid, mark, junk), r, retval)
    ensures r == LORA_OK <==> exists a :: IsFree(taken, netid, a)
    ensures r == LORA_OK ==> InBlock(netid, retval.devaddr) && DevAddrInt(retval.devaddr) !in taken
    ensures r == LORA_OK ==> OfNetwork(netid, retval.devaddr) && retval.device == identity.device
  {
    hide BlockWord, Fits, NextAddress, OfNetwork;
    NextIsSound(taken, netid, mark, junk);
    var answer := NextAddress(taken, netid, mark, junk);
    if answer.Some? {
      BlockIsOfNetwork(netid, answer.value);
    }
  }

  ghost predicate InBlock(netid: NetId, w: uint32) {
    exists a :: Fits(netid, a) && w == BlockWord(netid, a)
  }

  lemma LeastFreeIsLeast(taken: set<DevAddrInt>, netid: NetId)
    ensures IsFirstFree(taken, netid, 0, LeastFree(taken, netid))
  {
    hide Fits, FirstFree, IsFirstFree;
    BlockRange(netid, 0);
    FirstFreeIsLeast(taken, netid, 0);
  }

  // next() succeeds exactly when the network has a free address, and answers with a free one, for every
  // map, every high-water mark and all uninitialised bytes.
  lemma NextIsSound(taken: set<DevAddrInt>, netid: NetId, mark: uint32, junk: uint32)
    ensures var answer := NextAddress(taken, netid, mark, junk);
      && (answer.Some? <==> exists a :: IsFree(taken, netid, a))
      && (answer.Some? ==> IsFree(taken, netid, answer.value))
  {
    hide BlockWord, Fits, Last, Inc, StartAddress, LeastFree, Value;
    var start := StartAddress(netid, mark, junk);
    StartFits(netid, mark, junk);
    BlockStep(netid, start);
    LeastFreeIsLeast(taken, netid);
    BlockRange(netid, 0);
  }

  lemma MinimumWord(netid: NetId, junk: uint32)
    ensures SetResult(junk, NetType(netid), NetNwkId(netid), 0) == (LORA_OK, BlockWord(netid, 0))
  {
    hide NetType, NetNwkId, PrefixSurvives, NwkIdFits, NwkAddrFits, SetResult, StoredWord;
    NwkIdIsSafe(netid);
    BlockRange(netid, 0);
    SetStores(junk, NetType(netid), NetNwkId(netid), 0);
  }
}
