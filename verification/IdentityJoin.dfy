/** Answering a join request with a device address. */
module IdentityJoin {
  import opened Basics
  import opened Uint32
  import opened DevAddrCodec
  import opened DevAddrLaws
  import opened DevAddrTypes
  import opened NetIds
  import opened IdentityService
  import opened IdentityRuns
  import opened IdentityLoad

  // The fields of the join-accept header that are filled here.
  datatype JoinAnswer = JoinAnswer(netId: NetId, devAddr: uint32, joinNonce: nat)

  // Result code, header and identity after joinAccept().
  function Joined(st: Store, header: JoinAnswer, identity: NetworkIdentity, junk: uint32)
    : (int, JoinAnswer, NetworkIdentity)
  {
    if identity.devaddr == 0 then
      match st.Next(junk)
      case None => (ERR_CODE_ADDR_OUT_OF_RANGE, header.(netId := st.netid), identity)
      case Some(a) =>
        var w := BlockWord(st.netid, a);
        (LORA_OK, JoinAnswer(st.netid, w, identity.device.joinNonce), identity.(devaddr := w))
    else
      (LORA_OK, JoinAnswer(st.netid, identity.devaddr, identity.device.joinNonce), identity)
  }

  method JoinAccept(service: JsonFileIdentityService, header: JoinAnswer, identity: NetworkIdentity,
                    junk: uint32, junk': uint32)
    returns (r: int, answer: JoinAnswer, identity': NetworkIdentity)
    ensures (r, answer, identity') == Joined(StateOf(service), header, identity, junk)
  {
    hide BlockWord, NextAddress;
    answer, identity' := header, identity;
    if identity.devaddr == 0 {
      answer := answer.(netId := service.netid);
      var newNetworkIdentity;
      r, newNetworkIdentity := service.Next(identity, junk, junk');
      if r != 0 {
        return;
      }
      answer := answer.(netId := service.netid);
      answer := answer.(devAddr := newNetworkIdentity.devaddr);
      answer := answer.(joinNonce := newNetworkIdentity.device.joinNonce);
      identity' := identity'.(devaddr := newNetworkIdentity.devaddr);
    } else {
      answer := answer.(netId := service.netid);
      answer := answer.(devAddr := identity.devaddr);
      answer := answer.(joinNonce := identity.device.joinNonce);
    }
    return LORA_OK, answer, identity';
  }

  // A join succeeds unless an address is wanted and none is free. The answer carries the identity's
  // address; a new address lies in the network and is not stored. A failure leaves the identity alone.
  lemma JoinAnswers(st: Store, header: JoinAnswer, identity: NetworkIdentity, junk: uint32)
    ensures var (r, answer, after) := Joined(st, header, identity, junk);
      && (r == LORA_OK <==> identity.devaddr != 0 || exists a :: IsFree(st.storage.Keys, st.netid, a))
      && answer.netId == st.netid
      && (r == LORA_OK ==> answer.devAddr == after.devaddr && answer.joinNonce == after.device.joinNonce)
      && after.device == identity.device
      && (r == LORA_OK && identity.devaddr == 0 ==>
            InBlock(st.netid, after.devaddr) && DevAddrInt(after.devaddr) !in st.storage)
      && (r != LORA_OK || identity.devaddr != 0 ==> after == identity)
      && (r != LORA_OK ==> r == ERR_CODE_ADDR_OUT_OF_RANGE && answer == header.(netId := st.netid))
      && (r == LORA_OK && identity.devaddr == 0 ==> OfNetwork(st.netid, after.devaddr))
  {
    hide BlockWord, NextAddress, Fits, OfNetwork;
    NextIsSound(st.storage.Keys, st.netid, st.mark, junk);
    if st.Next(junk).Some? {
      BlockIsOfNetwork(st.netid, st.Next(junk).value);
    }
  }

  // The one address the code takes for none: NwkAddr 0 of the network of type 0 with NwkId 0.
  lemma ZeroWord(netid: NetId, a: uint32)
    requires Fits(netid, a)
    ensures BlockWord(netid, a) == 0 <==> NetType(netid) == 0 && NetNwkId(netid) == 0 && a == 0
  {
    ZeroReads();
    NwkIdIsSafe(netid);
    if NetType(netid) == 0 {
      ZeroNetwork(NetNwkId(netid));
    }
    hide NetType, NetNwkId, Fits, NetIdType, NwkAddr, StoredWord, PrefixSurvives;
    BlockAddress(netid, a);
  }

  lemma ZeroReads()
    ensures NetIdType(0) == 0 && NwkAddr(0) == 0
  {
  }

  lemma ZeroNetwork(n: uint32)
    requires NwkIdFits(0, n)
    ensures StoredWord(0, n, 0) == 0 <==> n == 0
  {
  }

  // After a join that succeeded, joining again answers with the same address, whatever has happened to the service
  // since, exactly when that address is not the word 0.
  lemma JoinIsStable(st: Store, header: JoinAnswer, identity: NetworkIdentity, junk: uint32)
    requires Joined(st, header, identity, junk).0 == LORA_OK
    ensures var (_, answer, after) := Joined(st, header, identity, junk);
      (forall st', header', junk' ::
         Joined(st', header', after, junk') == (LORA_OK, answer.(netId := st'.netid), after))
      <==> after.devaddr != 0
  {
    var (_, answer, after) := Joined(st, header, identity, junk);
    if after.devaddr == 0 {
      var other := Initial(0xe0_0000);
      OtherNetwork(other.netid, junk);
      hide BlockWord, NextAddress;
      assert Joined(other, header, after, junk).2.devaddr != 0;
      assert Joined(other, header, after, junk) != (LORA_OK, answer.(netId := other.netid), after);
    } else {
      hide BlockWord, NextAddress;
    }
  }

  lemma OtherNetwork(netid: NetId, junk: uint32)
    ensures Initial(netid).Next(junk) == Some(1) && BlockWord(netid, 1) != 0
  {
    assert Initial(netid).Cleared() == Initial(netid);
    FirstAddress(Initial(netid), junk);
  }

  // The address a join without address answers with, None if there is none.
  lemma JoinedAddress(st: Store, header: JoinAnswer, identity: NetworkIdentity, junk: uint32)
    requires identity.devaddr == 0
    ensures Joined(st, header, identity, junk).2.devaddr ==
            match st.Next(junk) { case None => 0 case Some(a) => BlockWord(st.netid, a) }
  {
    hide BlockWord, NextAddress;
  }

  lemma SameAddress(st: Store, first: NetworkIdentity, second: NetworkIdentity, header: JoinAnswer,
                    junk: uint32, junk': uint32)
    requires first.devaddr == 0 && second.devaddr == 0
    ensures Joined(st, header, first, junk).2.devaddr == Joined(st, header, second, junk').2.devaddr
            <==> st.Next(junk) == st.Next(junk')
  {
    hide BlockWord, NextAddress, Fits, Joined, NetType, NetNwkId, PrefixSurvives;
    JoinedAddress(st, header, first, junk);
    JoinedAddress(st, header, second, junk');
    NextIsSound(st.storage.Keys, st.netid, st.mark, junk);
    NextIsSound(st.storage.Keys, st.netid, st.mark, junk');
    if st.Next(junk).Some? {
      BlockInjective(st.netid, st.Next(junk).value, st.Next(junk').value);
    }
  }

  lemma BlockInjective(netid: NetId, a: uint32, b: uint32)
    requires Fits(netid, a) && Fits(netid, b)
    ensures BlockWord(netid, a) == BlockWord(netid, b) <==> a == b
  {
    hide NetType, NetNwkId, PrefixSurvives, StoredWord, NwkAddrFits;
    NwkIdIsSafe(netid);
    if BlockWord(netid, a) == BlockWord(netid, b) {
      StoredInjective(NetType(netid), NetNwkId(netid), a, b);
    }
  }

  // A join does not reserve its address. Two devices without one that join before either is stored are sure to get
  // the same, whatever uninitialised memory holds, exactly when the mark fits the network or at most one address is
  // free.
  lemma JoinDoesNotReserve(st: Store, first: NetworkIdentity, second: NetworkIdentity, header: JoinAnswer)
    requires first.devaddr == 0 && second.devaddr == 0
    ensures (forall junk, junk' ::
               Joined(st, header, first, junk).2.devaddr == Joined(st, header, second, junk').2.devaddr)
      <==> Fits(st.netid, st.mark)
           || (forall a, b :: IsFree(st.storage.Keys, st.netid, a) && IsFree(st.storage.Keys, st.netid, b) ==> a == b)
  {
    hide Joined, NextAddress, IsFree, Fits;
    var taken, netid, mark := st.storage.Keys, st.netid, st.mark;
    NextIsDeterministic(taken, netid, mark);
    if forall junk, junk' :: NextAddress(taken, netid, mark, junk) == NextAddress(taken, netid, mark, junk') {
      forall junk, junk'
        ensures Joined(st, header, first, junk).2.devaddr == Joined(st, header, second, junk').2.devaddr
      {
        SameAddress(st, first, second, header, junk, junk');
        assert st.Next(junk) == NextAddress(taken, netid, mark, junk);
      }
    } else {
      var junk, junk' :| NextAddress(taken, netid, mark, junk) != NextAddress(taken, netid, mark, junk');
      SameAddress(st, first, second, header, junk, junk');
      assert st.Next(junk) != st.Next(junk');
    }
  }

  // Storing the first device makes the second join answer differently, after any run.
  lemma StoredJoinsDiffer(st: Store, first: NetworkIdentity, second: NetworkIdentity, header: JoinAnswer,
                          junk: uint32, junk': uint32)
    requires first.devaddr == 0 && second.devaddr == 0
    requires Joined(st, header, first, junk).0 == LORA_OK
    ensures var a := Joined(st, header, first, junk).2;
      var st' := st.WithDevice(a.devaddr, a.device);
      Joined(st', header, second, junk').0 == LORA_OK ==> Joined(st', header, second, junk').2.devaddr != a.devaddr
  {
    hide BlockWord, Fits, NextAddress, Raised;
    var a := Joined(st, header, first, junk).2;
    var st' := st.WithDevice(a.devaddr, a.device);
    NextIsSound(st'.storage.Keys, st'.netid, st'.mark, junk');
  }
}
