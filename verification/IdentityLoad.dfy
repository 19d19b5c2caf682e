/** Loading identities: the parser's events act on the service one object at a time. */
module IdentityLoad {
  import opened AddressText
  import opened Basics
  import opened Uint32
  import opened DevAddrCodec
  import opened NetIds
  import opened IdentityService
  import opened IdentityRuns

  const ERR_CODE_INVALID_JSON: int := -524

  function StateOf(service: JsonFileIdentityService): Store
    reads service
  {
    Store(service.netid, service.storage, service.maxDevNwkAddr, service.rightsMask)
  }

  /** The handler that collects one object's attributes and stores the object when it ends. */
  class NetworkIdentityHandler {
    const service: JsonFileIdentityService
    var k: uint32
    var v: DeviceId
    var flags: nat32

    constructor (service: JsonFileIdentityService)
      ensures this.service == service
    {
      this.service := service;
      k := 0;
      v := DeviceId(0, 0);
      flags := 0;
    }

    method StartObject()
      modifies this
      ensures k == 0 && flags == 0
    {
      k := 0;
      v := DeviceId(0, 0);
      flags := 0;
    }

    // The "addr" attribute.
    method AddrString(text: AddrText)
      modifies this, service
      ensures k == AddressOf(text) && v == old(v) && flags == old(flags)
      ensures StateOf(service) == old(StateOf(service)).Noted(AddressOf(text))
    {
      k := AddressOf(text);
      service.NoteAddress(k);
    }

    // The attributes of the device, and its rights.
    method DeviceAttributes(value: DeviceId)
      modifies this
      ensures k == old(k) && v == value && flags == old(flags)
    {
      v := value;
    }

    method FlagsUint(value: nat32)
      modifies this
      ensures k == old(k) && v == old(v) && flags == value
    {
      flags := value;
    }

    // Where the object goes: to its own address, or to the one next() answers with.
    method EndObject(junk: uint32, junk': uint32) returns (ok: bool)
      modifies this, service
      ensures var before := old(StateOf(service));
        if old(k) != 0 then
          ok && StateOf(service) == before.WithDevice(old(k), old(v)).WithRights(old(k), old(flags))
        else match before.Next(junk)
          case None => !ok && StateOf(service) == before
          case Some(a) =>
            var w := BlockWord(before.netid, a);
            ok && StateOf(service) == before.WithDevice(w, old(v)).WithRights(w, old(flags))
    {
      hide BlockWord, NextAddress, Raised;
      if k == 0 {
        var r, identity := service.Next(NetworkIdentity(0, v), junk, junk');
        if r != 0 {
          return false;
        }
        k := identity.devaddr;
      }
      service.Put(k, v);
      service.SetRightsMask(k, flags);
      return true;
    }

    method Object(o: LoadObject, junk': uint32) returns (ok: bool)
      modifies this, service
      ensures (StateOf(service), ok) == LoadOne(old(StateOf(service)), o)
    {
      hide AddressOf, BlockWord, NextAddress, Raised;
      StartObject();
      ghost var before := StateOf(service);
      var i := 0;
      while i < |o.addrs|
        invariant i <= |o.addrs|
        invariant k == if i == 0 then 0 else AddressOf(o.addrs[i - 1])
        invariant NotedAll(StateOf(service), o.addrs[i..]) == NotedAll(before, o.addrs)
      {
        assert o.addrs[i..][1..] == o.addrs[i + 1..];
        AddrString(o.addrs[i]);
        i := i + 1;
      }
      NotingKeeps(before, o.addrs);
      assert k == Asked(o) && StateOf(service) == NotedAll(before, o.addrs);
      DeviceAttributes(o.device);
      FlagsUint(o.flags);
      ok := EndObject(o.junk, junk');
    }
  }

  // The whole file, None if it cannot be opened: the service is emptied first, and keeps its rights; the first
  // failing object ends the load with an error.
  method Load(service: JsonFileIdentityService, file: Option<seq<LoadObject>>, junk': uint32) returns (r: int)
    modifies service
    ensures var empty := old(StateOf(service)).Cleared();
      match file
      case None => r == ERR_CODE_INVALID_JSON && StateOf(service) == empty
      case Some(objects) =>
        var (last, n) := LoadAll(empty, objects);
        StateOf(service) == last && r == if n == |objects| then LORA_OK else ERR_CODE_INVALID_JSON
  {
    hide LoadOne;
    service.Clear();
    var handler := new NetworkIdentityHandler(service);
    if file.None? {
      return ERR_CODE_INVALID_JSON;
    }
    var objects := file.value;
    ghost var (last, n) := LoadAll(StateOf(service), objects);
    var i := 0;
    while i < |objects|
      invariant i <= |objects|
      invariant LoadAll(StateOf(service), objects[i..]) == (last, n - i)
      invariant handler.service == service && fresh(handler)
    {
      var ok := handler.Object(objects[i], junk');
      if !ok {
        return ERR_CODE_INVALID_JSON;
      }
      assert objects[i..][1..] == objects[i + 1..];
      i := i + 1;
    }
    return LORA_OK;
  }

  // A file of objects without addresses loads without error exactly when the network has room for them all.
  method LoadUnassignedFile(service: JsonFileIdentityService, objects: seq<LoadObject>, junk': uint32) returns (r: int)
    requires forall i :: 0 <= i < |objects| ==> Unassigned(objects[i])
    modifies service
    ensures r == LORA_OK <==> |objects| <= Capacity(old(service.netid))
    ensures |service.storage| == Min(|objects|, Capacity(old(service.netid)))
  {
    hide Capacity, Unassigned, Filled, LoadAll;
    LoadFromEmpty(StateOf(service), objects);
    r := Load(service, Some(objects), junk');
  }
}
