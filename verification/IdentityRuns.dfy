/** What the identity service guarantees over whole runs: any sequence of its operations. */
module IdentityRuns {
  import opened AddressText
  import opened Basics
  import opened Uint32
  import opened DevAddrCodec
  import opened DevAddrLaws
  import opened DevAddrTypes
  import opened NetIds
  import opened IdentityService

  // The service's state as a value.
  datatype Store =
    Store(netid: NetId, storage: map<DevAddrInt, DeviceId>, mark: uint32, rights: map<DevAddrInt, nat32>)
  {
    function Cleared(): Store {
      this.(storage := map[], mark := 0)
    }

    function Noted(devaddr: uint32): Store {
      this.(mark := Raised(mark, devaddr))
    }

    function WithDevice(devaddr: uint32, id: DeviceId): Store {
      Noted(devaddr).(storage := storage[DevAddrInt(devaddr) := id])
    }

    function WithRights(devaddr: uint32, value: nat32): Store {
      this.(rights := IdentityService.WithRights(rights, DevAddrInt(devaddr), value))
    }

    function Next(junk: uint32): Option<uint32> {
      NextAddress(storage.Keys, netid, mark, junk)
    }
  }

  datatype Event =
    | SetNetworkId(netid: NetId)
    | Clear
    | Note(devaddr: uint32)
    | Put(devaddr: uint32, id: DeviceId)
    | Rm(devaddr: uint32)
    | SetRights(devaddr: uint32, value: nat32)
    | Assign(id: DeviceId, junk: uint32)

  // Assign is next() followed by put() of the answer, as the loader uses it; a join stores nothing.
  function Apply(st: Store, e: Event): Store {
    match e
    case SetNetworkId(netid) => st.(netid := netid)
    case Clear => st.Cleared()
    case Note(devaddr) => st.Noted(devaddr)
    case Put(devaddr, id) => st.WithDevice(devaddr, id)
    case Rm(devaddr) => st.(storage := st.storage - {DevAddrInt(devaddr)})
    case SetRights(devaddr, value) => st.WithRights(devaddr, value)
    case Assign(id, junk) =>
      match st.Next(junk)
      case None => st
      case Some(a) => st.WithDevice(BlockWord(st.netid, a), id)
  }

  function Run(st: Store, events: seq<Event>): Store
    decreases |events|
  {
    if events == [] then st else Run(Apply(st, events[0]), events[1..])
  }

  function Initial(netid: NetId): Store {
    Store(netid, map[], 0, map[])
  }

  // No stored address lies above the mark.
  ghost predicate HighWater(st: Store) {
    forall k :: k in st.storage ==> Value(NwkAddr(k.a)) <= Value(st.mark)
  }

  lemma ApplyKeepsHighWater(st: Store, e: Event)
    requires HighWater(st)
    ensures HighWater(Apply(st, e))
  {
    hide NwkAddr, Value, NextAddress, BlockWord;
  }

  lemma {:induction false} RunKeepsHighWater(st: Store, events: seq<Event>)
    requires HighWater(st)
    ensures HighWater(Run(st, events))
    decreases |events|
  {
    if events != [] {
      hide Apply, HighWater;
      ApplyKeepsHighWater(st, events[0]);
      RunKeepsHighWater(Apply(st, events[0]), events[1..]);
    }
  }

  lemma CandidateIsFree(st: Store)
    requires HighWater(st) && Fits(st.netid, st.mark) && st.mark != Last(st.netid)
    ensures IsFree(st.storage.Keys, st.netid, Inc(st.mark))
  {
    hide NwkAddr, NetIdType, Value, BlockWord, Fits, Last, Inc;
    BlockStep(st.netid, st.mark);
    BlockAddress(st.netid, Inc(st.mark));
  }

  // After any run, a mark inside the network's range makes the fast path's candidate free: its collision
  // test never fires, and the answer is the address after the mark.
  lemma FastPathNeverCollides(netid: NetId, events: seq<Event>, junk: uint32)
    ensures var st := Run(Initial(netid), events);
      Fits(st.netid, st.mark) && st.mark != Last(st.netid) ==>
        IsFree(st.storage.Keys, st.netid, Inc(st.mark)) && st.Next(junk) == Some(Inc(st.mark))
  {
    var st := Run(Initial(netid), events);
    assert HighWater(Initial(netid));
    hide Fits, Last, Inc, BlockWord, LeastFree, HighWater, Run, Initial;
    RunKeepsHighWater(Initial(netid), events);
    if Fits(st.netid, st.mark) && st.mark != Last(st.netid) {
      CandidateIsFree(st);
    }
  }

  // next() ignores the uninitialised bytes exactly when the mark is in range or at most one address is free.
  lemma NextIsDeterministic(taken: set<DevAddrInt>, netid: NetId, mark: uint32)
    ensures (forall junk, junk' :: NextAddress(taken, netid, mark, junk) == NextAddress(taken, netid, mark, junk'))
      <==> Fits(netid, mark) || (forall a, b :: IsFree(taken, netid, a) && IsFree(taken, netid, b) ==> a == b)
  {
    if Fits(netid, mark) {
    } else if forall a, b :: IsFree(taken, netid, a) && IsFree(taken, netid, b) ==> a == b {
      forall junk, junk' ensures NextAddress(taken, netid, mark, junk) == NextAddress(taken, netid, mark, junk') {
        hide NextAddress, IsFree;
        NextIsSound(taken, netid, mark, junk);
        NextIsSound(taken, netid, mark, junk');
      }
    } else {
      var a, b :| IsFree(taken, netid, a) && IsFree(taken, netid, b) && a != b;
      hide NextAddress, IsFree;
      if Value(a) < Value(b) {
        TwoAnswers(taken, netid, mark, a, b);
      } else {
        if Value(a) == Value(b) {
          ValueInjective(a, b);
        }
        TwoAnswers(taken, netid, mark, b, a);
      }
    }
  }

  lemma TwoAnswers(taken: set<DevAddrInt>, netid: NetId, mark: uint32, a: uint32, b: uint32)
    requires !Fits(netid, mark) && IsFree(taken, netid, a) && IsFree(taken, netid, b) && Value(a) < Value(b)
    ensures NextAddress(taken, netid, mark, Dec(b)) == Some(b)
    ensures NextAddress(taken, netid, mark, Last(netid)) != Some(b)
  {
    NonZero(b);
    hide NwkAddrFits, BlockWord, NetType, AddressBits, Value, Inc, Dec, LeastFree, MaxNwkAddr;
    var t := NetType(netid);
    RangeAny(t, b);
    RangeAny(t, Dec(b));
    WholeAddressAny(t, Dec(b));
    BlockRange(netid, 0);
    WholeAddressAny(t, Last(netid));
    LeastFreeIsLeast(taken, netid);
  }

  lemma NonZero(b: uint32)
    requires Value(b) > 0
    ensures b != 0 && Inc(Dec(b)) == b
  {
    ByteValueIsInt(0);
  }

  predicate SharesBlock(netid: NetId, netid': NetId) {
    && NetType(netid) == NetType(netid')
    && (NetNwkId(netid) == NetNwkId(netid') || (NetType(netid) == 5 && NetNwkId(netid) >> 2 == NetNwkId(netid') >> 2))
  }

  // Two networks have an address in common only if they have all of them in common, which is so exactly
  // when type and NwkId agree, for type 5 without the two low NwkId bits.
  lemma BlocksEqualOrDisjoint(netid: NetId, netid': NetId)
    ensures SharesBlock(netid, netid') ==> forall a :: Fits(netid, a) ==> BlockWord(netid, a) == BlockWord(netid', a)
    ensures !SharesBlock(netid, netid') ==> forall w :: !(InBlock(netid, w) && InBlock(netid', w))
  {
    var t, n, m := NetType(netid), NetNwkId(netid), NetNwkId(netid');
    NwkIdIsSafe(netid);
    NwkIdIsSafe(netid');
    hide NetType, NetNwkId, NwkAddrFits, StoredWord, PrefixSurvives, NwkAddr, NetIdType;
    forall a | Fits(netid, a) && SharesBlock(netid, netid') ensures BlockWord(netid, a) == BlockWord(netid', a) {
      SameNetworkAny(t, n, m, a);
    }
    forall w | InBlock(netid, w) && InBlock(netid', w) ensures SharesBlock(netid, netid') {
      var a :| Fits(netid, a) && w == BlockWord(netid, a);
      var b :| Fits(netid', b) && w == BlockWord(netid', b);
      BlockAddress(netid, a);
      BlockAddress(netid', b);
      SameNetworkAny(t, n, m, a);
    }
  }

  // ---- loading a file ----

  // One object of the file: its "addr" attributes in order, the rest of it, and its rights.
  datatype LoadObject = LoadObject(addrs: seq<AddrText>, device: DeviceId, flags: nat32, junk: uint32)

  // Every "addr" attribute raises the mark.
  function NotedAll(st: Store, addrs: seq<AddrText>): Store
    decreases |addrs|
  {
    if addrs == [] then st else NotedAll(st.Noted(AddressOf(addrs[0])), addrs[1..])
  }

  // The address the object asks for: the last one it names, 0 if it names none.
  function Asked(o: LoadObject): uint32 {
    if o.addrs == [] then 0 else AddressOf(o.addrs[|o.addrs| - 1])
  }

  // The object is stored at w.
  function Stored(st: Store, w: uint32, o: LoadObject): Store {
    st.WithDevice(w, o.device).WithRights(w, o.flags)
  }

  // State after one object, and whether loading goes on. An object without an address, or with the
  // address 0, gets one from next().
  function LoadOne(st: Store, o: LoadObject): (Store, bool) {
    var noted := NotedAll(st, o.addrs);
    if Asked(o) != 0 then (Stored(noted, Asked(o), o), true)
    else
      match noted.Next(o.junk)
      case None => (noted, false)
      case Some(a) => (Stored(noted, BlockWord(st.netid, a), o), true)
  }

  lemma {:induction false} NotingKeeps(st: Store, addrs: seq<AddrText>)
    ensures NotedAll(st, addrs) == st.(mark := NotedAll(st, addrs).mark)
    decreases |addrs|
  {
    if addrs != [] {
      hide Raised, AddressOf;
      NotingKeeps(st.Noted(AddressOf(addrs[0])), addrs[1..]);
    }
  }

  // A mark is the highest of an earlier one and some addresses.
  ghost predicate Highest(mark: uint32, earlier: uint32, addrs: seq<AddrText>) {
    && Value(earlier) <= Value(mark)
    && (forall t :: t in addrs ==> Value(NwkAddr(AddressOf(t))) <= Value(mark))
    && (mark == earlier || exists t :: t in addrs && mark == NwkAddr(AddressOf(t)))
  }

  lemma HighestStep(mark: uint32, earlier: uint32, addrs: seq<AddrText>)
    requires addrs != [] && Highest(mark, Raised(earlier, AddressOf(addrs[0])), addrs[1..])
    ensures Highest(mark, earlier, addrs)
  {
    hide NwkAddr, AddressOf, Value;
    forall t | t in addrs ensures Value(NwkAddr(AddressOf(t))) <= Value(mark) {
      assert t == addrs[0] || t in addrs[1..];
    }
  }

  // After the "addr" attributes the mark is the highest of itself and the addresses.
  lemma {:induction false} NotedAllIsHighest(st: Store, addrs: seq<AddrText>)
    ensures Highest(NotedAll(st, addrs).mark, st.mark, addrs)
    decreases |addrs|
  {
    if addrs != [] {
      hide Raised, AddressOf, Highest;
      NotedAllIsHighest(st.Noted(AddressOf(addrs[0])), addrs[1..]);
      HighestStep(NotedAll(st, addrs).mark, st.mark, addrs);
    }
  }

  // A loaded object is stored, with its rights, at the last address it names, or at a free one if that is 0 or it
  // names none; no other entry and no other rights change.
  lemma LoadedObjectIsStored(st: Store, o: LoadObject)
    requires LoadOne(st, o).1
    ensures exists w ::
      var last := LoadOne(st, o).0;
      && (if o.addrs != [] && AddressOf(o.addrs[|o.addrs| - 1]) != 0 then w == AddressOf(o.addrs[|o.addrs| - 1])
          else InBlock(st.netid, w) && DevAddrInt(w) !in st.storage)
      && last.netid == st.netid && last.storage == st.storage[DevAddrInt(w) := o.device]
      && RightsOf(last.rights, DevAddrInt(w)) == o.flags
      && (forall k :: k != DevAddrInt(w) ==> RightsOf(last.rights, k) == RightsOf(st.rights, k))
      && Value(NwkAddr(w)) <= Value(last.mark)
  {
    hide NwkAddr, Value, BlockWord, Fits, NextAddress, NotedAll, RightsOf, IdentityService.WithRights, AddressOf;
    NotingKeeps(st, o.addrs);
    var noted := NotedAll(st, o.addrs);
    NextIsSound(noted.storage.Keys, noted.netid, noted.mark, o.junk);
    var w := if Asked(o) != 0 then Asked(o) else BlockWord(st.netid, noted.Next(o.junk).value);
    assert LoadOne(st, o).0 == Stored(noted, w, o);
  }

  // State after loading, and the number of objects stored.
  function LoadAll(st: Store, objects: seq<LoadObject>): (Store, nat)
    decreases |objects|
  {
    if objects == [] then (st, 0)
    else
      var (next, ok) := LoadOne(st, objects[0]);
      if !ok then (next, 0)
      else
        var (last, n) := LoadAll(next, objects[1..]);
        (last, n + 1)
  }

  // The loader's own assignment, as an addition to the map.
  lemma AutoAssign(st: Store, o: LoadObject)
    requires Asked(o) == 0
    ensures LoadOne(st, o).1 <==> exists a :: IsFree(st.storage.Keys, st.netid, a)
    ensures !LoadOne(st, o).1 ==> LoadOne(st, o).0.storage == st.storage
    ensures LoadOne(st, o).1 ==> exists a ::
      IsFree(st.storage.Keys, st.netid, a) && LoadOne(st, o).0.storage == st.storage[Key(st.netid, a) := o.device]
  {
    hide NwkAddr, Value, BlockWord, Fits, Raised, NextAddress, NotedAll, Asked;
    NotingKeeps(st, o.addrs);
    NextIsSound(st.storage.Keys, st.netid, NotedAll(st, o.addrs).mark, o.junk);
  }

  lemma MapGrows(m: map<DevAddrInt, DeviceId>, k: DevAddrInt, v: DeviceId)
    requires k !in m
    ensures |m[k := v]| == |m| + 1
  {
    assert m[k := v].Keys == m.Keys + {k};
    assert |m| == |m.Keys| && |m[k := v]| == |m[k := v].Keys|;
  }

  // An address the loader picks itself never replaces an entry; it fails exactly when none is free.
  lemma AutoAssignKeepsEntries(st: Store, o: LoadObject)
    requires Asked(o) == 0
    ensures LoadOne(st, o).1 <==> exists a :: IsFree(st.storage.Keys, st.netid, a)
    ensures |LoadOne(st, o).0.storage| == |st.storage| + (if LoadOne(st, o).1 then 1 else 0)
    ensures forall k :: k in st.storage ==>
      k in LoadOne(st, o).0.storage && LoadOne(st, o).0.storage[k] == st.storage[k]
  {
    hide BlockWord, Fits, LoadOne;
    AutoAssign(st, o);
    if LoadOne(st, o).1 {
      var a :| IsFree(st.storage.Keys, st.netid, a)
        && LoadOne(st, o).0.storage == st.storage[Key(st.netid, a) := o.device];
      var w := Key(st.netid, a);
      MapGrows(st.storage, w, o.device);
    }
  }

  // The object names no address but 0.
  predicate Unassigned(o: LoadObject) {
    forall i :: 0 <= i < |o.addrs| ==> AddressOf(o.addrs[i]) == 0
  }

  // j objects without addresses have been loaded into an empty service: they hold the addresses 1, 2, ...
  // and, once these are used up, address 0.
  ghost predicate Filled(st: Store, j: nat) {
    && j <= Capacity(st.netid)
    && |st.storage| == j
    && Fits(st.netid, st.mark)
    && Value(st.mark) == (if j == Capacity(st.netid) then j - 1 else j)
    && forall a :: Fits(st.netid, a) ==>
         (Key(st.netid, a) in st.storage <==> 1 <= Value(a) <= j || (Value(a) == 0 && j == Capacity(st.netid)))
  }

  lemma ZeroAddress()
    ensures NwkAddr(0) == 0
  {
  }

  // The address the next object gets.
  lemma FilledNext(st: Store, j: nat, junk: uint32)
    requires Filled(st, j) && j < Capacity(st.netid)
    ensures st.Next(junk).Some?
    ensures var a := st.Next(junk).value;
      IsFree(st.storage.Keys, st.netid, a) && Value(a) == if j + 1 < Capacity(st.netid) then j + 1 else 0
  {
    hide BlockWord, Fits, Last, Inc, Value, Capacity, LeastFree;
    BlockRange(st.netid, 0);
    BlockStep(st.netid, st.mark);
    if j + 1 < Capacity(st.netid) {
      assert st.mark != Last(st.netid);
      assert Key(st.netid, Inc(st.mark)) !in st.storage;
    } else {
      ValueInjective(st.mark, Last(st.netid));
      LeastFreeIsLeast(st.storage.Keys, st.netid);
      assert Key(st.netid, 0) !in st.storage;
    }
  }

  lemma FilledAssign(st: Store, j: nat, a: uint32, id: DeviceId)
    requires Filled(st, j) && j < Capacity(st.netid)
    requires IsFree(st.storage.Keys, st.netid, a) && Value(a) == if j + 1 < Capacity(st.netid) then j + 1 else 0
    ensures Filled(st.WithDevice(BlockWord(st.netid, a), id), j + 1)
  {
    hide NwkAddr, NetIdType, BlockWord, Fits, Value, Capacity;
    BlockAddress(st.netid, a);
    MapGrows(st.storage, Key(st.netid, a), id);
    var next := st.WithDevice(BlockWord(st.netid, a), id);
    forall b | Fits(st.netid, b)
      ensures Key(st.netid, b) in next.storage <==>
        1 <= Value(b) <= j + 1 || (Value(b) == 0 && j + 1 == Capacity(st.netid))
    {
      BlockAddress(st.netid, b);
      BlockRange(st.netid, b);
      if Value(a) == Value(b) {
        ValueInjective(a, b);
      }
    }
    BlockRange(st.netid, a);
  }

  lemma NotingZero(st: Store)
    ensures st.Noted(0) == st
  {
    hide NwkAddr, Value;
    ZeroAddress();
    ValueOfZero();
  }

  lemma ValueOfZero()
    ensures Value(0) == 0
  {
  }

  lemma {:induction false} NotingZeroes(st: Store, addrs: seq<AddrText>)
    requires forall i :: 0 <= i < |addrs| ==> AddressOf(addrs[i]) == 0
    ensures NotedAll(st, addrs) == st
    decreases |addrs|
  {
    if addrs != [] {
      hide AddressOf, Raised;
      NotingZero(st);
      NotingZeroes(st, addrs[1..]);
    }
  }

  lemma FilledRights(st: Store, j: nat, w: uint32, value: nat32)
    requires Filled(st, j)
    ensures Filled(st.WithRights(w, value), j)
  {
    hide BlockWord, Fits, Value, Capacity;
    var st' := st.WithRights(w, value);
    assert st'.netid == st.netid && st'.mark == st.mark && st'.storage == st.storage;
  }

  lemma FilledLoad(st: Store, j: nat, o: LoadObject)
    requires Filled(st, j) && Unassigned(o)
    ensures LoadOne(st, o).1 <==> j < Capacity(st.netid)
    ensures LoadOne(st, o).0.netid == st.netid
    ensures Filled(LoadOne(st, o).0, if j < Capacity(st.netid) then j + 1 else j)
  {
    hide AddressOf, BlockWord, Fits, Value, Capacity, NextAddress, NwkAddr, Raised, NotedAll;
    NotingZeroes(st, o.addrs);
    assert Asked(o) == 0;
    if j < Capacity(st.netid) {
      FilledNext(st, j, o.junk);
      var w := BlockWord(st.netid, st.Next(o.junk).value);
      FilledAssign(st, j, st.Next(o.junk).value, o.device);
      FilledRights(st.WithDevice(w, o.device), j + 1, w, o.flags);
    } else {
      NextIsSound(st.storage.Keys, st.netid, st.mark, o.junk);
      forall a | Fits(st.netid, a) ensures Key(st.netid, a) in st.storage {
        BlockRange(st.netid, a);
      }
    }
  }

  lemma {:induction false} LoadUnassigned(st: Store, j: nat, objects: seq<LoadObject>)
    requires Filled(st, j) && forall i :: 0 <= i < |objects| ==> Unassigned(objects[i])
    ensures var (last, n) := LoadAll(st, objects);
      n == Min(|objects|, Capacity(st.netid) - j) && last.netid == st.netid && Filled(last, j + n)
    decreases |objects|
  {
    hide LoadOne, Filled, Unassigned, Capacity;
    FilledBound(st, j);
    if objects != [] {
      FilledLoad(st, j, objects[0]);
      var (next, ok) := LoadOne(st, objects[0]);
      if ok {
        LoadUnassigned(next, j + 1, objects[1..]);
      }
    }
  }

  function Min(a: int, b: int): int {
    if a < b then a else b
  }

  lemma FilledBound(st: Store, j: nat)
    requires Filled(st, j)
    ensures j <= Capacity(st.netid) && |st.storage| == j
  {
  }

  lemma EmptyIsFilled(st: Store)
    ensures Filled(st.Cleared(), 0) && st.Cleared().netid == st.netid
  {
    hide BlockWord, NwkAddrFits, Value, MaxNwkAddr, NetType;
    BlockRange(st.netid, 0);
  }

  // From an emptied service, objects without addresses fill the network one address each: all of them are
  // stored exactly when there are at most 2^bits, and otherwise loading stops at the first one too many.
  lemma LoadFromEmpty(st: Store, objects: seq<LoadObject>)
    requires forall i :: 0 <= i < |objects| ==> Unassigned(objects[i])
    ensures var (last, n) := LoadAll(st.Cleared(), objects);
      && (n == |objects| <==> |objects| <= Capacity(st.netid))
      && n == Min(|objects|, Capacity(st.netid))
      && |last.storage| == n && Filled(last, n)
  {
    hide Filled, Capacity, Unassigned, LoadAll;
    EmptyIsFilled(st);
    LoadUnassigned(st.Cleared(), 0, objects);
    FilledBound(LoadAll(st.Cleared(), objects).0, LoadAll(st.Cleared(), objects).1);
  }

  // ---- files that name some addresses ----

  // Every object that names an address names one that is not stored when its turn comes.
  ghost predicate KeysAreNew(st: Store, objects: seq<LoadObject>)
    decreases |objects|
  {
    objects != [] ==>
      var (next, ok) := LoadOne(st, objects[0]);
      ok ==> (Asked(objects[0]) != 0 ==> DevAddrInt(Asked(objects[0])) !in st.storage) && KeysAreNew(next, objects[1..])
  }

  lemma MapUpdates(m: map<DevAddrInt, DeviceId>, k: DevAddrInt, v: DeviceId)
    ensures |m[k := v]| == |m| + (if k in m then 0 else 1)
  {
    if k in m {
      assert m[k := v].Keys == m.Keys;
      assert |m| == |m.Keys| && |m[k := v]| == |m[k := v].Keys|;
    } else {
      MapGrows(m, k, v);
    }
  }

  // An object adds one entry, unless it names a stored address or gets none.
  lemma OneEntry(st: Store, o: LoadObject)
    ensures var (next, ok) := LoadOne(st, o);
      |next.storage| == |st.storage|
        + (if ok && (Asked(o) != 0 ==> DevAddrInt(Asked(o)) !in st.storage) then 1 else 0)
  {
    if Asked(o) == 0 {
      hide LoadOne, Asked;
      AutoAssignKeepsEntries(st, o);
    } else {
      hide NotedAll, Asked, NwkAddr, Raised;
      NotingKeeps(st, o.addrs);
      MapUpdates(st.storage, DevAddrInt(Asked(o)), o.device);
    }
  }

  // Every file, whatever addresses it names: the loaded objects have an entry each exactly when no address that is
  // named was stored before. Otherwise there are fewer entries than objects.
  lemma {:induction false} LoadKeepsEach(st: Store, objects: seq<LoadObject>)
    ensures var (last, n) := LoadAll(st, objects);
      && |last.storage| <= |st.storage| + n
      && (|last.storage| == |st.storage| + n <==> KeysAreNew(st, objects))
    decreases |objects|
  {
    if objects != [] {
      hide LoadOne, Asked;
      OneEntry(st, objects[0]);
      var (next, ok) := LoadOne(st, objects[0]);
      if ok {
        LoadKeepsEach(next, objects[1..]);
      }
    }
  }

  ghost predicate NamedOnce(taken: set<DevAddrInt>, objects: seq<LoadObject>) {
    && (forall i :: 0 <= i < |objects| ==> DevAddrInt(Asked(objects[i])) !in taken)
    && (forall i, j :: 0 <= i < j < |objects| ==> Asked(objects[i]) != Asked(objects[j]))
  }

  lemma {:induction false} UnnamedAreNew(st: Store, objects: seq<LoadObject>)
    requires forall i :: 0 <= i < |objects| ==> Asked(objects[i]) == 0
    ensures KeysAreNew(st, objects)
    decreases |objects|
  {
    if objects != [] {
      hide LoadOne, Asked;
      UnnamedAreNew(LoadOne(st, objects[0]).0, objects[1..]);
    }
  }

  lemma NamedStep(st: Store, o: LoadObject)
    requires Asked(o) != 0
    ensures LoadOne(st, o).1 && LoadOne(st, o).0.storage.Keys == st.storage.Keys + {DevAddrInt(Asked(o))}
  {
    hide NotedAll, Asked, NwkAddr, Raised;
    NotingKeeps(st, o.addrs);
  }

  lemma NamedOnceStep(taken: set<DevAddrInt>, objects: seq<LoadObject>)
    requires objects != []
    ensures NamedOnce(taken, objects) <==>
            DevAddrInt(Asked(objects[0])) !in taken
            && NamedOnce(taken + {DevAddrInt(Asked(objects[0]))}, objects[1..])
  {
    hide Asked;
    var k, rest := DevAddrInt(Asked(objects[0])), objects[1..];
    if k !in taken && NamedOnce(taken + {k}, rest) {
      forall i | 0 <= i < |objects| ensures DevAddrInt(Asked(objects[i])) !in taken {
        assert i > 0 ==> objects[i] == rest[i - 1];
      }
      forall i, j | 0 <= i < j < |objects| ensures Asked(objects[i]) != Asked(objects[j]) {
        assert objects[j] == rest[j - 1] && (i > 0 ==> objects[i] == rest[i - 1]);
        assert DevAddrInt(Asked(rest[j - 1])) != k;
      }
    }
    if NamedOnce(taken, objects) {
      forall i | 0 <= i < |rest| ensures DevAddrInt(Asked(rest[i])) !in taken + {k} {
        assert rest[i] == objects[i + 1];
      }
      forall i, j | 0 <= i < j < |rest| ensures Asked(rest[i]) != Asked(rest[j]) {
        assert rest[i] == objects[i + 1] && rest[j] == objects[j + 1];
      }
    }
  }

  // A file that names its addresses first keeps every object exactly when it names none twice and none that is
  // stored already.
  lemma {:induction false} NamedFirst(st: Store, named: seq<LoadObject>, unnamed: seq<LoadObject>)
    requires forall i :: 0 <= i < |named| ==> Asked(named[i]) != 0
    requires forall i :: 0 <= i < |unnamed| ==> Asked(unnamed[i]) == 0
    ensures KeysAreNew(st, named + unnamed) <==> NamedOnce(st.storage.Keys, named)
    decreases |named|
  {
    hide LoadOne, Asked, NamedOnce;
    if named == [] {
      assert named + unnamed == unnamed;
      UnnamedAreNew(st, unnamed);
      NothingNamed(st.storage.Keys);
    } else {
      var next := LoadOne(st, named[0]).0;
      assert (named + unnamed)[1..] == named[1..] + unnamed;
      NamedStep(st, named[0]);
      NamedOnceStep(st.storage.Keys, named);
      NamedFirst(next, named[1..], unnamed);
    }
  }

  lemma NothingNamed(taken: set<DevAddrInt>)
    ensures NamedOnce(taken, [])
  {
  }

  // The other order does not: the first object gets an address, the second names it and replaces the first.
  lemma SecondObjectReplaces(st: Store, first: DeviceId, second: DeviceId, flags: nat32, junk: uint32)
    ensures var w := BlockWord(st.netid, 1);
      var objects := [LoadObject([], first, flags, junk), LoadObject([TextOf(w)], second, flags, junk)];
      var (last, n) := LoadAll(st.Cleared(), objects);
      n == 2 && last.storage == map[DevAddrInt(w) := second]
  {
    var w := BlockWord(st.netid, 1);
    var o, o' := LoadObject([], first, flags, junk), LoadObject([TextOf(w)], second, flags, junk);
    FirstAddress(st, junk);
    PrintThenRead(w);
    hide AddressOf, TextOf, BlockWord, NwkAddr, Raised, NextAddress;
    var next := Stored(st.Cleared(), w, o);
    assert LoadOne(st.Cleared(), o) == (next, true);
    assert NotedAll(next, [TextOf(w)]) == next.Noted(w) by {
      assert NotedAll(next.Noted(w), []) == next.Noted(w);
    }
    var last := Stored(next.Noted(w), w, o');
    assert LoadOne(next, o') == (last, true);
    assert last.storage == map[DevAddrInt(w) := second];
    assert LoadAll(last, []) == (last, 0);
    assert [o, o'][1..] == [o'] && [o'][1..] == [];
    assert LoadAll(next, [o']) == (last, 1);
  }

  // The first address an emptied service gives out has NwkAddr 1.
  lemma FirstAddress(st: Store, junk: uint32)
    ensures st.Cleared().Next(junk) == Some(1) && BlockWord(st.netid, 1) != 0
  {
    hide BlockWord, LeastFree, NwkAddr, NetIdType, NwkAddrFits, MaxNwkAddr, Value, AddressBits;
    BlockRange(st.netid, 0);
    BlockStep(st.netid, 0);
    ZeroAddress();
    OneIsNotLast(NetType(st.netid));
    BlockAddress(st.netid, 1);
  }

  lemma OneIsNotLast(t: nat)
    requires t <= 7
    ensures MaxNwkAddr(t) != 0 && NwkAddrFits(t, 1) && Inc(0) == 1
  {
  }
}
