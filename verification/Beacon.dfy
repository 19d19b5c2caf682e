/**
 The class B beacon scheduler. One pass fills the free beacon slots of the transmit queue; the GPS receiver and
 the queue answer as they like. Times are whole GPS seconds.
 */
module Beacon {
  import opened Arithmetic
  import opened Basics
  import opened BeaconPayload

  const TWO32: nat := 0x1_0000_0000
  const JIT_NUM_BEACON_IN_QUEUE: nat := 3

  datatype Config = Config(period: nat32, freqNb: uint8, freqHz: nat32, freqStep: nat32, layout: Layout)

  // What one turn of a pass meets: no valid GPS reference; or a GPS time, the concentrator time the packet has
  // after the conversion, and the answer of the transmit queue.
  datatype Answer = NoGps | Gps(now: nat, countUs: nat32, accepted: bool)

  // One pass: the beacons already queued when it starts, and the answers its turns meet until now.
  datatype Pass = Pass(numBeacon: uint8, answers: seq<Answer>)

  datatype Queued = Queued(time: nat, channel: nat, frequency: nat32, countUs: nat32, payload: seq<bv8>)

  // last is the time of the last queued beacon, 0 when there is none.
  datatype State = State(last: nat, retry: nat, room: int)

  // The slot the retries are counted from.
  function FirstSlot(c: Config, last: nat, now: nat): nat
    requires c.period > 0
  {
    if last == 0 then now + (c.period - now % c.period) else last + c.period
  }

  // retry * period is a 32-bit product.
  function NextTime(c: Config, s: State, now: nat): (t: nat)
    requires c.period > 0
    ensures t > s.last
    ensures s.last == 0 ==> t > now
  {
    FirstSlot(c, s.last, now) + s.retry * c.period % TWO32
  }

  function Channel(c: Config, time: nat): nat
    requires c.period > 0
  {
    if c.freqNb > 1 then time / c.period % c.freqNb else 0
  }

  function BeaconAt(c: Config, time: nat, countUs: nat32): Queued
    requires c.period > 0
  {
    Queued(time, Channel(c, time), (c.freqHz + Channel(c, time) * c.freqStep) % TWO32, countUs,
           Payload(c.layout, time))
  }

  predicate Goes(c: Config, s: State, answers: seq<Answer>) {
    s.room > 0 && c.period > 0 && answers != [] && answers[0].Gps?
  }

  function Turn(c: Config, s: State, a: Answer): State
    requires c.period > 0 && a.Gps?
  {
    if a.accepted then State(NextTime(c, s, a.now), 0, s.room - 1) else s.(retry := s.retry + 1)
  }

  function Sent(c: Config, s: State, a: Answer): seq<Queued>
    requires c.period > 0 && a.Gps?
  {
    if a.accepted then [BeaconAt(c, NextTime(c, s, a.now), a.countUs)] else []
  }

  function PassEnd(c: Config, s: State, answers: seq<Answer>): State
    decreases |answers|
  {
    if Goes(c, s, answers) then PassEnd(c, Turn(c, s, answers[0]), answers[1..]) else s
  }

  function PassBeacons(c: Config, s: State, answers: seq<Answer>): seq<Queued>
    decreases |answers|
  {
    if Goes(c, s, answers) then Sent(c, s, answers[0]) + PassBeacons(c, Turn(c, s, answers[0]), answers[1..]) else []
  }

  function PassStart(last: nat, p: Pass): State {
    State(last, 0, JIT_NUM_BEACON_IN_QUEUE - p.numBeacon)
  }

  function RunBeacons(c: Config, last: nat, passes: seq<Pass>): seq<Queued>
    decreases |passes|
  {
    if passes == [] then []
    else
      var s := PassStart(last, passes[0]);
      PassBeacons(c, s, passes[0].answers) + RunBeacons(c, PassEnd(c, s, passes[0].answers).last, passes[1..])
  }

  lemma PassStops(c: Config, s: State, answers: seq<Answer>)
    requires !Goes(c, s, answers)
    ensures PassEnd(c, s, answers) == s && PassBeacons(c, s, answers) == []
  {
  }

  // One turn at answer i.
  lemma PassGoesOn(c: Config, s: State, answers: seq<Answer>, i: nat)
    requires i < |answers| && Goes(c, s, answers[i..])
    ensures PassEnd(c, s, answers[i..]) == PassEnd(c, Turn(c, s, answers[i]), answers[i + 1..])
    ensures PassBeacons(c, s, answers[i..]) ==
            Sent(c, s, answers[i]) + PassBeacons(c, Turn(c, s, answers[i]), answers[i + 1..])
  {
    hide NextTime, BeaconAt;
    assert answers[i..][1..] == answers[i + 1..];
  }

  class BeaconScheduler {
    const config: Config
    const packet: BeaconPacket
    var last: nat

    ghost predicate Valid()
      reads packet.payload
    {
      packet.Valid() && packet.layout == config.layout
    }

    constructor (c: Config)
      ensures config == c && last == 0 && Valid() && fresh(packet.payload)
    {
      config := c;
      packet := new BeaconPacket(c.layout);
      last := 0;
    }

    // One pass, as far as the answers go. The packet is rewritten in every turn, accepted or not.
    method QueueBeacons(p: Pass) returns (beacons: seq<Queued>)
      requires Valid()
      modifies this, packet.payload
      ensures Valid()
      ensures beacons == PassBeacons(config, PassStart(old(last), p), p.answers)
      ensures last == PassEnd(config, PassStart(old(last), p), p.answers).last
    {
      hide NextTime, BeaconAt, PassEnd, PassBeacons;
      beacons := [];
      assert p.answers[0..] == p.answers;
      var retry: nat := 0;
      var beaconLoop: int := JIT_NUM_BEACON_IN_QUEUE - p.numBeacon;
      var i := 0;
      ghost var start := PassStart(last, p);
      while beaconLoop > 0 && config.period > 0 && i < |p.answers|
        invariant i <= |p.answers| && Valid()
        invariant PassEnd(config, State(last, retry, beaconLoop), p.answers[i..]) == PassEnd(config, start, p.answers)
        invariant beacons + PassBeacons(config, State(last, retry, beaconLoop), p.answers[i..])
                  == PassBeacons(config, start, p.answers)
      {
        var answer := p.answers[i];
        ghost var now := State(last, retry, beaconLoop);
        if answer.NoGps? {
          break;
        }
        var beacon := PrepareBeacon(retry, answer.now, answer.countUs, now);
        PassGoesOn(config, now, p.answers, i);
        if answer.accepted {
          beacons := beacons + [beacon];
          beaconLoop := beaconLoop - 1;
          retry := 0;
          last := beacon.time;
        } else {
          retry := retry + 1;
        }
        i := i + 1;
      }
      PassStops(config, State(last, retry, beaconLoop), p.answers[i..]);
    }

    // The next slot, its channel and frequency, and the packet for it.
    method PrepareBeacon(retry: nat, now: nat, countUs: nat32, ghost s: State) returns (beacon: Queued)
      requires Valid() && config.period > 0 && s.last == last && s.retry == retry
      modifies packet.payload
      ensures Valid()
      ensures beacon == BeaconAt(config, NextTime(config, s, now), countUs)
      ensures beacon.time == NextTime(config, s, now)
    {
      hide Payload;
      var next;
      if last == 0 {
        var diff := now % config.period;
        next := now + (config.period - diff);
      } else {
        next := last + config.period;
      }
      next := next + retry * config.period % TWO32;
      var channel := 0;
      if config.freqNb > 1 {
        channel := next / config.period % config.freqNb;
      }
      packet.LoadTime(next);
      var frequency := (config.freqHz + channel * config.freqStep) % TWO32;
      beacon := Queued(next, channel, frequency, countUs, packet.payload[..]);
    }
  }

  // The thread until it is stopped: one pass a second.
  method RunScheduler(c: Config, passes: seq<Pass>) returns (beacons: seq<Queued>)
    ensures beacons == RunBeacons(c, 0, passes)
  {
    hide PassBeacons, PassEnd;
    var scheduler := new BeaconScheduler(c);
    beacons := [];
    for i := 0 to |passes|
      invariant fresh(scheduler) && fresh(scheduler.packet.payload) && scheduler.config == c && scheduler.Valid()
      invariant beacons + RunBeacons(c, scheduler.last, passes[i..]) == RunBeacons(c, 0, passes)
    {
      assert passes[i..][1..] == passes[i + 1..];
      var more := scheduler.QueueBeacons(passes[i]);
      beacons := beacons + more;
    }
  }

  // ---- order ----

  ghost predicate Increasing(beacons: seq<Queued>, after: nat) {
    && (forall i :: 0 <= i < |beacons| ==> beacons[i].time > after)
    && (forall i, j :: 0 <= i < j < |beacons| ==> beacons[i].time < beacons[j].time)
  }

  function LastTime(beacons: seq<Queued>, otherwise: nat): nat {
    if beacons == [] then otherwise else beacons[|beacons| - 1].time
  }

  lemma IncreasingJoin(x: seq<Queued>, y: seq<Queued>, after: nat)
    requires Increasing(x, after) && Increasing(y, LastTime(x, after))
    ensures Increasing(x + y, after)
  {
  }

  // One pass queues its beacons in increasing order, no more than there is room for.
  lemma {:induction false} PassIsIncreasing(c: Config, s: State, answers: seq<Answer>)
    ensures var bs := PassBeacons(c, s, answers);
            Increasing(bs, s.last) && LastTime(bs, s.last) == PassEnd(c, s, answers).last
    ensures |PassBeacons(c, s, answers)| <= if s.room > 0 then s.room else 0
    decreases |answers|
  {
    if Goes(c, s, answers) {
      hide NextTime;
      var s' := Turn(c, s, answers[0]);
      PassIsIncreasing(c, s', answers[1..]);
      IncreasingJoin(Sent(c, s, answers[0]), PassBeacons(c, s', answers[1..]), s.last);
    }
  }

  // A pass queues at most the free beacon slots.
  lemma PassFitsQueue(c: Config, last: nat, p: Pass)
    ensures |PassBeacons(c, PassStart(last, p), p.answers)| + p.numBeacon
            <= if p.numBeacon <= JIT_NUM_BEACON_IN_QUEUE then JIT_NUM_BEACON_IN_QUEUE else p.numBeacon
  {
    PassIsIncreasing(c, PassStart(last, p), p.answers);
  }

  // No beacon time is queued twice or after a later one, over any number of passes.
  lemma {:induction false} RunIsIncreasing(c: Config, last: nat, passes: seq<Pass>)
    ensures Increasing(RunBeacons(c, last, passes), last)
    decreases |passes|
  {
    if passes != [] {
      hide PassBeacons, PassEnd, Increasing;
      var s := PassStart(last, passes[0]);
      PassIsIncreasing(c, s, passes[0].answers);
      var last' := PassEnd(c, s, passes[0].answers).last;
      RunIsIncreasing(c, last', passes[1..]);
      IncreasingJoin(PassBeacons(c, s, passes[0].answers), RunBeacons(c, last', passes[1..]), last);
    } else {
      assert RunBeacons(c, last, passes) == [];
    }
  }

  // ---- slots ----

  // A beacon sent at a slot boundary, on the channel that is the slot number modulo the number of channels.
  ghost predicate OnSlot(c: Config, b: Queued)
    requires c.period > 0
  {
    exists k: nat :: b.time == k * c.period && b.channel == (if c.freqNb > 1 then k % c.freqNb else 0)
                     && b.frequency == (c.freqHz + b.channel * c.freqStep) % TWO32
  }

  lemma OnSlotIff(c: Config, time: nat, countUs: nat32)
    requires c.period > 0
    ensures OnSlot(c, BeaconAt(c, time, countUs)) <==> time % c.period == 0
  {
    hide Payload;
    if time % c.period == 0 {
      var k := time / c.period;
      assert time == k * c.period;
    }
    if OnSlot(c, BeaconAt(c, time, countUs)) {
      var k: nat :| time == k * c.period;
      MultipleMod(k, c.period);
    }
  }

  // Retries in a row cannot leave the slots: the 32-bit product stays a multiple of the period.
  predicate RetriesFit(c: Config, retries: nat)
    requires c.period > 0
  {
    TWO32 % c.period == 0 || retries * c.period < TWO32
  }

  lemma WrapMod(x: nat, m: nat)
    requires m > 0 && TWO32 % m == 0 && x % m == 0
    ensures x % TWO32 % m == 0
  {
    var q := x / TWO32;
    assert x == q * TWO32 + x % TWO32;
    var d := TWO32 / m;
    assert q * TWO32 == (q * d) * m;
    MultipleMod(q * d, m);
    SumMod(q * TWO32, x % TWO32, m);
  }

  lemma FirstSlotIsMultiple(c: Config, last: nat, now: nat)
    requires c.period > 0 && last % c.period == 0
    ensures FirstSlot(c, last, now) % c.period == 0
  {
    var m := c.period;
    if last == 0 {
      DivMod(now, m);
      Distribute(now / m, 1, m);
      MultipleMod(now / m + 1, m);
    } else {
      QuotientUnique(m, m, 1, 0);
      SumMod(last, m, m);
    }
  }

  lemma RetriesAreMultiple(c: Config, retry: nat)
    requires c.period > 0 && RetriesFit(c, retry)
    ensures retry * c.period % TWO32 % c.period == 0
  {
    MultipleMod(retry, c.period);
    if TWO32 % c.period == 0 {
      WrapMod(retry * c.period, c.period);
    } else {
      QuotientUnique(retry * c.period, TWO32, 0, retry * c.period);
    }
  }

  lemma NextIsMultiple(c: Config, s: State, now: nat)
    requires c.period > 0 && s.last % c.period == 0 && RetriesFit(c, s.retry)
    ensures NextTime(c, s, now) % c.period == 0
  {
    var wrapped := s.retry * c.period % TWO32;
    assert NextTime(c, s, now) == FirstSlot(c, s.last, now) + wrapped;
    hide NextTime, FirstSlot, RetriesFit;
    FirstSlotIsMultiple(c, s.last, now);
    RetriesAreMultiple(c, s.retry);
    SumMod(FirstSlot(c, s.last, now), wrapped, c.period);
  }

  lemma FitsLess(c: Config, more: nat, retries: nat)
    requires c.period > 0 && retries <= more && RetriesFit(c, more)
    ensures RetriesFit(c, retries)
  {
    assert (more - retries) * c.period >= 0;
    assert retries * c.period <= more * c.period;
  }

  lemma {:induction false} PassOnSlots(c: Config, s: State, answers: seq<Answer>)
    requires c.period > 0 && s.last % c.period == 0 && RetriesFit(c, s.retry + |answers|)
    ensures forall b :: b in PassBeacons(c, s, answers) ==> OnSlot(c, b)
    ensures PassEnd(c, s, answers).last % c.period == 0
    decreases |answers|
  {
    if Goes(c, s, answers) {
      hide NextTime, OnSlot, RetriesFit, BeaconAt;
      FitsLess(c, s.retry + |answers|, s.retry);
      NextIsMultiple(c, s, answers[0].now);
      OnSlotIff(c, NextTime(c, s, answers[0].now), answers[0].countUs);
      var s' := Turn(c, s, answers[0]);
      FitsLess(c, s.retry + |answers|, s'.retry + |answers| - 1);
      PassOnSlots(c, s', answers[1..]);
    }
  }

  ghost predicate AllFit(c: Config, passes: seq<Pass>)
    requires c.period > 0
  {
    forall i :: 0 <= i < |passes| ==> RetriesFit(c, |passes[i].answers|)
  }

  // Every beacon of a run is on a slot, on the channel of the slot, unless a pass sees very many refusals.
  lemma {:induction false} RunOnSlots(c: Config, last: nat, passes: seq<Pass>)
    requires c.period > 0 && last % c.period == 0 && AllFit(c, passes)
    ensures forall b :: b in RunBeacons(c, last, passes) ==> OnSlot(c, b)
    decreases |passes|
  {
    if passes != [] {
      hide PassBeacons, PassEnd, OnSlot, RetriesFit;
      var s := PassStart(last, passes[0]);
      PassOnSlots(c, s, passes[0].answers);
      RunOnSlots(c, PassEnd(c, s, passes[0].answers).last, passes[1..]);
    }
  }

  // A run of refusals only counts retries.
  lemma {:induction false} Refusals(c: Config, s: State, now: nat, k: nat, rest: seq<Answer>)
    requires c.period > 0 && s.room > 0
    ensures PassBeacons(c, s, seq(k, _ => Gps(now, 0, false)) + rest) == PassBeacons(c, s.(retry := s.retry + k), rest)
    decreases k
  {
    var answers := seq(k, _ => Gps(now, 0, false)) + rest;
    if k == 0 {
      assert answers == rest;
    } else {
      assert answers[1..] == seq(k - 1, _ => Gps(now, 0, false)) + rest;
      Refusals(c, s.(retry := s.retry + 1), now, k - 1, rest);
    }
  }

  // The refusals after which the product first wraps, then one acceptance.
  function WrappingPass(c: Config): Pass
    requires c.period > 0
  {
    Pass(0, seq(TWO32 / c.period + 1, _ => Gps(0, 0, false)) + [Gps(0, 0, true)])
  }

  lemma WrapsOffSlot(c: Config)
    requires c.period > 0 && TWO32 % c.period != 0
    ensures exists b :: b in RunBeacons(c, 0, [WrappingPass(c)]) && !OnSlot(c, b)
  {
    hide OnSlot, BeaconAt;
    var m := c.period;
    var k, r := TWO32 / m + 1, TWO32 % m;
    var s := PassStart(0, WrappingPass(c));
    Refusals(c, s, 0, k, [Gps(0, 0, true)]);
    var s' := s.(retry := k);
    var time := NextTime(c, s', 0);
    assert k * m == TWO32 + (m - r);
    QuotientUnique(k * m, TWO32, 1, m - r);
    assert time == m + (m - r);
    QuotientUnique(time, m, 1, m - r);
    OnSlotIff(c, time, 0);
    var bs := PassBeacons(c, s', [Gps(0, 0, true)]);
    assert bs == [BeaconAt(c, time, 0)] + PassBeacons(c, Turn(c, s', Gps(0, 0, true)), []);
    assert RunBeacons(c, 0, [WrappingPass(c)]) ==
      PassBeacons(c, s, WrappingPass(c).answers) + RunBeacons(c, PassEnd(c, s, WrappingPass(c).answers).last, []);
    assert bs[0] in RunBeacons(c, 0, [WrappingPass(c)]);
  }

  // However often the queue refuses, the beacons stay on the slots exactly when the period divides 2^32.
  lemma AlwaysOnSlotsIff(c: Config)
    requires c.period > 0
    ensures (forall passes, b :: b in RunBeacons(c, 0, passes) ==> OnSlot(c, b)) <==> TWO32 % c.period == 0
  {
    hide OnSlot;
    if TWO32 % c.period == 0 {
      forall passes, b | b in RunBeacons(c, 0, passes) ensures OnSlot(c, b) {
        RunOnSlots(c, 0, passes);
      }
    } else {
      WrapsOffSlot(c);
    }
  }

  // Turn by turn a pass tries the slots after the last beacon one after the other, accepted or refused.
  lemma {:induction false} SlotAtTurn(c: Config, s: State, answers: seq<Answer>, now: nat)
    requires c.period > 0 && s.last > 0 && (s.retry + |answers|) * c.period < TWO32
    requires PassEnd(c, s, answers).room > 0 && forall i :: 0 <= i < |answers| ==> answers[i].Gps?
    ensures NextTime(c, PassEnd(c, s, answers), now) == s.last + (s.retry + 1 + |answers|) * c.period
    decreases |answers|
  {
    if answers == [] {
      SlotNow(c, s, now);
    } else {
      RoomShrinks(c, s, answers);
      hide NextTime;
      MulLe(s.retry, s.retry + |answers|, c.period);
      SlotNow(c, s, answers[0].now);
      var s' := Turn(c, s, answers[0]);
      MulLe(s'.retry + |answers| - 1, s.retry + |answers|, c.period);
      SlotAtTurn(c, s', answers[1..], now);
      if answers[0].accepted {
        Distribute(s.retry + 1, |answers|, c.period);
      }
    }
  }

  lemma SlotNow(c: Config, s: State, now: nat)
    requires c.period > 0 && s.last > 0 && s.retry * c.period < TWO32
    ensures NextTime(c, s, now) == s.last + (s.retry + 1) * c.period
  {
    assert (s.retry + 1) * c.period == s.retry * c.period + c.period;
  }

  lemma {:induction false} RoomShrinks(c: Config, s: State, answers: seq<Answer>)
    ensures PassEnd(c, s, answers).room <= s.room
    decreases |answers|
  {
    if Goes(c, s, answers) {
      hide NextTime;
      RoomShrinks(c, Turn(c, s, answers[0]), answers[1..]);
    }
  }

  // The slot k periods after the next one: it lies k to k + 1 periods ahead.
  predicate IsSlotAhead(c: Config, time: nat, now: nat, k: nat)
    requires c.period > 0
  {
    now + k * c.period < time <= now + (k + 1) * c.period && time % c.period == 0
  }

  lemma FirstSlotIsNext(c: Config, now: nat)
    requires c.period > 0
    ensures now < FirstSlot(c, 0, now) <= now + c.period && FirstSlot(c, 0, now) % c.period == 0
  {
    QuotientUnique(0, c.period, 0, 0);
    FirstSlotIsMultiple(c, 0, now);
    DivMod(now, c.period);
  }

  // With no beacon queued, an attempt after k refusals is for the slot k periods after the next one.
  lemma SlotAheadNow(c: Config, s: State, now: nat)
    requires c.period > 0 && s.last == 0 && s.retry * c.period < TWO32
    ensures IsSlotAhead(c, NextTime(c, s, now), now, s.retry)
  {
    var wrapped := s.retry * c.period;
    FirstSlotIsNext(c, now);
    QuotientUnique(wrapped, TWO32, 0, wrapped);
    assert NextTime(c, s, now) == FirstSlot(c, 0, now) + wrapped;
    hide FirstSlot, NextTime;
    Distribute(s.retry, 1, c.period);
    MultipleMod(s.retry, c.period);
    SumMod(FirstSlot(c, 0, now), wrapped, c.period);
  }

  ghost predicate Refused(answers: seq<Answer>) {
    forall i :: 0 <= i < |answers| ==> answers[i].Gps? && !answers[i].accepted
  }

  // The same turn by turn, until a beacon is accepted.
  lemma {:induction false} RefusedEnd(c: Config, s: State, answers: seq<Answer>)
    requires c.period > 0 && s.room > 0 && Refused(answers)
    ensures PassEnd(c, s, answers) == s.(retry := s.retry + |answers|) && PassBeacons(c, s, answers) == []
    decreases |answers|
  {
    if answers != [] {
      RefusedEnd(c, Turn(c, s, answers[0]), answers[1..]);
    }
  }

  lemma SlotAtRefusedTurn(c: Config, s: State, answers: seq<Answer>, now: nat)
    requires c.period > 0 && s.room > 0 && s.last == 0 && Refused(answers)
    requires (s.retry + |answers|) * c.period < TWO32
    ensures IsSlotAhead(c, NextTime(c, PassEnd(c, s, answers), now), now, s.retry + |answers|)
  {
    RefusedEnd(c, s, answers);
    SlotAheadNow(c, s.(retry := s.retry + |answers|), now);
  }

  // After the first acceptance a pass goes on slot by slot from the beacon that was accepted.
  lemma {:induction false} SlotAfterFirst(c: Config, s: State, answers: seq<Answer>, i: nat, now: nat)
    requires c.period > 0 && s.last == 0 && i < |answers| && Refused(answers[..i])
    requires answers[i].Gps? && answers[i].accepted
    requires (s.retry + |answers|) * c.period < TWO32
    requires PassEnd(c, s, answers).room > 0 && forall j :: 0 <= j < |answers| ==> answers[j].Gps?
    ensures PassBeacons(c, s, answers) != []
    ensures var first := PassBeacons(c, s, answers)[0].time;
      && IsSlotAhead(c, first, answers[i].now, s.retry + i)
      && NextTime(c, PassEnd(c, s, answers), now) == first + (|answers| - i) * c.period
    decreases |answers|
  {
    RoomShrinks(c, s, answers);
    MulLe(s.retry, s.retry + |answers|, c.period);
    hide NextTime, IsSlotAhead;
    var s' := Turn(c, s, answers[0]);
    if i == 0 {
      SlotAheadNow(c, s, answers[0].now);
      MulLe(|answers| - 1, s.retry + |answers|, c.period);
      SlotAtTurn(c, s', answers[1..], now);
    } else {
      assert !answers[0].accepted by { assert answers[..i][0] == answers[0]; }
      assert answers[1..][..i - 1] == answers[..i][1..];
      assert Refused(answers[1..][..i - 1]);
      SlotAfterFirst(c, s', answers[1..], i - 1, now);
    }
  }

  // The first beacon of a pass is the one accepted after i refusals. It goes to the slot i periods after the one that
  // follows the last beacon, or, when there is none before it, after the next one in GPS time.
  lemma {:induction false} FirstOfPass(c: Config, s: State, answers: seq<Answer>) returns (i: nat)
    requires PassBeacons(c, s, answers) != []
    ensures c.period > 0 && i < |answers| && answers[i].Gps? && answers[i].accepted && Refused(answers[..i])
    ensures PassBeacons(c, s, answers)[0] ==
            BeaconAt(c, NextTime(c, s.(retry := s.retry + i), answers[i].now), answers[i].countUs)
    ensures s.last == 0 ==> PassBeacons(c, s, answers)[0].time > answers[i].now
    ensures s.last == 0 && (s.retry + i) * c.period < TWO32 ==>
            IsSlotAhead(c, PassBeacons(c, s, answers)[0].time, answers[i].now, s.retry + i)
    ensures s.last > 0 && (s.retry + i) * c.period < TWO32 ==>
            PassBeacons(c, s, answers)[0].time == s.last + (s.retry + i + 1) * c.period
    decreases |answers|
  {
    hide NextTime, IsSlotAhead;
    assert Goes(c, s, answers);
    if answers[0].accepted {
      i := 0;
      if s.last == 0 && s.retry * c.period < TWO32 {
        SlotAheadNow(c, s, answers[0].now);
      } else if s.last > 0 && s.retry * c.period < TWO32 {
        SlotNow(c, s, answers[0].now);
      }
    } else {
      i := FirstOfPass(c, Turn(c, s, answers[0]), answers[1..]);
      i := i + 1;
      assert forall j :: 0 < j < i ==> answers[..i][j] == answers[1..][..i - 1][j - 1];
    }
  }

  // The first beacon of a run is the one accepted after i refusals of its pass; it goes to the slot i periods after
  // the next one at the GPS time at which it was queued.
  lemma {:induction false} FirstOfRun(c: Config, passes: seq<Pass>) returns (k: nat, i: nat)
    requires RunBeacons(c, 0, passes) != []
    ensures k < |passes| && i < |passes[k].answers| && passes[k].answers[i].Gps? && passes[k].answers[i].accepted
    ensures c.period > 0 && Refused(passes[k].answers[..i])
    ensures RunBeacons(c, 0, passes)[0].time > passes[k].answers[i].now
    ensures i * c.period < TWO32 ==> IsSlotAhead(c, RunBeacons(c, 0, passes)[0].time, passes[k].answers[i].now, i)
    decreases |passes|
  {
    hide IsSlotAhead, NextTime;
    var s := PassStart(0, passes[0]);
    var bs := PassBeacons(c, s, passes[0].answers);
    if bs != [] {
      i := FirstOfPass(c, s, passes[0].answers);
      k := 0;
    } else {
      PassIsIncreasing(c, s, passes[0].answers);
      k, i := FirstOfRun(c, passes[1..]);
      k := k + 1;
    }
  }

  // ---- which answers queue a beacon ----

  // The accepted answers, until the GPS is lost or there is no more room.
  function Taken(answers: seq<Answer>, room: int): (taken: seq<Answer>)
    ensures forall i :: 0 <= i < |taken| ==> taken[i].Gps? && taken[i].accepted
    decreases |answers|
  {
    if room <= 0 || answers == [] || answers[0].NoGps? then []
    else if answers[0].accepted then [answers[0]] + Taken(answers[1..], room - 1)
    else Taken(answers[1..], room)
  }

  // A pass queues one beacon for each of these answers, with its concentrator time, and no other. Without a period
  // there are no beacons.
  lemma {:induction false} PassQueuesTaken(c: Config, s: State, answers: seq<Answer>)
    ensures c.period == 0 ==> PassBeacons(c, s, answers) == []
    ensures c.period > 0 ==> |PassBeacons(c, s, answers)| == |Taken(answers, s.room)|
    ensures c.period > 0 ==> forall j :: 0 <= j < |Taken(answers, s.room)| ==>
              PassBeacons(c, s, answers)[j].countUs == Taken(answers, s.room)[j].countUs
    decreases |answers|
  {
    if Goes(c, s, answers) {
      hide NextTime, Channel, Payload, PassBeacons;
      PassGoesOn(c, s, answers, 0);
      assert answers[0..] == answers;
      PassQueuesTaken(c, Turn(c, s, answers[0]), answers[1..]);
    } else {
      PassStops(c, s, answers);
    }
  }

  // A pass whose answers are all accepted fills the three slots, as far as there are answers.
  lemma {:induction false} AllTaken(answers: seq<Answer>, room: nat)
    requires forall i :: 0 <= i < |answers| ==> answers[i].Gps? && answers[i].accepted
    ensures Taken(answers, room) == if |answers| <= room then answers else answers[..room]
    decreases |answers|
  {
    if answers != [] && room > 0 {
      AllTaken(answers[1..], room - 1);
    }
  }

  lemma PassFillsQueue(c: Config, last: nat, p: Pass)
    requires c.period > 0 && p.numBeacon <= 3 && |p.answers| + p.numBeacon >= 3
    requires forall i :: 0 <= i < |p.answers| ==> p.answers[i].Gps? && p.answers[i].accepted
    ensures |PassBeacons(c, PassStart(last, p), p.answers)| + p.numBeacon == 3
  {
    PassQueuesTaken(c, PassStart(last, p), p.answers);
    AllTaken(p.answers, 3 - p.numBeacon);
  }

  // ---- what the beacons carry ----

  // A beacon whose payload carries its time and passes both checks.
  ghost predicate Readable(c: Config, b: Queued) {
    && |b.payload| == c.layout.Size()
    && TimeOf(c.layout, b.payload) == b.time % TWO32
    && NetworkChecks(c.layout, b.payload) && GatewayChecks(c.layout, b.payload)
    && InfoOf(c.layout, b.payload) == c.layout.info && ReservedAreZero(c.layout, b.payload)
  }

  lemma BeaconIsReadable(c: Config, time: nat, countUs: nat32)
    requires c.period > 0
    ensures Readable(c, BeaconAt(c, time, countUs))
  {
    hide Payload, TimeOf, NetworkChecks, GatewayChecks, InfoOf, ReservedAreZero;
    PayloadIsReadable(c.layout, time);
  }

  lemma {:induction false} PassIsReadable(c: Config, s: State, answers: seq<Answer>)
    ensures forall b :: b in PassBeacons(c, s, answers) ==> Readable(c, b)
    decreases |answers|
  {
    if Goes(c, s, answers) {
      hide NextTime, BeaconAt, Readable;
      BeaconIsReadable(c, NextTime(c, s, answers[0].now), answers[0].countUs);
      PassIsReadable(c, Turn(c, s, answers[0]), answers[1..]);
    }
  }

  // Every beacon of every run carries its own time, although one packet is rewritten for all of them.
  lemma {:induction false} RunIsReadable(c: Config, last: nat, passes: seq<Pass>)
    ensures forall b :: b in RunBeacons(c, last, passes) ==> Readable(c, b)
    decreases |passes|
  {
    if passes != [] {
      hide PassBeacons, PassEnd, Readable;
      var s := PassStart(last, passes[0]);
      PassIsReadable(c, s, passes[0].answers);
      RunIsReadable(c, PassEnd(c, s, passes[0].answers).last, passes[1..]);
    }
  }
}
