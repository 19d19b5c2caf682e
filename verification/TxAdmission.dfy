/**
 Admission of a packet to the transmit queue: mode, radio chain, antenna gain, preamble, frequency and power
 are checked or corrected in the packet itself before the queue decides.
 */
module TxAdmission {
  import opened Basics

  const ERR_CODE_LORA_GATEWAY_UNKNOWN_MODULATION: int := -652
  const ERR_CODE_LORA_GATEWAY_UNKNOWN_TX_MODE: int := -656
  const ERR_CODE_LORA_GATEWAY_SEND_AT_GPS_TIME: int := -657
  const ERR_CODE_LORA_GATEWAY_SEND_AT_GPS_TIME_DISABLED: int := -658
  const ERR_CODE_LORA_GATEWAY_SEND_AT_GPS_TIME_INVALID: int := -659
  const ERR_CODE_LORA_GATEWAY_TX_CHAIN_DISABLED: int := -660
  const ERR_CODE_LORA_GATEWAY_TX_UNSUPPORTED_FREQUENCY: int := -661

  const IMMEDIATE: uint8 := 0
  const TIMESTAMPED: uint8 := 1
  const ON_GPS: uint8 := 2
  const MOD_LORA: uint8 := 0x10
  const MOD_FSK: uint8 := 0x20
  const MIN_LORA_PREAMBLE_LEN: uint16 := 6
  const MIN_FSK_PREAMBLE_LEN: uint16 := 3
  const TX_GAIN_LUT_SIZE_MAX: nat := 16
  const LGW_RF_CHAIN_NB: nat := 2

  // The powers of a gain table; only the first size entries are in use.
  type Powers = p: seq<int8> | |p| == TX_GAIN_LUT_SIZE_MAX witness seq(16, _ => 0)

  datatype Lut = Lut(power: Powers, size: nat) {
    predicate Valid() { size <= TX_GAIN_LUT_SIZE_MAX }
  }

  datatype Chain = Chain(txEnable: bool, freqMin: nat32, freqMax: nat32, lut: Lut)

  datatype Config = Config(gpsEnabled: bool, antennaGain: int8, chains: seq<Chain>) {
    predicate Valid() { |chains| == LGW_RF_CHAIN_NB && forall i :: 0 <= i < |chains| ==> chains[i].lut.Valid() }
  }

  datatype Packet = Packet(txMode: uint8, countUs: nat32, rfChain: uint8, freqHz: nat32, rfPower: int8,
                           modulation: uint8, preamble: uint16)

  datatype DownlinkClass = ClassA | ClassC

  // Whether there is a valid GPS time reference, and what the conversion of the send time to a timestamp gives.
  datatype GpsAnswer = GpsAnswer(valid: bool, converted: bool, countUs: nat32)

  // Whether the queue takes the packet, and the send mode and time it writes into it.
  datatype QueueAnswer = QueueAnswer(accepts: bool, txMode: uint8, countUs: nat32)

  // A packet handed to the queue.
  datatype Offer = NoOffer | Offer(packet: Packet, downlink: DownlinkClass)

  // ---- power ----

  predicate IsCandidate(lut: Lut, power: int, i: int)
    requires lut.Valid()
  {
    0 <= i < lut.size && lut.power[i] <= power
  }

  ghost predicate HasCandidate(lut: Lut, power: int)
    requires lut.Valid()
  {
    exists i :: IsCandidate(lut, power, i)
  }

  // The first of the largest table powers not above the request.
  ghost predicate IsBest(lut: Lut, power: int, i: int)
    requires lut.Valid()
  {
    && IsCandidate(lut, power, i)
    && (forall j :: IsCandidate(lut, power, j) ==> lut.power[j] <= lut.power[i])
    && (forall j :: IsCandidate(lut, power, j) && j < i ==> lut.power[j] < lut.power[i])
  }

  lemma BestIsUnique(lut: Lut, power: int, i: int, j: int)
    requires lut.Valid() && IsBest(lut, power, i) && IsBest(lut, power, j)
    ensures i == j
  {
    assert IsCandidate(lut, power, i) && IsCandidate(lut, power, j);
  }

  method GetTxGainLutIndex(lut: Lut, rfPower: int8) returns (found: bool, lutIndex: nat)
    requires lut.Valid()
    ensures found <==> HasCandidate(lut, rfPower)
    ensures found ==> IsBest(lut, rfPower, lutIndex)
    ensures !found ==> lutIndex == 0
  {
    var currentBestIndex := -1;
    var currentBestMatch: uint8 := 0xff;
    for powIndex := 0 to lut.size
      invariant currentBestIndex == -1 ==> forall j :: 0 <= j < powIndex ==> !IsCandidate(lut, rfPower, j)
      invariant currentBestIndex != -1 ==> currentBestIndex < powIndex && IsCandidate(lut, rfPower, currentBestIndex)
      invariant currentBestIndex != -1 ==> currentBestMatch == rfPower - lut.power[currentBestIndex]
      invariant forall j :: 0 <= j < powIndex && IsCandidate(lut, rfPower, j) ==>
                  && currentBestMatch <= rfPower - lut.power[j]
                  && (j < currentBestIndex ==> currentBestMatch < rfPower - lut.power[j])
    {
      var diff := rfPower - lut.power[powIndex];
      if diff < 0 {
        continue;
      } else if currentBestIndex == -1 || diff < currentBestMatch {
        currentBestMatch := diff;
        currentBestIndex := powIndex;
      }
    }
    if currentBestIndex > -1 {
      return true, currentBestIndex;
    } else {
      return false, 0;
    }
  }

  // The cast to a signed byte: the one value of that type that differs by a multiple of 256.
  function Wrap8(n: int): (r: int8)
    ensures (r - n) % 0x100 == 0
  {
    (n + 0x80) % 0x100 - 0x80
  }

  // Power p is what the table gives for a request: the largest power not above it, entry 0 if all are above.
  ghost predicate TablePower(lut: Lut, request: int8, p: int8)
    requires lut.Valid()
  {
    if HasCandidate(lut, request) then exists i :: IsBest(lut, request, i) && p == lut.power[i]
    else p == lut.power[0]
  }

  // ---- admission ----

  function MinPreamble(modulation: uint8): uint16
    requires modulation == MOD_LORA || modulation == MOD_FSK
  {
    if modulation == MOD_LORA then MIN_LORA_PREAMBLE_LEN else MIN_FSK_PREAMBLE_LEN
  }

  predicate KnownModulation(m: uint8) {
    m == MOD_LORA || m == MOD_FSK
  }

  predicate InRange(c: Chain, freqHz: nat32) {
    c.freqMin <= freqHz <= c.freqMax
  }

  // The error of the send mode. A packet to be sent at a GPS time ends in an error whatever the GPS answers.
  function ModeError(config: Config, p: Packet, gps: GpsAnswer): int {
    if p.txMode == ON_GPS && !config.gpsEnabled then ERR_CODE_LORA_GATEWAY_SEND_AT_GPS_TIME_DISABLED
    else if p.txMode == ON_GPS && !gps.valid then ERR_CODE_LORA_GATEWAY_SEND_AT_GPS_TIME
    else if p.txMode == ON_GPS && !gps.converted then ERR_CODE_LORA_GATEWAY_SEND_AT_GPS_TIME_INVALID
    else if p.txMode != IMMEDIATE && p.txMode != TIMESTAMPED then ERR_CODE_LORA_GATEWAY_UNKNOWN_TX_MODE
    else LORA_OK
  }

  // The error that keeps a packet from the queue, LORA_OK when nothing does.
  function Refusal(config: Config, p: Packet, gps: GpsAnswer): int
    requires config.Valid() && p.rfChain < LGW_RF_CHAIN_NB
  {
    if ModeError(config, p, gps) != LORA_OK then ModeError(config, p, gps)
    else if !config.chains[p.rfChain].txEnable then ERR_CODE_LORA_GATEWAY_TX_CHAIN_DISABLED
    else if !KnownModulation(p.modulation) then ERR_CODE_LORA_GATEWAY_UNKNOWN_MODULATION
    else if !InRange(config.chains[p.rfChain], p.freqHz) then ERR_CODE_LORA_GATEWAY_TX_UNSUPPORTED_FREQUENCY
    else LORA_OK
  }

  function LongEnough(p: Packet): uint16
    requires KnownModulation(p.modulation)
  {
    if p.preamble < MinPreamble(p.modulation) then MinPreamble(p.modulation) else p.preamble
  }

  // What a packet that does not reach the queue is left as: one that fails late has been corrected in part.
  function Refused(config: Config, asked: Packet, countUs: nat32): Packet
    requires config.Valid() && asked.rfChain < LGW_RF_CHAIN_NB
  {
    var p := asked.(rfPower := Wrap8(asked.rfPower - config.antennaGain));
    if asked.txMode != IMMEDIATE && asked.txMode != TIMESTAMPED then asked.(countUs := countUs)
    else if !config.chains[asked.rfChain].txEnable then asked
    else if !KnownModulation(asked.modulation) then p
    else p.(preamble := LongEnough(asked))
  }

  // What may be handed to the queue for the packet asked for.
  ghost predicate Admissible(config: Config, asked: Packet, offer: Offer)
    requires config.Valid() && asked.rfChain < LGW_RF_CHAIN_NB
  {
    && offer.Offer?
    && var p, chain := offer.packet, config.chains[asked.rfChain];
    && chain.txEnable && InRange(chain, p.freqHz) && KnownModulation(asked.modulation)
    && offer.downlink == (if asked.txMode == IMMEDIATE then ClassC else ClassA)
    && p.preamble == LongEnough(asked) >= MinPreamble(asked.modulation)
    && TablePower(chain.lut, Wrap8(asked.rfPower - config.antennaGain), p.rfPower)
    && p == asked.(preamble := p.preamble, rfPower := p.rfPower)
  }

  class TxPacket {
    var pkt: Packet

    constructor (p: Packet)
      ensures pkt == p
    {
      pkt := p;
    }

    // The downlink class of the packet, or the error of its send mode. No mode but two gives a class.
    method SelectClass(config: Config, gps: GpsAnswer) returns (r: int, downlink: DownlinkClass)
      modifies this
      ensures r == ModeError(config, old(pkt), gps)
      ensures pkt == old(pkt).(countUs := pkt.countUs)
      ensures pkt.countUs == if old(pkt).txMode == 2 && config.gpsEnabled && gps.valid then gps.countUs
                             else old(pkt).countUs
      ensures r == LORA_OK ==> pkt == old(pkt) && downlink == (if pkt.txMode == IMMEDIATE then ClassC else ClassA)
    {
      downlink := ClassA;
      if pkt.txMode == IMMEDIATE {
        return LORA_OK, ClassC;
      } else if pkt.txMode == TIMESTAMPED {
        return LORA_OK, ClassA;
      } else if pkt.txMode == ON_GPS {
        if !config.gpsEnabled {
          return ERR_CODE_LORA_GATEWAY_SEND_AT_GPS_TIME_DISABLED, downlink;
        }
        if !gps.valid {
          return ERR_CODE_LORA_GATEWAY_SEND_AT_GPS_TIME, downlink;
        }
        pkt := pkt.(countUs := gps.countUs);
        if !gps.converted {
          return ERR_CODE_LORA_GATEWAY_SEND_AT_GPS_TIME_INVALID, downlink;
        }
      }
      return ERR_CODE_LORA_GATEWAY_UNKNOWN_TX_MODE, downlink;
    }

    method CorrectPreamble() returns (known: bool)
      modifies this
      ensures known == KnownModulation(old(pkt).modulation)
      ensures pkt == if known then old(pkt).(preamble := LongEnough(old(pkt))) else old(pkt)
    {
      if pkt.modulation == MOD_LORA {
        if pkt.preamble < MIN_LORA_PREAMBLE_LEN {
          pkt := pkt.(preamble := MIN_LORA_PREAMBLE_LEN);
        }
      } else if pkt.modulation == MOD_FSK {
        if pkt.preamble < MIN_FSK_PREAMBLE_LEN {
          pkt := pkt.(preamble := MIN_FSK_PREAMBLE_LEN);
        }
      } else {
        return false;
      }
      return true;
    }

    method CorrectPower(lut: Lut)
      requires lut.Valid()
      modifies this
      ensures TablePower(lut, old(pkt).rfPower, pkt.rfPower) && pkt == old(pkt).(rfPower := pkt.rfPower)
    {
      var found, index := GetTxGainLutIndex(lut, pkt.rfPower);
      if lut.power[index] != pkt.rfPower {
        pkt := pkt.(rfPower := lut.power[index]);
      }
    }
  }

  method EnqueueTxPacket(config: Config, tx: TxPacket, gps: GpsAnswer, queue: QueueAnswer)
    returns (r: int, offer: Offer)
    requires config.Valid() && tx.pkt.rfChain < LGW_RF_CHAIN_NB
    modifies tx
    ensures Refusal(config, old(tx.pkt), gps) != LORA_OK ==> r == Refusal(config, old(tx.pkt), gps) && offer == NoOffer
    ensures Refusal(config, old(tx.pkt), gps) == LORA_OK ==> Admissible(config, old(tx.pkt), offer)
    ensures offer.Offer? ==> tx.pkt == offer.packet.(txMode := queue.txMode, countUs := queue.countUs)
    ensures offer.Offer? ==> r == if queue.accepts then LORA_OK else ERR_CODE_LORA_GATEWAY_TX_UNSUPPORTED_FREQUENCY
    ensures offer.NoOffer? ==> tx.pkt == Refused(config, old(tx.pkt), tx.pkt.countUs)
    ensures offer.NoOffer? && old(tx.pkt).txMode == 2 && config.gpsEnabled && gps.valid ==>
              tx.pkt.countUs == gps.countUs
    ensures offer.NoOffer? && !(old(tx.pkt).txMode == 2 && config.gpsEnabled && gps.valid) ==>
              tx.pkt.countUs == old(tx.pkt).countUs
    ensures offer.Offer? <==> Sendable(config.chains[old(tx.pkt.rfChain)], old(tx.pkt))
  {
    Answers(config, tx.pkt, gps);
    hide TablePower, IsBest, HasCandidate;
    ghost var asked := tx.pkt;
    var chain := config.chains[tx.pkt.rfChain];
    var downlink;
    r, downlink := tx.SelectClass(config, gps);
    if r != LORA_OK {
      return r, NoOffer;
    }
    if !chain.txEnable {
      return ERR_CODE_LORA_GATEWAY_TX_CHAIN_DISABLED, NoOffer;
    }
    tx.pkt := tx.pkt.(rfPower := Wrap8(tx.pkt.rfPower - config.antennaGain));
    var known := tx.CorrectPreamble();
    if !known {
      return ERR_CODE_LORA_GATEWAY_UNKNOWN_MODULATION, NoOffer;
    }
    if tx.pkt.freqHz < chain.freqMin || tx.pkt.freqHz > chain.freqMax {
      return ERR_CODE_LORA_GATEWAY_TX_UNSUPPORTED_FREQUENCY, NoOffer;
    }
    tx.CorrectPower(chain.lut);
    offer := Offer(tx.pkt, downlink);
    tx.pkt := tx.pkt.(txMode := queue.txMode, countUs := queue.countUs);
    r := if queue.accepts then LORA_OK else ERR_CODE_LORA_GATEWAY_TX_UNSUPPORTED_FREQUENCY;
  }

  // ---- the answers, in the numbers of the source ----

  // A packet that reaches the queue: at once (0) or at a timestamp (1), on a chain that may send, in LoRa (0x10) or
  // FSK (0x20), and at a frequency of the chain, both ends included.
  predicate Sendable(c: Chain, p: Packet) {
    && (p.txMode == 0 || p.txMode == 1)
    && c.txEnable
    && (p.modulation == 0x10 || p.modulation == 0x20)
    && c.freqMin <= p.freqHz && p.freqHz <= c.freqMax
  }

  // Every error has one cause, checked after the causes above it: the send mode with the GPS (2), the chain, the
  // modulation, the frequency.
  lemma Answers(config: Config, p: Packet, gps: GpsAnswer)
    requires config.Valid() && p.rfChain < LGW_RF_CHAIN_NB
    ensures var r, c := Refusal(config, p, gps), config.chains[p.rfChain];
      && (r == 0 <==> Sendable(c, p))
      && (r == -658 <==> p.txMode == 2 && !config.gpsEnabled)
      && (r == -657 <==> p.txMode == 2 && config.gpsEnabled && !gps.valid)
      && (r == -659 <==> p.txMode == 2 && config.gpsEnabled && gps.valid && !gps.converted)
      && (r == -656 <==> p.txMode > 2 || (p.txMode == 2 && config.gpsEnabled && gps.valid && gps.converted))
      && (r == -660 <==> p.txMode < 2 && !c.txEnable)
      && (r == -652 <==> p.txMode < 2 && c.txEnable && p.modulation !in {0x10, 0x20})
      && (r == -661 <==> p.txMode < 2 && c.txEnable && p.modulation in {0x10, 0x20}
                         && (p.freqHz < c.freqMin || p.freqHz > c.freqMax))
  {
  }

  // What the queue is offered differs from what was asked in the power and the preamble only. The preamble is the
  // larger of the one asked for and 6 for LoRa, 3 for FSK; a packet for at once is of class C, for a timestamp of A.
  lemma OfferedPacket(config: Config, asked: Packet, offer: Offer)
    requires config.Valid() && asked.rfChain < LGW_RF_CHAIN_NB && Admissible(config, asked, offer)
    ensures var p, least := offer.packet, if asked.modulation == 0x10 then 6 else 3;
      && p.preamble >= asked.preamble && p.preamble >= least && p.preamble in {asked.preamble, least}
      && p == asked.(preamble := p.preamble, rfPower := p.rfPower)
      && offer.downlink == if asked.txMode == 0 then ClassC else ClassA
  {
    hide TablePower;
  }

  // What a packet that is refused keeps. One of the wrong modulation has its power lowered by the antenna gain, as a
  // signed byte, and one of the wrong frequency has its preamble corrected as well.
  lemma RefusedPacket(config: Config, asked: Packet, gps: GpsAnswer, countUs: nat32)
    requires config.Valid() && asked.rfChain < LGW_RF_CHAIN_NB
    ensures var r, p := Refusal(config, asked, gps), Refused(config, asked, countUs);
      && (r in {-656, -657, -658, -659} ==> p == asked.(countUs := countUs))
      && (r == -660 ==> p == asked)
      && (r == -652 ==> p == asked.(rfPower := p.rfPower))
      && (r == -661 ==> p == asked.(rfPower := p.rfPower, preamble := p.preamble)
                        && p.preamble >= asked.preamble && p.preamble >= (if asked.modulation == 0x10 then 6 else 3)
                        && p.preamble in {asked.preamble, if asked.modulation == 0x10 then 6 else 3})
      && (r in {-652, -661} ==> (p.rfPower - (asked.rfPower - config.antennaGain)) % 0x100 == 0)
  {
  }

  // ---- consequences ----

  // The table can serve a power: it holds one that low, or it is empty and the entry that is read all the same is.
  ghost predicate Serves(lut: Lut, power: int)
    requires lut.Valid()
  {
    HasCandidate(lut, power) || (lut.size == 0 && lut.power[0] <= power)
  }

  // A packet offered to the queue is radiated, antenna gain included, at no more than the power asked for exactly
  // when the table serves that power. Otherwise it goes out stronger than asked.
  lemma RadiatedPower(config: Config, asked: Packet, offer: Offer)
    requires config.Valid() && asked.rfChain < LGW_RF_CHAIN_NB && Admissible(config, asked, offer)
    ensures offer.packet.rfPower + config.antennaGain <= asked.rfPower <==>
            Serves(config.chains[asked.rfChain].lut, asked.rfPower - config.antennaGain)
  {
    PowerBound(config.chains[asked.rfChain].lut, asked.rfPower - config.antennaGain, offer.packet.rfPower);
  }

  lemma PowerBound(lut: Lut, want: int, p: int8)
    requires lut.Valid() && -0x100 < want < 0x100 && TablePower(lut, Wrap8(want), p)
    ensures p <= want <==> Serves(lut, want)
  {
    if want > 0x7f {
      assert lut.size > 0 ==> IsCandidate(lut, want, 0);
    } else if want >= -0x80 {
      assert !HasCandidate(lut, want) ==> !IsCandidate(lut, want, 0);
    }
  }

  lemma TablePowerIsUnique(lut: Lut, request: int8, p: int8, q: int8)
    requires lut.Valid() && TablePower(lut, request, p) && TablePower(lut, request, q)
    ensures p == q
  {
    if HasCandidate(lut, request) {
      var i :| IsBest(lut, request, i) && p == lut.power[i];
      var j :| IsBest(lut, request, j) && q == lut.power[j];
      BestIsUnique(lut, request, i, j);
    }
  }

  // What is sent is fixed by what was asked.
  lemma OfferIsDetermined(config: Config, asked: Packet, x: Offer, y: Offer)
    requires config.Valid() && asked.rfChain < LGW_RF_CHAIN_NB
    requires Admissible(config, asked, x) && Admissible(config, asked, y)
    ensures x == y
  {
    hide TablePower;
    TablePowerIsUnique(config.chains[asked.rfChain].lut, Wrap8(asked.rfPower - config.antennaGain),
                       x.packet.rfPower, y.packet.rfPower);
  }

  // A packet the queue refused is left at the power it was offered at. Offered again it is asked to go down by the
  // antenna gain once more, and does so exactly when the table serves that power.
  lemma SecondOfferIsWeaker(config: Config, asked: Packet, first: Offer, again: Packet, second: Offer)
    requires config.Valid() && asked.rfChain < LGW_RF_CHAIN_NB
    requires Admissible(config, asked, first)
    requires again == first.packet.(txMode := again.txMode, countUs := again.countUs)
    requires Admissible(config, again, second)
    ensures second.packet.rfPower + config.antennaGain <= first.packet.rfPower <==>
            Serves(config.chains[asked.rfChain].lut, first.packet.rfPower - config.antennaGain)
  {
    RadiatedPower(config, again, second);
  }
}
