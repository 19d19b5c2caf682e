/**
 The beacon payload: a network part with the time and its CRC, and a gateway part with its CRC. The packet is
 built once; each beacon overwrites the time and the first CRC in place.
 */
module BeaconPayload {
  import opened Basics
  import opened Crc16
  import Uint32

  datatype DataRate = SF8 | SF9 | SF10 | SF12

  // Information descriptor and coordinates.
  type GatewayInfo = s: seq<bv8> | |s| == 7 witness [0, 0, 0, 0, 0, 0, 0]

  datatype Layout = Layout(dataRate: DataRate, info: GatewayInfo) {
    // Reserved bytes before the time and after the gateway information.
    function Rfu1(): nat {
      match dataRate
      case SF8 => 1
      case SF9 => 2
      case SF10 => 3
      case SF12 => 5
    }

    function Rfu2(): nat {
      match dataRate
      case SF8 => 3
      case SF9 => 0
      case SF10 => 1
      case SF12 => 3
    }

    // Where the first CRC and the gateway part start, and the size of the whole.
    function Crc1At(): nat { Rfu1() + 4 }

    function GatewayAt(): nat { Rfu1() + 6 }

    function Size(): nat { Rfu1() + 4 + 2 + 7 + Rfu2() + 2 }
  }

  function Zeros(n: nat): (z: seq<bv8>)
    ensures |z| == n
  {
    seq(n, _ => 0)
  }

  // The byte of a number, by counting: the solver is slow on conversions to bit vectors.
  function ByteOf(n: byte): bv8 {
    if n == 0 then 0 else ByteOf(n - 1) + 1
  }

  function LowByte(n: nat): bv8 {
    ByteOf(n % 0x100)
  }

  // Least significant byte first.
  function TimeBytes(time: nat): (t: seq<bv8>)
    ensures |t| == 4
  {
    [LowByte(time), LowByte(time / 0x100), LowByte(time / 0x1_0000), LowByte(time / 0x100_0000)]
  }

  function CrcLow(r: bv16): bv8 { (r & 0xff) as bv8 }

  function CrcHigh(r: bv16): bv8 { ((r >> 8) & 0xff) as bv8 }

  function CrcBytes(r: bv16): (b: seq<bv8>)
    ensures |b| == 2
  {
    [CrcLow(r), CrcHigh(r)]
  }

  function NetworkPart(l: Layout, time: nat): (p: seq<bv8>)
    ensures |p| == l.Crc1At()
  {
    Zeros(l.Rfu1()) + TimeBytes(time)
  }

  function GatewayPart(l: Layout): (p: seq<bv8>)
    ensures |p| == 7 + l.Rfu2()
  {
    l.info + Zeros(l.Rfu2())
  }

  function Payload(l: Layout, time: nat): (p: seq<bv8>)
    ensures |p| == l.Size()
  {
    NetworkPart(l, time) + CrcBytes(Crc(NetworkPart(l, time))) + (GatewayPart(l) + CrcBytes(Crc(GatewayPart(l))))
  }

  class BeaconPacket {
    const layout: Layout
    const payload: array<bv8>

    // The reserved bytes and the gateway part are in place.
    ghost predicate Valid()
      reads payload
    {
      && payload.Length == layout.Size()
      && payload[..layout.Rfu1()] == Zeros(layout.Rfu1())
      && payload[layout.GatewayAt()..] == GatewayPart(layout) + CrcBytes(Crc(GatewayPart(layout)))
    }

    constructor (l: Layout)
      ensures layout == l && fresh(payload) && Valid()
    {
      layout := l;
      payload := new bv8[l.Size()];
      new;
      hide Crc, CrcLow, CrcHigh;
      var rfu1, at := l.Rfu1(), l.GatewayAt();
      forall i | 0 <= i < rfu1 {
        payload[i] := 0;
      }
      LoadGateway();
    }

    // Write the gateway part and its CRC.
    method LoadGateway()
      requires payload.Length == layout.Size() && payload[..layout.Rfu1()] == Zeros(layout.Rfu1())
      modifies payload
      ensures Valid()
    {
      hide Crc, CrcLow, CrcHigh;
      var rfu2, at, end := layout.Rfu2(), layout.GatewayAt(), layout.Size() - 2;
      ghost var head := payload[..layout.Rfu1()];
      forall i | 0 <= i < 7 {
        payload[at + i] := layout.info[i];
      }
      forall i | 0 <= i < rfu2 {
        payload[at + 7 + i] := 0;
      }
      assert payload[at..end] == GatewayPart(layout) && payload[..layout.Rfu1()] == head;
      var crc2 := Crc(payload[at..end]);
      ghost var before := payload[..end];
      payload[end] := CrcLow(crc2);
      payload[end + 1] := CrcHigh(crc2);
      assert payload[..end] == before;
      assert payload[at..end] == before[at..] && payload[..layout.Rfu1()] == before[..layout.Rfu1()];
      assert payload[at..] == payload[at..end] + CrcBytes(crc2);
    }

    // Write the time and the CRC of the network part.
    method LoadTime(time: nat)
      requires Valid()
      modifies payload
      ensures Valid() && payload[..] == Payload(layout, time)
    {
      hide LowByte, Crc, CrcLow, CrcHigh;
      var n, at := layout.Crc1At(), layout.GatewayAt();
      ghost var rest := payload[at..];
      LoadNetwork(time);
      assert payload[at..] == payload[n..][2..] == rest;
      var crc1 := ComputeCrc16(payload, n);
      payload[n] := CrcLow(crc1);
      payload[n + 1] := CrcHigh(crc1);
      assert payload[..n] == NetworkPart(layout, time) && payload[at..] == rest;
      assert payload[..layout.Rfu1()] == payload[..n][..layout.Rfu1()];
      assert payload[..] == payload[..n] + CrcBytes(crc1) + payload[at..];
    }

    method LoadNetwork(time: nat)
      requires Valid()
      modifies payload
      ensures payload[..layout.Crc1At()] == NetworkPart(layout, time)
      ensures payload[layout.Crc1At()..] == old(payload[layout.Crc1At()..])
    {
      hide LowByte, Crc, CrcLow, CrcHigh;
      var rfu1 := layout.Rfu1();
      payload[rfu1] := LowByte(time);
      payload[rfu1 + 1] := LowByte(time / 0x100);
      payload[rfu1 + 2] := LowByte(time / 0x1_0000);
      payload[rfu1 + 3] := LowByte(time / 0x100_0000);
      assert payload[..rfu1] == Zeros(rfu1);
      assert payload[..layout.Crc1At()] == payload[..rfu1] + TimeBytes(time);
    }
  }

  // ---- what a receiver finds ----

  function TimeOf(l: Layout, p: seq<bv8>): nat
    requires |p| == l.Size()
  {
    var at := l.Rfu1();
    Uint32.ByteValue(p[at]) + 0x100 * Uint32.ByteValue(p[at + 1])
    + 0x1_0000 * Uint32.ByteValue(p[at + 2]) + 0x100_0000 * Uint32.ByteValue(p[at + 3])
  }

  // A CRC in the packet, least significant byte first.
  function CrcAt(p: seq<bv8>, n: nat): bv16
    requires n + 2 <= |p|
  {
    ((p[n + 1] as bv16) << 8) | (p[n] as bv16)
  }

  // The gateway information follows the first CRC.
  function InfoOf(l: Layout, p: seq<bv8>): seq<bv8>
    requires |p| == l.Size()
  {
    p[l.Rfu1() + 6..l.Rfu1() + 13]
  }

  predicate ReservedAreZero(l: Layout, p: seq<bv8>)
    requires |p| == l.Size()
  {
    && (forall i :: 0 <= i < l.Rfu1() ==> p[i] == 0)
    && (forall i :: l.Rfu1() + 13 <= i < l.Size() - 2 ==> p[i] == 0)
  }

  // 17 bytes for SF9, 19 for SF8 and SF10, 23 for SF12.
  lemma BeaconSizes(l: Layout)
    ensures l.Size() == (if l.dataRate == SF9 then 17 else if l.dataRate == SF12 then 23 else 19)
    ensures l.Rfu1() == match l.dataRate { case SF8 => 1 case SF9 => 2 case SF10 => 3 case SF12 => 5 }
  {
  }

  predicate NetworkChecks(l: Layout, p: seq<bv8>)
    requires |p| == l.Size()
  {
    var n := l.Crc1At();
    CrcAt(p, n) == Crc(p[..n])
  }

  predicate GatewayChecks(l: Layout, p: seq<bv8>)
    requires |p| == l.Size()
  {
    var at, end := l.GatewayAt(), l.Size() - 2;
    CrcAt(p, end) == Crc(p[at..end])
  }

  lemma {:induction false} ByteOfValue(n: byte)
    ensures Uint32.ByteValue(ByteOf(n)) == n
    decreases n
  {
    if n > 0 {
      hide Uint32.ByteValue;
      ByteOfValue(n - 1);
      Uint32.ByteValueIsInt(0xff);
      Uint32.ByteSuccessor(ByteOf(n - 1));
    }
  }

  lemma LowByteIs(n: nat)
    ensures Uint32.ByteValue(LowByte(n)) == n % 0x100
  {
    ByteOfValue(n % 0x100);
  }

  lemma FourDigits(n: nat)
    ensures n % 0x100 + 0x100 * (n / 0x100 % 0x100) + 0x1_0000 * (n / 0x1_0000 % 0x100)
            + 0x100_0000 * (n / 0x100_0000 % 0x100) == n % 0x1_0000_0000
  {
    var a, b, c := n / 0x100, n / 0x1_0000, n / 0x100_0000;
    assert a / 0x100 == b && b / 0x100 == c && c / 0x100 == n / 0x1_0000_0000;
  }

  lemma CrcFromBytes(r: bv16)
    ensures ((CrcHigh(r) as bv16) << 8) | (CrcLow(r) as bv16) == r
  {
  }

  lemma CrcIsRead(p: seq<bv8>, n: nat, r: bv16)
    requires n + 2 <= |p| && p[n] == CrcLow(r) && p[n + 1] == CrcHigh(r)
    ensures CrcAt(p, n) == r
  {
    hide CrcLow, CrcHigh;
    CrcFromBytes(r);
  }

  lemma PartsOfSum(a: seq<bv8>, b: seq<bv8>, c: seq<bv8>, d: seq<bv8>)
    ensures var p, n, e := a + b + (c + d), |a| + |b|, |a| + |b| + |c|;
      p[..|a|] == a && p[|a|..n] == b && p[n..e] == c && p[e..] == d
  {
  }

  lemma PayloadParts(l: Layout, time: nat)
    ensures var p, n, at, end := Payload(l, time), l.Crc1At(), l.GatewayAt(), l.Size() - 2;
      && p[..n] == NetworkPart(l, time) && p[n..at] == CrcBytes(Crc(NetworkPart(l, time)))
      && p[at..end] == GatewayPart(l) && p[end..] == CrcBytes(Crc(GatewayPart(l)))
  {
    hide NetworkPart, GatewayPart, Crc, CrcBytes;
    var network, gateway := NetworkPart(l, time), GatewayPart(l);
    PartsOfSum(network, CrcBytes(Crc(network)), gateway, CrcBytes(Crc(gateway)));
  }

  lemma ReservedBytes(l: Layout, time: nat)
    ensures InfoOf(l, Payload(l, time)) == l.info && ReservedAreZero(l, Payload(l, time))
  {
    hide Payload, LowByte, Crc, TimeBytes;
    var p, gateway := Payload(l, time), GatewayPart(l);
    PayloadParts(l, time);
    assert InfoOf(l, p) == gateway[..7] == l.info;
    assert forall i :: 0 <= i < l.Rfu1() ==> p[i] == p[..l.Crc1At()][i];
    assert forall i :: l.GatewayAt() <= i < l.Size() - 2 ==> p[i] == gateway[i - l.GatewayAt()];
  }

  lemma TimeIsRead(l: Layout, time: nat)
    ensures TimeOf(l, Payload(l, time)) == time % 0x1_0000_0000
  {
    hide Payload, LowByte, Crc, Uint32.ByteValue;
    var p, network := Payload(l, time), NetworkPart(l, time);
    PayloadParts(l, time);
    assert forall i :: l.Rfu1() <= i < l.Crc1At() ==> p[i] == p[..l.Crc1At()][i] == TimeBytes(time)[i - l.Rfu1()];
    LowByteIs(time);
    LowByteIs(time / 0x100);
    LowByteIs(time / 0x1_0000);
    LowByteIs(time / 0x100_0000);
    FourDigits(time);
  }

  lemma ChecksPass(l: Layout, time: nat)
    ensures NetworkChecks(l, Payload(l, time)) && GatewayChecks(l, Payload(l, time))
  {
    hide Payload, NetworkPart, GatewayPart, Crc, CrcAt, CrcLow, CrcHigh;
    var p, n, at, end := Payload(l, time), l.Crc1At(), l.GatewayAt(), l.Size() - 2;
    PayloadParts(l, time);
    assert p[n] == p[n..at][0] && p[n + 1] == p[n..at][1];
    assert p[end] == p[end..][0] && p[end + 1] == p[end..][1];
    CrcIsRead(p, n, Crc(NetworkPart(l, time)));
    CrcIsRead(p, end, Crc(GatewayPart(l)));
  }

  // Every payload carries its time, as 32 bits, and both parts pass their checks; the gateway information is in its
  // place and everything else is 0.
  lemma PayloadIsReadable(l: Layout, time: nat)
    ensures var p := Payload(l, time);
      TimeOf(l, p) == time % 0x1_0000_0000 && NetworkChecks(l, p) && GatewayChecks(l, p)
    ensures InfoOf(l, Payload(l, time)) == l.info && ReservedAreZero(l, Payload(l, time))
  {
    hide Payload, TimeOf, NetworkChecks, GatewayChecks;
    TimeIsRead(l, time);
    ChecksPass(l, time);
    ReservedBytes(l, time);
  }

  lemma SameCrc(p: seq<bv8>, q: seq<bv8>, n: nat)
    requires n + 2 <= |p| && n + 2 <= |q| && p[n] == q[n] && p[n + 1] == q[n + 1]
    ensures CrcAt(p, n) == CrcAt(q, n)
  {
  }

  // A burst of up to 16 bits in the network part is noticed.
  lemma BurstIsNoticed(l: Layout, p: seq<bv8>, q: seq<bv8>, at: nat)
    requires |p| == l.Size() && |q| == l.Size() && NetworkChecks(l, p)
    requires p[l.Crc1At()..] == q[l.Crc1At()..] && p[..l.Crc1At()] != q[..l.Crc1At()]
    requires forall n :: 0 <= n < 8 * l.Crc1At() && (n < at || n >= at + 16) ==>
               MessageBit(p[..l.Crc1At()], n) == MessageBit(q[..l.Crc1At()], n)
    ensures !NetworkChecks(l, q)
  {
    hide Crc, CrcAt, MessageBit;
    var n := l.Crc1At();
    BurstOfBitsDetected(p[..n], q[..n], at);
    assert p[n] == p[n..][0] && p[n + 1] == p[n..][1] && q[n] == q[n..][0] && q[n + 1] == q[n..][1];
    SameCrc(p, q, n);
  }
}
