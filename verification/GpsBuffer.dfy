/**
 The GPS receive buffer: bytes arrive in reads of at most 8, are appended to a 128-byte buffer, and the buffer
 is searched for UBX and NMEA frames. A whole run is a list of reads; the stream is their concatenation.
 */
module GpsBuffer {
  import opened Basics

  const CAPACITY: nat := 128
  const LGW_GPS_MIN_MSG_SIZE: nat := 8
  const LGW_GPS_UBX_SYNC_CHAR: byte := 0xB5
  const LGW_GPS_NMEA_SYNC_CHAR: byte := 0x24
  const LINE_FEED: byte := 0x0a

  datatype Message = Unknown | Ignored | Invalid | Incomplete | NmeaRmc | UbxNavTimeGps | OtherMessage

  // The two parsers of the GPS library: lgw_parse_ubx also answers a frame size.
  datatype Parsers = Parsers(ubx: seq<byte> -> (Message, nat), nmea: seq<byte> -> Message)

  // What an accepted frame makes the gateway do.
  datatype Effect = SyncTime | SyncLocation | NoEffect

  function LineEnd(w: seq<byte>): (e: nat)
    ensures e <= |w| && LINE_FEED !in w[..e]
    ensures e < |w| ==> w[e] == LINE_FEED
  {
    if w == [] || w[0] == LINE_FEED then 0 else 1 + LineEnd(w[1..])
  }

  function UbxSize(p: Parsers, w: seq<byte>): nat {
    var (message, size) := p.ubx(w);
    if message == Incomplete || message == Invalid then 0 else size
  }

  function NmeaSize(p: Parsers, w: seq<byte>): nat {
    var e := LineEnd(w);
    if e == |w| then 0
    else
      var message := p.nmea(w[..e + 1]);
      if message == Invalid || message == Unknown then 0 else e + 1
  }

  // The size of the frame found at the start of the bytes w, 0 when there is none.
  function FrameSize(p: Parsers, w: seq<byte>): nat {
    if w == [] then 0
    else if w[0] == LGW_GPS_UBX_SYNC_CHAR then UbxSize(p, w)
    else if w[0] == LGW_GPS_NMEA_SYNC_CHAR then NmeaSize(p, w)
    else 0
  }

  function FrameEffect(p: Parsers, w: seq<byte>): Effect
    requires FrameSize(p, w) > 0
  {
    if w[0] == LGW_GPS_UBX_SYNC_CHAR then
      if p.ubx(w).0 == UbxNavTimeGps then SyncTime else NoEffect
    else
      if p.nmea(w[..LineEnd(w) + 1]) == NmeaRmc then SyncLocation else NoEffect
  }

  // lgw_parse_ubx never reports a complete frame longer than the bytes it was given.
  ghost predicate Honest(p: Parsers) {
    forall w: seq<byte> :: p.ubx(w).0 != Incomplete && p.ubx(w).0 != Invalid ==> p.ubx(w).1 <= |w|
  }

  // A frame of n bytes at the start of w, as the parsers see it, and what it makes the gateway do. A UBX frame has the
  // size the parser answers; an NMEA frame ends with the first line feed.
  ghost predicate IsFrame(p: Parsers, w: seq<byte>, n: nat, effect: Effect) {
    0 < n && w != [] &&
    if w[0] == 0xB5 then
      && p.ubx(w).1 == n && p.ubx(w).0 != Incomplete && p.ubx(w).0 != Invalid
      && (effect == SyncTime <==> p.ubx(w).0 == UbxNavTimeGps) && effect != SyncLocation
    else
      && w[0] == 0x24 && n <= |w| && w[n - 1] == 0x0a && 0x0a !in w[..n - 1]
      && p.nmea(w[..n]) != Invalid && p.nmea(w[..n]) != Unknown
      && (effect == SyncLocation <==> p.nmea(w[..n]) == NmeaRmc) && effect != SyncTime
  }

  lemma {:induction false} LineEndIs(w: seq<byte>, k: nat)
    requires k < |w| && w[k] == LINE_FEED && LINE_FEED !in w[..k]
    ensures LineEnd(w) == k
  {
    if k > 0 {
      assert w[0] == w[..k][0] && w[1..][..k - 1] == w[..k][1..];
      LineEndIs(w[1..], k - 1);
    }
  }

  // The size and effect the search computes are those of the frame there, and 0 stands for no frame.
  lemma FrameSizeIs(p: Parsers, w: seq<byte>, n: nat, effect: Effect)
    requires n > 0
    ensures IsFrame(p, w, n, effect) <==> FrameSize(p, w) == n && FrameEffect(p, w) == effect
  {
    if IsFrame(p, w, n, effect) && w[0] != 0xB5 {
      LineEndIs(w, n - 1);
    }
  }

  lemma SizeFits(p: Parsers, w: seq<byte>)
    requires Honest(p)
    ensures FrameSize(p, w) <= |w|
  {
    assert p.ubx(w).0 != Incomplete && p.ubx(w).0 != Invalid ==> p.ubx(w).1 <= |w|;
  }

  lemma DecodeIsFrame(p: Parsers, w: seq<byte>, size: nat)
    requires size == FrameSize(p, w)
    ensures size > 0 ==> IsFrame(p, w, size, FrameEffect(p, w))
    ensures size == 0 ==> forall n, e :: !IsFrame(p, w, n, e)
  {
    hide IsFrame, FrameSize, FrameEffect;
    if size > 0 {
      FrameSizeIs(p, w, size, FrameEffect(p, w));
    } else {
      forall n, e ensures !IsFrame(p, w, n, e) {
        NoSizeNoFrame(p, w, n, e);
      }
    }
  }

  lemma NoSizeNoFrame(p: Parsers, w: seq<byte>, n: nat, effect: Effect)
    requires FrameSize(p, w) == 0
    ensures !IsFrame(p, w, n, effect)
  {
    if n > 0 {
      FrameSizeIs(p, w, n, effect);
    }
  }

  // ---- one pass over the buffer ----

  // An accepted frame; at counts from the start of the stream.
  datatype Frame = Frame(at: nat, size: nat, effect: Effect)

  // The bytes in the buffer, the first of which is byte number base of the stream.
  datatype Buffer = Buffer(base: nat, bytes: seq<byte>)

  ghost function Scan(p: Parsers, b: Buffer, rd: nat): seq<Frame>
    requires Honest(p) && rd <= |b.bytes|
    decreases |b.bytes| - rd
  {
    if rd == |b.bytes| then []
    else
      SizeFits(p, b.bytes[rd..]);
      var size := FrameSize(p, b.bytes[rd..]);
      if size > 0 then
        [Frame(b.base + rd, size, FrameEffect(p, b.bytes[rd..]))] + Scan(p, b, rd + size)
      else
        Scan(p, b, rd + 1)
  }

  // The end of the last frame, from when there is none.
  function End(frames: seq<Frame>, from: nat): nat {
    if frames == [] then from else var last := frames[|frames| - 1]; last.at + last.size
  }

  function Effects(frames: seq<Frame>): seq<Effect> {
    seq(|frames|, i requires 0 <= i < |frames| => frames[i].effect)
  }

  // Frames follow each other without overlap, none before lo and none after hi.
  ghost predicate Ordered(frames: seq<Frame>, lo: nat, hi: nat) {
    && (forall i :: 0 <= i < |frames| ==>
          frames[i].size > 0 && lo <= frames[i].at && frames[i].at + frames[i].size <= hi)
    && (forall i, j :: 0 <= i < j < |frames| ==> frames[i].at + frames[i].size <= frames[j].at)
  }

  lemma OrderedCons(f: Frame, rest: seq<Frame>, lo: nat, hi: nat)
    requires f.size > 0 && lo <= f.at && f.at + f.size <= hi && Ordered(rest, f.at + f.size, hi)
    ensures Ordered([f] + rest, lo, hi)
  {
    var all := [f] + rest;
    assert forall i :: 0 < i < |all| ==> all[i] == rest[i - 1];
  }

  lemma ScanStep(p: Parsers, b: Buffer, rd: nat)
    requires Honest(p) && rd < |b.bytes|
    ensures FrameSize(p, b.bytes[rd..]) <= |b.bytes| - rd
    ensures FrameSize(p, b.bytes[rd..]) == 0 ==> Scan(p, b, rd) == Scan(p, b, rd + 1)
    ensures FrameSize(p, b.bytes[rd..]) > 0 ==>
      Scan(p, b, rd) == [Frame(b.base + rd, FrameSize(p, b.bytes[rd..]), FrameEffect(p, b.bytes[rd..]))] +
                        Scan(p, b, rd + FrameSize(p, b.bytes[rd..]))
  {
    hide FrameSize, FrameEffect, Honest;
    SizeFits(p, b.bytes[rd..]);
  }

  lemma ScanEnd(p: Parsers, b: Buffer)
    requires Honest(p)
    ensures Scan(p, b, |b.bytes|) == []
  {
    hide Honest;
  }

  lemma OrderedNone(lo: nat, hi: nat)
    ensures Ordered([], lo, hi)
  {
  }

  lemma {:induction false} ScanIsOrdered(p: Parsers, b: Buffer, rd: nat)
    requires Honest(p) && rd <= |b.bytes|
    ensures Ordered(Scan(p, b, rd), b.base + rd, b.base + |b.bytes|)
    decreases |b.bytes| - rd
  {
    hide FrameSize, FrameEffect, Honest, Ordered, Scan;
    var hi := b.base + |b.bytes|;
    if rd == |b.bytes| {
      ScanEnd(p, b);
      OrderedNone(b.base + rd, hi);
    } else {
      ScanStep(p, b, rd);
      var size := FrameSize(p, b.bytes[rd..]);
      if size > 0 {
        ScanIsOrdered(p, b, rd + size);
        OrderedCons(Frame(b.base + rd, size, FrameEffect(p, b.bytes[rd..])), Scan(p, b, rd + size), b.base + rd, hi);
      } else {
        ScanIsOrdered(p, b, rd + 1);
        OrderedFrom(Scan(p, b, rd + 1), b.base + rd, b.base + rd + 1, hi);
      }
    }
  }

  lemma OrderedFrom(frames: seq<Frame>, lo: nat, lo': nat, hi: nat)
    requires lo <= lo' && Ordered(frames, lo', hi)
    ensures Ordered(frames, lo, hi)
  {
  }

  function Drop(b: Buffer, n: nat): Buffer
    requires n <= |b.bytes|
  {
    Buffer(b.base + n, b.bytes[n..])
  }

  function Received(b: Buffer, chunk: seq<byte>): Buffer {
    b.(bytes := b.bytes + chunk)
  }

  // The frames one turn of the runner accepts. A read of nothing is skipped.
  ghost function Accepted(p: Parsers, b: Buffer, chunk: seq<byte>): (frames: seq<Frame>)
    requires Honest(p)
    ensures Ordered(frames, b.base, b.base + |b.bytes| + |chunk|)
    ensures End(frames, b.base) >= b.base
  {
    ScanIsOrdered(p, Received(b, chunk), 0);
    if chunk == [] then [] else Scan(p, Received(b, chunk), 0)
  }

  // The n oldest bytes go, then 8 more if a further read might not fit.
  function Trimmed(b: Buffer, n: nat): Buffer
    requires n <= |b.bytes|
  {
    var rest := Drop(b, n);
    if CAPACITY - |rest.bytes| < LGW_GPS_MIN_MSG_SIZE then Drop(rest, LGW_GPS_MIN_MSG_SIZE) else rest
  }

  // The buffer after one turn: the bytes up to the end of the last frame are gone.
  ghost function Advance(p: Parsers, b: Buffer, chunk: seq<byte>): (after: Buffer)
    requires Honest(p)
    ensures |b.bytes| <= CAPACITY - LGW_GPS_MIN_MSG_SIZE && |chunk| <= LGW_GPS_MIN_MSG_SIZE
            ==> |after.bytes| <= CAPACITY - LGW_GPS_MIN_MSG_SIZE
  {
    if chunk == [] then b
    else Trimmed(Received(b, chunk), End(Accepted(p, b, chunk), b.base) - b.base)
  }

  lemma EmptyTurn(p: Parsers, b: Buffer)
    requires Honest(p)
    ensures Accepted(p, b, []) == [] && Advance(p, b, []) == b && Effects([]) == []
  {
    hide Scan, Honest;
  }

  lemma FullTurn(p: Parsers, b: Buffer, chunk: seq<byte>)
    requires Honest(p) && chunk != []
    ensures Accepted(p, b, chunk) == Scan(p, Received(b, chunk), 0)
    ensures Advance(p, b, chunk) == Trimmed(Received(b, chunk), End(Accepted(p, b, chunk), b.base) - b.base)
    ensures Received(b, chunk).base == b.base
  {
    hide Scan, Honest, Trimmed;
  }

  class GpsRunner {
    const serial: array<byte>
    var wr: nat
    ghost var base: nat

    ghost predicate Valid()
      reads this
    {
      serial.Length == CAPACITY && wr <= CAPACITY - LGW_GPS_MIN_MSG_SIZE
    }

    ghost function Contents(): Buffer
      requires wr <= serial.Length
      reads this, serial
    {
      Buffer(base, serial[..wr])
    }

    constructor ()
      ensures Valid() && fresh(serial) && Contents() == Buffer(0, [])
    {
      serial := new byte[CAPACITY](_ => 0);
      wr := 0;
      base := 0;
    }

    // Remove the n oldest bytes.
    method Remove(n: nat)
      requires n <= wr <= serial.Length
      modifies this, serial
      ensures wr == old(wr) - n && Contents() == Drop(old(Contents()), n)
    {
      forall i | 0 <= i < wr - n {
        serial[i] := serial[i + n];
      }
      wr := wr - n;
      base := base + n;
      assert serial[..wr] == old(serial[..wr])[n..];
    }

    // Read the bytes into the buffer.
    method Receive(chunk: seq<byte>)
      requires Valid() && |chunk| <= LGW_GPS_MIN_MSG_SIZE
      modifies this`wr, serial
      ensures wr <= serial.Length == CAPACITY && Contents() == Received(old(Contents()), chunk)
    {
      forall i | 0 <= i < |chunk| {
        serial[wr + i] := chunk[i];
      }
      wr := wr + |chunk|;
      assert serial[..wr] == old(serial[..wr]) + chunk;
    }

    // The size of the frame starting at rd, 0 if none is accepted there, and what it makes the gateway do.
    method Decode(p: Parsers, rd: nat) returns (frameSize: nat, effect: Effect)
      requires rd < wr <= serial.Length
      ensures frameSize == FrameSize(p, serial[rd..wr])
      ensures frameSize > 0 ==> effect == FrameEffect(p, serial[rd..wr])
      ensures frameSize > 0 ==> IsFrame(p, serial[rd..wr], frameSize, effect)
      ensures frameSize == 0 ==> forall n, e :: !IsFrame(p, serial[rd..wr], n, e)
    {
      frameSize, effect := 0, NoEffect;
      var w := serial[rd..wr];
      if serial[rd] == LGW_GPS_UBX_SYNC_CHAR {
        var (message, size) := p.ubx(w);
        frameSize := size;
        if frameSize > 0 {
          if message == Incomplete {
            frameSize := 0;
          } else if message == Invalid {
            frameSize := 0;
          } else if message == UbxNavTimeGps {
            effect := SyncTime;
          }
        }
      } else if serial[rd] == LGW_GPS_NMEA_SYNC_CHAR {
        var end := LineEnd(w);
        if end < |w| {
          frameSize := end + 1;
          var message := p.nmea(w[..frameSize]);
          if message == Invalid || message == Unknown {
            frameSize := 0;
          } else if message == NmeaRmc {
            effect := SyncLocation;
          }
        }
      }
      DecodeIsFrame(p, w, frameSize);
    }

    // Search the buffer; frameEnd is the end of the last accepted frame, 0 if there is none.
    method ScanBuffer(p: Parsers) returns (frameEnd: nat, effects: seq<Effect>, ghost frames: seq<Frame>)
      requires wr <= serial.Length && Honest(p)
      ensures frameEnd <= wr && frames == Scan(p, Contents(), 0)
      ensures base + frameEnd == End(frames, base) && effects == Effects(frames)
    {
      hide FrameSize, FrameEffect, Honest, Scan;
      effects, frames := [], [];
      var rd := 0;
      frameEnd := 0;
      while rd < wr
        invariant frameEnd <= rd <= wr
        invariant frames + Scan(p, Contents(), rd) == Scan(p, Contents(), 0)
        invariant base + frameEnd == End(frames, base)
        invariant effects == Effects(frames)
      {
        var frameSize, effect := Decode(p, rd);
        assert serial[rd..wr] == Contents().bytes[rd..];
        ScanStep(p, Contents(), rd);
        if frameSize > 0 {
          effects := effects + [effect];
          frames := frames + [Frame(base + rd, frameSize, effect)];
          rd := rd + frameSize;
          frameEnd := rd;
        } else {
          rd := rd + 1;
        }
      }
      ScanEnd(p, Contents());
    }

    // Remove the bytes up to the end of the last frame, then make room for the next read.
    method Trim(frameEnd: nat)
      requires frameEnd <= wr <= serial.Length == CAPACITY
      modifies this, serial
      ensures Valid() && Contents() == Trimmed(old(Contents()), frameEnd)
    {
      if frameEnd != 0 {
        Remove(frameEnd);
      }
      if CAPACITY - wr < LGW_GPS_MIN_MSG_SIZE {
        Remove(LGW_GPS_MIN_MSG_SIZE);
      }
    }

    // One turn of the loop of the GPS thread. The bytes read are at most LGW_GPS_MIN_MSG_SIZE.
    method Turn(p: Parsers, chunk: seq<byte>) returns (effects: seq<Effect>, ghost frames: seq<Frame>)
      requires Valid() && Honest(p) && |chunk| <= LGW_GPS_MIN_MSG_SIZE
      modifies this, serial
      ensures Valid() && Contents() == Advance(p, old(Contents()), chunk)
      ensures frames == Accepted(p, old(Contents()), chunk)
      ensures effects == Effects(frames)
    {
      hide Scan, Honest, Accepted, Advance, Received, Trimmed, Effects;
      effects, frames := [], [];
      ghost var before := Contents();
      if |chunk| == 0 {
        assert chunk == [];
        EmptyTurn(p, before);
        return;
      }
      FullTurn(p, before, chunk);
      Receive(chunk);
      var frameEnd;
      frameEnd, effects, frames := ScanBuffer(p);
      Trim(frameEnd);
    }
  }

  // ---- whole runs ----

  ghost predicate Reads(chunks: seq<seq<byte>>) {
    forall i :: 0 <= i < |chunks| ==> |chunks[i]| <= LGW_GPS_MIN_MSG_SIZE
  }

  function Stream(chunks: seq<seq<byte>>): seq<byte> {
    if chunks == [] then [] else chunks[0] + Stream(chunks[1..])
  }

  ghost function BufferAfter(p: Parsers, b: Buffer, chunks: seq<seq<byte>>): Buffer
    requires Honest(p)
    decreases |chunks|
  {
    if chunks == [] then b else BufferAfter(p, Advance(p, b, chunks[0]), chunks[1..])
  }

  ghost function FramesOf(p: Parsers, b: Buffer, chunks: seq<seq<byte>>): seq<Frame>
    requires Honest(p)
    decreases |chunks|
  {
    if chunks == [] then []
    else Accepted(p, b, chunks[0]) + FramesOf(p, Advance(p, b, chunks[0]), chunks[1..])
  }

  // The buffer holds the last bytes of the first r bytes of the stream.
  ghost predicate IsWindow(b: Buffer, stream: seq<byte>, r: nat) {
    && r <= |stream| && b.base + |b.bytes| == r && b.bytes == stream[b.base..r]
    && |b.bytes| <= CAPACITY - LGW_GPS_MIN_MSG_SIZE
  }

  lemma TrimWindow(b: Buffer, n: nat, stream: seq<byte>, r: nat)
    requires n <= |b.bytes| <= CAPACITY && r == b.base + |b.bytes| <= |stream| && b.bytes == stream[b.base..r]
    ensures IsWindow(Trimmed(b, n), stream, r) && Trimmed(b, n).base >= b.base + n
  {
    var rest := Drop(b, n);
    assert rest.bytes == stream[b.base + n..r];
    if CAPACITY - |rest.bytes| < LGW_GPS_MIN_MSG_SIZE {
      assert rest.bytes[LGW_GPS_MIN_MSG_SIZE..] == stream[rest.base + LGW_GPS_MIN_MSG_SIZE..r];
    }
  }

  lemma TurnWindow(p: Parsers, b: Buffer, chunk: seq<byte>, stream: seq<byte>, r: nat)
    requires Honest(p) && IsWindow(b, stream, r) && |chunk| <= LGW_GPS_MIN_MSG_SIZE
    requires r + |chunk| <= |stream| && stream[r..r + |chunk|] == chunk
    ensures IsWindow(Advance(p, b, chunk), stream, r + |chunk|)
    ensures Received(b, chunk).bytes == stream[b.base..r + |chunk|]
    ensures Advance(p, b, chunk).base >= End(Accepted(p, b, chunk), b.base) >= b.base
  {
    hide Honest, Scan, Trimmed;
    assert stream[b.base..r] + stream[r..r + |chunk|] == stream[b.base..r + |chunk|];
    if chunk != [] {
      TrimWindow(Received(b, chunk), End(Accepted(p, b, chunk), b.base) - b.base, stream, r + |chunk|);
    }
  }

  // What is left of the stream is what the remaining reads bring.
  ghost predicate Remains(stream: seq<byte>, r: nat, chunks: seq<seq<byte>>) {
    r <= |stream| && stream[r..] == Stream(chunks)
  }

  lemma RemainsStep(stream: seq<byte>, r: nat, chunks: seq<seq<byte>>)
    requires Remains(stream, r, chunks) && chunks != []
    ensures r + |chunks[0]| <= |stream| && stream[r..r + |chunks[0]|] == chunks[0]
    ensures Remains(stream, r + |chunks[0]|, chunks[1..])
  {
    var c := chunks[0];
    assert stream[r..][..|c|] == c;
    assert stream[r..][|c|..] == stream[r + |c|..];
  }

  // After every run the write index is at most 120, so a further read fits, and the buffer is the end of the stream.
  lemma {:induction false} RunWindow(p: Parsers, b: Buffer, chunks: seq<seq<byte>>, stream: seq<byte>, r: nat)
    requires Honest(p) && Reads(chunks) && IsWindow(b, stream, r) && Remains(stream, r, chunks)
    ensures IsWindow(BufferAfter(p, b, chunks), stream, |stream|)
    decreases |chunks|
  {
    hide IsWindow, Advance, Honest;
    if chunks != [] {
      RemainsStep(stream, r, chunks);
      TurnWindow(p, b, chunks[0], stream, r);
      RunWindow(p, Advance(p, b, chunks[0]), chunks[1..], stream, r + |chunks[0]|);
    }
  }

  lemma OrderedJoin(x: seq<Frame>, y: seq<Frame>, lo: nat, mid: nat, hi: nat)
    requires Ordered(x, lo, hi) && Ordered(y, mid, hi) && lo <= mid && End(x, lo) <= mid
    ensures Ordered(x + y, lo, hi)
  {
    forall i | 0 <= i < |x| ensures x[i].at + x[i].size <= mid {
      if i < |x| - 1 {
        assert x[i].at + x[i].size <= x[|x| - 1].at;
      }
    }
  }

  lemma OrderedWiden(frames: seq<Frame>, lo: nat, hi: nat, hi': nat)
    requires hi <= hi' && Ordered(frames, lo, hi)
    ensures Ordered(frames, lo, hi')
  {
  }

  // Over a whole run the accepted frames occupy disjoint intervals of the stream, in increasing order.
  lemma {:induction false} RunIsOrdered(p: Parsers, b: Buffer, chunks: seq<seq<byte>>, stream: seq<byte>, r: nat)
    requires Honest(p) && Reads(chunks) && IsWindow(b, stream, r) && Remains(stream, r, chunks)
    ensures Ordered(FramesOf(p, b, chunks), b.base, |stream|)
    decreases |chunks|
  {
    hide Advance, Accepted, Ordered, Honest;
    if chunks == [] {
      OrderedNone(b.base, |stream|);
    } else {
      RemainsStep(stream, r, chunks);
      TurnWindow(p, b, chunks[0], stream, r);
      var after := Advance(p, b, chunks[0]);
      RunIsOrdered(p, after, chunks[1..], stream, r + |chunks[0]|);
      OrderedWiden(Accepted(p, b, chunks[0]), b.base, r + |chunks[0]|, |stream|);
      OrderedJoin(Accepted(p, b, chunks[0]), FramesOf(p, after, chunks[1..]), b.base, after.base, |stream|);
    }
  }

  // The parsers accepted the bytes of the frame when the stream had been received up to some point.
  ghost predicate Genuine(p: Parsers, f: Frame, stream: seq<byte>) {
    exists seen :: f.at + f.size <= seen <= |stream| && IsFrame(p, stream[f.at..seen], f.size, f.effect)
  }

  lemma {:induction false} ScanIsGenuine(p: Parsers, b: Buffer, rd: nat, stream: seq<byte>)
    requires Honest(p) && rd <= |b.bytes|
    requires b.base + |b.bytes| <= |stream| && b.bytes == stream[b.base..b.base + |b.bytes|]
    ensures forall f :: f in Scan(p, b, rd) ==> Genuine(p, f, stream)
    decreases |b.bytes| - rd
  {
    hide FrameSize, FrameEffect, Honest;
    if rd == |b.bytes| {
      ScanEnd(p, b);
    } else {
      ScanStep(p, b, rd);
      var size := FrameSize(p, b.bytes[rd..]);
      var seen := b.base + |b.bytes|;
      assert b.bytes[rd..] == stream[b.base + rd..seen];
      ScanIsGenuine(p, b, if size > 0 then rd + size else rd + 1, stream);
      if size > 0 {
        FrameSizeIs(p, stream[b.base + rd..seen], size, FrameEffect(p, b.bytes[rd..]));
        assert Genuine(p, Frame(b.base + rd, size, FrameEffect(p, b.bytes[rd..])), stream);
      }
    }
  }

  lemma {:induction false} RunIsGenuine(p: Parsers, b: Buffer, chunks: seq<seq<byte>>, stream: seq<byte>, r: nat)
    requires Honest(p) && Reads(chunks) && IsWindow(b, stream, r) && Remains(stream, r, chunks)
    ensures forall f :: f in FramesOf(p, b, chunks) ==> Genuine(p, f, stream)
    decreases |chunks|
  {
    hide Advance, Scan, Genuine, Honest;
    if chunks != [] {
      RemainsStep(stream, r, chunks);
      TurnWindow(p, b, chunks[0], stream, r);
      RunIsGenuine(p, Advance(p, b, chunks[0]), chunks[1..], stream, r + |chunks[0]|);
      ScanIsGenuine(p, Received(b, chunks[0]), 0, stream);
    }
  }

  // Every run from the start, over any reads: the buffer holds the end of the stream with room for a further read,
  // and the accepted frames are disjoint, in order, and accepted by the parsers on the bytes of the stream.
  lemma RunFromStart(p: Parsers, chunks: seq<seq<byte>>)
    requires Honest(p) && Reads(chunks)
    ensures IsWindow(BufferAfter(p, Buffer(0, []), chunks), Stream(chunks), |Stream(chunks)|)
    ensures Ordered(FramesOf(p, Buffer(0, []), chunks), 0, |Stream(chunks)|)
    ensures forall f :: f in FramesOf(p, Buffer(0, []), chunks) ==> Genuine(p, f, Stream(chunks))
  {
    hide Honest, Ordered, Genuine;
    var stream := Stream(chunks);
    assert stream[0..] == stream && stream[0..0] == [];
    RunWindow(p, Buffer(0, []), chunks, stream, 0);
    RunIsOrdered(p, Buffer(0, []), chunks, stream, 0);
    RunIsGenuine(p, Buffer(0, []), chunks, stream, 0);
  }

  // The thread until it is stopped: one read per turn.
  method RunGps(p: Parsers, chunks: seq<seq<byte>>) returns (runner: GpsRunner, ghost frames: seq<Frame>)
    requires Honest(p) && Reads(chunks)
    ensures runner.Valid() && runner.Contents() == BufferAfter(p, Buffer(0, []), chunks)
    ensures frames == FramesOf(p, Buffer(0, []), chunks)
    ensures IsWindow(runner.Contents(), Stream(chunks), |Stream(chunks)|)
    ensures Ordered(frames, 0, |Stream(chunks)|)
    ensures forall f :: f in frames ==> Genuine(p, f, Stream(chunks))
  {
    hide Accepted, Advance, Honest, IsWindow, Ordered, Genuine;
    RunFromStart(p, chunks);
    runner := new GpsRunner();
    frames := [];
    for i := 0 to |chunks|
      invariant runner.Valid() && fresh(runner) && fresh(runner.serial)
      invariant BufferAfter(p, runner.Contents(), chunks[i..]) == BufferAfter(p, Buffer(0, []), chunks)
      invariant frames + FramesOf(p, runner.Contents(), chunks[i..]) == FramesOf(p, Buffer(0, []), chunks)
    {
      assert chunks[i..][1..] == chunks[i + 1..];
      var effects;
      ghost var more;
      effects, more := runner.Turn(p, chunks[i]);
      frames := frames + more;
    }
  }

  // ---- nothing acceptable is lost ----

  // From the time all its n bytes are there, the frame at a is accepted by the parsers.
  ghost predicate Stands(p: Parsers, stream: seq<byte>, a: nat, n: nat) {
    && 0 < n && a + n <= |stream|
    && forall seen :: a + n <= seen <= |stream| ==> FrameSize(p, stream[a..seen]) == n
  }

  ghost predicate Overlaps(f: Frame, a: nat, n: nat) {
    f.at < a + n && a < f.at + f.size
  }

  ghost predicate SomeOverlaps(frames: seq<Frame>, a: nat, n: nat) {
    exists i :: 0 <= i < |frames| && Overlaps(frames[i], a, n)
  }

  lemma OverlapsLeft(x: seq<Frame>, y: seq<Frame>, a: nat, n: nat)
    requires SomeOverlaps(x, a, n)
    ensures SomeOverlaps(x + y, a, n)
  {
    var i :| 0 <= i < |x| && Overlaps(x[i], a, n);
    assert (x + y)[i] == x[i];
  }

  lemma OverlapsRight(x: seq<Frame>, y: seq<Frame>, a: nat, n: nat)
    requires SomeOverlaps(y, a, n)
    ensures SomeOverlaps(x + y, a, n)
  {
    var i :| 0 <= i < |y| && Overlaps(y[i], a, n);
    assert (x + y)[|x| + i] == y[i];
  }

  // A search that starts no later than a frame that stands accepts it, or a frame that covers its first byte.
  lemma {:induction false} ScanMeets(p: Parsers, b: Buffer, rd: nat, k: nat, n: nat)
    requires Honest(p) && rd <= k < |b.bytes| && n > 0 && FrameSize(p, b.bytes[k..]) == n
    ensures SomeOverlaps(Scan(p, b, rd), b.base + k, n)
    decreases k - rd
  {
    hide FrameSize, FrameEffect, Honest, Scan, SomeOverlaps;
    ScanStep(p, b, rd);
    var size := FrameSize(p, b.bytes[rd..]);
    if size == 0 {
      ScanMeets(p, b, rd + 1, k, n);
    } else {
      var f := Frame(b.base + rd, size, FrameEffect(p, b.bytes[rd..]));
      if rd + size > k {
        OneOverlaps(f, b.base + k, n);
        OverlapsLeft([f], Scan(p, b, rd + size), b.base + k, n);
      } else {
        ScanMeets(p, b, rd + size, k, n);
        OverlapsRight([f], Scan(p, b, rd + size), b.base + k, n);
      }
    }
  }

  lemma OneOverlaps(f: Frame, a: nat, n: nat)
    requires Overlaps(f, a, n)
    ensures SomeOverlaps([f], a, n)
  {
    assert [f][0] == f;
  }

  // The longest frame that is never pushed out of the buffer before it is complete.
  const SAFE_FRAME: nat := 114

  // One turn: either something that overlaps the frame is accepted, or the frame is not complete yet and none of
  // its bytes has been dropped.
  lemma TurnKeeps(p: Parsers, b: Buffer, chunk: seq<byte>, stream: seq<byte>, r: nat, a: nat, n: nat)
    requires Honest(p) && IsWindow(b, stream, r) && |chunk| <= LGW_GPS_MIN_MSG_SIZE
    requires r + |chunk| <= |stream| && stream[r..r + |chunk|] == chunk
    requires Stands(p, stream, a, n) && n <= SAFE_FRAME && b.base <= a && r < a + n
    ensures SomeOverlaps(Accepted(p, b, chunk), a, n) ||
            (Advance(p, b, chunk).base <= a && r + |chunk| < a + n)
  {
    hide Honest, Accepted, Advance, FrameSize, Stands, IsWindow, SomeOverlaps;
    StandsFits(p, stream, a, n);
    WindowEnds(b, stream, r);
    if a + n <= r + |chunk| {
      TurnWindow(p, b, chunk, stream, r);
      Complete(p, b, chunk, stream, a, n);
    } else {
      NotYetComplete(p, b, chunk, a, n);
    }
  }

  lemma Tail(stream: seq<byte>, lo: nat, a: nat, hi: nat)
    requires lo <= a <= hi <= |stream|
    ensures stream[lo..hi][a - lo..] == stream[a..hi]
  {
  }

  lemma Complete(p: Parsers, b: Buffer, chunk: seq<byte>, stream: seq<byte>, a: nat, n: nat)
    requires Honest(p) && Stands(p, stream, a, n) && chunk != []
    requires b.base <= a && a + n <= b.base + |b.bytes| + |chunk| <= |stream|
    requires Received(b, chunk).bytes == stream[b.base..b.base + |b.bytes| + |chunk|]
    ensures SomeOverlaps(Accepted(p, b, chunk), a, n)
  {
    hide Honest, Scan, FrameSize, Stands, SomeOverlaps;
    var seen := b.base + |b.bytes| + |chunk|;
    StandsAt(p, stream, a, n, seen);
    Tail(stream, b.base, a, seen);
    ScanMeets(p, Received(b, chunk), 0, a - b.base, n);
  }

  lemma WindowEnds(b: Buffer, stream: seq<byte>, r: nat)
    requires IsWindow(b, stream, r)
    ensures b.base + |b.bytes| == r && |b.bytes| <= CAPACITY - LGW_GPS_MIN_MSG_SIZE
  {
  }

  lemma NotYetComplete(p: Parsers, b: Buffer, chunk: seq<byte>, a: nat, n: nat)
    requires Honest(p) && |b.bytes| <= CAPACITY - LGW_GPS_MIN_MSG_SIZE && |chunk| <= LGW_GPS_MIN_MSG_SIZE
    requires 0 < n <= SAFE_FRAME && b.base <= a && b.base + |b.bytes| + |chunk| < a + n
    ensures SomeOverlaps(Accepted(p, b, chunk), a, n) || Advance(p, b, chunk).base <= a
  {
    hide Honest, Accepted;
    var frames := Accepted(p, b, chunk);
    if End(frames, b.base) > a && frames != [] {
      assert Overlaps(frames[|frames| - 1], a, n);
    }
  }

  lemma StandsAt(p: Parsers, stream: seq<byte>, a: nat, n: nat, seen: nat)
    requires Stands(p, stream, a, n) && a + n <= seen <= |stream|
    ensures FrameSize(p, stream[a..seen]) == n > 0
  {
  }

  lemma {:induction false} RunMeets(p: Parsers, b: Buffer, chunks: seq<seq<byte>>, stream: seq<byte>, r: nat,
                                    a: nat, n: nat)
    requires Honest(p) && Reads(chunks) && IsWindow(b, stream, r) && Remains(stream, r, chunks)
    requires Stands(p, stream, a, n) && n <= SAFE_FRAME && b.base <= a && r < a + n
    ensures SomeOverlaps(FramesOf(p, b, chunks), a, n)
    decreases |chunks|
  {
    hide Honest, Accepted, Advance, Stands, SomeOverlaps, IsWindow;
    StandsFits(p, stream, a, n);
    if chunks != [] {
      RemainsStep(stream, r, chunks);
      TurnWindow(p, b, chunks[0], stream, r);
      TurnKeeps(p, b, chunks[0], stream, r, a, n);
      var after := Advance(p, b, chunks[0]);
      var first, rest := Accepted(p, b, chunks[0]), FramesOf(p, after, chunks[1..]);
      if SomeOverlaps(first, a, n) {
        OverlapsLeft(first, rest, a, n);
      } else {
        RunMeets(p, after, chunks[1..], stream, r + |chunks[0]|, a, n);
        OverlapsRight(first, rest, a, n);
      }
    }
  }

  lemma StandsFits(p: Parsers, stream: seq<byte>, a: nat, n: nat)
    requires Stands(p, stream, a, n)
    ensures 0 < n && a + n <= |stream|
  {
  }

  // However the stream is cut into reads, a frame of at most 114 bytes that the parsers accept is accepted by the
  // run, unless an accepted frame overlaps it.
  lemma NothingLost(p: Parsers, chunks: seq<seq<byte>>, a: nat, n: nat)
    requires Honest(p) && Reads(chunks) && Stands(p, Stream(chunks), a, n) && n <= SAFE_FRAME
    ensures SomeOverlaps(FramesOf(p, Buffer(0, []), chunks), a, n)
  {
    hide Honest, Stands, SomeOverlaps;
    var stream := Stream(chunks);
    assert stream[0..] == stream && stream[0..0] == [];
    StandsFits(p, stream, a, n);
    StandsAt(p, stream, a, n, |stream|);
    RunMeets(p, Buffer(0, []), chunks, stream, 0, a, n);
  }

  // An NMEA sentence: from the sync character to the first line feed.
  ghost predicate IsSentence(p: Parsers, stream: seq<byte>, a: nat, n: nat) {
    && 2 <= n && a + n <= |stream| && stream[a] == LGW_GPS_NMEA_SYNC_CHAR
    && stream[a + n - 1] == LINE_FEED && LINE_FEED !in stream[a..a + n - 1]
    && p.nmea(stream[a..a + n]) != Invalid && p.nmea(stream[a..a + n]) != Unknown
  }

  lemma SentenceStands(p: Parsers, stream: seq<byte>, a: nat, n: nat)
    requires IsSentence(p, stream, a, n)
    ensures Stands(p, stream, a, n)
  {
    forall seen | a + n <= seen <= |stream| ensures FrameSize(p, stream[a..seen]) == n {
      var w := stream[a..seen];
      assert w[..n - 1] == stream[a..a + n - 1];
      LineEndIs(w, n - 1);
      assert w[..n] == stream[a..a + n];
    }
  }

  lemma SentenceNotLost(p: Parsers, chunks: seq<seq<byte>>, a: nat, n: nat)
    requires Honest(p) && Reads(chunks) && IsSentence(p, Stream(chunks), a, n) && n <= SAFE_FRAME
    ensures SomeOverlaps(FramesOf(p, Buffer(0, []), chunks), a, n)
  {
    hide Honest, IsSentence, Stands, SomeOverlaps;
    SentenceStands(p, Stream(chunks), a, n);
    NothingLost(p, chunks, a, n);
  }

  // A UBX frame: from some byte on the parser answers its size, and that it is neither incomplete nor invalid.
  ghost predicate IsUbxFrame(p: Parsers, stream: seq<byte>, a: nat, n: nat) {
    && 0 < n && a + n <= |stream| && stream[a] == 0xB5
    && forall seen :: a + n <= seen <= |stream| ==>
         var (message, size) := p.ubx(stream[a..seen]);
         size == n && message != Incomplete && message != Invalid
  }

  lemma UbxFrameStands(p: Parsers, stream: seq<byte>, a: nat, n: nat)
    requires IsUbxFrame(p, stream, a, n)
    ensures Stands(p, stream, a, n)
  {
    forall seen | a + n <= seen <= |stream| ensures FrameSize(p, stream[a..seen]) == n {
      assert stream[a..seen][0] == stream[a];
    }
  }

  lemma UbxFrameNotLost(p: Parsers, chunks: seq<seq<byte>>, a: nat, n: nat)
    requires Honest(p) && Reads(chunks) && IsUbxFrame(p, Stream(chunks), a, n) && n <= SAFE_FRAME
    ensures SomeOverlaps(FramesOf(p, Buffer(0, []), chunks), a, n)
  {
    hide Honest, IsUbxFrame, Stands, SomeOverlaps;
    UbxFrameStands(p, Stream(chunks), a, n);
    NothingLost(p, chunks, a, n);
  }

  // ---- the bound is exact ----

  // Seven bytes of noise, then a sentence of n bytes; nothing else in it looks like a frame.
  ghost predicate LongSentence(stream: seq<byte>, n: nat) {
    && |stream| == 7 + n
    && forall k :: 0 <= k < |stream| ==>
         && stream[k] != LGW_GPS_UBX_SYNC_CHAR
         && (stream[k] == LGW_GPS_NMEA_SYNC_CHAR <==> k == 7)
         && (stream[k] == LINE_FEED <==> k == 6 + n)
  }

  // One byte per read, from byte r on.
  function Singles(stream: seq<byte>, r: nat): seq<seq<byte>>
    requires r <= |stream|
  {
    seq(|stream| - r, i requires 0 <= i < |stream| - r => [stream[r + i]])
  }

  ghost predicate Quiet(bytes: seq<byte>) {
    LGW_GPS_UBX_SYNC_CHAR !in bytes && (LGW_GPS_NMEA_SYNC_CHAR !in bytes || LINE_FEED !in bytes)
  }

  lemma {:induction false} ScanQuiet(p: Parsers, b: Buffer, rd: nat)
    requires Honest(p) && rd <= |b.bytes| && Quiet(b.bytes)
    ensures Scan(p, b, rd) == []
    decreases |b.bytes| - rd
  {
    if rd == |b.bytes| {
      ScanEnd(p, b);
    } else {
      var w := b.bytes[rd..];
      assert w[0] in b.bytes;
      assert LineEnd(w) < |w| ==> w[LineEnd(w)] in b.bytes;
      ScanStep(p, b, rd);
      ScanQuiet(p, b, rd + 1);
    }
  }

  lemma QuietPart(stream: seq<byte>, n: nat, lo: nat, hi: nat)
    requires LongSentence(stream, n) && lo <= hi <= |stream| && (lo >= 8 || hi <= 6 + n)
    ensures Quiet(stream[lo..hi])
  {
  }

  // The sync character is the eighth byte; it is gone once 121 bytes have been received.
  ghost predicate Passed(b: Buffer, r: nat) {
    if r <= 120 then b.base == 0 else b.base >= 8
  }

  lemma NothingAccepted(p: Parsers, b: Buffer, chunk: seq<byte>)
    requires Honest(p) && |chunk| == 1 && Quiet(Received(b, chunk).bytes)
    ensures Accepted(p, b, chunk) == [] && Advance(p, b, chunk) == Trimmed(Received(b, chunk), 0)
  {
    hide Honest, Scan, Quiet;
    ScanQuiet(p, Received(b, chunk), 0);
  }

  lemma PassedStep(b: Buffer, chunk: seq<byte>, r: nat)
    requires |chunk| == 1 && Passed(b, r) && b.base + |b.bytes| == r
    ensures Passed(Trimmed(Received(b, chunk), 0), r + 1)
  {
  }

  lemma TurnQuiet(p: Parsers, b: Buffer, stream: seq<byte>, n: nat, r: nat)
    requires Honest(p) && LongSentence(stream, n) && n > SAFE_FRAME && r < |stream| && IsWindow(b, stream, r)
    requires Passed(b, r)
    ensures Accepted(p, b, [stream[r]]) == [] && Passed(Advance(p, b, [stream[r]]), r + 1)
    ensures IsWindow(Advance(p, b, [stream[r]]), stream, r + 1)
  {
    hide Honest, Accepted, Advance, Received, Quiet, IsWindow;
    var chunk := [stream[r]];
    TurnWindow(p, b, chunk, stream, r);
    WindowEnds(b, stream, r);
    QuietPart(stream, n, b.base, r + 1);
    NothingAccepted(p, b, chunk);
    PassedStep(b, chunk, r);
  }

  lemma {:induction false} LostFrom(p: Parsers, b: Buffer, stream: seq<byte>, n: nat, r: nat)
    requires Honest(p) && LongSentence(stream, n) && n > SAFE_FRAME && r <= |stream| && IsWindow(b, stream, r)
    requires Passed(b, r)
    ensures FramesOf(p, b, Singles(stream, r)) == []
    decreases |stream| - r
  {
    hide Honest, Accepted, Advance, LongSentence, IsWindow, Passed;
    if r < |stream| {
      TurnQuiet(p, b, stream, n, r);
      LostFrom(p, Advance(p, b, [stream[r]]), stream, n, r + 1);
      assert Singles(stream, r)[0] == [stream[r]];
      assert Singles(stream, r)[1..] == Singles(stream, r + 1);
    }
  }

  // Whatever the parsers think of it, a sentence of 115 bytes or more is lost when it comes byte by byte after
  // seven bytes of noise.
  lemma LongSentenceLost(p: Parsers, stream: seq<byte>, n: nat)
    requires Honest(p) && LongSentence(stream, n) && n > SAFE_FRAME
    ensures Reads(Singles(stream, 0)) && FramesOf(p, Buffer(0, []), Singles(stream, 0)) == []
  {
    hide Honest, LongSentence;
    LostFrom(p, Buffer(0, []), stream, n, 0);
  }
}
