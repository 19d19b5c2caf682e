/**
 FRMPayload encryption (section 4.3.3 of the LoRaWAN 1.0 Specification): the payload is combined with
 a key stream of AES blocks. AES under a fixed key is any function from blocks to blocks.
 */
module PayloadCipher {
  import opened Arithmetic
  import opened Basics

  // An input block as numbers, and the block AES makes of it.
  type Input = b: seq<byte> | |b| == 16 witness [0, 0, 0, 0, 0, 0, 0, 0, 0, 0, 0, 0, 0, 0, 0, 0]
  type Block = b: seq<bv8> | |b| == 16 witness [0, 0, 0, 0, 0, 0, 0, 0, 0, 0, 0, 0, 0, 0, 0, 0]

  type Address = a: seq<byte> | |a| == 4 witness [0, 0, 0, 0]

  datatype Message = Message(frameCounter: nat32, direction: byte, devAddr: Address)

  // The 16-bit counter when the k-th block (counting from 0) is made.
  function Counter(k: nat): nat {
    (k + 1) % 0x1_0000
  }

  // The input block the code makes; it takes the two low bytes of the frame counter.
  function InputBlock(m: Message, ctr: nat): Input {
    [1, 0, 0, 0, 0, m.direction, m.devAddr[0], m.devAddr[1], m.devAddr[2], m.devAddr[3],
     m.frameCounter % 0x100, m.frameCounter / 0x100 % 0x100, 0, 0, 0, ctr % 0x100]
  }

  // The 8-bit write position when the k-th block is made.
  function WritePos(k: nat): nat {
    16 * k % 0x100
  }

  lemma Start()
    ensures Counter(0) == 1 && WritePos(0) == 0
  {
  }

  lemma CounterStep(k: nat)
    ensures Counter(k + 1) == (Counter(k) + 1) % 0x1_0000
  {
    assert k + 1 == 0x1_0000 * ((k + 1) / 0x1_0000) + Counter(k);
  }

  lemma WritePosIs(k: nat)
    ensures WritePos(k) == 16 * (k % 16)
  {
    assert 16 * k == 0x100 * (k / 16) + 16 * (k % 16);
  }

  lemma WritePosStep(k: nat)
    ensures WritePos(k + 1) == (WritePos(k) + 16) % 0x100
    ensures WritePos(k) + 16 <= 16 * k + 16
  {
    hide WritePos;
    WritePosIs(k);
    WritePosIs(k + 1);
    assert (k + 1) % 16 == if k % 16 == 15 then 0 else k % 16 + 1;
  }

  // ---- which block ends up masking a byte ----

  datatype Writer = Nobody | Number(k: nat)

  // The last of the first k full blocks that writes byte j: the write position is an 8-bit number.
  function FullWriter(k: nat, j: nat): Writer {
    if k == 0 then Nobody
    else if WritePos(k - 1) <= j < WritePos(k - 1) + 16 then Number(k - 1)
    else FullWriter(k - 1, j)
  }

  // The last block that writes byte j of a payload of n bytes.
  function LastWriter(n: nat, j: nat): Writer {
    var at := WritePos(n / 16);
    if at <= j < at + n % 16 then Number(n / 16) else FullWriter(n / 16, j)
  }

  function Mask(aes: Input -> Block, m: Message, w: Writer, j: nat): bv8 {
    match w
    case Nobody => 0
    case Number(k) => aes(InputBlock(m, Counter(k)))[j % 16]
  }

  // The payload with every byte masked; the masks depend on its length but not on its content.
  function Encrypted(aes: Input -> Block, m: Message, payload: seq<bv8>): (r: seq<bv8>)
    ensures |r| == |payload|
  {
    seq(|payload|, j requires 0 <= j < |payload| => payload[j] ^ Mask(aes, m, LastWriter(|payload|, j), j))
  }

  // The buffer after k full blocks.
  function AfterBlocks(aes: Input -> Block, m: Message, payload: seq<bv8>, k: nat): (r: seq<bv8>)
    ensures |r| == |payload|
  {
    seq(|payload|, j requires 0 <= j < |payload| => payload[j] ^ Mask(aes, m, FullWriter(k, j), j))
  }

  // One block: count bytes from position at on become payload bytes masked by the block.
  function WithBlock(buffer: seq<bv8>, payload: seq<bv8>, at: nat, s: Block, count: nat): (r: seq<bv8>)
    requires |buffer| == |payload| && count <= 16 && at + count <= |payload|
    ensures |r| == |payload|
  {
    seq(|payload|, j requires 0 <= j < |payload| => if at <= j < at + count then payload[j] ^ s[j - at] else buffer[j])
  }

  method EncryptPayload(payload: array<bv8>, aes: Input -> Block, m: Message)
    modifies payload
    ensures payload[..] == Encrypted(aes, m, old(payload[..]))
  {
    hide Encrypted;
    var encBuffer := EncryptToBuffer(payload, aes, m);
    forall j | 0 <= j < payload.Length {
      payload[j] := encBuffer[j];
    }
    assert payload[..] == encBuffer[..];
  }

  method EncryptToBuffer(payload: array<bv8>, aes: Input -> Block, m: Message) returns (encBuffer: array<bv8>)
    ensures fresh(encBuffer) && encBuffer.Length == payload.Length
    ensures encBuffer[..] == Encrypted(aes, m, payload[..])
  {
    hide InputBlock, Encrypted, AfterBlocks, WithBlock, WritePos, Counter;
    Start();
    ghost var p := payload[..];
    var size := payload.Length;
    var ctr := 1;
    var bufferIndex := 0;
    encBuffer := new bv8[payload.Length](j requires 0 <= j < payload.Length reads payload => payload[j]);
    NothingMasked(aes, m, p);
    assert encBuffer[..] == p;
    ghost var k := 0;
    while size >= 16
      invariant 0 <= size && |p| == 16 * k + size
      invariant ctr == Counter(k) && bufferIndex == WritePos(k)
      invariant encBuffer[..] == AfterBlocks(aes, m, p, k)
    {
      CounterStep(k);
      WritePosStep(k);
      MaskBlock(encBuffer, payload, bufferIndex, aes(InputBlock(m, ctr)), 16);
      FullBlock(aes, m, p, k);
      ctr := (ctr + 1) % 0x1_0000;
      size := size - 16;
      bufferIndex := (bufferIndex + 16) % 0x100;
      k := k + 1;
    }
    assert k == |p| / 16 && size == |p| % 16;
    LastBlock(aes, m, p);
    if size > 0 {
      MaskBlock(encBuffer, payload, bufferIndex, aes(InputBlock(m, ctr)), size);
    }
  }

  lemma NothingMasked(aes: Input -> Block, m: Message, p: seq<bv8>)
    ensures AfterBlocks(aes, m, p, 0) == p
  {
  }

  lemma FullBlock(aes: Input -> Block, m: Message, p: seq<bv8>, k: nat)
    requires 16 * k + 16 <= |p|
    ensures WithBlock(AfterBlocks(aes, m, p, k), p, WritePos(k), aes(InputBlock(m, Counter(k))), 16)
      == AfterBlocks(aes, m, p, k + 1)
  {
    hide InputBlock, Counter;
    var at := WritePos(k);
    forall j | 0 <= j < |p| && at <= j < at + 16 ensures j - at == j % 16 {
      WritePosition(k, j);
    }
  }

  lemma LastBlock(aes: Input -> Block, m: Message, p: seq<bv8>)
    ensures var k, count := |p| / 16, |p| % 16;
      var at := WritePos(k);
      at + count <= |p|
      && (count == 0 ==> AfterBlocks(aes, m, p, k) == Encrypted(aes, m, p))
      && (count > 0 ==>
            WithBlock(AfterBlocks(aes, m, p, k), p, at, aes(InputBlock(m, Counter(k))), count) == Encrypted(aes, m, p))
  {
    hide InputBlock, Counter;
    var k := |p| / 16;
    var at := WritePos(k);
    forall j | 0 <= j < |p| && at <= j < at + 16 ensures j - at == j % 16 {
      WritePosition(k, j);
    }
  }

  // The inner loops.
  method MaskBlock(encBuffer: array<bv8>, payload: array<bv8>, at: nat, s: Block, count: nat)
    requires encBuffer != payload && encBuffer.Length == payload.Length
    requires count <= 16 && at + count <= payload.Length
    modifies encBuffer
    ensures encBuffer[..] == WithBlock(old(encBuffer[..]), payload[..], at, s, count)
  {
    var i := 0;
    while i < count
      invariant i <= count
      invariant encBuffer[..] == WithBlock(old(encBuffer[..]), payload[..], at, s, i)
    {
      encBuffer[at + i] := payload[at + i] ^ s[i];
      i := i + 1;
    }
  }

  // decryptPayload() is encryptPayload().
  method DecryptPayload(payload: array<bv8>, aes: Input -> Block, m: Message)
    modifies payload
    ensures payload[..] == Encrypted(aes, m, old(payload[..]))
  {
    EncryptPayload(payload, aes, m);
  }

  lemma XorTwice(x: bv8, y: bv8)
    ensures (x ^ y) ^ y == x
  {
  }

  // Decryption undoes encryption, for payloads of every length.
  lemma DecryptUndoesEncrypt(aes: Input -> Block, m: Message, payload: seq<bv8>)
    ensures Encrypted(aes, m, Encrypted(aes, m, payload)) == payload
  {
    hide Mask;
    var once := Encrypted(aes, m, payload);
    forall j | 0 <= j < |payload| ensures Encrypted(aes, m, once)[j] == payload[j] {
      XorTwice(payload[j], Mask(aes, m, LastWriter(|payload|, j), j));
    }
  }

  // ---- the standard's key stream ----

  // A_i of the specification: the full frame counter, and the block number i = k + 1 in the last byte.
  function StandardBlock(m: Message, k: nat): Input {
    [1, 0, 0, 0, 0, m.direction, m.devAddr[0], m.devAddr[1], m.devAddr[2], m.devAddr[3],
     m.frameCounter % 0x100, m.frameCounter / 0x100 % 0x100, m.frameCounter / 0x1_0000 % 0x100,
     m.frameCounter / 0x100_0000, 0, (k + 1) % 0x100]
  }

  function StandardEncrypted(aes: Input -> Block, m: Message, payload: seq<bv8>): (r: seq<bv8>)
    ensures |r| == |payload|
  {
    seq(|payload|, j requires 0 <= j < |payload| => payload[j] ^ aes(StandardBlock(m, j / 16))[j % 16])
  }

  // The last byte of the input block is the low byte of the block number, though the counter wraps at 2^16.
  lemma CounterByte(k: nat)
    ensures Counter(k) % 0x100 == (k + 1) % 0x100
  {
    var q, c := (k + 1) / 0x1_0000, Counter(k);
    DivMod(k + 1, 0x1_0000);
    DivMod(c, 0x100);
    QuotientUnique(k + 1, 0x100, 0x100 * q + c / 0x100, c % 0x100);
  }

  // The upper half of the frame counter is zero when its bytes are.
  lemma UpperBytes(n: nat32)
    ensures n < 0x1_0000 <==> n / 0x1_0000 % 0x100 == 0 && n / 0x100_0000 == 0
  {
    var h := n / 0x1_0000;
    assert h / 0x100 == n / 0x100_0000;
  }

  // The code's input block is the standard's exactly while the frame counter fits in 16 bits.
  lemma InputBlockIsStandard(m: Message, k: nat)
    ensures InputBlock(m, Counter(k)) == StandardBlock(m, k) <==> m.frameCounter < 0x1_0000
  {
    hide Counter;
    CounterByte(k);
    UpperBytes(m.frameCounter);
    BlocksDiffer(m, Counter(k), k);
  }

  lemma BlocksDiffer(m: Message, ctr: nat, k: nat)
    requires ctr % 0x100 == (k + 1) % 0x100
    ensures InputBlock(m, ctr) == StandardBlock(m, k) <==>
            m.frameCounter / 0x1_0000 % 0x100 == 0 && m.frameCounter / 0x100_0000 == 0
  {
    var a, b := InputBlock(m, ctr), StandardBlock(m, k);
    assert a == b <==> a[12] == b[12] && a[13] == b[13];
  }

  lemma WritePosition(k: nat, j: nat)
    ensures WritePos(k) == 16 * (k % 16)
    ensures WritePos(k) <= j < WritePos(k) + 16 <==> j / 16 == k % 16
  {
    hide WritePos;
    WritePosIs(k);
  }

  // Which of the first blocks write byte j: none from byte 256 on, otherwise one in each cycle of 16.
  lemma Covered(k: nat, j: nat)
    ensures j >= 0x100 ==> !(WritePos(k) <= j < WritePos(k) + 16)
    ensures j < 0x100 && k < j / 16 ==> !(WritePos(k) <= j < WritePos(k) + 16)
    ensures j < 0x100 && (k == j / 16 || k == j / 16 + 16) ==> WritePos(k) <= j < WritePos(k) + 16
    ensures j < 0x100 && j / 16 < k < j / 16 + 16 ==> !(WritePos(k) <= j < WritePos(k) + 16)
  {
    hide WritePos;
    WritePosition(k, j);
  }

  lemma {:induction false} FullWriterIs(k: nat, j: nat)
    ensures j >= 0x100 ==> FullWriter(k, j) == Nobody
    ensures j < 0x100 && k <= j / 16 ==> FullWriter(k, j) == Nobody
    ensures j < 0x100 && j / 16 < k <= j / 16 + 16 ==> FullWriter(k, j) == Number(j / 16)
    ensures j < 0x100 && k > j / 16 + 16 ==> FullWriter(k, j).Number? && FullWriter(k, j).k > j / 16
  {
    if k > 0 {
      hide WritePos;
      FullWriterIs(k - 1, j);
      Covered(k - 1, j);
    }
  }

  // Byte j gets the block the standard gives it exactly when j is below 256 and the payload ends within 256
  // bytes after it; from byte 256 on nothing is masked.
  lemma BlockForByte(n: nat, j: nat)
    requires j < n
    ensures LastWriter(n, j) == Number(j / 16) <==> j < 0x100 && n <= j + 0x100
    ensures j >= 0x100 <==> LastWriter(n, j) == Nobody
  {
    hide FullWriter, WritePos;
    FullWriterIs(n / 16, j);
    WritePosition(n / 16, j);
  }

  lemma ShortPayload(aes: Input -> Block, m: Message, payload: seq<bv8>)
    requires |payload| <= 0x100 && m.frameCounter < 0x1_0000
    ensures Encrypted(aes, m, payload) == StandardEncrypted(aes, m, payload)
  {
    hide InputBlock, StandardBlock, LastWriter;
    forall j | 0 <= j < |payload| ensures Encrypted(aes, m, payload)[j] == StandardEncrypted(aes, m, payload)[j] {
      BlockForByte(|payload|, j);
      InputBlockIsStandard(m, j / 16);
    }
  }

  // Two block functions that tell the code from the standard: one for long payloads, one for large counters.
  function Filled(b: bv8): Block {
    [b, b, b, b, b, b, b, b, b, b, b, b, b, b, b, b]
  }

  function OnlyFor(input: Input): Input -> Block {
    (i: Input) => if i == input then Filled(1) else Filled(0)
  }

  lemma XorOne(x: bv8)
    ensures x ^ 1 != x ^ 0 && x ^ 0 == x
  {
  }

  lemma LongPayloadDiffers(m: Message, payload: seq<bv8>)
    requires |payload| > 0x100
    ensures exists aes: Input -> Block :: Encrypted(aes, m, payload) != StandardEncrypted(aes, m, payload)
  {
    hide InputBlock, StandardBlock, LastWriter;
    var ones: Input -> Block := (i: Input) => Filled(1);
    BlockForByte(|payload|, 0x100);
    XorOne(payload[0x100]);
    assert StandardEncrypted(ones, m, payload)[0x100] == payload[0x100] ^ 1;
    assert Encrypted(ones, m, payload)[0x100] == payload[0x100] ^ 0;
  }

  lemma LargeCounterDiffers(m: Message, payload: seq<bv8>)
    requires 0 < |payload| <= 0x100 && m.frameCounter >= 0x1_0000
    ensures exists aes: Input -> Block :: Encrypted(aes, m, payload) != StandardEncrypted(aes, m, payload)
  {
    hide InputBlock, StandardBlock, LastWriter;
    var aes := OnlyFor(StandardBlock(m, 0));
    BlockForByte(|payload|, 0);
    InputBlockIsStandard(m, 0);
    XorOne(payload[0]);
    assert StandardEncrypted(aes, m, payload)[0] == payload[0] ^ 1;
    assert Encrypted(aes, m, payload)[0] == payload[0] ^ 0;
  }

  // The code computes the standard's encryption, whatever the block cipher, exactly for empty payloads and for
  // payloads of up to 256 bytes under a 16-bit frame counter.
  lemma ShortPayloadIsStandard(m: Message, payload: seq<bv8>)
    ensures (forall aes: Input -> Block :: Encrypted(aes, m, payload) == StandardEncrypted(aes, m, payload)) <==>
            payload == [] || (|payload| <= 0x100 && m.frameCounter < 0x1_0000)
  {
    hide Encrypted, StandardEncrypted;
    if payload == [] {
      forall aes: Input -> Block ensures Encrypted(aes, m, payload) == StandardEncrypted(aes, m, payload) {
        assert |Encrypted(aes, m, payload)| == 0;
      }
    } else if |payload| > 0x100 {
      LongPayloadDiffers(m, payload);
    } else if m.frameCounter >= 0x1_0000 {
      LargeCounterDiffers(m, payload);
    } else {
      forall aes: Input -> Block ensures Encrypted(aes, m, payload) == StandardEncrypted(aes, m, payload) {
        ShortPayload(aes, m, payload);
      }
    }
  }

  // Every byte is masked by the standard's block number exactly when the payload has at most 256 bytes.
  lemma AllBlocksStandard(n: nat)
    ensures (forall j :: 0 <= j < n ==> LastWriter(n, j) == Number(j / 16)) <==> n <= 0x100
  {
    hide LastWriter;
    forall j | 0 <= j < n ensures LastWriter(n, j) == Number(j / 16) <==> j < 0x100 && n <= j + 0x100 {
      BlockForByte(n, j);
    }
    if n > 0x100 {
      assert LastWriter(n, n - 1) != Number((n - 1) / 16);
    }
  }

  // Bytes from 256 on come out as they went in.
  lemma LongPayloadTail(aes: Input -> Block, m: Message, payload: seq<bv8>, j: nat)
    requires 0x100 <= j < |payload|
    ensures Encrypted(aes, m, payload)[j] == payload[j]
  {
    hide InputBlock, LastWriter;
    BlockForByte(|payload|, j);
  }

  // ---- every length and every frame counter ----

  lemma {:induction false} FullWriterCycle(k: nat, j: nat)
    requires j < 0x100 && k > j / 16
    ensures FullWriter(k, j).Number?
    ensures var w := FullWriter(k, j).k; w % 16 == j / 16 && w < k <= w + 16
  {
    hide WritePos;
    WritePosition(k - 1, j);
    assert 0 <= j / 16 < 16;
    if (k - 1) % 16 == j / 16 {
      assert FullWriter(k, j) == Number(k - 1);
    } else {
      assert k - 1 != j / 16;
      FullWriterCycle(k - 1, j);
      assert FullWriter(k, j) == FullWriter(k - 1, j);
    }
  }

  // Block k is the last to write byte j of a payload of n bytes: it is one of the blocks that fall on that byte,
  // its byte is still in the payload, and 256 bytes further on there is none.
  predicate Last(n: nat, j: nat, k: nat) {
    k % 16 == j / 16 && 16 * k + j % 16 < n <= 16 * k + j % 16 + 0x100
  }

  // The blocks that fall on byte j are 16 apart, so only one of them is the last.
  lemma LastIsUnique(n: nat, j: nat, k: nat, l: nat)
    requires Last(n, j, k) && Last(n, j, l)
    ensures k == l
  {
    DivMod(k, 16);
    DivMod(l, 16);
  }

  lemma LastWriterLast(n: nat, j: nat)
    requires j < n && j < 0x100
    ensures LastWriter(n, j).Number? && Last(n, j, LastWriter(n, j).k)
  {
    hide FullWriter, WritePos;
    var full, rest := n / 16, n % 16;
    WritePosition(full, j);
    if full > j / 16 {
      FullWriterCycle(full, j);
    } else {
      assert full == j / 16 && full % 16 == full && j % 16 < rest;
    }
  }

  lemma LastWriterIs(n: nat, j: nat, k: nat)
    requires j < n && j < 0x100
    ensures LastWriter(n, j) == Number(k) <==> Last(n, j, k)
  {
    hide LastWriter, Last;
    LastWriterLast(n, j);
    if Last(n, j, k) {
      LastIsUnique(n, j, k, LastWriter(n, j).k);
    }
  }

  lemma LowCounterBlock(m: Message, k: nat)
    ensures InputBlock(m, Counter(k)) == StandardBlock(m.(frameCounter := m.frameCounter % 0x1_0000), k)
  {
    var low := m.(frameCounter := m.frameCounter % 0x1_0000);
    InputBlockIsStandard(low, k);
    LowBytes(m.frameCounter);
  }

  lemma LowBytes(n: nat32)
    ensures n % 0x1_0000 % 0x100 == n % 0x100 && n % 0x1_0000 / 0x100 % 0x100 == n / 0x100 % 0x100
  {
    var q, r := n / 0x1_0000, n % 0x1_0000;
    QuotientUnique(n, 0x100, 0x100 * q + r / 0x100, r % 0x100);
    QuotientUnique(n / 0x100, 0x100, q, r / 0x100);
  }

  // What encryption does in every case: byte j of the first 256 is masked by the standard's block for the low 16
  // bits of the frame counter, the last of the blocks j / 16, j / 16 + 16, ... that the payload reaches; later
  // bytes are not masked.
  lemma EncryptedIs(aes: Input -> Block, m: Message, payload: seq<bv8>, j: nat, k: nat)
    requires j < |payload| && (j < 0x100 ==> Last(|payload|, j, k))
    ensures Encrypted(aes, m, payload)[j] ==
      if j >= 0x100 then payload[j]
      else payload[j] ^ aes(StandardBlock(m.(frameCounter := m.frameCounter % 0x1_0000), k))[j % 16]
  {
    hide InputBlock, StandardBlock, LastWriter, Last;
    if j >= 0x100 {
      LongPayloadTail(aes, m, payload, j);
    } else {
      LastWriterIs(|payload|, j, k);
      LowCounterBlock(m, k);
    }
  }
}
