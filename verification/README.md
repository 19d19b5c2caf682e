# LoRaWAN network server: a model of its protocol core

A model of the stateful and arithmetic parts of the network server and its embedded gateway, with proofs about
every input, every run and every interleaving. Each Dafny module follows one component.

- `Basics`, `Arithmetic`, `Uint32`, `LowBits`: shared types, facts about quotients, 32-bit words, the numbers they
  stand for, and masks of low bits as remainders.
- `DevAddrCodec`, `DevAddrTypes`, `DevAddrLaws`, `NetIds`: the device address, overwritten in place (`dev-addr.cpp`,
  `net-id.cpp`, the 1.1 variants the build selects). The four bytes are one little-endian word. `DevAddrTypes` holds
  the bit-level facts, one address type at a time; `DevAddrLaws` joins them.
- `IdentityService`, `IdentityRuns`, `IdentityLoad`, `IdentityJoin`, `AddressText`: the address allocator over a map,
  its runs, loading a file as a run of parser events, joins, and addresses as text.
- `MacStream`, `MacFields`, `MacLayout`: MAC commands as a byte stream, the fields of one command, and the bytes of
  each command in plain arithmetic.
- `PayloadCipher`: the FRMPayload loops; AES under a key is any function from blocks to blocks.
- `Crc16`, `CrcPolynomial`, `GpsBuffer`, `BeaconPayload`, `Beacon`, `TxAdmission`: the gateway threads.
- `StatBuffer`: the two statistics services, as interleaved steps and as a class.

## Conventions

Code that changes things in place is a class or an array method whose contract equates the new state with a
function of the old one; lemmas then prove the promises about that function. Uninitialised memory is a parameter
(`junk`) that a statement holds for all values of. The GPS parsers, the transmit queue, the GPS reference, AES,
file appends and the clock are parameters or function values; the only assumption made about any of them is that
`lgw_parse_ubx` reports no complete frame longer than the bytes it was given (`GpsBuffer.Honest`). The GPS thread's
overlapping `memcpy` is taken to move the bytes, and the unlocked size test of the statistics services to read some
size the list has at that moment. In `StatBuffer` the saver may start a round at any time, which covers the runs in
which it is stopped.

## Where the code departs from its own documentation

The model follows the code. Each entry names the lemmas that say exactly when the departure shows.

- Types 3 and 4 shift the NwkId one bit too far, the type 4 getter reads a bit of the wrong byte, and the type 5
  masks are two bits off: `SetMeetsLayout`, `SetThenGet`, `GetThenSet`, `IncrementKeepsNwkId`. None of this breaks
  the allocator, since a network identifier yields at most 10 and 11 NwkId bits for types 3 and 4 (`NwkIdIsSafe`).
- A network without a free address, and no other, is answered with -606 rather than the documented -607:
  `NextBruteForce`, `NextIsSound`.
- The constructors that take a network identifier leave bytes uninitialised and ignore errors: `NextIsDeterministic`.
- A join does not reserve its address, and the address 0 is taken for none: `JoinDoesNotReserve`, `JoinIsStable`,
  `ZeroWord`.
- An object of a file can replace an earlier one: `LoadKeepsEach`, `NamedFirst`, `SecondObjectReplaces`.
- List elements never carry their direction: `GatewayElementPrints`, `GatewayListPrints`, `StaleBytesShow`,
  `GatewayListStale`.
- The write position of the cipher is 8 bits wide and the frame counter is cut to 16: `BlockForByte`,
  `InputBlockIsStandard`, `ShortPayloadIsStandard`.
- The retry product of the beacon scheduler is 32 bits wide: `AlwaysOnSlotsIff`.
- An unsupported power can be raised instead of lowered, since the test for a negative answer of the table search
  never holds; and a refused packet has already lost the antenna gain: `RadiatedPower`, `SecondOfferIsWeaker`.
- Saves that overlap can write the statistics file out of order: `FileKeepsOrder`, `FileCanBeOutOfOrder`.

## Model

| member | source | states |
|---|---|---|
| `DevAddrCodec.DevAddr.Set` | dev-addr.cpp:764-778 | overwriting an address in place: result code and word for every input, with the earlier steps left done when a later one fails |
| `DevAddrCodec.DevAddr.SetNetIdType` | dev-addr.cpp:210-241 | the prefix bits are replaced, or the word is left alone and the type error answered |
| `DevAddrCodec.DevAddr.SetNwkId` | dev-addr.cpp:606-654 | the NwkId bits are replaced with the shift distances and masks of the code, or nothing changes |
| `DevAddrCodec.DevAddr.SetNwkAddr` | dev-addr.cpp:714-762 | the NwkAddr bits are replaced with the masks of the code, or nothing changes |
| `DevAddrCodec.DevAddr.SetAddr` | dev-addr.cpp:780-784 | rewriting the NwkAddr under the type the word has |
| `DevAddrCodec.DevAddr.SetMinAddress` | dev-addr.cpp:129-139 | the first address of a network |
| `DevAddrCodec.DevAddr.SetMaxAddress` | dev-addr.cpp:117-127 | the last address of a network |
| `DevAddrCodec.DevAddr.Increment` | dev-addr.cpp:832-835 | the word and result code after one increment |
| `DevAddrCodec.DevAddr.Decrement` | dev-addr.cpp:837-840 | the word and result code after one decrement |
| `DevAddrLaws.SetStores` | dev-addr.cpp:764-778 | set on parts in range succeeds for all eight types, and what it stores does not depend on the previous bytes |
| `DevAddrLaws.FitsIsWidth` | dev-addr.cpp:606-762 | for all eight types the range checks accept exactly the NwkIds and NwkAddrs below 2 to the width that section 13 gives them, and size() + 1 is that power |
| `DevAddrLaws.SetMeetsLayout` | dev-addr.cpp:606-654 | set produces the layout of section 13 of the LoRaWAN Backend Interfaces specification if and only if type 3 or 4 has NwkId 0, or type 5 has a NwkId that is a multiple of four; always for the other types |
| `DevAddrLaws.SetThenGet` | dev-addr.cpp:306-329 | the getters return the three parts given to set if and only if the layout is exact and, for type 4, address bit 7 is clear |
| `DevAddrLaws.GetThenSet` | dev-addr.cpp:393-416 | set of its own decoded parts rebuilds a word, over any previous bytes, if and only if the word has a valid type and, for types 3 to 5, certain network bits are clear |
| `DevAddrLaws.StoredAddress` | dev-addr.cpp:181-208 | type and NwkAddr are read back after set for every NwkId that leaves the prefix alone |
| `DevAddrLaws.IncrementIsSuccessor` | dev-addr.cpp:832-835 | for every word: increment is the next word of the same type, and fails without change exactly at the largest NwkAddr or for an invalid prefix |
| `DevAddrLaws.DecrementIsPredecessor` | dev-addr.cpp:837-840 | for every word: decrement is the previous word of the same type, and fails without change exactly at NwkAddr 0 or for an invalid prefix |
| `DevAddrLaws.DecrementUndoesIncrement` | dev-addr.cpp:819-840 | decrement after a successful increment gives the word back, for type 5 with two NwkId bits cleared |
| `DevAddrLaws.IncrementKeepsNwkId` | dev-addr.cpp:714-762 | increment leaves the NwkId that is read alone, if and only if the new address does not touch the bits the NwkId getter or the type 5 mask take |
| `DevAddrLaws.StoredIncrement` | dev-addr.cpp:393-416 | inside a network, increment adds one to the NwkAddr until the maximum |
| `DevAddrLaws.Enumerates` | dev-addr.cpp:832-835 | from any address of a network, exactly the remaining number of increments reaches the maximum address |
| `DevAddrLaws.SizeIncrements` | dev-addr.cpp:117-150 | exactly size() increments lead from the minimum to the maximum address of a network, and the next one fails |
| `DevAddrLaws.PartialStep` | dev-addr.cpp:78-91 | an address built over uninitialised bytes with a NwkAddr out of range keeps the bits that were there, and stays in its network |
| `NetIds.NwkIdIsSafe` | net-id.cpp:54-73 | a NwkId taken from a network identifier never reaches into the address prefix, so the allocator below needs no exclusions |
| `NetIds.NwkIdIsLowBits` | net-id.cpp:54-73 | the NwkId of an identifier is its number modulo 2 to the width of its type: 6, 6, 9, 10, 11, 13, 15 and 17 bits |
| `NetIds.TypeIsTopBits` | net-id.cpp:27-30 | the type of an identifier is its number divided by 2^21 |
| `IdentityService.BlockNwkId` | identity-service-file-json.cpp:566-580 | the NwkId of an address of a network is read back if and only if type, NwkId and NwkAddr meet the round-trip condition |
| `IdentityService.BlockIsOfNetwork` | identity-service-file-json.cpp:566-580 | every address of a network carries the top three bits of the network identifier, and, for the types whose layout is exact, its low bits as NwkId |
| `IdentityService.JsonFileIdentityService.Put` | identity-service-file-json.cpp:385-399 | the map entry is set and the high-water mark raised if the NwkAddr is larger |
| `IdentityService.JsonFileIdentityService.Rm` | identity-service-file-json.cpp:401-408 | only the map entry goes; the mark stays |
| `IdentityService.JsonFileIdentityService.Clear` | identity-service-file-json.cpp:251-255 | map and mark are reset |
| `IdentityService.JsonFileIdentityService.NextBruteForce` | identity-service-file-json.cpp:586-610 | the loop answers with the least free address of the network and ends; on a full network it answers the increment error -606, not the documented -607 |
| `IdentityService.JsonFileIdentityService.Next` | identity-service-file-json.cpp:566-580 | for every map, mark and uninitialised bytes: success exactly when the network has a free address, and then an address of the network that is not stored, which carries the type and, where the layout is exact, the low bits of the network identifier; the device asked for is left alone |
| `IdentityService.FirstFreeIsLeast` | identity-service-file-json.cpp:586-610 | the search from an address finds the least free one, every smaller one from there on being stored |
| `IdentityService.LeastFreeIsLeast` | identity-service-file-json.cpp:586-610 | the search from the minimum address finds the least free one of the network |
| `IdentityService.NextIsSound` | identity-service-file-json.cpp:566-580 | the fast path with its fallback succeeds exactly when some address is free, and never answers with a stored one |
| `IdentityService.StartStep` | identity-service-file-json.cpp:566-571 | what the first increment of the fast path does, whatever the constructor left in the address object |
| `IdentityRuns.ApplyKeepsHighWater` | identity-service-file-json.cpp:385-408 | every operation keeps all stored NwkAddr at or below the mark |
| `IdentityRuns.RunKeepsHighWater` | identity-service-file-json.cpp:385-408 | so does any sequence of operations, with changes of the network identifier in between |
| `IdentityRuns.FastPathNeverCollides` | identity-service-file-json.cpp:570-578 | after any run, a mark below the largest address of the network makes mark + 1 free and the answer: the collision test of the fast path never fires |
| `IdentityRuns.NextIsDeterministic` | identity-service-file-json.cpp:566-580 | the answer does not depend on uninitialised bytes if and only if the mark fits the network or at most one address is free |
| `IdentityRuns.BlocksEqualOrDisjoint` | dev-addr.cpp:606-654 | two networks share all their addresses or none; they share them exactly when type and NwkId agree, for type 5 without two NwkId bits |
| `IdentityRuns.AutoAssignKeepsEntries` | identity-service-file-json.cpp:217-240 | an address picked while loading never replaces an entry; loading goes on exactly when one was free |
| `IdentityRuns.LoadUnassigned` | identity-service-file-json.cpp:217-240 | objects without addresses fill a network in order, from any state reached that way |
| `IdentityRuns.LoadedObjectIsStored` | identity-service-file-json.cpp:225-240 | a loaded object is stored, with its rights, at the last address it names or at a free one, and nothing else changes in map and rights |
| `IdentityRuns.NotedAllIsHighest` | identity-service-file-json.cpp:162-170 | the address attributes of an object raise the mark to the highest of them, in any order and number |
| `IdentityRuns.LoadFromEmpty` | identity-service-file-json.cpp:251-279 | from an emptied service n objects without addresses give n entries with different addresses, or loading stops at the first for which the network is full |
| `IdentityRuns.LoadKeepsEach` | identity-service-file-json.cpp:217-240 | for every file: there are never more new entries than loaded objects, and as many if and only if no object names an address that is stored when its turn comes |
| `IdentityRuns.NamedFirst` | identity-service-file-json.cpp:217-240 | a file with the named addresses first keeps every object if and only if no address is named twice or stored already |
| `IdentityRuns.SecondObjectReplaces` | identity-service-file-json.cpp:225-240 | in the file of an object without address and one that names the address just given out, the second silently replaces the first |
| `IdentityService.JsonFileIdentityService.SetRightsMask` | identity-service-file-json.cpp:537-552 | rights 0 are kept as no entry |
| `IdentityService.JsonFileIdentityService.GetRightsMask` | identity-service-file-json.cpp:526-535 | rights that were set are read back, and are 0 otherwise |
| `IdentityService.WithRights` | identity-service-file-json.cpp:526-552 | setting the rights of one address changes what is read for it and for no other |
| `IdentityLoad.NetworkIdentityHandler.AddrString` | identity-service-file-json.cpp:162-170 | an address attribute, read from its text, becomes the key and raises the mark |
| `AddressText.PrintThenRead` | utillora.cpp:1247-1260 | an address as save prints it is read back by the loader, although reading is as lenient as the C library |
| `AddressText.ReadInEitherCase` | utillora.cpp:1247-1260 | the printed digits are read back in upper, lower and mixed case, whatever follows them |
| `AddressText.TextIsInjective` | utillora.cpp:1361-1369 | two addresses have the same text only if they are the same |
| `IdentityLoad.NetworkIdentityHandler.EndObject` | identity-service-file-json.cpp:225-240 | an object without an address gets one from next or ends the load; it is stored, and its rights are set, under its own or the new address |
| `IdentityLoad.Load` | identity-service-file-json.cpp:257-279 | the whole load as a run of handler events, with any number of address attributes an object, over an emptied service that keeps its rights; a file that cannot be opened leaves it empty |
| `IdentityLoad.LoadUnassignedFile` | identity-service-file-json.cpp:257-279 | a file of objects without addresses loads without error exactly when the network has room for all of them |
| `IdentityJoin.JoinAccept` | identity-service.cpp:20-49 | header, identity and result code of a join, through the fields the code copies |
| `IdentityJoin.JoinAnswers` | identity-service.cpp:20-49 | a join fails exactly when an address is wanted and none is free; the answer carries the identity's address; a new one is in the network and not stored; a failure leaves the identity unchanged |
| `IdentityJoin.JoinIsStable` | identity-service.cpp:38-47 | after a join, joining again answers with the same address whatever happened in between, if and only if that address is not the word 0 |
| `IdentityJoin.ZeroWord` | identity-service.cpp:24-25 | the address the code takes for none is NwkAddr 0 of the network of type 0 with NwkId 0, and no other |
| `IdentityJoin.JoinDoesNotReserve` | identity-service.cpp:20-37 | two devices that join before either is stored get the same address, whatever uninitialised memory holds, if and only if the mark fits the network or at most one address is free |
| `IdentityJoin.StoredJoinsDiffer` | identity-service.cpp:20-37 | storing the first of them makes the second answer differ |
| `MacStream.TablesAgree` | lorawan-mac.cpp:1067-1172 | parsers, printing table and identifier test agree on all 256 identifiers in both directions |
| `MacStream.ParseOneCuts` | lorawan-mac.cpp:203-280 | one parse fails exactly on an empty string, an unknown identifier or a truncated command, and otherwise takes the bytes the table says |
| `MacStream.MacDataList.Parse` | lorawan-mac.cpp:1210-1232 | the constructor loop pushes the commands at the front of the payload |
| `MacStream.MacDataList.Size` | lorawan-mac.cpp:1237-1244 | the loop adds the sizes of the elements |
| `MacStream.ParsePartitions` | lorawan-mac.cpp:1210-1244 | device to gateway: for every byte string the printed commands in order are a prefix of it, the rest is empty, starts with an unknown identifier or is truncated, and size() is the length of the prefix |
| `MacStream.ParseTakesPrefix` | lorawan-mac.cpp:117-197 | in both directions parsing takes a maximal prefix, cut by the table of the direction |
| `MacStream.StaleBytesInvisible` | lorawan-mac.cpp:97-101 | bytes that longer earlier commands left in the shared buffer never show in what is printed |
| `MacStream.PrintThenParse` | lorawan-mac.cpp:754-757 | printing any list of device commands and parsing the bytes gives the same commands, in order and number |
| `MacStream.UniquelyDecodable` | lorawan-mac.cpp:1210-1232 | two lists of device commands with the same bytes are the same list |
| `MacStream.GatewayElementPrints` | lorawan-mac.cpp:1216-1228 | a list element parsed as sent by the gateway prints its own bytes if and only if its command has the same length in both directions, because elements never carry the direction |
| `MacStream.GatewayListPrints` | lorawan-mac.cpp:1210-1232 | for every gateway list: all elements print the slices they were read from if and only if all their commands have one length in both directions |
| `MacStream.StaleBytesShow` | lorawan-mac.cpp:1067-1172 | a gateway element prints old bytes of the buffer behind its own if and only if it is DevStatus or PingSlotInfo, and which bytes |
| `MacStream.GatewayListStale` | lorawan-mac.cpp:1210-1232 | what a gateway list prints depends on what the buffer held before if and only if some command prints more bytes than the commands up to it have brought |
| `MacStream.CoveredUnlessShorter` | lorawan-mac.cpp:1210-1232 | only a DevStatus or PingSlotInfo command can cause that |
| `MacStream.WrongElementsRightBytes` | lorawan-mac.cpp:1210-1232 | a gateway list whose bytes come out right although no element prints its own |
| `MacFields.AllFieldsFit` | lorawan-mac.h:82-394 | for every identifier and direction the fields that are assigned lie inside the printed bytes and do not overlap |
| `MacFields.FieldsKept` | lorawan-mac.cpp:509-749 | assignments to fields that do not overlap all survive |
| `MacFields.ValueOfBits` | lorawan-mac.cpp:509-749 | a field of a given width returns a value in range as it is, and a negative one as its two's complement |
| `MacFields.MacData.Set` | lorawan-mac.cpp:509-749 | what a caller sees after set: the identifier, every field of the command, every other bit as before, and the payload unchanged when there are too few arguments |
| `MacFields.MacData.FromString` | lorawan-mac.cpp:485-501 | the parsing constructor fails exactly on an empty, unknown or truncated command, and otherwise prints the bytes it was read from |
| `MacFields.SetThenGet` | lorawan-mac.cpp:509-749 | every field reads the low bits of the argument it was given, whatever the buffer held |
| `MacFields.SetIsComplete` | lorawan-mac.cpp:509-749 | set is described completely by the identifier, its fields and the bits it leaves alone |
| `MacFields.BuildThenParse` | lorawan-mac.cpp:485-501 | building any known command, printing it and parsing it in the same direction takes all bytes, prints them again and gives back every field; a command whose error code was not 0 before set prints nothing |
| `MacFields.FrequencyBytes` | lorawan-mac.cpp:77-81 | the three byte assignments of a frequency are one 24-bit little-endian field |
| `MacLayout.SetWrites` | lorawan-mac.cpp:509-749 | the whole buffer after set, for every identifier, number and size of arguments and both directions, written out byte by byte in plain arithmetic, without the table of fields |
| `MacLayout.ReadIsNumber` | lorawan-mac.h:82-394 | reading a field is division and remainder on the payload bytes, low byte first |
| `MacLayout.SizeOfFields` | lorawan-mac.cpp:1067-1172 | the printed size of every known command is the identifier and exactly the bytes its fields fill |
| `PayloadCipher.EncryptPayload` | lora-encrypt.cpp:9-64 | the loops, with 16-bit block counter and 8-bit write position, compute the payload with each byte masked |
| `PayloadCipher.DecryptPayload` | lora-encrypt.cpp:66-75 | decryption computes the same function |
| `PayloadCipher.DecryptUndoesEncrypt` | lora-encrypt.cpp:9-75 | decrypting an encrypted payload gives it back, for every length |
| `PayloadCipher.InputBlockIsStandard` | lora-encrypt.cpp:21-36 | the input block is A_i of section 4.3.3 of the LoRaWAN 1.0 Specification if and only if the frame counter is below 2^16 |
| `PayloadCipher.BlockForByte` | lora-encrypt.cpp:38-61 | byte j of n is last masked by block j / 16 if and only if j < 256 and n <= j + 256; from byte 256 on nothing masks it |
| `PayloadCipher.AllBlocksStandard` | lora-encrypt.cpp:38-61 | every byte gets its own block if and only if the payload has at most 256 bytes |
| `PayloadCipher.ShortPayloadIsStandard` | lora-encrypt.cpp:9-64 | for every block cipher the result is the encryption of section 4.3.3, if and only if the payload is empty, or has at most 256 bytes and the frame counter is below 2^16 |
| `PayloadCipher.LongPayloadTail` | lora-encrypt.cpp:38-61 | bytes from 256 on leave the function unencrypted |
| `PayloadCipher.LastWriterIs` | lora-encrypt.cpp:38-61 | for every length the block that masks byte j below 256 is the last of the blocks j / 16, j / 16 + 16, ... that the payload reaches |
| `PayloadCipher.EncryptedIs` | lora-encrypt.cpp:9-64 | every byte of every result, for all lengths and frame counters, through the input blocks of section 4.3.3 |
| `Crc16.ComputeCrc16` | lora-gateway-listener.cpp:782-799 | the two nested loops compute the fold over the bytes; a null pointer gives 0 |
| `CrcPolynomial.CrcIsRemainder` | lora-gateway-listener.cpp:782-799 | for every message the CRC is the remainder, by carry-less long division, of the message polynomial times x^16 modulo x^16 + x^12 + x^5 + 1 |
| `CrcPolynomial.DivisionIsExact` | lora-gateway-listener.cpp:782-799 | that remainder and some multiple of the generator add up to the dividend |
| `Crc16.CrcLinear` | lora-gateway-listener.cpp:782-799 | the CRC of the bitwise sum of two messages of one length is the sum of their CRCs |
| `Crc16.CrcFolds` | lora-gateway-listener.cpp:782-799 | the CRC of a concatenation is the CRC of the second part continued from the first |
| `Crc16.BurstDetected` | lora-gateway-listener.cpp:782-799 | messages that differ only inside 16 bits from bit o of byte i have different CRCs |
| `Crc16.BurstOfBitsDetected` | lora-gateway-listener.cpp:782-799 | any two different messages of one length whose bits agree outside some 16 consecutive positions have different CRCs |
| `GpsBuffer.GpsRunner.Receive` | lora-gateway-listener.cpp:374-378 | the bytes read are appended in the buffer array |
| `GpsBuffer.GpsRunner.Decode` | lora-gateway-listener.cpp:381-420 | a size above 0 comes with a frame of that size and effect, told by the sync bytes and the answers of the two parsers; at size 0 there is no frame |
| `GpsBuffer.GpsRunner.ScanBuffer` | lora-gateway-listener.cpp:380-428 | the search loop accepts exactly the frames of the specification, in order, and remembers the end of the last |
| `GpsBuffer.GpsRunner.Trim` | lora-gateway-listener.cpp:430-437 | processed bytes go, then the eight oldest if another read might not fit |
| `GpsBuffer.GpsRunner.Turn` | lora-gateway-listener.cpp:370-438 | one turn: new buffer and accepted frames; the write index stays at most 120 |
| `GpsBuffer.RunGps` | lora-gateway-listener.cpp:356-443 | the whole thread over any list of reads |
| `GpsBuffer.RunWindow` | lora-gateway-listener.cpp:374-437 | after every run the buffer is the end of the stream and a further read fits |
| `GpsBuffer.RunIsOrdered` | lora-gateway-listener.cpp:422-433 | over a run the accepted frames occupy disjoint, increasing intervals of the stream |
| `GpsBuffer.RunIsGenuine` | lora-gateway-listener.cpp:381-420 | each accepted frame has its sync byte and an accepting answer of its parser on the stream's bytes at its place, and its effect |
| `GpsBuffer.RunFromStart` | lora-gateway-listener.cpp:356-443 | all three for every run of the thread from its start |
| `GpsBuffer.NothingLost` | lora-gateway-listener.cpp:370-438 | a frame of at most 114 bytes that the parsers accept is accepted by the run, or an accepted frame overlaps it, however the stream is cut into reads |
| `GpsBuffer.SentenceNotLost` | lora-gateway-listener.cpp:400-420 | the same for every NMEA sentence of at most 114 bytes |
| `GpsBuffer.UbxFrameNotLost` | lora-gateway-listener.cpp:385-399 | the same for every UBX frame of at most 114 bytes, told by its sync byte and the answers of the UBX parser alone |
| `GpsBuffer.FrameSizeIs` | lora-gateway-listener.cpp:381-420 | size and effect that are computed at a position are those of a frame there, told by the sync bytes, the line feed and the answers of the two parsers: the time is set exactly by UBX NAV-TIMEGPS and the location exactly by RMC |
| `GpsBuffer.LongSentenceLost` | lora-gateway-listener.cpp:433-437 | the bound is exact: for every length from 115 on, a sentence that comes byte by byte after seven bytes of noise is lost |
| `Beacon.BeaconScheduler.QueueBeacons` | lora-gateway-listener.cpp:1136-1233 | one pass: the loop over answers of GPS and queue, with its retry counter and room, over one packet that is rewritten in place |
| `Beacon.BeaconScheduler.PrepareBeacon` | lora-gateway-listener.cpp:1146-1196 | slot, channel, frequency, concentrator time and payload of one attempt; FirstOfPass and SlotAtTurn say which slot that is |
| `BeaconPayload.BeaconPacket.LoadTime` | lora-gateway-listener.cpp:1184-1193 | the time and the first CRC are written into the packet, and the rest stays |
| `BeaconPayload.BeaconPacket.LoadGateway` | lora-gateway-listener.cpp:1112-1129 | the gateway part and its CRC |
| `BeaconPayload.BeaconSizes` | lora-gateway-listener.cpp:1057-1084 | the packet has 17 bytes for SF9, 19 for SF8 and SF10 and 23 for SF12, with 1, 2, 3 and 5 reserved bytes in front for SF8, SF9, SF10 and SF12 |
| `BeaconPayload.PayloadIsReadable` | lora-gateway-listener.cpp:1184-1193 | a receiver finds the time, as 32 bits, both CRCs right, the gateway information in its place and zeros elsewhere |
| `BeaconPayload.BurstIsNoticed` | lora-gateway-listener.cpp:782-799 | a burst of up to 16 bits in the network part makes its CRC wrong |
| `Beacon.RunIsReadable` | lora-gateway-listener.cpp:1136-1236 | every beacon of every run carries its own time and passes both checks |
| `Beacon.RunScheduler` | lora-gateway-listener.cpp:1136-1236 | all passes, each starting from the last queued beacon |
| `Beacon.PassFitsQueue` | lora-gateway-listener.cpp:1139-1140 | a pass never queues more beacons than there are free slots |
| `Beacon.PassFillsQueue` | lora-gateway-listener.cpp:1139-1140 | with every answer accepted a pass fills the queue to three beacons |
| `Beacon.RunIsIncreasing` | lora-gateway-listener.cpp:1146-1160 | over any run the queued times increase strictly |
| `Beacon.FirstOfRun` | lora-gateway-listener.cpp:1148-1152 | the first beacon of a run, accepted after i refusals of its pass, is the multiple of the period in the i-th period after the GPS time at which it was queued, while the product fits 32 bits; it is later than that time always |
| `Beacon.FirstOfPass` | lora-gateway-listener.cpp:1146-1160 | the first beacon of a pass is the one accepted after i refusals; while the product fits 32 bits it lies i + 1 periods after the last beacon, or without one in the period that starts i periods after the GPS time |
| `Beacon.SlotAtTurn` | lora-gateway-listener.cpp:1153-1160 | while the product fits 32 bits a pass tries the slots after the last beacon one by one, whichever are accepted or refused |
| `Beacon.SlotAtRefusedTurn` | lora-gateway-listener.cpp:1148-1160 | with no beacon queued, after any number of refusals the slot tried is the one that many periods after the next one in GPS time |
| `Beacon.SlotAfterFirst` | lora-gateway-listener.cpp:1148-1160 | after its first beacon a pass without one before tries the following slots one by one |
| `Beacon.PassQueuesTaken` | lora-gateway-listener.cpp:1200-1230 | a pass queues exactly one beacon for each accepted answer up to the free slots, in order, each with its concentrator time |
| `Beacon.RunOnSlots` | lora-gateway-listener.cpp:1146-1187 | over any run every beacon is a multiple of the period on channel slot number modulo beaconFreqNb, given a period that divides 2^32 or passes of fewer than 2^32 / period answers |
| `Beacon.AlwaysOnSlotsIff` | lora-gateway-listener.cpp:1158-1160 | without a bound on the refusals the times are always multiples of the period if and only if the period divides 2^32, because retry * beaconPeriod is a 32-bit product |
| `TxAdmission.GetTxGainLutIndex` | lora-gateway-listener.cpp:812-849 | the first index of the largest table power not above the request; fails, with index 0, if and only if there is none |
| `TxAdmission.TxPacket.SelectClass` | lora-gateway-listener.cpp:861-916 | only immediate and timestamped packets get a class; a packet for a GPS time ends in an error whatever the GPS answers |
| `TxAdmission.TxPacket.CorrectPreamble` | lora-gateway-listener.cpp:927-945 | the preamble is raised to the minimum of its modulation, which must be known |
| `TxAdmission.TxPacket.CorrectPower` | lora-gateway-listener.cpp:963-974 | the power becomes the table power, entry 0 if all are above the request |
| `TxAdmission.EnqueueTxPacket` | lora-gateway-listener.cpp:856-1005 | a packet reaches the queue exactly when nothing refuses it, and what reaches it is admissible; error codes in order; what is left in the packet in every case |
| `TxAdmission.Answers` | lora-gateway-listener.cpp:861-958 | each of the error codes, by its number, if and only if its cause holds and no earlier one does, in the raw modes, modulations and frequency bounds |
| `TxAdmission.OfferedPacket` | lora-gateway-listener.cpp:918-974 | the packet offered has the larger of its preamble and 6 or 3, differs from the one asked for only in power and preamble, and has the class of its mode |
| `TxAdmission.RefusedPacket` | lora-gateway-listener.cpp:861-958 | what each kind of refusal leaves in the packet: the power is lowered by the antenna gain modulo 256 exactly in the two late ones |
| `TxAdmission.RadiatedPower` | lora-gateway-listener.cpp:924-974 | for every table, the empty one included: with antenna gain and its 8-bit wrap, a packet goes out at no more than the power asked for if and only if the table serves a power that low |
| `TxAdmission.OfferIsDetermined` | lora-gateway-listener.cpp:918-974 | the admissibility condition fixes the packet completely |
| `TxAdmission.SecondOfferIsWeaker` | lora-gateway-listener.cpp:924-925 | a packet that was refused by the queue and is offered again goes down by the antenna gain a second time if and only if the table serves that power |
| `StatBuffer.StatService.Put` | device-stat-service-file.cpp:34-46 | put without interference: a save when the list is over the limit, then the push; list, file and lost records are stated outright |
| `StatBuffer.StatService.Save` | device-stat-service-file.cpp:119-135 | save without interference: an empty list changes nothing, otherwise the list goes to the file, or is lost if the append fails; with the three results |
| `StatBuffer.SaveIsRun` | device-stat-service-file.cpp:119-135 | the state after save is that of its steps in the interleaving model, run by one thread |
| `StatBuffer.PutIsRun` | device-stat-service-file.cpp:34-46 | the state after put is that of its steps, for every thread |
| `StatBuffer.RoundIsRun` | device-stat-service-file.cpp:83-135 | the state after a round of the saver, with its new delay, is that of its steps |
| `StatBuffer.StatService.LockedPush` | device-stat-service-file.cpp:43-45 | the section of put that holds the lock |
| `StatBuffer.StatService.LockedDrain` | gateway-stat-service-file.cpp:121-125 | the section of save that holds the lock |
| `StatBuffer.StatService.TuneDelay` | device-stat-service-file.cpp:101-117 | the next delay of the saver |
| `StatBuffer.EveryRun` | device-stat-service-file.cpp:34-46 | in every interleaving of n putting threads with the saver: at most maxSize + n records in the list; the batches taken, in lock order, and then the list are the pushes in lock order; the delay stays in range |
| `StatBuffer.BoundIsReached` | device-stat-service-file.cpp:38-41 | for every n > 0 some interleaving makes the list exactly maxSize + n long |
| `StatBuffer.ServicesAreBounded` | device-stat-service-file.cpp:34-46 | both services, with their own constants: at most 1024 + n records, and a delay of 1 to 300 seconds |
| `StatBuffer.ServicesReachBound` | gateway-stat-service-file.cpp:34-44 | both services reach 1024 + n records |
| `StatBuffer.NextBounded` | gateway-stat-service-file.cpp:34-44 | every step of every thread keeps the bound |
| `StatBuffer.NextConserves` | gateway-stat-service-file.cpp:117-131 | every step of every thread keeps the records |
| `StatBuffer.EveryBatchIsAccounted` | device-stat-service-file.cpp:119-135 | every batch taken is in the file, lost by a failed append, or about to be written: exactly once |
| `StatBuffer.FileKeepsOrder` | device-stat-service-file.cpp:119-135 | in every interleaving, failed appends included: the k-th batch of the file is the k-th that was taken, for all k, if and only if each successful append is made by the thread that has waited longest since it took the list, and none from behind a failed one; then the records in the file are the first that were pushed; with batches that differ, the file is the beginning of what was taken for these schedules only |
| `StatBuffer.DisorderIsFinal` | device-stat-service-file.cpp:119-135 | a file that is out of order stays so: it is in order at the end if and only if it was after every append |
| `StatBuffer.HeadIsNext` | gateway-stat-service-file.cpp:117-131 | the thread at the head of the line, and no other, holds the batch that comes next in the file |
| `StatBuffer.SerialSavesKeepOrder` | device-stat-service-file.cpp:119-135 | if saves do not overlap and appends succeed, file, batch in flight and list are the pushes in order |
| `StatBuffer.FileCanBeOutOfOrder` | device-stat-service-file.cpp:123-135 | for every n > 0 the saver and one putting thread can write the file in the other order |
| `StatBuffer.DelayRises` | device-stat-service-file.cpp:101-117 | k rounds with a short list double the delay k times up to the maximum |
| `StatBuffer.DelayFalls` | gateway-stat-service-file.cpp:99-115 | k rounds with a long list halve it k times down to one second |
| `StatBuffer.ServiceDelays` | gateway-stat-service-file.cpp:99-115 | the next delay of both services in seconds, with their own thresholds of 256 and 128 records |

## Left out

- JSON, file, HTTP, database and LMDB plumbing, including the LMDB identity service: the libraries are not part of this model; loading is a run of parser events.
- The version 1.0 variants of the address codec: the build does not select them.
- IdentityLoad.NetworkIdentityHandler.AddrString: takes text of at least eight characters; what the code does with shorter text is not defined, since it fills outside the address.
- Listing and paging of the identity service: plain map facts.
- Interleaved calls of the identity service: its operations are taken one at a time, although the mark is not under the lock.
- `MacPtr`: it advances by the remaining size instead of the command size, so it is no instance of the list theorems.
- The `MacDataClient*` and other command constructors: some write the fields or identifiers of other commands; `MacData::set` is the builder modelled.
- MacFields.BuildThenParse: for DeviceTime the two clock readings are inputs, since `set` takes them from the clock.
- TxAdmission.EnqueueTxPacket: requires a radio chain below 2; the code indexes its chains with any value, and what it does beyond the second is not defined.
- The join-accept encryption, rejoin and MIC code: the frame layouts and CMAC are not part of this model.
- `LoraPacketProcessor` and its queues: not part of this model.
- The transmit queue of the packet forwarder and the concentrator library: their answers are arbitrary.
- The beacon's information byte and coordinates are seven given bytes, as the coordinates come from floating-point code; data rates the code stops at are left out.
- Floating-point code: clock correction, coordinates, and the GPS send time, whose branch ends in an error in any case.
- Counters, logging, thread start and stop, command-line tools and generated configuration.
