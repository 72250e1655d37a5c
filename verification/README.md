# Verified models of the communication and storage cores

This project models eight self-contained pieces of an ESP32 Arduino port in Dafny 4.11 and proves what
they are for. `dafny verify dfyconfig.toml` checks everything.

| component | specification and theorems | code in the source's form |
|---|---|---|
| Bluetooth serial transmit pipeline | `SppPipeline.dfy`, `SppResets.dfy`, `SppWrites.dfy` | `SppTransmitter.dfy` |
| AsyncUDP buffer ownership | `UdpPbufs.dfy` | `UdpStack.dfy` |
| Bluetooth UUIDs | `BleUuid.dfy` | `BleUuidObject.dfy` |
| BLE advertising builder and parser | `AdStructures.dfy`, `AdRecords.dfy` | `AdObjects.dfy` |
| GATT queued writes and long reads | `GattValue.dfy` | `GattCharacteristic.dfy` |
| Base64 codec | `Base64.dfy` | `Base64.dfy` |
| EEPROM mirror of a stored blob | `EepromMirror.dfy` | `Eeprom.dfy` |
| DNS question copy, name walk and reply | `DnsMessage.dfy` | `DnsServer.dfy` |
| WiFi scan list, HTML escaping | `WifiScan.dfy`, `HtmlEntities.dfy` | the same files |

`Sequences.dfy` holds the shared vocabulary.

## How the parts fit together

The concurrent and stateful components are step machines: a total function `Step(state, event)` and `Run`
over a sequence of events, where an event that is not enabled changes nothing. The theorems are about `Run`
for every sequence of events, so they cover every interleaving and every pattern of failures. Beside each
machine stands a class with the source's fields, arrays and loops. Its `Valid` says that the concrete
fields are what the machine computes from the recorded history, and its methods state which events they
add to that history; what is proved of all runs thereby holds of the class. Outcomes that depend on the
outside (a send, an allocation, a store operation) are parameters.

Where bytes or text leave the system, the theorems compare them with a reference of its own, written out
in literal values: the layout of advertising structures (`AdStructures`), a decoder for DNS messages and
the bits of a response header (`DnsMessage`), the alphabet and the groups of the Base64 standard, the
number a printed UUID denotes (`BleUuid.HexNumber`).

Results that are negative, or that need a condition the source does not check:

- Bluetooth serial: a client that connects empties the transmit buffer at whatever point the transmit task
  has reached. This can break the prefix property, for some contents of the packets and some continuation,
  if and only if the buffer being sent holds bytes of the packet in hand and the rest of that packet is
  still to come (`ResetBreaksStreamIff`); without such resets each packet is delivered up to a cut
  (`StreamIsPrefixes`). A write can come out empty if and only if the reset hits a buffer on its way out
  (`ResetBreaksWritesIff`). With resets anywhere, nothing is repeated or reordered
  (`NothingRepeatedOrReordered`).
- Long reads: because of the 16 bit read offset, a client that asks until a response is not full gets the
  value if and only if `length / room * room < 65536` (`TransferIsExactIff`). Direct writes are limited to
  600 bytes, queued writes are not (`QueuedWritesAreNotLimited`). The server reads outside the value if and
  only if a long read finds its offset behind the end (`OverreadIff`); a direct write makes the next long
  read do so if and only if its value ends before the offset (`ShorteningOverreads`, with an example in
  `OverreadIsReachable`), and without such a write no read does (`NoOverread`).
- DNS: the name length is a signed byte, so a well-formed question is copied correctly if and only if its
  encoded name has at most 127 bytes (`CopyQuestion`); the comment in the source speaks of 255.
- Advertising: the comment above the parser calls a zero length a terminator, but the code goes on behind
  it; the model follows the code. Of a list of several 128 bit UUIDs only the first is taken (`StreamParses`). A buffer is parsed without leaving it if and only if its records are
  complete and it has 1 to 255 bytes (`ParseAdvertisement`).
- Bluetooth UUIDs: parsing 36 characters stays inside the storage and the string if and only if at least
  four dashes are met where a byte may start, and not one of them as the last character
  (`StaysInsideIff`); the standard layout is one of several for which this holds (`OtherLayout`).
- EEPROM: a run copies a range through a missing mirror if and only if it does so between an opening of an
  open object that found no memory and the next successful opening or end (`CrashIff`). Single bytes are
  checked for this, ranges are not (`FailedReopening`).
- Base64: the decoder does not reject characters outside the alphabet, and accepts some texts with
  characters behind the first padding character (`AcceptedBehindPadding`); which texts it accepts, rejects,
  or leaves its buffers on is characterised for every text (`AcceptedIff`).

## Model

| member | source | states |
|---|---|---|
| SppPipeline.RunConsistent | libraries/BluetoothSerial/src/BluetoothSerial.cpp:154-275 | In every run packets leave the queue in the order of acceptance, the queue holds at most 32 and the buffer at most 330 bytes, and a remainder is copied into an empty buffer. |
| SppPipeline.StreamIsPrefixes | libraries/BluetoothSerial/src/BluetoothSerial.cpp:182-275 | For every pattern of send failures and of client changes that cut no packet, the bytes written followed by the bytes in the buffer are one prefix of each packet taken, in queue order. |
| SppResets.ResetBreaksStreamIff | libraries/BluetoothSerial/src/BluetoothSerial.cpp:296-304 | A reset in a reachable state can break this, for some contents and some continuation, exactly when bytes of the packet in hand are in the buffer and more of it is to come. |
| SppResets.ResetInsidePacketLeavesGap | libraries/BluetoothSerial/src/BluetoothSerial.cpp:296-304 | A concrete run in which a client connects while a packet is in hand; its stream is not made of prefixes. |
| SppPipeline.NothingRepeatedOrReordered | libraries/BluetoothSerial/src/BluetoothSerial.cpp:182-304 | In every run whatsoever the bytes written are a subsequence of the bytes of the packets taken. |
| SppPipeline.AllBytesDelivered | libraries/BluetoothSerial/src/BluetoothSerial.cpp:154-275 | Without failures all bytes are accounted for at every step, the task never waits with a full buffer, and when it blocks on an empty queue the buffer is empty and exactly the accepted bytes have been written. |
| SppWrites.WritesFollowTheQueue | libraries/BluetoothSerial/src/BluetoothSerial.cpp:217-265 | In every run each write has 330 bytes, or none because a reset has emptied the buffer, or less because the queue was empty when the task last moved. |
| SppWrites.WritesAreFull | libraries/BluetoothSerial/src/BluetoothSerial.cpp:217-265 | Unless a reset empties a buffer on its way out, every write has 1 to 330 bytes, and a shorter one follows a move of the task over an empty queue, with none in between. |
| SppWrites.ShortSendOverEmptyQueue | libraries/BluetoothSerial/src/BluetoothSerial.cpp:225-265 | In a reachable state the task starts a send only with a full buffer or over an empty queue. |
| SppWrites.ResetBreaksWritesIff | libraries/BluetoothSerial/src/BluetoothSerial.cpp:217-304 | A reset can cause an empty write exactly in the states from which the buffer is sent without another look at it. |
| SppPipeline.WritePending | libraries/BluetoothSerial/src/BluetoothSerial.cpp:182-208 | A send that is acknowledged, or only the acknowledgement of which is missing, moves the buffer to the stream; any other leaves both; only an acknowledged one keeps the packet in hand. |
| SppPipeline.TaskDrains | libraries/BluetoothSerial/src/BluetoothSerial.cpp:210-275 | From every reachable state the transmit task alone, with successful sends, reaches an empty queue and blocks. |
| SppPipeline.EverythingIsEventuallyWritten | libraries/BluetoothSerial/src/BluetoothSerial.cpp:210-275 | After any failure-free run it then has written exactly what was accepted. |
| SppTransmitter.Transmitter.QueuePacket | libraries/BluetoothSerial/src/BluetoothSerial.cpp:154-176 | Success without effect on empty data, failure without effect without memory or room, else the packet joins the queue. |
| SppTransmitter.Transmitter.AcceptClient | libraries/BluetoothSerial/src/BluetoothSerial.cpp:300-304 | Accepting a client empties the buffer. |
| SppTransmitter.Transmitter.SendBuffer | libraries/BluetoothSerial/src/BluetoothSerial.cpp:182-208 | Each way a send can end: success only if acknowledged, and the buffer is emptied exactly if the bytes left. |
| SppTransmitter.Transmitter.TaskRound | libraries/BluetoothSerial/src/BluetoothSerial.cpp:215-267 | One round of the transmit task, with producers and clients interfering at every point, is a run of the machine that takes exactly the first packet. |
| SppTransmitter.Transmitter.AppendWhole | libraries/BluetoothSerial/src/BluetoothSerial.cpp:219-229 | A packet that fits joins the buffer. |
| SppTransmitter.Transmitter.SendUnlessMoreComes | libraries/BluetoothSerial/src/BluetoothSerial.cpp:225-228 | The buffer is sent when full or when nothing is queued. |
| SppTransmitter.Transmitter.SendInPieces | libraries/BluetoothSerial/src/BluetoothSerial.cpp:230-266 | A larger packet is sent through the buffer piece by piece, and given up after a failure. |
| SppTransmitter.Transmitter.SendHead | libraries/BluetoothSerial/src/BluetoothSerial.cpp:232-242 | The head of the packet tops the buffer up to 330 bytes. |
| SppTransmitter.Transmitter.SendFull | libraries/BluetoothSerial/src/BluetoothSerial.cpp:243-254 | A full buffer is cut from the rest and sent. |
| SppTransmitter.Transmitter.SendTail | libraries/BluetoothSerial/src/BluetoothSerial.cpp:255-263 | The last piece stays in the buffer unless the queue is empty. |
| UdpPbufs.CountsAreOwners | libraries/AsyncUDP/src/AsyncUDP.cpp:144-222 | In every interleaving each count is the number of owners, no freed buffer is touched, and a buffer has been freed, once, exactly when it was received and has no owner. |
| UdpPbufs.NoLeak | libraries/AsyncUDP/src/AsyncUDP.cpp:144-222 | When all threads are idle and all copies gone, every received buffer has been freed. |
| UdpPbufs.ChainIsExclusive | libraries/AsyncUDP/src/AsyncUDP.cpp:210-222 | A fragment still in the receive callback has no other owner. |
| UdpPbufs.ArrivalOrder | libraries/AsyncUDP/src/AsyncUDP.cpp:144-222 | Accepted fragments are a subsequence of the received ones, are taken in that order, and are handled in that order. |
| UdpPbufs.NothingDropped | libraries/AsyncUDP/src/AsyncUDP.cpp:185-222 | If no post fails, every fragment received has been accepted or is still in the callback: a full queue only makes it wait. |
| UdpPbufs.EveryFragmentHandled | libraries/AsyncUDP/src/AsyncUDP.cpp:802-816 | With a handler installed at each delivery, every fragment taken reaches it. |
| UdpPbufs.RefSound | libraries/AsyncUDP/src/AsyncUDP.cpp:329-338 | Constructing a packet object adds one owner and one count. |
| UdpPbufs.FreeSound | libraries/AsyncUDP/src/AsyncUDP.cpp:380-383 | Destroying one removes one of each and frees at zero. |
| UdpStack.Stack.TaskPost | libraries/AsyncUDP/src/AsyncUDP.cpp:185-208 | A post appends the fragment to the queue, after waiting for the worker if that is full, or fails without effect. |
| UdpStack.Stack.AwaitRoom | libraries/AsyncUDP/src/AsyncUDP.cpp:202-206 | The blocked callback goes on when the worker has taken just as many fragments as make room. |
| UdpStack.Stack.UdpRecv | libraries/AsyncUDP/src/AsyncUDP.cpp:210-222 | With the worker running in between, the loop gets exactly the fragments accepted whose post succeeds, in chain order, and frees the others. |
| UdpStack.PostedInOrder | libraries/AsyncUDP/src/AsyncUDP.cpp:210-222 | Those fragments are a subsequence of the chain. |
| UdpStack.Stack.SplitOne | libraries/AsyncUDP/src/AsyncUDP.cpp:212-221 | One turn of the loop. |
| UdpStack.Stack.Unlink | libraries/AsyncUDP/src/AsyncUDP.cpp:214-216 | Unlinking the head leaves the rest of the chain linked and the head linked to nothing. |
| UdpStack.Stack.FreeFragment | libraries/AsyncUDP/src/AsyncUDP.cpp:217-220 | Freeing a fragment that was not posted leaves the rest of the chain alone. |
| UdpStack.Stack.TaskRound | libraries/AsyncUDP/src/AsyncUDP.cpp:144-160 | The worker takes the first queued fragment, and it is handled exactly if a handler is installed; a chain being split is left alone. |
| UdpStack.Stack.Recv | libraries/AsyncUDP/src/AsyncUDP.cpp:802-816 | Delivery keeps counts and owners in step, whatever the handler copies or destroys and whatever the receive callback holds. |
| UdpStack.Stack.CopyPacket | libraries/AsyncUDP/src/AsyncUDP.cpp:311-327 | Copying a packet object adds a count to its buffer. |
| UdpStack.Stack.DestroyCopy | libraries/AsyncUDP/src/AsyncUDP.cpp:380-383 | Destroying a copy drops a count, and the buffer with the last one. |
| UdpStack.Stack.OnPacket | libraries/AsyncUDP/src/AsyncUDP.cpp:1013-1021 | Installs or removes the handler that delivery looks at. |
| BleUuid.EqualsIsSameText | libraries/BLE/src/BLEUUID.cpp:219-236 | The comparison by representation is equality of the printed forms, and of the 128 bit forms. |
| BleUuid.EqualsIsEquivalence | libraries/BLE/src/BLEUUID.cpp:219-236 | It is an equivalence across all representations, and widening preserves it. |
| BleUuid.WideningKeepsText | libraries/BLE/src/BLEUUID.cpp:290-335 | A UUID and its 128 bit form print alike. |
| BleUuid.PrintShows | libraries/BLE/src/BLEUUID.cpp:366-383 | The printed form has 36 characters: two digits for each byte from the most significant down, and dashes in the four places of the standard layout. |
| BleUuid.TextReadsAsValue | libraries/BLE/src/BLEUUID.cpp:350-384 | The text is lower case hexadecimal digits with dashes in four places, and reads as the 128 bit value; that of a short UUID starts with its own value in eight digits. |
| BleUuid.ParseInvertsPrint | libraries/BLE/src/BLEUUID.cpp:98-114 | The printed form of any set UUID is parsed, inside the storage, to its 128 bit form, which equals it. |
| BleUuid.StaysInsideIff | libraries/BLE/src/BLEUUID.cpp:98-114 | When the loop over 36 characters stays inside its storage and the string. |
| BleUuid.OtherLayout | libraries/BLE/src/BLEUUID.cpp:98-114 | A layout with dashes elsewhere for which it does. |
| BleUuid.PairsAreThePositionalValue | libraries/BLE/src/BLEUUID.cpp:68-93 | On 4 and 8 hexadecimal digits the parser computes the number they denote. |
| BleUuid.ParsingIgnoresCase | libraries/BLE/src/BLEUUID.cpp:72-77 | Upper and lower case digits are read alike, and a pair as its hexadecimal value. |
| BleUuid.NibbleOfAny | libraries/BLE/src/BLEUUID.cpp:72-77 | What a character that is no digit counts for. |
| BleUuidObject.UuidObject.FromString | libraries/BLE/src/BLEUUID.cpp:66-119 | What each accepted length yields; any other length leaves the object unset. |
| BleUuidObject.UuidObject.ParsePairs | libraries/BLE/src/BLEUUID.cpp:70-79 | The shifting loop sums the pairs to the value. |
| BleUuidObject.UuidObject.ReverseCopy | libraries/BLE/src/BLEUUID.cpp:37-46 | The target is the source backwards. |
| BleUuidObject.UuidObject.ParseLong | libraries/BLE/src/BLEUUID.cpp:98-114 | On every 36 characters, whether the loop stays inside, and the byte of each round, with at most one dash skipped before it; bytes without a round stay as they were. |
| BleUuidObject.UuidObject.EqualsObject | libraries/BLE/src/BLEUUID.cpp:219-236 | On objects, whose storage is shared by all representations, the result is the comparison of their values. |
| BleUuidObject.UuidObject.Text | libraries/BLE/src/BLEUUID.cpp:350-384 | Prints the value of the object. |
| BleUuidObject.UuidObject.Widen | libraries/BLE/src/BLEUUID.cpp:290-335 | Widening in place, over the bytes of the short form, yields the 128 bit form of the old value. |
| AdRecords.RecordsReadable | libraries/BLE/src/BLEAdvertisedDevice.cpp:272-400 | Well-formed records, zero bytes included, can be read without leaving them. |
| AdRecords.ParseConcat | libraries/BLE/src/BLEAdvertisedDevice.cpp:272-400 | Parsing two payloads in one is parsing the first and then the second from the state it left. |
| AdRecords.RecordIsLocal | libraries/BLE/src/BLEAdvertisedDevice.cpp:295-391 | A record as long as its type needs is read within its own data. |
| AdRecords.BuildIsWholeRecords | libraries/BLE/src/BLEAdvertising.cpp:296-301 | The payload is the records of the accepted calls; a call that does not fit adds no byte. |
| AdRecords.BuildThenParse | libraries/BLE/src/BLEAdvertising.cpp:296-491 | For every sequence of calls the payload is at most 31 bytes of well-formed records, and parsing it yields the last accepted flags, appearance, name and manufacturer data and all accepted UUIDs and service data in order. |
| AdRecords.CallParses | libraries/BLE/src/BLEAdvertising.cpp:311-491 | The record of one call is parsed to exactly what the call says. |
| AdStructures.StreamParses | libraries/BLE/src/BLEAdvertisedDevice.cpp:272-400 | From every stream of structures, also of kinds and lengths the builder never sends, the parser learns what each tells: every UUID of a list, signed power levels, the first of several 128 bit UUIDs, nothing from unknown types, short service data and zero bytes. |
| AdStructures.Uuids16At | libraries/BLE/src/BLEAdvertisedDevice.cpp:318-320 | Entry number k of a 16 bit list is read from its own two bytes. |
| AdStructures.Uuids32At | libraries/BLE/src/BLEAdvertisedDevice.cpp:326-328 | Entry number k of a 32 bit list is read from its own four bytes. |
| AdStructures.PayloadIsStructures | libraries/BLE/src/BLEAdvertising.cpp:296-491 | The payload is, byte for byte, the structures the accepted calls stand for. |
| AdStructures.BuildThenSplit | libraries/BLE/src/BLEAdvertising.cpp:296-491 | Splitting the payload by its length bytes yields, for each accepted call that has a record, its type and data. |
| AdStructures.BuildStep | libraries/BLE/src/BLEAdvertising.cpp:296-301 | A call is accepted exactly if the payload with its record has at most 31 bytes. |
| AdObjects.AdvertisementData.AppendData | libraries/BLE/src/BLEAdvertising.cpp:296-301 | Appends all of the data or none. |
| AdObjects.AdvertisementData.SetFlags | libraries/BLE/src/BLEAdvertising.cpp:367-373 | The payload remains what the calls so far build. |
| AdObjects.AdvertisementData.SetAppearance | libraries/BLE/src/BLEAdvertising.cpp:311-316 | The same for an appearance. |
| AdObjects.AdvertisementData.SetName | libraries/BLE/src/BLEAdvertising.cpp:395-402 | The same for a name of any length; its length byte wraps. |
| AdObjects.AdvertisementData.SetShortName | libraries/BLE/src/BLEAdvertising.cpp:484-491 | The same for a short name. |
| AdObjects.AdvertisementData.SetManufacturerData | libraries/BLE/src/BLEAdvertising.cpp:381-388 | The same for manufacturer data. |
| AdObjects.AdvertisementData.SetCompleteServices | libraries/BLE/src/BLEAdvertising.cpp:323-353 | The same for a service, by the size of its UUID; an unset one adds nothing. |
| AdObjects.AdvertisementData.SetPartialServices | libraries/BLE/src/BLEAdvertising.cpp:409-439 | The same for a partial service list. |
| AdObjects.AdvertisementData.SetServiceData | libraries/BLE/src/BLEAdvertising.cpp:447-477 | The same for service data. |
| AdObjects.AdvertisedDevice.HandleField | libraries/BLE/src/BLEAdvertisedDevice.cpp:296-314 | Name, power, appearance, flags and manufacturer data set their field and nothing else. |
| AdObjects.AdvertisedDevice.HandleServices | libraries/BLE/src/BLEAdvertisedDevice.cpp:316-340 | The loops append the UUIDs of the record in order. |
| AdObjects.AdvertisedDevice.AddServiceData | libraries/BLE/src/BLEAdvertisedDevice.cpp:508-520 | Appends the UUID, and the data unless it is empty. |
| AdObjects.AdvertisedDevice.HandleRecord | libraries/BLE/src/BLEAdvertisedDevice.cpp:295-391 | Any record changes the device as specified, unknown types not at all. |
| AdObjects.AdvertisedDevice.ParseAdvertisement | libraries/BLE/src/BLEAdvertisedDevice.cpp:272-400 | For every buffer the pass ends inside it exactly if its records are complete and it has 1 to 255 bytes, and the device is then the parse of the payload. |
| AdObjects.AdvertisedDevice.ParseRecord | libraries/BLE/src/BLEAdvertisedDevice.cpp:281-392 | One turn of the loop absorbs one record exactly if it is complete. |
| GattValue.RunIsReplay | libraries/BLE/src/BLECharacteristic.cpp:228-327 | Over every sequence of requests the value is the last accepted direct write or the last executed non-empty parts; nothing is accumulated when no long write is pending. |
| GattValue.QueuedWritesAreNotLimited | libraries/BLE/src/BLEValue.cpp:58-65 | A queued write sets a value of any size, a direct write only up to the limit. |
| GattValue.RewindIff | libraries/BLE/src/BLECharacteristic.cpp:228-327 | Which requests reset the read offset. |
| GattValue.OverreadIff | libraries/BLE/src/BLECharacteristic.cpp:375-390 | A read leaves the value exactly if it is long and its offset is behind the end. |
| GattValue.NoOverread | libraries/BLE/src/BLECharacteristic.cpp:371-411 | In a run without a direct write that ends before the offset, no read leaves the value. |
| GattValue.ShorteningOverreads | libraries/BLE/src/BLECharacteristic.cpp:375-390 | After any run, a direct write makes the next long read leave the value exactly if it ends before the offset. |
| GattValue.OverreadIsReachable | libraries/BLE/src/BLECharacteristic.cpp:375-390 | A family of runs that do. |
| GattValue.TransferReassembles | libraries/BLE/src/BLECharacteristic.cpp:371-411 | From any stale offset the client gets the value in length / room + 1 responses, number k for offset (k - 1) * room, the last carrying the remainder and resetting the offset. |
| GattValue.TransferIsExactIff | libraries/BLE/src/BLECharacteristic.cpp:371-411 | A client that asks until a response is not full gets the value, in any number of responses, if and only if the offset of the last piece is below 65536. |
| GattValue.DirectlyWrittenValuesTransfer | libraries/BLE/src/BLECharacteristic.cpp:371-411 | It always does so for values a direct write can set. |
| GattValue.TransferAfterAnyRun | libraries/BLE/src/BLECharacteristic.cpp:371-411 | A transfer after any run changes nothing but the offset. |
| GattCharacteristic.Characteristic.HandleWrite | libraries/BLE/src/BLECharacteristic.cpp:284-327 | Prepared parts accumulate, direct writes set the value, requests for other attributes do nothing; the response echoes the request. |
| GattCharacteristic.Characteristic.HandleExecWrite | libraries/BLE/src/BLECharacteristic.cpp:228-248 | Only a characteristic with a pending long write acts and answers, and nothing is pending afterwards. |
| GattCharacteristic.Characteristic.HandleRead | libraries/BLE/src/BLECharacteristic.cpp:341-430 | The piece of the value served, with the callback's new value if there is one, and the next offset. |
| GattCharacteristic.Characteristic.NextPiece | libraries/BLE/src/BLECharacteristic.cpp:374-390 | The branch for long reads. |
| GattCharacteristic.Characteristic.FirstPiece | libraries/BLE/src/BLECharacteristic.cpp:391-411 | The branch for plain reads. |
| GattCharacteristic.Characteristic.SetValue | libraries/BLE/src/BLECharacteristic.cpp:657-669 | Sets the value unless it is too long. |
| GattCharacteristic.BleValue.AddPart | libraries/BLE/src/BLEValue.cpp:36-39 | Appends a part. |
| GattCharacteristic.BleValue.CancelParts | libraries/BLE/src/BLEValue.cpp:45-49 | Drops the parts and the offset. |
| GattCharacteristic.BleValue.Commit | libraries/BLE/src/BLEValue.cpp:58-65 | Makes the parts the value; without parts nothing changes. |
| Base64.StandardLength | libraries/BLE/src/GeneralUtils.cpp:27-29 | The standard's text of n bytes has 4 * ceil(n / 3) characters. |
| Base64.EncodedLengthIsStandard | libraries/BLE/src/GeneralUtils.cpp:27-29 | The length the encoder reserves is that length. |
| Base64.GroupIsQuantum | libraries/BLE/src/GeneralUtils.cpp:37-42 | The masks and shifts yield the four 6-bit groups of the 24-bit number. |
| Base64.JoinInvertsSplit | libraries/BLE/src/GeneralUtils.cpp:45-49 | Joining inverts splitting. |
| Base64.LookupInvertsSymbol | libraries/BLE/src/GeneralUtils.cpp:145-152 | Looking a symbol of the alphabet up gives its value; padding is not a symbol. |
| Base64.LookupElsewhere | libraries/BLE/src/GeneralUtils.cpp:145-152 | Exactly the characters outside the alphabet look up as 255. |
| Base64.JoinTakesLowBits | libraries/BLE/src/GeneralUtils.cpp:45-49 | Joining looks at the low six bits of the inner characters only, and cuts the sums to a byte. |
| Base64.Encode | libraries/BLE/src/GeneralUtils.cpp:57-98 | The encoder returns true and its text is that of the standard. |
| Base64.PutGroup | libraries/BLE/src/GeneralUtils.cpp:70-78 | Writes the quantum of three bytes. |
| Base64.PutTail | libraries/BLE/src/GeneralUtils.cpp:81-95 | Writes the text of one or two final bytes, padded. |
| Base64.StandardDecodes | libraries/BLE/src/GeneralUtils.cpp:160-209 | Every encoded text carries the padding its length calls for, and its groups decode to the data. |
| Base64.TailDecodes | libraries/BLE/src/GeneralUtils.cpp:192-206 | Both tail cases decode although missing characters look up as 255. |
| Base64.DecodeInvertsEncode | libraries/BLE/src/GeneralUtils.cpp:134-209 | Decoding the encoding of non-empty data succeeds with the data. |
| Base64.EncodeInvertsDecode | libraries/BLE/src/GeneralUtils.cpp:57-209 | Encoding the decoding of any text of whole groups of the alphabet gives the text back. |
| Base64.EncodingIsInjective | libraries/BLE/src/GeneralUtils.cpp:57-98 | Different data have different texts. |
| Base64.AcceptedIff | libraries/BLE/src/GeneralUtils.cpp:134-209 | For every text, whether it is accepted, rejected, or makes the decoder leave its buffers. |
| Base64.PaddedAcceptedIff | libraries/BLE/src/GeneralUtils.cpp:134-209 | Which texts with padding at the end only are accepted. |
| Base64.AcceptedBehindPadding | libraries/BLE/src/GeneralUtils.cpp:171-174 | An accepted text with a character behind the first padding character. |
| Base64.CountPads | libraries/BLE/src/GeneralUtils.cpp:134-142 | The padding characters at the end. |
| Base64.DecodeText | libraries/BLE/src/GeneralUtils.cpp:160-209 | The decoder's data, its rejections, and the inputs on which it leaves its buffers. |
| Base64.DecodeCharacters | libraries/BLE/src/GeneralUtils.cpp:171-207 | The loops decode the characters before the first padding character. |
| EepromMirror.RunCoherent | libraries/EEPROM/src/EEPROM.cpp:52-221 | In every reachable open state a clear dirty flag implies that the mirror equals the stored blob. |
| EepromMirror.FlagIsTransparent | libraries/EEPROM/src/EEPROM.cpp:52-221 | Mirror and store are always those of a plain byte array that is stored at every commit. |
| EepromMirror.FlagIsUnsaved | libraries/EEPROM/src/EEPROM.cpp:178-221 | The flag is set exactly if a byte was changed or a range written since the last successful store, so a commit of an unchanged mirror stores nothing. |
| EepromMirror.ReadAfterWrite | libraries/EEPROM/src/EEPROM.cpp:164-192 | A read returns what the last write put there, through either call; a write out of range changes nothing. |
| EepromMirror.ReadAfterOpening | libraries/EEPROM/src/EEPROM.cpp:66-142 | Opening at n shows the first min(n, length) stored bytes and 0xFF behind them, and 0 outside. |
| EepromMirror.ReadOutside | libraries/EEPROM/src/EEPROM.cpp:164-176 | Reads outside the size, or without a mirror, return 0. |
| EepromMirror.ReopeningKeepsPrefix | libraries/EEPROM/src/EEPROM.cpp:52-162 | Any chain of closing and reopening keeps the prefix up to the smallest size used. |
| EepromMirror.RunMirror | libraries/EEPROM/src/EEPROM.cpp:52-162 | The history of openings and ends alone determines size and presence of the mirror. |
| EepromMirror.CrashIff | libraries/EEPROM/src/EEPROM.cpp:584-595 | A run copies through a missing mirror exactly if it copies a range within the size while the mirror is lost. |
| EepromMirror.NoCrash | libraries/EEPROM/src/EEPROM.cpp:584-595 | If no opening of an open object runs out of memory for the mirror, none is lost and nothing misses it. |
| EepromMirror.FailedReopening | libraries/EEPROM/src/EEPROM.cpp:129-142 | After such an opening a range read or write within the old size misses the mirror, and a byte write does not. |
| Eeprom.EepromObject.Open | libraries/EEPROM/src/EEPROM.cpp:52-143 | Every way opening can fail, and the mirror and blob after success. |
| Eeprom.EepromObject.Expand | libraries/EEPROM/src/EEPROM.cpp:87-127 | A larger blob keeps the old bytes and is erased behind them. |
| Eeprom.EepromObject.GetBlob | libraries/EEPROM/src/EEPROM.cpp:134-141 | Copies the blob to the front of an array. |
| Eeprom.EepromObject.WriteByte | libraries/EEPROM/src/EEPROM.cpp:178-192 | Writes in range, and marks the mirror dirty only if the byte differs. |
| Eeprom.EepromObject.WriteRange | libraries/EEPROM/src/EEPROM.cpp:584-595 | Writes a whole range or nothing; misses the mirror exactly as the machine does. |
| Eeprom.EepromObject.ReadByte | libraries/EEPROM/src/EEPROM.cpp:164-176 | Returns the byte, or 0 out of range. |
| Eeprom.EepromObject.ReadRange | libraries/EEPROM/src/EEPROM.cpp:457-466 | Returns a whole range, byte for byte what single reads return, or nothing; misses the mirror exactly as the machine does. |
| Eeprom.EepromObject.CommitMirror | libraries/EEPROM/src/EEPROM.cpp:194-221 | Success exactly if open and stored or clean; the store then equals the mirror. |
| Eeprom.EepromObject.Close | libraries/EEPROM/src/EEPROM.cpp:145-162 | Commits and gives the mirror up. |
| DnsMessage.DecodeAsked | libraries/DNSServer/src/DNSServer.cpp:79-90 | An independent decoder finds the labels of a well-formed question and the end of its name. |
| DnsMessage.ReplyAnswers | libraries/DNSServer/src/DNSServer.cpp:160-193 | The reply's header is that of the request with the response bit set and one answer for each question. Decoding returns the name, type and class asked for; the answer points to offset 12 and so is for the same name, with type A, class IN, time to live and address. |
| DnsMessage.DottedSplits | libraries/DNSServer/src/DNSServer.cpp:138-157 | Splitting the joined name at its dots gives the labels back. |
| DnsServer.Server.CopyQuestion | libraries/DNSServer/src/DNSServer.cpp:83-95 | For a well-formed question the copy succeeds exactly for names of at most 127 bytes, and is then byte-identical, with its type and class. |
| DnsServer.Server.CopyLabels | libraries/DNSServer/src/DNSServer.cpp:84-89 | The loop copies all labels, or its length wraps. |
| DnsServer.Server.CopyOne | libraries/DNSServer/src/DNSServer.cpp:86-88 | One turn of the loop copies one label. |
| DnsServer.Server.DomainName | libraries/DNSServer/src/DNSServer.cpp:123-158 | The second walk yields the labels joined by dots and stops on the byte that ends the copied name. |
| DnsServer.Server.AppendLabel | libraries/DNSServer/src/DNSServer.cpp:141-147 | The inner loop appends the bytes of one label. |
| DnsServer.Server.ProcessRequest | libraries/DNSServer/src/DNSServer.cpp:61-113 | Which requests are ignored, refused and answered, and the reply to those answered. |
| DnsServer.Server.ReplyWithIP | libraries/DNSServer/src/DNSServer.cpp:160-193 | The bytes of the reply, from the header and the copied question, with the header of a response. |
| WifiScan.QualityIsMonotone | libraries/WiFiManager/WiFiManager.cpp:3352-3369 | Quality is 0 up to -100 dBm, 100 from -50 dBm on, and grows by two for each dBm between. |
| WifiScan.Sort | libraries/WiFiManager/WiFiManager.cpp:1499-1516 | The indices are a permutation of all networks in non-increasing signal strength. |
| WifiScan.Settle | libraries/WiFiManager/WiFiManager.cpp:1509-1515 | The inner loop brings the strongest remaining network to its place. |
| WifiScan.RemoveDuplicates | libraries/WiFiManager/WiFiManager.cpp:1526-1545 | Exactly the entries that repeat an earlier name are overwritten, whatever name the driver reports for an overwritten entry. |
| WifiScan.OneStrongestPerName | libraries/WiFiManager/WiFiManager.cpp:1499-1545 | For the name of every network exactly one entry survives, with the strongest signal of that name. |
| WifiScan.PassingIsPrefix | libraries/WiFiManager/WiFiManager.cpp:1574-1577 | Of a list in order of strength, overwritten entries left out, the quality filter keeps a prefix. |
| WifiScan.ShownWithoutFilter | libraries/WiFiManager/WiFiManager.cpp:1526-1545 | Without the filter the page shows the survivors, in order. |
| WifiScan.ShownIff | libraries/WiFiManager/WiFiManager.cpp:1564-1613 | The page shows exactly the entries that are not overwritten and pass. |
| WifiScan.ListPassing | libraries/WiFiManager/WiFiManager.cpp:1564-1613 | The loop over the list shows the entries that are not overwritten and pass. |
| WifiScan.ScanItems | libraries/WiFiManager/WiFiManager.cpp:1499-1613 | Sorting, removing duplicates and filtering together: a prefix of the survivors, and exactly those that pass. |
| HtmlEntities.PassesAreEscape | libraries/WiFiManager/WiFiManager.cpp:3425-3436 | The three replacements equal one pass over the characters. |
| HtmlEntities.EscapeEntities | libraries/WiFiManager/WiFiManager.cpp:3425-3436 | The escaped text. |
| HtmlEntities.NoRawBrackets | libraries/WiFiManager/WiFiManager.cpp:3425-3436 | No angle bracket is left. |
| HtmlEntities.UnescapeInvertsEscape | libraries/WiFiManager/WiFiManager.cpp:3425-3436 | One pass recovers the text. |
| HtmlEntities.EscapeIsInjective | libraries/WiFiManager/WiFiManager.cpp:3425-3436 | Different texts stay different. |

## Left out

- Drivers, connection sequencing, pin tables, HTML templates, UUID names and logging: constants and foreign calls.
- Bluetooth serial: the connection flags, the receive queue, and stopping the service. The steps of the machine are atomic; a client change between a copy and the length update it belongs to is not modelled.
- AsyncUDP: addresses, ports and interfaces of a packet, sending, and the internals of the network stack, whose reference counting is taken to be atomic.
- UdpStack.Stack.UdpRecv: the worker runs in whole rounds between the steps of the callback; finer interleavings are in the machine of `UdpPbufs`.
- BleUuidObject.UuidObject.FromString: asks that 36 characters keep the parser inside (`BleUuid.StaysInside`); otherwise the source writes in front of its storage or reads behind the end of the string. Bytes for which the string has no digits are left uninitialised by the source, and unspecified here.
- BLEUUID::fromString and the constructors from native values.
- AdObjects.AdvertisedDevice.ParseAdvertisement: does not say what the device holds after a pass that leaves the buffer.
- BLE: notifications, descriptors, semaphores, and the fixed response buffer of a read.
- The limit of 600 bytes for a direct write is a constant of ESP-IDF, which is not part of this model.
- GattCharacteristic.Characteristic.HandleRead: callbacks that do more than set the value are not modelled.
- Eeprom.EepromObject.Open: takes store operations whose result codes the source ignores as successful.
- EEPROM: strings, typed accessors, the data pointer and partition conversion.
- DnsServer.Server.ProcessRequest: does not say what an error reply contains (the source sends the unchanged start of the request), nor what is copied from a malformed question.
- DNS: lower-casing and the "www." prefix are a parameter.
- WiFi: the page template, icons and encryption types.
