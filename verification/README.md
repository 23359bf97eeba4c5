# CH32V208 USB multiplexer host library: a verified model

The host library talks to a CH32V208 board over two USB bulk endpoints. Every message is a frame: a 24-byte
little-endian header, whose bytes 20 and 21 hold a CRC-16 of the header itself (computed with those two bytes
zeroed), and up to 488 payload bytes. The UART, SYS and BLE functions share one 16-bit sequence counter and one
inbound stream, and match each response to its request by sequence number, channel and opcode.

The project models that stack layer by layer and proves what each layer promises to the next:

| file | content |
|---|---|
| `BitStrings.dfy`, `Polynomial.dfy` | polynomials over GF(2), and division by x^16 + x^12 + x^5 + 1 one register shift at a time |
| `Words.dfy` | bytes and 16-bit words, their little-endian layout, their bits, conversions to `size_t` and `int` |
| `Crc.dfy` | the CRC loop, that it computes the polynomial remainder, and the table-driven form |
| `Codec.dfy`, `RoundTrip.dfy` | serializer, parser, shape check, encoder, decoder, frame builder; both round trips; the lengths modulo 2^16 |
| `Detection.dfy`, `HeaderProtection.dfy`, `BorderBursts.dfy` | which corruptions of a header the checksum inside it detects |
| `Transport.dfy`, `Delivery.dfy` | the device handle, `write_frame` and `read_frame` over transfers of any size; stream theorems |
| `Corruption.dfy` | what a read makes of a frame with a damaged header, and where the next read starts |
| `Transactions.dfy` | the two `transact` functions, `uart_write`, `uart_read` and `ble_read_event` |
| `Sending.dfy`, `Readers.dfy` | the bytes and statuses of every request, and what every reader returns for whatever arrives |
| `Sequence.dfy`, `Sessions.dfy`, `InOrder.dfy` | the sequence counter; all runs of a host and a device over one link |
| `Outbound.dfy` | what a device has received over a whole run |
| `Loopback.dfy` | the `uart-loopback` command |

Code that updates buffers, header structures or the device handle is a method over arrays and classes, proved
against a specification function; the theorems are about those functions. In a specification, `Link` is the state
of a device handle together with its endpoints. libusb is an adversary fixed in advance: a schedule says how many
bytes each OUT transfer moves or how it fails, and a tape lists the packets and failures that IN transfers meet.

Main results:

* The CRC loop returns the remainder of M(x)*x^16 + 0xFFFF*x^(8n), and nothing else is that remainder, for byte
  strings of every length.
* Headers that the decoder accepts are at least four bits apart, checksum bits included, and four is reached. Any
  odd number of flipped bits is rejected. Any error within 16 consecutive bits is rejected unless it crosses from
  the checksum into the reserved field; any error within 14 consecutive bits is rejected wherever it lies, and 14
  is the limit, because the checksum is stored low byte first inside the data it protects.
* A frame with such damage in its header, in whatever packets it arrives, is handed to no caller; the read takes the
  packets up to the one that completes the header, so the next read starts at a frame exactly when that was the last.
* Encoding and decoding are inverse to each other. The decoder alone accepts headers with `payload_len` from 65512
  upwards, since it compares lengths modulo 2^16; the second decode that every caller makes rejects exactly those.
* n messages written under any schedule of partial writes, and returned in any split into packets that do not
  cross a frame end, are read back as the same n headers and payloads in order.
* Every request is told byte by byte and status by status, and so is what `transact`, `uart_read` and
  `ble_read_event` return for whatever arrives.
* Over every run the device has received the frames of the successful writes back to back, if and only if no failed
  write moved a byte.
* Over every run that mixes UART, SYS and BLE calls, a `transact` that returns OK has the response to its own
  request, or to one a multiple of 65535 calls earlier. The second case is possible even against a device that
  answers every command once and in order, and a run shows it.
* Against such a device the responses still due are exactly the reads that came back with `ERR_TIMEOUT` and were
  not made good by draining. While one is overdue, the read of a `transact` either times out again or meets an
  earlier call's response; that one is refused with the protocol error if and only if the two calls are not a
  multiple of 65535 apart or differ in channel or opcode. With nothing overdue it times out or meets its own response.

Two remarks on the repository. The unit test for a bad CRC (`userspace/tests/test_proto.c:53-69`) flips a bit of
the magic number, which the shape check refuses before the CRC is looked at; what the CRC itself detects is stated
by the theorems above. The documents call the checksum CRC16-CCITT; the generator is that of section 2 of ITU-T
Recommendation V.41, with the register preset to 0xFFFF and no final exclusive-or, and the payload is not covered.

## Model

| member | source | states |
|---|---|---|
| `Words.Le16RoundTrip` | userspace/src/proto.c:23-32 | `read_le16` and `write_le16` are inverse to each other |
| `Crc.Crc16` | userspace/src/proto.c:101-127 | the nested loop returns the specified CRC of the first `len` bytes, and 0 for a null buffer |
| `Crc.ChecksumIsRemainder` | userspace/src/proto.c:101-127 | a word is the CRC of n bytes if and only if it is a remainder of M(x)\*x^16 + 0xFFFF\*x^(8n) modulo the generator, bits most significant first |
| `Crc.Bits16Update` | userspace/src/proto.c:110-124 | from any start value, the byte-wise loop equals feeding the message bit by bit into a polynomial division register |
| `Crc.ShiftNLinear` | userspace/src/proto.c:113-123 | the inner loop is linear over exclusive-or |
| `Crc.TableStep` | userspace/src/proto.c:110-124 | eight shifts equal one step through a table that the same loop defines |
| `Crc.TableDrivenForm` | module/REUSE_ASSESSMENT.md:46 | the table-driven form gives the same CRC for every start value and every byte string |
| `Polynomial.LongDivision` | userspace/src/proto.c:110-124 | the register after a message is what long division by the generator leaves, with an explicit quotient |
| `Polynomial.DivisionUnique` | userspace/src/proto.c:110-124 | quotient and remainder of a division by the generator are unique |
| `Polynomial.FeedLinear` | userspace/src/proto.c:110-124 | the register is linear in start value and message together |
| `Polynomial.TimesXNInjective` | userspace/src/proto.c:113-123 | register shifts are injective: x is invertible modulo the generator |
| `Polynomial.Preload` | userspace/src/proto.c:112-123 | adding a byte to the top of the register and shifting equals feeding its bits one at a time, up to 16 bits |
| `Codec.WriteLe16` | userspace/src/proto.c:23-27 | writes low byte and high byte and nothing else |
| `Codec.SerializeHeader` | userspace/src/proto.c:34-51 | the 24 bytes are the specified layout with the given checksum; the rest of the buffer is unchanged |
| `Codec.DeserializeHeader` | userspace/src/proto.c:53-70 | reads every field from its place |
| `Codec.EncodeHeader` | userspace/src/proto.c:129-157 | finishes the caller's header and writes its 24 bytes, or returns the overflow error and touches nothing |
| `Codec.DecodeHeader` | userspace/src/proto.c:159-192 | accepts or rejects as specified, and writes the caller's header only on success |
| `Codec.BuildFrame` | userspace/src/proto.c:194-234 | writes exactly header and payload, with all error cases and what they leave unchanged |
| `Codec.ChecksumFieldUnread` | userspace/src/proto.c:150-154 | the old checksum field has no influence on the serialized header |
| `Codec.DeserializeSerialized` | userspace/src/proto.c:34-70 | parsing what was serialized returns every field; clearing the checksum bytes gives the serialization with checksum 0 |
| `Codec.SerializeDeserialized` | userspace/src/proto.c:34-70 | serializing what was parsed reproduces the 24 bytes |
| `RoundTrip.EncodeDecode` | userspace/src/proto.c:129-192 | an encoded header, followed by anything, decodes to the caller's fields with final magic, version, lengths and CRC exactly when its length fits; else the overflow error |
| `RoundTrip.EncodedLayout` | userspace/src/proto.c:34-51 | where every field of an encoded header stands, the byte order, and that bytes 20 and 21 hold the CRC of the header with them zeroed |
| `RoundTrip.DecodeEncode` | userspace/src/proto.c:159-192 | whatever decode accepts, re-encoding reproduces the same header and the same 24 bytes |
| `RoundTrip.DecodeExactly` | userspace/src/proto.c:72-99 | which byte strings decode accepts, which get the overflow error, and that all others get the protocol error |
| `RoundTrip.DecodePrefix` | userspace/src/proto.c:174-190 | the decoder looks at the first 24 bytes only |
| `RoundTrip.AcceptedIsEncoded` | userspace/src/proto.c:129-192 | the headers accepted with `total_len` at least 24 are exactly the image of encode |
| `RoundTrip.AcceptedLengths` | userspace/src/proto.c:90-97 | an accepted header has `total_len` = `payload_len` + 24 at most 512, or is a wrapped one with `payload_len` from 65512 upwards |
| `RoundTrip.WrappedHeaderAccepted` | userspace/src/proto.c:90-97 | a header with a wrapped length that decode accepts |
| `Detection.NoEarlyReturn` | userspace/src/proto.c:113-123 | x^k is not 1 modulo the generator for 0 < k <= 207 |
| `Detection.FeedParity` | userspace/src/proto.c:110-124 | the register preserves bit parity for messages of every length |
| `Detection.ThreeErrors` | userspace/src/proto.c:110-124 | one to three errors in message and checksum together never match |
| `Detection.BurstSeen` | userspace/src/proto.c:110-124 | an error within 16 consecutive message bits always changes the register |
| `HeaderProtection.SealedIff` | userspace/src/proto.c:181-188 | next to a header with a right checksum, another one is right exactly when the checksum maps the difference of the messages to the difference of the fields |
| `HeaderProtection.MinimumDistance` | userspace/src/proto.c:159-192 | two different headers that decode accepts differ in at least four bits |
| `HeaderProtection.ThreeBitErrorsRejected` | userspace/src/proto.c:181-188 | one, two or three flipped bits anywhere in an accepted header are rejected |
| `HeaderProtection.DistanceFourReached` | userspace/src/proto.c:181-188 | next to every accepted header there is an accepted one at distance four |
| `HeaderProtection.SealedEven` | userspace/src/proto.c:181-188 | a header with a right checksum has an even number of one bits |
| `HeaderProtection.EncodedEven` | userspace/src/proto.c:152-154 | everything encode writes has an even number of one bits |
| `HeaderProtection.OddErrorsRejected` | userspace/src/proto.c:181-188 | any odd number of flipped bits is rejected |
| `HeaderProtection.TailErrors` | userspace/src/proto.c:181-188 | exactly which errors in checksum and reserved field go unnoticed |
| `HeaderProtection.MessageBurst` | userspace/src/proto.c:181-188 | an error within 16 consecutive bits of bytes 0 to 19 or 22 to 23 makes the checksum wrong |
| `HeaderProtection.FieldBurst` | userspace/src/proto.c:181-188 | any error confined to bytes 20 and 21 makes the checksum wrong |
| `HeaderProtection.PayloadLengthBurst` | userspace/src/proto.c:90-93 | a changed payload length next to an unchanged front part fails the shape check |
| `HeaderProtection.BurstRejected` | userspace/src/proto.c:159-192 | a change within 16 consecutive bits that does not cross from byte 21 to byte 22 is rejected |
| `HeaderProtection.StraddlingExactly` | userspace/src/proto.c:181-188 | exactly which changes within 16 bits across that border are accepted |
| `BorderBursts.ShortBurstRejected` | userspace/src/proto.c:159-192 | a change within 14 consecutive bits is rejected wherever it lies |
| `BorderBursts.StraddlingBurstAccepted` | userspace/src/proto.c:181-188 | next to every accepted header there is an accepted one that differs only within 15 consecutive bits |
| `Transport.Device.constructor` | userspace/src/device.c:83 | a new handle starts at sequence number 1 |
| `Transport.Device.NextSeq` | userspace/src/device.c:316-331 | returns the counter and advances it, skipping 0 on wrap-around; nothing else changes |
| `Transport.MapUsbError` | userspace/src/device.c:16-27 | timeouts and lost devices, and only those, have their own error; no error maps to OK |
| `Transport.Device.BulkOut` | userspace/src/device.c:158-163 | an OUT transfer moves the leading bytes the schedule says, or fails as it says |
| `Transport.Device.BulkIn` | userspace/src/device.c:213-218 | an IN transfer puts the next packet at the offset and changes nothing else in the buffer, or fails and changes nothing outside the requested range |
| `Transport.Device.WriteFrame` | userspace/src/device.c:139-176 | the loop over partial writes refines the specified outcome: status, bytes moved, state |
| `Transport.Device.ReadFrame` | userspace/src/device.c:178-247 | for every tape the loop ends with the specified outcome; the bytes taken are in the buffer also when it fails; the length variable is 0 on failure and untouched when the buffer is too small |
| `Transport.Retarget` | userspace/src/device.c:230-242 | the header is decoded once it is complete, and its total length becomes the target if it fits the capacity |
| `Delivery.WritePrefix` | userspace/src/device.c:152-175 | the device receives a prefix of the frame in order, and all of it exactly once when the write succeeds |
| `Delivery.WriteExactly` | userspace/src/device.c:152-175 | a write succeeds if and only if some stretch of the schedule makes progress in every call and moves the whole frame |
| `Delivery.WriteGuard` | userspace/src/device.c:147-150 | an empty frame and one of more than 512 bytes are refused with the overflow error before anything is moved, and no others |
| `Delivery.WriteAccount` | userspace/src/device.c:164-171 | at most one event per byte, exactly how many bytes move, and which call a failure comes from |
| `Delivery.ReadConsumes` | userspace/src/device.c:198-228 | reading takes a prefix of the tape; on success it got exactly the bytes of that prefix |
| `Delivery.NextReading` | userspace/src/device.c:230-242 | once the header is decoded and bytes are missing, the guard of the decode is false for good; the target stays, and later bytes do not change what the header decodes to |
| `Delivery.ReadDecoded` | userspace/src/device.c:230-246 | the length reported is the total length of the decoded header, and bytes received earlier stay as they are |
| `Delivery.SurplusBound` | userspace/src/device.c:198-246 | with a total length of at least 24, at most 63 bytes beyond the frame are taken |
| `Delivery.TransferBound` | userspace/src/device.c:198-243 | at most max(24, total length) transfers |
| `Delivery.ReadGuard` | userspace/src/device.c:191-207 | buffers below 24 bytes, and those whose size as a 32-bit int is not positive, are refused before any transfer |
| `Delivery.ReadFailure` | userspace/src/device.c:204-241 | the cause of every failed read; for capacities within `int` the `capacity <= 0` branch is never taken |
| `Delivery.ReadLocal` | userspace/src/device.c:198-246 | an outcome that did not wait for more does not depend on what arrives later |
| `Delivery.ReadGuarantee` | userspace/src/device.c:178-247 | all of these together for a call of `read_frame` |
| `Delivery.SecondDecode` | userspace/src/uart.c:70-80 | the second decode rejects a wrapped length; otherwise it succeeds with the same header and `payload_len` = `frame_len` - 24 <= 488 |
| `Delivery.ReceiveStep` | userspace/src/device.c:201-211 | while a frame arrives in packets that do not cross its end, every request has room for the next packet |
| `Delivery.ReceiveFront` | userspace/src/device.c:198-243 | packets inside a frame are taken one by one, and the target is 24 until the header is complete and the frame length from then on |
| `Delivery.ReceiveFrame` | userspace/src/device.c:178-247 | any split of a frame into packets of 1 to 64 bytes that do not cross its end is read as exactly that frame, and nothing behind it is taken |
| `Delivery.CrossingPacket` | userspace/src/device.c:201-246 | a last packet that runs past the end of its frame completes the frame and loses its surplus if the buffer has room for it, and fails the read otherwise |
| `Delivery.BuiltFrame` | userspace/src/proto.c:194-234 | a built frame decodes to the caller's header with the payload behind it |
| `Delivery.EndToEnd` | userspace/src/device.c:139-247 | what was built and written under any schedule is read back as the same header and payload under any split |
| `Delivery.StreamDelivery` | userspace/src/device.c:139-247 | n messages sent are received as the same n headers and payloads in order |
| `Corruption.DamagedFrameMissed` | userspace/src/device.c:230-236 | a frame with one to three or an odd number of flipped header bits, or a short burst, fails the read with the decoder's error in any split, and exactly the packets up to the one that completes byte 24 are taken |
| `Corruption.DamagedFrameRefused` | userspace/src/uart.c:70-74 | neither `transact`, `uart_read` nor `ble_read_event` hands anything of such a frame to its caller |
| `Corruption.WrappedFrameRead` | userspace/src/device.c:237-246 | a frame with wrapped length fields makes `read_frame` report OK with a length below 24, and the second decode refuses it |
| `Corruption.NextStart` | userspace/src/device.c:198-236 | the next read starts behind the damaged frame exactly when that packet was the frame's last one, and inside it otherwise |
| `Corruption.Resynchronised` | userspace/src/device.c:178-247 | in the first case an undamaged frame behind it is read as that frame |
| `Transactions.SendRequest` | userspace/src/uart.c:51-68 | allocate a number, build the frame, write it |
| `Sending.BeginRefused` | userspace/src/proto.c:207-218 | a request returns the argument error exactly for a null pointer with a length and the overflow error exactly for more than 488 bytes; then only a sequence number is taken |
| `Sending.BeginStatus` | userspace/src/uart.c:58-68 | any other request returns OK exactly when the schedule makes progress in every call until header and payload are moved, and otherwise the error of the last event it used |
| `Sending.BegunFrame` | userspace/src/uart.c:51-68 | the bytes of a successful request are one frame that decodes to the caller's channel, type, opcode and number and carries the payload |
| `Sending.RequestBytes` | userspace/src/uart.c:51-64 | the frame of a request byte by byte: prefix, number, channel, type, opcode, zero fields, payload |
| `Sending.DataBytes` | userspace/src/uart.c:358-371 | a data frame goes to channel type 2 of its port, with type 4 and opcode 0, and carries the data |
| `Sending.BleBytes` | userspace/src/ble.c:37-50 | a BLE request goes to channel type 16, channel 0, with type 1 and the opcode |
| `Transactions.FetchFrame` | userspace/src/uart.c:70-80 | read a frame and decode the length reported; the payload stands behind the header |
| `Transactions.ReceiveResponse` | userspace/src/uart.c:70-115 | read, decode, match and hand over, in the order of the source; header, buffer and length variables change on success only |
| `Transactions.UartTransact` | userspace/src/uart.c:26-116 | a whole transaction: status, link state, and what it writes through the four result pointers, each of which may be null; on failure they are untouched |
| `Transactions.BleTransact` | userspace/src/ble.c:16-97 | the same on the BLE management channel, without a response header |
| `Transactions.UartWrite` | userspace/src/uart.c:346-372 | sends a data frame; a null pointer with a length is refused before a number is taken |
| `Transactions.UartRead` | userspace/src/uart.c:374-415 | hands over payload and length of a data frame of that port, or changes neither; null pointers are refused before the link is touched |
| `Transactions.BleReadEvent` | userspace/src/ble.c:187-238 | hands over header, payload and length of an event frame, or changes none of them; a null length pointer is refused before the link is touched |
| `Transactions.ArrivedWhole` | userspace/src/uart.c:70-80 | a frame that reaches a caller was received whole, with its payload length unwrapped and at most 488 |
| `Readers.ArrivalExactly` | userspace/src/uart.c:70-80 | a failed read hands its status up, a wrapped length the protocol error, and every other read a header and bytes 24 to `frame_len` |
| `Readers.FirstTransfer` | userspace/src/device.c:213-226 | the status of a read whose first transfer times out, fails, or moves nothing or too much |
| `Readers.MissedStatus` | userspace/src/ble.c:203-213 | whatever keeps a frame from arriving is the status that `transact`, `uart_read` and `ble_read_event` return |
| `Readers.TransferStatus` | userspace/src/ble.c:203-207 | a silent endpoint gives the timeout error, and a failing one its own error, to all three |
| `Readers.ResponseExactly` | userspace/src/uart.c:81-115 | whatever arrives, the response checks in their order, with literal type and the payload's real length |
| `Readers.DataExactly` | userspace/src/uart.c:401-414 | the same for `uart_read`, a payload that exactly fills the buffer included |
| `Readers.EventExactly` | userspace/src/ble.c:214-237 | the same for `ble_read_event` |
| `Readers.DeliveredWhole` | userspace/src/uart.c:94-105 | a delivered payload is bytes 24 to `frame_len` of a frame received whole, of its length less 24, at most 488, and fits the buffer |
| `Readers.FrameArrives` | userspace/src/uart.c:70-80 | a frame with any header, in any split, arrives with its header and payload |
| `Readers.ResponseRead` | userspace/src/uart.c:70-115 | what a transaction returns for a frame with any header in any split |
| `Readers.DataRead` | userspace/src/uart.c:390-414 | what `uart_read` returns for it |
| `Readers.EventRead` | userspace/src/ble.c:203-237 | what `ble_read_event` returns for it |
| `Sequence.CallReturns` | userspace/src/device.c:316-331 | the k-th call since open returns 1 + (k mod 65535), so never 0 |
| `Sequence.SameNumber` | userspace/src/device.c:316-331 | two calls get the same number exactly when they are a multiple of 65535 calls apart |
| `Sequence.WindowDistinct` | userspace/src/device.c:316-331 | any 65535 consecutive numbers are pairwise distinct |
| `Sessions.SentInBetween` | userspace/src/uart.c:51-115 | splitting a transaction at the read, with the device sending in between, gives the same result as the whole call |
| `Sessions.FetchUnit` | userspace/src/uart.c:70-80 | a read takes exactly what the device sent as one unit, whatever is queued behind it |
| `Sessions.InvNext` | userspace/src/uart.c:51-92 | every step of host and device keeps the invariant of runs |
| `Sessions.NoStaleResponse` | userspace/src/uart.c:81-92 | over all runs, a transaction that returns OK never has the response to another request, if that response answers one of the last 65534 numbers or its own |
| `Sessions.MatchExactly` | userspace/src/uart.c:76-101 | the verdict on every unit read in every run; a response gets the protocol error exactly when the call numbers are not congruent modulo 65535 or channel or opcode differ |
| `Sessions.ExpectedVerdict` | userspace/src/uart.c:70-101 | comparing 16-bit numbers as the source does gives the verdict told by the numbers of the calls since open, in the order of the checks |
| `Outbound.MovedPrefix` | userspace/src/uart.c:51-68 | a request adds what its write moved to the stream, which is its whole frame when it returns OK |
| `Outbound.WrittenFrames` | userspace/src/uart.c:58-68 | the commands among the frames sent are those recorded as written in the run, in order |
| `Outbound.SentExactly` | userspace/src/device.c:152-175 | over every run the stream sent is the frames of the successful writes back to back, data frames included, if and only if no failed write moved a byte |
| `InOrder.HeadCommand` | userspace/src/uart.c:58-88 | the response at the head of the stream answers the command as many back as responses are overdue |
| `InOrder.StepInOrder` | userspace/src/uart.c:58-88 | every step keeps the invariant of in-order runs |
| `InOrder.AnswerEnabled` | userspace/src/uart.c:81-85 | a device that echoes a command in any split takes a step of such a run |
| `InOrder.TimeoutExactly` | userspace/src/uart.c:70-74 | in an in-order run a read comes back with `ERR_TIMEOUT` exactly when no response is waiting |
| `InOrder.CountersTold` | userspace/src/ble.c:56-60 | the timeouts of a run are the reads that came back with `ERR_TIMEOUT`, and its drained units the frames that `uart_read` and `ble_read_event` took |
| `InOrder.LagTold` | userspace/src/uart.c:70-74 | what counts as overdue at a read is the number of reads that had come back with `ERR_TIMEOUT` just before it, less the frames drained by then |
| `InOrder.Conservation` | userspace/src/ble.c:44-74 | outstanding responses always equal the reads that came back with `ERR_TIMEOUT` less the frames drained, plus the call in progress |
| `InOrder.MatchedWithoutTimeouts` | userspace/src/uart.c:81-101 | while no read has come back with `ERR_TIMEOUT`, every response read answers its own request, and status and payload alone decide the verdict |
| `InOrder.OverdueExactly` | userspace/src/ble.c:67-86 | with nothing overdue a response read is the call's own; with something overdue it is an earlier call's, refused with the protocol error if and only if the calls are not congruent modulo 65535 or differ in channel or opcode, and taken for the own one otherwise |
| `InOrder.OverdueAccepted` | userspace/src/uart.c:81-88 | an in-order run in which call 0 is written, its read times out, and call 65535 accepts its late response |
| `Loopback.UartOpen` | userspace/src/uart.c:256-287 | the open transaction with the 8-byte line coding |
| `Loopback.LineLayout` | userspace/src/uart.c:10-24 | `read_le32` recovers the baud rate that `write_le32` laid out; the other line settings follow it |
| `Loopback.UartClose` | userspace/src/uart.c:289-302 | the close transaction |
| `Loopback.ReadBack` | userspace/tools/ch32v208-mux-cli.c:228-255 | terminates for every sequence of chunks, and `rx` is the concatenation of the accepted chunks |
| `Loopback.CmdUartLoopback` | userspace/tools/ch32v208-mux-cli.c:186-276 | exit code and link state of the command, and the requests it makes |
| `Loopback.EchoNext` | userspace/tools/ch32v208-mux-cli.c:233-254 | one turn of the loop: a refused read, an empty chunk and one that overruns 512 bytes end it with a failure, and any other chunk is appended |
| `Loopback.EchoBound` | userspace/tools/ch32v208-mux-cli.c:243-254 | reassembly stays within 512 bytes, accepts no empty chunk, and ends with enough bytes or a failure |
| `Loopback.ExitCodes` | userspace/tools/ch32v208-mux-cli.c:207-275 | exit code 2 exactly for more than 488 bytes; 0 exactly when open, write, every read and close succeed and the chunks read are the payload |
| `Loopback.CloseOnce` | userspace/tools/ch32v208-mux-cli.c:213-266 | the history of requests grows by open, data and one close behind every open that succeeds, by the open alone if it fails, and by nothing if the payload is too large |
| `Loopback.OpenBytes` | userspace/src/uart.c:276-286 | an open is a command of channel type 1 and the port, opcode 3, with the line coding as payload |
| `Loopback.OpenStatus` | userspace/src/uart.c:58-101 | what an open returns for a failed write, a failed read, and any response |
| `Loopback.CloseBytes` | userspace/src/uart.c:291-301 | a close is a command of channel type 1 and the port, opcode 4, without payload |
| `Loopback.CloseStatus` | userspace/src/uart.c:58-101 | what a close returns, in the same cases |
| `Loopback.LoopbackExactly` | userspace/tools/ch32v208-mux-cli.c:213-275 | with the three frames written under any schedule, open and close acknowledged, and data frames of the port coming back in any packets until the last brings enough bytes: exit code 0 if and only if their payloads are the payload, else 1 |

## Left out

- Null pointers: handled where the source treats them as a case of their own (`ch32mux_crc16` without data, optional payloads, response buffers and result variables, `uart_read` and `ble_read_event` without them); the bare `ERR_ARG` returns for a null device, and for null buffers and headers in the codec and transfer functions, are not modelled.
- Transport.Device.BulkIn: does not say what a failed transfer leaves in the range it was asked to fill; no caller reads it.
- Transport.Device.ReadFrame: says nothing about the buffer behind the bytes taken; every caller reads the frame only.
- Sessions.NoStaleResponse: takes from the device that a response echoes the number of a request made before it; nothing in the host can check that.
- InOrder.Conservation: counts a command as sent when its write succeeded; a device that answers a frame whose write was reported as failed after its last byte is not an in-order device in this sense.
- `ch32mux_uart_open` without a line coding (its default of 115200 8N1): the caller's line coding is always given.
- Runs contain transactions of type `MSG_CMD` only, which is what every caller of the two `transact` functions passes.
- A packet larger than the bytes requested is an I/O error of the transfer that consumes it, which is how libusb reports an overflow.
- `ch32mux_open`, `ch32mux_close` and the claim and detach logic: only the initial sequence number is modelled. Timeouts are events, not durations.
- `ch32mux_read_hint`, `ch32mux_parse_irq_hint`, `ch32mux_debug_bulk_transfer`: a single transfer and a fixed-offset copy.
- The capability, statistics and device-info getters, `ch32mux_ble_parse_scan_result` and the scan parameter layout: fixed-offset field copies behind a transaction.
- `ch32mux_result_name` and `ch32mux_device_status_name`: lookup switches.
- The rest of the command-line tool: argument parsing (`strtoul` and `strlen` results are parameters), printing, the scan loop with its wall clock.
- Firmware behaviour beyond echoing number, channel and opcode in order; its source is not part of this model.
