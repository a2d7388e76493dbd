# BmsRelay: a verified model of the BMS serial relay

`BmsRelay` (from the lolwheel/ow_bms_mitm firmware) sits in line between a
battery-management system (BMS) and its controller. It pulls bytes from the BMS
one at a time and writes them on. It recognises the packets of the BMS serial
protocol, reads telemetry from them, can overwrite the BMS serial number, and
hands every valid packet to the callbacks that have been registered.

A packet on the wire is

    FF 55 AA | type | payload | checksum high | checksum low

- The packet's total length is fixed by its type byte: 00→7, 02→38, 03→7,
  04→11, 05→8, 06→10, 07→13, 08→7, 09→7, 0B→8, 0C→8, 0D→9, 0F→11, 10→16 and
  11→10 bytes.
- The last two bytes are the big-endian 16-bit sum of every byte before them.
  The sum includes the sync header, which contributes 0x1FE.

The relay's implementation files (`bms_relay.h`, `bms_relay.cpp`, `packet.h`)
are not part of this model. The behaviour modelled is the behaviour the unit
test `test/bms_relay/bms_relay_test.cpp` fixes with its byte-exact vectors.

The project has six modules.

- `Bytes` (bytes.dfy): bytes, the byte sum, and big-endian 16/32-bit
  encoding with its round trips.
- `Packets` (packet.dfy): the sync header, the length table, the checksum
  and the validity check.
  - `ComputeChecksum` is a wrapping 16-bit accumulator loop proved against
    `Checksum`. `CheckValid` calls it on all but the last two bytes and
    compares; it is proved equivalent to `IsValid`.
  - `RewriteSerial` takes a copy of the packet, overwrites the four serial
    positions one by one and then the two checksum positions, and returns
    the copy. It is proved equal to `OverrideSerial`, whose properties are
    lemmas.
- `Telemetry` (telemetry.dfy): the readings a valid packet updates.
  - State of charge (type 03).
  - Raw signed current (type 05).
  - The first 15 cell voltages (type 02), with the pack total derived as their
    sum.
  - The captured serial number (type 06).
- `RelaySpec` (relay_spec.dfy): the framing state machine as a function
  `Step` of the relay state and one byte, and `Feed` over a byte sequence.
  Its properties are lemmas:
  - every byte is forwarded once and in order;
  - non-sync bytes pass at once;
  - partial packets are held;
  - a complete packet is handled on its last byte;
  - callbacks only see valid packets;
  - every callback is invoked once per packet, in registration order;
  - feeding in two chunks equals feeding once.
- `Relay` (relay.dfy): class `BmsRelay`, with these fields:
  - the pending input, the output written so far and the held buffer;
  - the override and the callback count;
  - the deliveries so far;
  - the telemetry fields, with cell millivolts in an `array`.

  Each method changes these fields in place and is proved against
  `RelaySpec`. For example, `Loop` drains the input byte by byte and ends in
  the state `Feed(old state, old input)`.
- `GoldenVectors` (vectors.dfy): every vector of the test, with the lemma
  that `RelaySpec` produces exactly the asserted output, callback
  packets and telemetry.
- `Scenarios` (scenarios.dfy): the tests again, as methods on fresh
  `BmsRelay` objects. Each one makes the bytes available, calls `Loop` and
  the getters, and states the test's assertions as its `ensures`.

Two facts the test vectors fix:

- The checksum is the last two bytes, big-endian, and is the 16-bit sum of
  every byte before it, the sync header and type byte included
  (`bms_relay_test.cpp` lines 51, 67 and 72-91).
- The serial captured into telemetry is the one the BMS sent, before the
  override is written (`bms_relay_test.cpp` line 63).

## Model

| member | source | states |
|---|---|---|
| Bytes.Be16RoundTrip | test/bms_relay/bms_relay_test.cpp:51 | two bytes read as a big-endian 16-bit value encode back to the same two bytes (the checksum bytes `02 0E`) |
| Bytes.Be32RoundTrip | test/bms_relay/bms_relay_test.cpp:57-67 | four bytes read as a big-endian 32-bit serial encode back to the same bytes, so the serial field and the captured serial agree |
| Bytes.Signed16 | test/bms_relay/bms_relay_test.cpp:129-133 | a 16-bit reading is read as two's complement: the result is in [-0x8000, 0x7FFF], is congruent to the raw value mod 0x10000, and is negative exactly when the top bit is set |
| Bytes.SumAppend | test/bms_relay/bms_relay_test.cpp:72-91 | the byte sum that the checksum uses is additive over concatenation |
| Packets.PacketLength | test/bms_relay/bms_relay_test.cpp:70-91 | the type-to-length table: every known length lies between 7 and 38, and 0xFF is never a known type |
| Packets.PacketLengthRoom | test/bms_relay/bms_relay_test.cpp:70-91 | every known type's length leaves room for the 4-byte header, at least one payload byte and the 2 checksum bytes, and is at most 38 |
| Packets.Payload | test/bms_relay/bms_relay_test.cpp:70-91 | the payload is everything between the type byte and the checksum, and header + payload + checksum rebuild the packet |
| Packets.Checksum | test/bms_relay/bms_relay_test.cpp:72-91 | the 16-bit checksum of a body short enough not to wrap (at most 257 bytes) is its plain byte sum |
| Packets.IsValid | test/bms_relay/bms_relay_test.cpp:93-96 | a packet is valid exactly when its last two bytes are the big-endian encoding of the checksum of the bytes before them |
| Packets.WithChecksum | test/bms_relay/bms_relay_test.cpp:66-67 | appending the big-endian 16-bit sum to a body keeps the body and always yields a valid packet |
| Packets.ValidIffChecksummed | test/bms_relay/bms_relay_test.cpp:93-96 | a packet is valid if and only if it equals its own body with the checksum recomputed |
| Packets.OverrideSerial | test/bms_relay/bms_relay_test.cpp:57-67 | the rewritten serial packet has the original length and a checksum that holds |
| Packets.OverrideSerialSpec | test/bms_relay/bms_relay_test.cpp:57-67 | the serial rewrite keeps the frame, header and trailing payload, places the new serial big-endian in payload bytes 0..3, and leaves a valid packet |
| Packets.OverrideSerialSame | test/bms_relay/bms_relay_test.cpp:57-67 | rewriting a valid serial packet with the serial it already carries leaves it unchanged |
| Packets.ChecksumOfKnownFrame | test/bms_relay/bms_relay_test.cpp:72-91 | a known packet is at most 38 bytes, so the 16-bit checksum of its body equals the plain byte sum: it never wraps |
| Packets.ComputeChecksum | test/bms_relay/bms_relay_test.cpp:72-91 | the wrapping 16-bit accumulator loop returns the byte sum mod 0x10000 |
| Packets.CheckValid | test/bms_relay/bms_relay_test.cpp:93-96 | the check answers true exactly when the last two bytes are the checksum of the bytes before them |
| Packets.RewriteSerial | test/bms_relay/bms_relay_test.cpp:57-67 | overwriting the serial positions and then the checksum positions of a copy of the packet, and returning the copy, produces exactly the rewritten packet `OverrideSerial` |
| Telemetry.CellMillivolts | test/bms_relay/bms_relay_test.cpp:135-143 | a cell-voltage packet always decodes to exactly 15 readings |
| Telemetry.SerialNumber | test/bms_relay/bms_relay_test.cpp:63 | the decoded serial encodes back, big-endian, to exactly the packet's four serial bytes |
| Telemetry.CellMillivoltsPairs | test/bms_relay/bms_relay_test.cpp:135-143 | cell i is the big-endian pair at payload offset 2i, for the first 15 pairs only |
| Telemetry.TotalMillivoltsBounds | test/bms_relay/bms_relay_test.cpp:144 | the derived pack voltage lies between 0 and 0xFFFF times the number of cells |
| Telemetry.SerialNumberOfOverride | test/bms_relay/bms_relay_test.cpp:57-67 | the serial read back from a rewritten packet is exactly the override |
| Telemetry.Apply | test/bms_relay/bms_relay_test.cpp:123-145 | a validated packet changes only the reading its type carries (SOC for 03, current for 05, cells for 02, serial for 06), and keeps 15 cells |
| RelaySpec.Outgoing | test/bms_relay/bms_relay_test.cpp:57-67 | the packet that leaves has the same frame, length and header, stays valid, and is the received packet unless it is a serial packet with an override set |
| RelaySpec.Complete | test/bms_relay/bms_relay_test.cpp:57-67 | a complete packet leaves with its length unchanged and only the output, readings and invocations change. A valid packet's readings are decoded from the bytes as received, while every callback is given the bytes that leave (rewritten when the override applies). An invalid packet only leaves. |
| RelaySpec.Step | test/bms_relay/bms_relay_test.cpp:43-68 | one byte keeps the held bytes a proper beginning of a known packet |
| RelaySpec.Feed | test/bms_relay/bms_relay_test.cpp:18-25 | after any input, the held bytes are still a proper beginning of a known packet |
| RelaySpec.FeedSnoc | test/bms_relay/bms_relay_test.cpp:18-25 | feeding one more byte is one more step of the state machine |
| RelaySpec.FeedAppend | test/bms_relay/bms_relay_test.cpp:97-103 | feeding two chunks in two loop calls equals feeding their concatenation in one |
| RelaySpec.StepForwards | test/bms_relay/bms_relay_test.cpp:43-55 | one step only appends to the output; written plus held bytes grow by exactly one, and without an override they are the old ones plus the byte |
| RelaySpec.FeedForwards | test/bms_relay/bms_relay_test.cpp:43-55 | over any input, every byte is written or held exactly once, in order when no override is set, and the override is never changed |
| RelaySpec.NonSyncForwarded | test/bms_relay/bms_relay_test.cpp:43-48 | bytes other than 0xFF, with nothing held, are written at once, unchanged and in order, and nothing else changes |
| RelaySpec.SyncFreeForwarded | test/bms_relay/bms_relay_test.cpp:43-55 | with nothing held and no `FF 55 AA` anywhere in the input, only the output and the held bytes change: the held bytes are the last two or fewer input bytes, and everything before them is written unchanged and in order |
| RelaySpec.SyncFreeHeldTail | test/bms_relay/bms_relay_test.cpp:43-55 | the induction behind SyncFreeForwarded: after any sync-free prefix the held bytes are its tail and the rest has been written |
| RelaySpec.StepScanForwards | test/bms_relay/bms_relay_test.cpp:43-48 | before a whole header is held, one byte changes only the output and the held bytes; written plus held grows by exactly that byte; the held bytes stay a beginning of the sync header and grow by the byte exactly when it continues the header; a byte that neither continues it nor is 0xFF is written at once behind the abandoned bytes. That a 0xFF after an abandoned partial header (`FF FF 55 AA`, `FF 55 FF 55 AA`) opens a new header is the model's choice, not fixed by the test |
| RelaySpec.StepUnknownTypeSync | test/bms_relay/bms_relay_test.cpp:43-48 | the model's choice, not fixed by the test: after a whole header, a 0xFF type byte (no known type) sends the header on and is held as the start of the next header |
| RelaySpec.WellFormedInit | test/bms_relay/bms_relay_test.cpp:106-108 | a proper beginning of a packet minus its last byte is still one |
| RelaySpec.StepHolds | test/bms_relay/bms_relay_test.cpp:106-108 | a byte that extends the held bytes to a proper beginning of a known packet is only held |
| RelaySpec.FeedPartialFrame | test/bms_relay/bms_relay_test.cpp:106-121 | any proper beginning of a known packet, including a bare `FF 55 AA`, is held entirely: nothing written, delivered or decoded |
| RelaySpec.FeedKnownFrame | test/bms_relay/bms_relay_test.cpp:50-55 | a complete known packet is handled when its own last byte arrives, without waiting for another header |
| RelaySpec.BlocksAppend | test/bms_relay/bms_relay_test.cpp:93-96 | appending one packet's invocations of all callbacks keeps the invocations in whole blocks |
| RelaySpec.StepInBlocks | test/bms_relay/bms_relay_test.cpp:93-96 | from a history already in whole blocks of the current callback count, one byte never changes the callbacks and adds either nothing or one whole block of invocations |
| RelaySpec.FeedInBlocks | test/bms_relay/bms_relay_test.cpp:93-121 | from a history already in whole blocks of the current callback count (for example none), the history stays in whole blocks over any input |
| RelaySpec.CompleteShift | test/bms_relay/bms_relay_test.cpp:93-96 | completing a packet keeps the earlier invocations and appends its own after them, whatever they were |
| RelaySpec.StepDeliveredFree | test/bms_relay/bms_relay_test.cpp:93-96 | what one byte delivers does not depend on the earlier invocations, which are kept in front |
| RelaySpec.FeedDeliveredFree | test/bms_relay/bms_relay_test.cpp:93-121 | what any input delivers does not depend on the earlier invocations, which are kept in front |
| RelaySpec.FeedAddsBlocks | test/bms_relay/bms_relay_test.cpp:93-121 | from any state, including one where callbacks were registered after earlier deliveries, over any input: the callbacks never change, the earlier invocations are kept, and the added ones come in whole blocks, each invoking every registered callback once, in registration order, with one packet |
| RelaySpec.FeedDeliversValid | test/bms_relay/bms_relay_test.cpp:93-96 | over any input, every packet a callback receives is a complete known packet whose checksum holds |
| Relay.BmsRelay.constructor | test/bms_relay/bms_relay_test.cpp:16-33 | a new relay holds nothing, has written nothing, has no override and no callbacks, and has zero readings |
| Relay.BmsRelay.Receive | test/bms_relay/bms_relay_test.cpp:35-37 | new bytes are queued after the pending ones and nothing else changes |
| Relay.BmsRelay.SetBmsSerialOverride | test/bms_relay/bms_relay_test.cpp:60 | only the override changes |
| Relay.BmsRelay.AddReceivedPacketCallback | test/bms_relay/bms_relay_test.cpp:93-96 | one more callback is registered after the existing ones, and nothing else changes |
| Relay.BmsRelay.GetCapturedBmsSerial | test/bms_relay/bms_relay_test.cpp:63 | returns the captured serial |
| Relay.BmsRelay.GetBmsReportedSoc | test/bms_relay/bms_relay_test.cpp:126 | returns the reported state of charge |
| Relay.BmsRelay.GetCurrentRaw | test/bms_relay/bms_relay_test.cpp:132 | returns the raw signed current reading |
| Relay.BmsRelay.GetCellMillivolts | test/bms_relay/bms_relay_test.cpp:143 | returns the cell readings, exactly 15 of them |
| Relay.BmsRelay.GetTotalVoltageMillivolts | test/bms_relay/bms_relay_test.cpp:144 | the summing loop returns the sum of the cell readings, which lies between 0 and 15 times 0xFFFF |
| Relay.BmsRelay.Loop | test/bms_relay/bms_relay_test.cpp:18-25 | drains the whole input, and the new state is `RelaySpec.Feed` of the old state and exactly the pending bytes, in order |
| Relay.BmsRelay.Write | test/bms_relay/bms_relay_test.cpp:26-29 | bytes are written one at a time and appended to the output in order |
| Relay.BmsRelay.ProcessNextByte | test/bms_relay/bms_relay_test.cpp:43-68 | one byte moves the object exactly as one `RelaySpec.Step` |
| Relay.BmsRelay.IngestPacket | test/bms_relay/bms_relay_test.cpp:57-67 | a complete packet is checked, decoded, rewritten, delivered to every callback and written, exactly as `RelaySpec.Complete` does |
| Relay.BmsRelay.Dispatch | test/bms_relay/bms_relay_test.cpp:93-96 | every registered callback is invoked once with the packet, in registration order, after the earlier invocations |
| Relay.BmsRelay.UpdateReadings | test/bms_relay/bms_relay_test.cpp:123-145 | the telemetry fields become the readings the packet's type determines |
| Relay.BmsRelay.ParseCellVoltages | test/bms_relay/bms_relay_test.cpp:135-143 | the cell array is filled with the first 15 big-endian pairs of the payload |
| GoldenVectors.FrameValid | test/bms_relay/bms_relay_test.cpp:70-91 | a frame of a known type with the type's length and checksum 0x1FE + type + payload sum is complete and valid |
| GoldenVectors.FrameBodySum | test/bms_relay/bms_relay_test.cpp:51 | the sync header contributes 0x1FE to every packet's checksum |
| GoldenVectors.FeedValidFrame | test/bms_relay/bms_relay_test.cpp:97-103 | a valid packet that is not rewritten is written whole, delivered once to each callback and decoded |
| GoldenVectors.UnknownBytesForwardedImmediately | test/bms_relay/bms_relay_test.cpp:43-48 | input `01 02 03` gives output `01 02 03` and nothing else |
| GoldenVectors.SerialPacketValid | test/bms_relay/bms_relay_test.cpp:51 | the serial packet of the tests is complete and valid |
| GoldenVectors.UnknownDataAfterKnownPacketFlushed | test/bms_relay/bms_relay_test.cpp:50-55 | the serial packet followed by any bytes other than 0xFF is written unchanged at once, nothing is held, and serial 0x01020304 is captured |
| GoldenVectors.UnknownDataAfterKnownPacketFlushedVector | test/bms_relay/bms_relay_test.cpp:50-55 | the test's 11 input bytes come out unchanged |
| GoldenVectors.RewriteOfSerialPacket | test/bms_relay/bms_relay_test.cpp:57-67 | override 0x08040201 turns `... 06 01 02 03 04 02 0E` into `... 06 08 04 02 01 02 13` |
| GoldenVectors.FeedSerialPacketOverridden | test/bms_relay/bms_relay_test.cpp:57-67 | with the override set, the serial packet leaves rewritten and the captured serial is 0x01020304 |
| GoldenVectors.SerialRecordedAndIntercepted | test/bms_relay/bms_relay_test.cpp:57-67 | leading raw bytes pass unchanged, the serial packet leaves rewritten, nothing is held, and the pre-override serial is captured |
| GoldenVectors.SerialRecordedAndInterceptedVector | test/bms_relay/bms_relay_test.cpp:57-67 | the test's input gives exactly the asserted 13 output bytes and serial 0x01020304 |
| GoldenVectors.SyncBeforeFrame | test/bms_relay/bms_relay_test.cpp:43-55 | the model's choice, not fixed by the test: a lone sync header followed by a frame that opens with 0xFF is written on, and the frame is handled as if the header had never been seen |
| GoldenVectors.FeedSyncThenSync | test/bms_relay/bms_relay_test.cpp:43-55 | the model's choice, not fixed by the test: `FF 55 AA FF` writes the header and holds the last 0xFF, the same state as writing the header and feeding 0xFF alone |
| GoldenVectors.SyncBeforeSerialPacket | test/bms_relay/bms_relay_test.cpp:50-63 | the model's choice, not fixed by the test: `FF 55 AA` followed by the serial packet writes both unchanged, holds nothing, delivers the packet to every callback and captures serial 0x01020304 |
| GoldenVectors.LengthVectorsValid | test/bms_relay/bms_relay_test.cpp:70-91 | each of the 15 vectors has the length its type fixes and a checksum that holds |
| GoldenVectors.PacketLengths | test/bms_relay/bms_relay_test.cpp:97-103 | with one callback and no override, a valid packet is delivered to the callback once, byte for byte, and written unchanged |
| GoldenVectors.FeedInTurn | test/bms_relay/bms_relay_test.cpp:97-103 | valid packets fed back to back are each delivered once, in order, and the output is their concatenation |
| GoldenVectors.PacketLengthsInTurn | test/bms_relay/bms_relay_test.cpp:70-104 | the 15 vectors fed to one relay are delivered in turn and written unchanged |
| GoldenVectors.PacketCallback | test/bms_relay/bms_relay_test.cpp:106-121 | raw bytes, the serial packet and a bare sync header: the callback sees only the 10-byte packet and the header is held |
| GoldenVectors.PacketCallbackVector | test/bms_relay/bms_relay_test.cpp:106-121 | the test's input delivers exactly `FF 55 AA 06 01 02 03 04 02 0E` to the callback |
| GoldenVectors.BatterySocParsing | test/bms_relay/bms_relay_test.cpp:123-127 | packet `FF 55 AA 03 2B 02 2C` sets the state of charge to 43 |
| GoldenVectors.CurrentParsing | test/bms_relay/bms_relay_test.cpp:129-133 | packet `FF 55 AA 05 FF E8 03 EA` sets the raw current to -24 |
| GoldenVectors.CellPayloadASum | test/bms_relay/bms_relay_test.cpp:73-76 | the type-02 length vector's payload sums to 0x57B - 0x1FE - 2 |
| GoldenVectors.CellVectorValid | test/bms_relay/bms_relay_test.cpp:73-76 | the type-02 length vector is complete and valid |
| GoldenVectors.CellPacketValid | test/bms_relay/bms_relay_test.cpp:136-139 | the cell-voltage packet is complete and valid |
| GoldenVectors.CellVoltageParsing | test/bms_relay/bms_relay_test.cpp:135-145 | the cell-voltage packet sets the 15 expected readings, and the total is 57894 |
| GoldenVectors.CellReadings | test/bms_relay/bms_relay_test.cpp:141-144 | the first 15 pairs decode to 3860/3859 as listed, the 16th slot is ignored, and they sum to 57894 |
| Scenarios.UnknownBytesGetForwardedImmediately | test/bms_relay/bms_relay_test.cpp:43-48 | on a relay object, one loop drains `01 02 03` and writes exactly those bytes |
| Scenarios.UnknownDataAfterKnownPacketGetsFlushedImmediately | test/bms_relay/bms_relay_test.cpp:50-55 | on a relay object, one loop drains the input and writes it unchanged |
| Scenarios.SerialGetsRecordedAndIntercepted | test/bms_relay/bms_relay_test.cpp:57-67 | on a relay object with the override set, the captured serial is 0x01020304 and the output is the asserted 13 bytes |
| Scenarios.SyncBeforeSerialPacketIsForwarded | test/bms_relay/bms_relay_test.cpp:50-63 | the model's choice, not fixed by the test: on a relay object, a sync header before the serial packet is written on, the packet is written and handed to the callback, and serial 0x01020304 is captured |
| Scenarios.PacketLengthsOneLoopEach | test/bms_relay/bms_relay_test.cpp:70-104 | on one relay object, after each vector's loop, the callback's latest packet is that vector |
| Scenarios.LoopEachPacket | test/bms_relay/bms_relay_test.cpp:97-103 | for any valid packets looped one at a time, the callback's latest packet after each loop is the one just received |
| Scenarios.PacketCallbackSeesWholePacket | test/bms_relay/bms_relay_test.cpp:106-121 | on a relay object, the callback's packet is exactly the 10 serial-packet bytes |
| Scenarios.BatterySocIsParsed | test/bms_relay/bms_relay_test.cpp:123-127 | the state-of-charge getter returns 43 |
| Scenarios.CurrentIsParsed | test/bms_relay/bms_relay_test.cpp:129-133 | the raw current getter returns -24 |
| Scenarios.CellVoltagesAreParsed | test/bms_relay/bms_relay_test.cpp:135-145 | the cell getter returns the 15 expected readings and the total getter returns 57894 |

## Left out

- Conversion of the current to amps (the test expects -1.32 A): floating point. `GetCurrentRaw` and `CurrentParsing` stop at the raw signed reading, -24.
- Temperatures (type 04), `getTemperaturesCelsius` and the average temperature. The temperature test is not registered in the test runner, and its checksum bytes `02 FF` do not match the packet's byte sum (0x0267), so it fixes no behaviour. Type-04 packets are framed, checked and forwarded like every other tabled type, but decode nothing.
- The time capability and any stall timeout. The test never advances the clock, so no timeout behaviour is fixed.
- Unknown type bytes after a sync header. The test fixes no behaviour for them, and the relay's implementation file is not part of this model. The model writes the header and the type byte on at once and goes back to scanning, so those bytes never wait for a later header. A 0xFF type byte is the exception: the header is written and the 0xFF is held as the start of a new header (`StepUnknownTypeSync`, `SyncBeforeSerialPacket`). Likewise a 0xFF that breaks off a partial header (`FF FF 55 AA`, `FF 55 FF 55 AA`): the abandoned bytes are written and the 0xFF is held as the start of a new header (`StepScanForwards`). No test abandons a header on 0xFF, so both are the model's choice.
- RelaySpec.Complete, Relay.BmsRelay.IngestPacket: callbacks are given the packet as it leaves, rewritten when the serial override applies, while the readings are decoded from the bytes as received. The test fixes only the second half (line 63). No test registers a callback while an override is set, so what a callback sees then is the model's choice.
- Packets with a wrong checksum. The model writes them on unchanged, with no telemetry update and no callback. No test exercises this.
- A failed write and the read capability's "no data" value (-1). The model's input is a sequence that `Loop` drains completely, and writes always succeed.
- Callback closures and the packet view they receive. A callback is modelled as its position in registration order. Its invocations are recorded as `(callback, packet bytes)` deliveries, so the callback cannot act on the relay.
- The Unity harness, the `deque` and `vector` mock transport and the `unique_ptr` setup. Their roles are played by `Receive`, the `output` field and `Scenarios.RelayWithInput`.
- The comment at test lines 64-65 ("no data so far") contradicts the assertion at lines 66-67. The model follows the assertion.
