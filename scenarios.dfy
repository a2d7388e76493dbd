/** The relay's unit tests, restated as verified methods on the BmsRelay class:
    each method builds a fresh relay, makes the test's bytes available to its
    read capability, runs its loop and returns what the test inspects. The
    ensures clauses are the test's assertions. */
module Scenarios {
  import opened Bytes
  import opened Packets
  import opened Telemetry
  import opened RelaySpec
  import opened Relay
  import opened GoldenVectors

  /** A fresh relay whose read capability will return bytes. */
  method RelayWithInput(bytes: seq<byte>) returns (relay: BmsRelay)
    ensures fresh(relay) && fresh(relay.cellMillivolts)
    ensures relay.Valid() && relay.Model() == Initial() && relay.input == bytes
  {
    relay := new BmsRelay();
    relay.Receive(bytes);
  }

  method UnknownBytesGetForwardedImmediately() returns (pending: seq<byte>, out: seq<byte>)
    ensures pending == [] && out == [0x01, 0x02, 0x03]
  {
    var bytes: seq<byte> := [0x01, 0x02, 0x03];
    var relay := RelayWithInput(bytes);
    relay.Loop();
    UnknownBytesForwardedImmediately();
    pending, out := relay.input, relay.output;
  }

  method UnknownDataAfterKnownPacketGetsFlushedImmediately() returns (pending: seq<byte>, out: seq<byte>)
    ensures pending == []
    ensures out == [0xFF, 0x55, 0xAA, 0x06, 0x01, 0x02, 0x03, 0x04, 0x02, 0x0E, 0x01]
  {
    var bytes := SerialPacket() + [0x01];
    var relay := RelayWithInput(bytes);
    relay.Loop();
    UnknownDataAfterKnownPacketFlushedVector();
    pending, out := relay.input, relay.output;
  }

  method SerialGetsRecordedAndIntercepted() returns (pending: seq<byte>, serial: u32, out: seq<byte>)
    ensures pending == [] && serial == 0x01020304
    ensures out == [0x01, 0x02, 0x03, 0xFF, 0x55, 0xAA, 0x06, 0x08, 0x04, 0x02, 0x01, 0x02, 0x13]
  {
    var bytes := [0x01, 0x02, 0x03] + SerialPacket();
    var relay := RelayWithInput(bytes);
    relay.SetBmsSerialOverride(0x08040201);
    relay.Loop();
    SerialRecordedAndInterceptedVector();
    serial := relay.GetCapturedBmsSerial();
    pending, out := relay.input, relay.output;
  }

  /** A lone sync header right before a packet is passed on, and the packet
      after it is still recognised, recorded and handed to the callback. */
  method SyncBeforeSerialPacketIsForwarded() returns (out: seq<byte>, serial: u32, received: seq<byte>)
    ensures out == Sync + SerialPacket() && serial == 0x01020304
    ensures received == SerialPacket()
  {
    var relay := RelayWithInput(Sync + SerialPacket());
    var id := relay.AddReceivedPacketCallback();
    relay.Loop();
    SyncBeforeSerialPacket(Initial().(observers := 1));
    serial := relay.GetCapturedBmsSerial();
    out := relay.output;
    received := relay.delivered[|relay.delivered| - 1].packet;
  }

  /** Each vector is received and looped on its own; after each loop the
      callback's most recent packet is recorded. */
  method PacketLengthsOneLoopEach() returns (received: seq<seq<byte>>)
    ensures received == LengthVectors()
  {
    LengthVectorsValid();
    received := LoopEachPacket(LengthVectors());
  }

  /** Valid packets, each received and looped on its own by one relay with one
      callback: after every loop the callback's latest packet is the one just
      received, byte for byte. */
  method LoopEachPacket(packets: seq<seq<byte>>) returns (received: seq<seq<byte>>)
    requires forall k :: 0 <= k < |packets| ==> KnownFrame(packets[k]) && IsValid(packets[k])
    ensures received == packets
  {
    var relay := RelayWithInput([]);
    var id := relay.AddReceivedPacketCallback();
    received := [];
    for k := 0 to |packets|
      invariant fresh(relay) && fresh(relay.cellMillivolts)
      invariant Idle(relay)
      invariant received == packets[..k]
    {
      var last := ReceiveAndLoop(relay, packets[k]);
      received := received + [last];
    }
  }

  /** A relay with nothing pending or held, no override and one callback. */
  ghost predicate Idle(relay: BmsRelay)
    reads relay, relay.cellMillivolts
  {
    relay.Valid() && relay.input == [] && relay.buffer == [] &&
    relay.serialOverride.None? && relay.observers == 1
  }

  /** One valid packet received and looped: the callback's latest packet is it. */
  method ReceiveAndLoop(relay: BmsRelay, p: seq<byte>) returns (last: seq<byte>)
    requires Idle(relay) && KnownFrame(p) && IsValid(p)
    modifies relay, relay.cellMillivolts
    ensures Idle(relay) && last == p
  {
    relay.Receive(p);
    assert relay.input == p;
    ghost var before := relay.Model();
    PacketLengths(before, p);
    relay.Loop();
    assert relay.Model() == Feed(before, p);
    last := relay.delivered[|relay.delivered| - 1].packet;
  }

  /** The callback sees the serial packet alone: the raw bytes before it are
      not part of it and the trailing sync header is still held. */
  method PacketCallbackSeesWholePacket() returns (received: seq<byte>)
    ensures received == [0xFF, 0x55, 0xAA, 0x06, 0x01, 0x02, 0x03, 0x04, 0x02, 0x0E]
  {
    var bytes := [0x01, 0x02, 0x03] + SerialPacket() + Sync;
    var relay := RelayWithInput(bytes);
    var id := relay.AddReceivedPacketCallback();
    relay.Loop();
    PacketCallbackVector();
    received := relay.delivered[|relay.delivered| - 1].packet;
  }

  method BatterySocIsParsed() returns (percent: byte)
    ensures percent == 43
  {
    var bytes := Frame(0x03, [0x2B], 0x02, 0x2C) + Sync;
    var relay := RelayWithInput(bytes);
    relay.Loop();
    BatterySocParsing();
    percent := relay.GetBmsReportedSoc();
  }

  method CurrentIsParsed() returns (raw: int)
    ensures raw == -24
  {
    var bytes := Frame(0x05, [0xFF, 0xE8], 0x03, 0xEA) + Sync;
    var relay := RelayWithInput(bytes);
    relay.Loop();
    CurrentParsing();
    raw := relay.GetCurrentRaw();
  }

  method CellVoltagesAreParsed() returns (cells: seq<u16>, total: int)
    ensures cells == [3860, 3860, 3860, 3859, 3860, 3860, 3860, 3859,
                      3860, 3859, 3859, 3859, 3859, 3860, 3860]
    ensures total == 57894
  {
    var bytes := CellPacket() + Sync;
    var relay := RelayWithInput(bytes);
    relay.Loop();
    CellVoltageParsing(Initial());
    cells := relay.GetCellMillivolts();
    total := relay.GetTotalVoltageMillivolts();
  }
}
