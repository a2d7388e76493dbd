/** The relay object: it pulls bytes from its input one at a time, keeps the
    bytes of a candidate packet in a buffer across calls, writes bytes out one
    at a time, keeps the latest telemetry and invokes its registered packet
    callbacks. Every state-changing method is proved against the framing
    specification in RelaySpec. */
module Relay {
  import opened Bytes
  import opened Packets
  import opened Telemetry
  import opened RelaySpec

  /** Taking the first pending byte moves it to the end of what was consumed. */
  lemma TakeFirst(all: seq<byte>, consumed: seq<byte>, rest: seq<byte>)
    requires rest != [] && all == consumed + rest
    ensures all == (consumed + [rest[0]]) + rest[1..]
  {
    assert rest == [rest[0]] + rest[1..];
  }

  class BmsRelay {
    /** Bytes the read capability will return, first to last. */
    var input: seq<byte>
    /** Bytes handed to the write capability, in order. */
    var output: seq<byte>
    /** Bytes of the candidate packet received but not yet written. */
    var buffer: seq<byte>
    var serialOverride: Option<u32>
    /** Number of registered packet callbacks. */
    var observers: nat
    /** Every callback invocation so far, in order. */
    var delivered: seq<Delivery>

    var soc: byte
    var currentRaw: int
    const cellMillivolts: array<u16>
    var capturedSerial: u32

    ghost predicate Valid()
      reads this, cellMillivolts
    {
      cellMillivolts.Length == CellCount && WellFormed(buffer)
    }

    /** The relay's state as the specification sees it. */
    ghost function Model(): RelayState
      reads this, cellMillivolts
    {
      RelayState(buffer, serialOverride, observers,
        Readings(soc, currentRaw, cellMillivolts[..], capturedSerial),
        output, delivered)
    }

    constructor ()
      ensures Valid() && fresh(cellMillivolts)
      ensures Model() == Initial() && input == []
    {
      input, output, buffer := [], [], [];
      serialOverride := None;
      observers, delivered := 0, [];
      soc, currentRaw, capturedSerial := 0, 0, 0;
      cellMillivolts := new u16[CellCount](_ => 0);
    }

    /** New bytes become available to the read capability. */
    method Receive(data: seq<byte>)
      modifies this`input
      ensures input == old(input) + data
      ensures Model() == old(Model()) && (Valid() <==> old(Valid()))
    {
      input := input + data;
    }

    /** From now on every serial-number packet leaves carrying serial. */
    method SetBmsSerialOverride(serial: u32)
      modifies this`serialOverride
      ensures input == old(input) && (Valid() <==> old(Valid()))
      ensures Model() == old(Model()).(serialOverride := Some(serial))
    {
      serialOverride := Some(serial);
    }

    /** Registers one more packet callback; it is invoked after those
        registered before it. */
    method AddReceivedPacketCallback() returns (id: nat)
      modifies this`observers
      ensures id == old(observers)
      ensures input == old(input) && (Valid() <==> old(Valid()))
      ensures Model() == old(Model()).(observers := id + 1)
    {
      id := observers;
      observers := observers + 1;
    }

    method GetCapturedBmsSerial() returns (serial: u32)
      ensures serial == Model().readings.capturedSerial
    {
      serial := capturedSerial;
    }

    method GetBmsReportedSoc() returns (percent: byte)
      ensures percent == Model().readings.soc
    {
      percent := soc;
    }

    method GetCurrentRaw() returns (raw: int)
      ensures raw == Model().readings.currentRaw
    {
      raw := currentRaw;
    }

    method GetCellMillivolts() returns (cells: seq<u16>)
      requires Valid()
      ensures cells == Model().readings.cellMillivolts && |cells| == CellCount
    {
      cells := cellMillivolts[..];
    }

    /** The pack voltage is the sum of the cell readings, not a parsed field. */
    method GetTotalVoltageMillivolts() returns (total: int)
      requires Valid()
      ensures total == TotalMillivolts(Model().readings)
      ensures 0 <= total <= 0xFFFF * CellCount
    {
      total := 0;
      for i := 0 to cellMillivolts.Length
        invariant total == Sum(cellMillivolts[..i])
      {
        SumPrefixStep(cellMillivolts[..], i);
        assert cellMillivolts[..i + 1] == cellMillivolts[..][..i + 1];
        total := total + cellMillivolts[i];
      }
      assert cellMillivolts[..cellMillivolts.Length] == cellMillivolts[..];
      TotalMillivoltsBounds(cellMillivolts[..]);
    }

    /** Drains the input: every available byte is taken, first to last, and
        run through the framing state machine; held bytes stay for the next call. */
    method Loop()
      requires Valid()
      modifies this, cellMillivolts
      ensures Valid() && input == []
      ensures Model() == Feed(old(Model()), old(input))
    {
      ghost var start := Model();
      ghost var consumed: seq<byte> := [];
      while input != []
        invariant Valid()
        invariant old(input) == consumed + input
        invariant Model() == Feed(start, consumed)
        decreases |input|
      {
        var b := input[0];
        TakeFirst(old(input), consumed, input);
        input := input[1..];
        ProcessNextByte(b);
        FeedSnoc(start, consumed, b);
        consumed := consumed + [b];
      }
      assert consumed + [] == consumed;
    }

    /** Writes bytes to the output one at a time. */
    method Write(bs: seq<byte>)
      modifies this`output
      ensures output == old(output) + bs
    {
      for i := 0 to |bs|
        invariant output == old(output) + bs[..i]
      {
        output := output + [bs[i]];
      }
      assert bs[..|bs|] == bs;
    }

    /** Advances the framing state machine by one input byte. */
    method ProcessNextByte(b: byte)
      requires Valid()
      modifies this, cellMillivolts
      ensures Valid() && input == old(input)
      ensures Model() == Step(old(Model()), b)
    {
      var h := buffer + [b];
      if |h| <= 3 {
        if h == Sync[..|h|] {
          buffer := h;
        } else {
          // the partial header is abandoned: its bytes leave, and the new
          // byte is looked at afresh
          Write(buffer);
          if b == Sync[0] {
            buffer := [b];
          } else {
            buffer := [];
            Write([b]);
          }
        }
      } else if |h| == HeaderLength && PacketLength(b).None? {
        // an unknown type byte: the header leaves; a 0xFF may open another one
        Write(buffer);
        if b == Sync[0] {
          buffer := [b];
        } else {
          buffer := [];
          Write([b]);
        }
      } else {
        PacketLengthRoom(h[3]);
        if |h| < PacketLength(h[3]).value {
          buffer := h;
        } else {
          assert h[..3] == buffer[..3];
          buffer := [];
          IngestPacket(h);
        }
      }
    }

    /** Handles a complete known-length packet whose bytes are no longer held. */
    method IngestPacket(p: seq<byte>)
      requires Valid() && KnownFrame(p)
      modifies this, cellMillivolts
      ensures Valid() && input == old(input) && buffer == old(buffer)
      ensures Model() == Complete(old(Model()), p)
    {
      var ok := CheckValid(p);
      if !ok {
        Write(p);
        return;
      }
      UpdateReadings(p);
      var q := p;
      if p[3] == SerialType && serialOverride.Some? {
        q := RewriteSerial(p, serialOverride.value);
      }
      Dispatch(q);
      Write(q);
    }

    /** Invokes every registered callback with q, in registration order. */
    method Dispatch(q: seq<byte>)
      modifies this`delivered
      ensures delivered == old(delivered) + Deliveries(observers, q)
    {
      var calls := delivered;
      for i := 0 to observers
        invariant calls == delivered + Deliveries(i, q)
      {
        calls := calls + [Delivery(i, q)];
      }
      delivered := calls;
    }

    /** Decodes a validated packet into the reading its type carries. */
    method UpdateReadings(p: seq<byte>)
      requires Valid() && KnownFrame(p)
      modifies this`soc, this`currentRaw, this`capturedSerial, cellMillivolts
      ensures Valid()
      ensures Model() == old(Model()).(readings := Apply(old(Model()).readings, p))
    {
      PacketLengthRoom(p[3]);
      if p[3] == SocType {
        soc := p[HeaderLength];
      } else if p[3] == CurrentType {
        currentRaw := Signed16(Be16(p[HeaderLength], p[HeaderLength + 1]));
      } else if p[3] == CellVoltageType {
        ParseCellVoltages(p);
      } else if p[3] == SerialType {
        capturedSerial := SerialNumber(p);
      }
    }

    /** Stores the first CellCount big-endian pairs of a type-02 payload as
        cell millivolts. */
    method ParseCellVoltages(p: seq<byte>)
      requires Valid() && KnownFrame(p) && p[3] == CellVoltageType
      modifies cellMillivolts
      ensures cellMillivolts[..] == CellMillivolts(p)
    {
      for i := 0 to CellCount
        invariant cellMillivolts[..i] == CellMillivolts(p)[..i]
      {
        cellMillivolts[i] := Be16(p[HeaderLength + 2 * i], p[HeaderLength + 2 * i + 1]);
      }
      assert cellMillivolts[..] == cellMillivolts[..CellCount];
    }
  }
}
