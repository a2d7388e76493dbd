/** Telemetry the relay extracts from validated packets: reported state of
    charge, the raw battery current, per-cell millivolts and the BMS serial
    number. Every reading keeps its latest value until a newer packet of its
    type replaces it. */
module Telemetry {
  import opened Bytes
  import opened Packets

  /** Number of cells whose voltage the relay exposes. */
  const CellCount := 15

  datatype Readings = Readings(
    soc: byte,                 // percent, as reported by the BMS
    currentRaw: int,           // signed 16-bit reading, before scaling to amps
    cellMillivolts: seq<u16>,  // CellCount readings
    capturedSerial: u32)       // serial number as the BMS sent it

  /** Readings of a relay that has not yet seen any packet. */
  function InitialReadings(): (r: Readings)
    ensures |r.cellMillivolts| == CellCount
  {
    Readings(0, 0, seq(CellCount, _ => 0), 0)
  }

  /** Cell voltages of a type-02 packet: the first CellCount big-endian 16-bit
      pairs of its payload; any further slot is ignored. */
  function CellMillivolts(p: seq<byte>): (r: seq<u16>)
    requires KnownFrame(p) && p[3] == CellVoltageType
    ensures |r| == CellCount
  {
    seq(CellCount, i requires 0 <= i < CellCount => Be16(p[HeaderLength + 2 * i], p[HeaderLength + 2 * i + 1]))
  }

  /** Cell i is the big-endian pair at offset 2 * i of the payload. */
  lemma CellMillivoltsPairs(p: seq<byte>)
    requires KnownFrame(p) && p[3] == CellVoltageType
    ensures 2 * CellCount <= |Payload(p)|
    ensures forall i :: 0 <= i < CellCount ==>
      CellMillivolts(p)[i] == Be16(Payload(p)[2 * i], Payload(p)[2 * i + 1])
  {
    PacketLengthRoom(p[3]);
  }

  /** Pack voltage: derived as the sum of the exposed cell readings. */
  function TotalMillivolts(r: Readings): int
  {
    Sum(r.cellMillivolts)
  }

  /** The pack voltage lies between zero and CellCount times the largest
      16-bit reading, whatever the cells report. */
  lemma {:induction false} TotalMillivoltsBounds(cells: seq<u16>)
    ensures 0 <= Sum(cells) <= 0xFFFF * |cells|
  {
    if cells != [] {
      TotalMillivoltsBounds(cells[1..]);
    }
  }

  /** The serial number field of a type-06 packet. */
  function SerialNumber(p: seq<byte>): (r: u32)
    requires KnownFrame(p) && p[3] == SerialType
    ensures Be32Bytes(r) == p[HeaderLength..HeaderLength + 4]
  {
    Be32RoundTrip(p[HeaderLength..HeaderLength + 4]);
    Be32(p[HeaderLength..HeaderLength + 4])
  }

  /** The serial-number override writes exactly the value the relay later
      reads back from the rewritten packet. */
  lemma SerialNumberOfOverride(p: seq<byte>, serial: u32)
    requires KnownFrame(p) && p[3] == SerialType
    ensures KnownFrame(OverrideSerial(p, serial))
    ensures SerialNumber(OverrideSerial(p, serial)) == serial
  {
    OverrideSerialSpec(p, serial);
  }

  /** The readings after a validated packet: the packet's type selects the one
      reading it replaces; other types leave every reading as it was. */
  function Apply(r: Readings, p: seq<byte>): (a: Readings)
    requires KnownFrame(p)
    ensures |r.cellMillivolts| == CellCount ==> |a.cellMillivolts| == CellCount
    ensures a.soc != r.soc ==> p[3] == SocType
    ensures a.currentRaw != r.currentRaw ==> p[3] == CurrentType
    ensures a.cellMillivolts != r.cellMillivolts ==> p[3] == CellVoltageType
    ensures a.capturedSerial != r.capturedSerial ==> p[3] == SerialType
  {
    PacketLengthRoom(p[3]);
    if p[3] == SocType then r.(soc := p[HeaderLength])
    else if p[3] == CurrentType then r.(currentRaw := Signed16(Be16(p[HeaderLength], p[HeaderLength + 1])))
    else if p[3] == CellVoltageType then r.(cellMillivolts := CellMillivolts(p))
    else if p[3] == SerialType then r.(capturedSerial := SerialNumber(p))
    else r
  }
}
