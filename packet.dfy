/** Packets of the BMS serial protocol: the sync header, the per-type length
    table, the 16-bit sum checksum and the serial-number rewrite.

    On the wire a packet is
      FF 55 AA | type | payload (length - 6 bytes) | checksum (2 bytes, big-endian)
    where the checksum is the 16-bit sum of every byte before it, sync included. */
module Packets {
  import opened Bytes

  /** The three bytes that open every packet. */
  const Sync: seq<byte> := [0xFF, 0x55, 0xAA]
  /** Sync plus the type byte. */
  const HeaderLength := 4
  const ChecksumLength := 2

  const CellVoltageType: byte := 0x02
  const SocType: byte := 0x03
  const CurrentType: byte := 0x05
  const SerialType: byte := 0x06

  /** Total on-wire length (sync, type, payload and checksum) of each known
      packet type; None for a type the relay does not know. A 0xFF is never a
      type, so it can always open the next sync header. */
  function PacketLength(t: byte): (r: Option<nat>)
    ensures r.Some? ==> HeaderLength + 1 + ChecksumLength <= r.value <= 38
    ensures t == Sync[0] ==> r.None?
  {
    match t
    case 0x00 => Some(7)
    case 0x02 => Some(38)
    case 0x03 => Some(7)
    case 0x04 => Some(11)
    case 0x05 => Some(8)
    case 0x06 => Some(10)
    case 0x07 => Some(13)
    case 0x08 => Some(7)
    case 0x09 => Some(7)
    case 0x0B => Some(8)
    case 0x0C => Some(8)
    case 0x0D => Some(9)
    case 0x0F => Some(11)
    case 0x10 => Some(16)
    case 0x11 => Some(10)
    case _ => None
  }

  /** Every known packet has room for its header, at least one payload byte
      and its checksum. */
  lemma PacketLengthRoom(t: byte)
    requires PacketLength(t).Some?
    ensures HeaderLength + 1 + ChecksumLength <= PacketLength(t).value <= 38
  {
  }

  /** A byte span that is framed as a complete known packet: it opens with the
      sync header and its length is the one the type byte fixes. */
  predicate KnownFrame(p: seq<byte>)
  {
    |p| >= HeaderLength && p[..3] == Sync && PacketLength(p[3]) == Some(|p|)
  }

  /** The bytes between the type byte and the checksum. */
  function Payload(p: seq<byte>): (r: seq<byte>)
    requires KnownFrame(p)
    ensures |r| == |p| - HeaderLength - ChecksumLength
    ensures p == p[..HeaderLength] + r + p[|p| - ChecksumLength..]
  {
    PacketLengthRoom(p[3]);
    p[HeaderLength..|p| - ChecksumLength]
  }

  /** The checksum of a packet body: the 16-bit sum of its bytes. */
  function Checksum(body: seq<byte>): (c: u16)
    ensures 0xFF * |body| < 0x1_0000 ==> c == Sum(body)
  {
    SumBytesBounds(body);
    Sum(body) % 0x1_0000
  }

  /** The packet's last two bytes are the big-endian checksum of all bytes before them. */
  predicate IsValid(p: seq<byte>)
    ensures IsValid(p) <==>
      |p| >= ChecksumLength && p[|p| - ChecksumLength..] == Be16Bytes(Checksum(p[..|p| - ChecksumLength]))
  {
    |p| >= ChecksumLength &&
    var hi, lo := p[|p| - 2], p[|p| - 1];
    Be16RoundTrip(hi, lo);
    assert p[|p| - ChecksumLength..] == [hi, lo];
    Be16(hi, lo) == Checksum(p[..|p| - ChecksumLength])
  }

  /** A known packet is at most 38 bytes long, so the sum of its body stays
      below 0x10000: the 16-bit checksum of a known packet never wraps. */
  lemma ChecksumOfKnownFrame(p: seq<byte>)
    requires KnownFrame(p)
    ensures Checksum(p[..|p| - ChecksumLength]) == Sum(p[..|p| - ChecksumLength])
  {
    PacketLengthRoom(p[3]);
    SumBytesBounds(p[..|p| - ChecksumLength]);
  }

  /** A body followed by its checksum. */
  function WithChecksum(body: seq<byte>): (r: seq<byte>)
    ensures |r| == |body| + ChecksumLength && r[..|body|] == body
    ensures IsValid(r)
  {
    var r := body + Be16Bytes(Checksum(body));
    assert r[..|r| - ChecksumLength] == body;
    r
  }

  /** A packet is valid exactly when it is its own body with the checksum
      recomputed. */
  lemma ValidIffChecksummed(p: seq<byte>)
    requires |p| >= ChecksumLength
    ensures IsValid(p) <==> p == WithChecksum(p[..|p| - ChecksumLength])
  {
    var body := p[..|p| - ChecksumLength];
    if IsValid(p) {
      var c := Be16Bytes(Checksum(body));
      assert c[0] == p[|p| - 2] && c[1] == p[|p| - 1];
      assert p == body + c;
    }
  }

  /** The type-06 packet with its four big-endian serial bytes replaced by
      serial and its checksum recomputed. */
  function OverrideSerial(p: seq<byte>, serial: u32): (r: seq<byte>)
    requires KnownFrame(p) && p[3] == SerialType
    ensures |r| == |p| && IsValid(r)
  {
    WithChecksum(p[..HeaderLength] + Be32Bytes(serial) + p[HeaderLength + 4..|p| - ChecksumLength])
  }

  /** The rewrite keeps the frame, the header and every payload byte after the
      serial field, carries the new serial, and leaves a valid packet. */
  lemma OverrideSerialSpec(p: seq<byte>, serial: u32)
    requires KnownFrame(p) && p[3] == SerialType
    ensures var r := OverrideSerial(p, serial);
      KnownFrame(r) && IsValid(r) &&
      r[..HeaderLength] == p[..HeaderLength] &&
      Be32(r[HeaderLength..HeaderLength + 4]) == serial &&
      r[HeaderLength + 4..|r| - ChecksumLength] == p[HeaderLength + 4..|p| - ChecksumLength]
  {
    var body := p[..HeaderLength] + Be32Bytes(serial) + p[HeaderLength + 4..|p| - ChecksumLength];
    var r := OverrideSerial(p, serial);
    assert r[..|body|] == body;
    assert r[..3] == body[..3] == p[..3];
    assert r[3] == body[3] == p[3];
    assert r[HeaderLength..HeaderLength + 4] == body[HeaderLength..HeaderLength + 4] == Be32Bytes(serial);
    assert r[HeaderLength + 4..|r| - ChecksumLength] == body[HeaderLength + 4..];
  }

  /** Rewriting with the serial the packet already carries changes nothing in a
      valid packet. */
  lemma OverrideSerialSame(p: seq<byte>)
    requires KnownFrame(p) && p[3] == SerialType && IsValid(p)
    ensures OverrideSerial(p, Be32(p[HeaderLength..HeaderLength + 4])) == p
  {
    Be32RoundTrip(p[HeaderLength..HeaderLength + 4]);
    var body := p[..|p| - ChecksumLength];
    assert p[..HeaderLength] + p[HeaderLength..HeaderLength + 4] + p[HeaderLength + 4..|p| - ChecksumLength] == body;
    ValidIffChecksummed(p);
  }

  /** Reducing the running sum before adding the next byte gives the same
      16-bit result as reducing afterwards. */
  lemma ModAddStep(a: int, x: int)
    ensures (a % 0x1_0000 + x) % 0x1_0000 == (a + x) % 0x1_0000
  {
    var q := a / 0x1_0000;
    assert a == q * 0x1_0000 + a % 0x1_0000;
  }

  /** Sums the body one byte at a time in a wrapping 16-bit accumulator. */
  method ComputeChecksum(body: seq<byte>) returns (c: u16)
    ensures c == Checksum(body)
  {
    c := 0;
    for i := 0 to |body|
      invariant c == Sum(body[..i]) % 0x1_0000
    {
      SumPrefixStep(body, i);
      ModAddStep(Sum(body[..i]), body[i]);
      c := (c + body[i]) % 0x1_0000;
    }
    assert body[..|body|] == body;
  }

  /** Recomputes the checksum and compares it with the packet's last two bytes. */
  method CheckValid(p: seq<byte>) returns (ok: bool)
    ensures ok <==> IsValid(p)
  {
    if |p| < ChecksumLength {
      return false;
    }
    var c := ComputeChecksum(p[..|p| - ChecksumLength]);
    ok := p[|p| - 2] == c / 0x100 && p[|p| - 1] == c % 0x100;
  }

  /** Overwrites the four serial bytes of a type-06 packet with serial, big-endian,
      then overwrites the two checksum bytes with the recomputed checksum. */
  method RewriteSerial(p: seq<byte>, serial: u32) returns (q: seq<byte>)
    requires KnownFrame(p) && p[3] == SerialType
    ensures q == OverrideSerial(p, serial)
  {
    PacketLengthRoom(p[3]);
    var field := Be32Bytes(serial);
    q := p;
    for i := 0 to 4
      invariant |q| == |p|
      invariant forall j :: 0 <= j < |q| && !(HeaderLength <= j < HeaderLength + i) ==> q[j] == p[j]
      invariant forall j :: 0 <= j < i ==> q[HeaderLength + j] == field[j]
    {
      q := q[HeaderLength + i := field[i]];
    }
    var n := |q| - ChecksumLength;
    assert q[..n] == p[..HeaderLength] + field + p[HeaderLength + 4..n];
    var c := ComputeChecksum(q[..n]);
    q := q[n := c / 0x100][n + 1 := c % 0x100];
    assert q == q[..n] + Be16Bytes(c);
  }
}

