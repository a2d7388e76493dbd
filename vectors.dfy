/** The golden byte vectors of the relay's unit tests, and what the relay does
    with each of them. Each vector is written as sync header, type byte,
    payload and the two checksum bytes. */
module GoldenVectors {
  import opened Bytes
  import opened Packets
  import opened Telemetry
  import opened RelaySpec

  /** The bytes of a packet as the tests write them: sync header, type byte,
      payload and the two checksum bytes. */
  function Frame(t: byte, payload: seq<byte>, hi: byte, lo: byte): (r: seq<byte>)
    ensures |r| == |payload| + HeaderLength + ChecksumLength
    ensures r[..3] == Sync && r[3] == t && r[|r| - 2] == hi && r[|r| - 1] == lo
    ensures r[HeaderLength..|r| - ChecksumLength] == payload
    ensures r[..|r| - ChecksumLength] == Sync + [t] + payload
  {
    Sync + [t] + payload + [hi, lo]
  }

  /** The sum of eight values, written out. */
  lemma SumOfEight(s: seq<int>)
    requires |s| == 8
    ensures Sum(s) == s[0] + s[1] + s[2] + s[3] + s[4] + s[5] + s[6] + s[7]
  {
    forall k | 0 <= k < 8
      ensures Sum(s[k..]) == s[k] + Sum(s[k + 1..])
    {
      assert s[k..][1..] == s[k + 1..];
    }
    assert s[8..] == [] && s[0..] == s;
  }

  /** A frame assembled from a known type, a payload of the length the type
      fixes and a checksum equal to the 16-bit sum of the sync header (0x1FE),
      the type and the payload is a complete, valid packet. */
  lemma FrameValid(t: byte, payload: seq<byte>, hi: byte, lo: byte)
    requires PacketLength(t) == Some(|payload| + HeaderLength + ChecksumLength)
    requires Be16(hi, lo) == (0x1FE + t + Sum(payload)) % 0x1_0000
    ensures KnownFrame(Frame(t, payload, hi, lo))
    ensures IsValid(Frame(t, payload, hi, lo))
  {
    FrameBodySum(t, payload);
  }

  /** The sync header contributes 0xFF + 0x55 + 0xAA = 0x1FE to every checksum. */
  lemma FrameBodySum(t: byte, payload: seq<byte>)
    ensures Sum(Sync + [t] + payload) == 0x1FE + t + Sum(payload)
    ensures Checksum(Sync + [t] + payload) == (0x1FE + t + Sum(payload)) % 0x1_0000
  {
    SumAppend(Sync, [t]);
    SumAppend(Sync + [t], payload);
  }

  /** A valid packet that leaves unchanged, fed to a relay holding nothing, is
      written whole, reaches every callback once and updates the readings. */
  lemma FeedValidFrame(s: RelayState, p: seq<byte>)
    requires s.held == [] && KnownFrame(p) && IsValid(p)
    requires s.serialOverride.None? || p[3] != SerialType
    ensures Feed(s, p) == s.(readings := Apply(s.readings, p),
                             delivered := s.delivered + Deliveries(s.observers, p),
                             out := s.out + p)
  {
    FeedKnownFrame(s, p);
  }

  // ---- testUnknownBytesGetsForwardedImmediately

  lemma UnknownBytesForwardedImmediately()
    ensures Feed(Initial(), [0x01, 0x02, 0x03]) == Initial().(out := [0x01, 0x02, 0x03])
  {
    NonSyncForwarded(Initial(), [0x01, 0x02, 0x03]);
  }

  // ---- testUnknownDataAfterKnownPacketGetsFlushedImmediately

  /** The type-06 serial-number packet of the tests, serial 0x01020304. */
  function SerialPacket(): seq<byte>
  {
    Frame(0x06, [0x01, 0x02, 0x03, 0x04], 0x02, 0x0E)
  }

  lemma SerialPacketValid()
    ensures KnownFrame(SerialPacket()) && IsValid(SerialPacket())
  {
    FrameValid(0x06, [0x01, 0x02, 0x03, 0x04], 0x02, 0x0E);
  }

  /** A known packet is written as soon as its last byte arrives, and raw
      bytes after it follow at once: nothing waits for a following header. */
  lemma UnknownDataAfterKnownPacketFlushed(s: RelayState, rest: seq<byte>)
    requires s.held == [] && s.serialOverride.None?
    requires forall i :: 0 <= i < |rest| ==> rest[i] != Sync[0]
    ensures var r := Feed(s, SerialPacket() + rest);
      r.out == s.out + SerialPacket() + rest && r.held == [] &&
      r.readings.capturedSerial == 0x01020304
  {
    SerialPacketValid();
    FeedAppend(s, SerialPacket(), rest);
    FeedValidFrame(s, SerialPacket());
    NonSyncForwarded(Feed(s, SerialPacket()), rest);
  }

  /** The test's instance: the serial packet followed by one raw byte leaves
      unchanged. */
  lemma UnknownDataAfterKnownPacketFlushedVector()
    ensures Feed(Initial(), SerialPacket() + [0x01]).out == SerialPacket() + [0x01]
  {
    UnknownDataAfterKnownPacketFlushed(Initial(), [0x01]);
  }

  /** A sync header whose type byte is 0xFF is not a packet: its three bytes
      leave, and the 0xFF opens the next header, so a serial packet that
      follows at once is still recognised, delivered and decoded. */
  lemma SyncBeforeSerialPacket(s: RelayState)
    requires s.held == [] && s.serialOverride.None?
    ensures var r := Feed(s, Sync + SerialPacket());
      r.out == s.out + Sync + SerialPacket() && r.held == [] &&
      r.delivered == s.delivered + Deliveries(s.observers, SerialPacket()) &&
      r.readings.capturedSerial == 0x01020304
  {
    var p := SerialPacket();
    var s1 := s.(out := s.out + Sync);
    SyncBeforeFrame(s, p);
    SerialPacketValid();
    FeedValidFrame(s1, p);
    assert p[HeaderLength..HeaderLength + 4] == [0x01, 0x02, 0x03, 0x04];
  }

  /** Before a frame that opens with 0xFF, a lone sync header is passed on as it is. */
  lemma SyncBeforeFrame(s: RelayState, p: seq<byte>)
    requires s.held == [] && |p| > 0 && p[0] == Sync[0]
    ensures Feed(s, Sync + p) == Feed(s.(out := s.out + Sync), p)
  {
    var s1 := s.(out := s.out + Sync);
    var head, rest := Sync + [Sync[0]], p[1..];
    assert Sync + p == head + rest by {
      assert p == [Sync[0]] + rest;
    }
    assert [Sync[0]] + rest == p;
    FeedSyncThenSync(s);
    FeedAppend(s, head, rest);
    FeedAppend(s1, [Sync[0]], rest);
  }

  /** A sync header followed by 0xFF leaves the header written and the 0xFF held,
      exactly as if the header had already been written and only 0xFF were fed. */
  lemma FeedSyncThenSync(s: RelayState)
    requires s.held == []
    ensures Feed(s, Sync + [0xFF]) == Feed(s.(out := s.out + Sync), [0xFF])
  {
    FeedSyncThenSyncLeft(s);
    FeedOneSyncByte(s.(out := s.out + Sync));
  }

  lemma FeedSyncThenSyncLeft(s: RelayState)
    requires s.held == []
    ensures Feed(s, Sync + [0xFF]) == s.(out := s.out + Sync, held := [0xFF])
  {
    assert WellFormed(Sync);
    FeedPartialFrame(s, Sync);
    FeedSnoc(s, Sync, Sync[0]);
    StepUnknownTypeSync(s.(held := Sync));
  }

  lemma FeedOneSyncByte(s: RelayState)
    requires s.held == []
    ensures Feed(s, [0xFF]) == s.(held := [0xFF])
  {
    assert WellFormed([Sync[0]]);
    FeedPartialFrame(s, [Sync[0]]);
  }

  // ---- testSerialGetsRecordedAndIntercepted

  /** The serial packet as it leaves with override 0x08040201. */
  function RewrittenSerialPacket(): seq<byte>
  {
    Frame(0x06, [0x08, 0x04, 0x02, 0x01], 0x02, 0x13)
  }

  lemma RewriteOfSerialPacket()
    ensures OverrideSerial(SerialPacket(), 0x08040201) == RewrittenSerialPacket()
  {
    SerialPacketValid();
    FrameValid(0x06, [0x08, 0x04, 0x02, 0x01], 0x02, 0x13);
    var p := SerialPacket();
    var r := RewrittenSerialPacket();
    var body := Sync + [0x06] + [0x08, 0x04, 0x02, 0x01];
    assert Be32Bytes(0x08040201) == [0x08, 0x04, 0x02, 0x01];
    assert p[..HeaderLength] + Be32Bytes(0x08040201) + p[HeaderLength + 4..|p| - ChecksumLength] == body;
    ValidIffChecksummed(r);
    assert r[..|r| - ChecksumLength] == body;
  }

  /** With the override 0x08040201 set, the serial packet is recorded as the
      BMS sent it and leaves rewritten. */
  lemma FeedSerialPacketOverridden(s: RelayState)
    requires s.held == [] && s.serialOverride == Some(0x08040201)
    ensures var r := Feed(s, SerialPacket());
      r.out == s.out + RewrittenSerialPacket() && r.held == [] &&
      r.readings.capturedSerial == 0x01020304
  {
    var p := SerialPacket();
    SerialPacketValid();
    FeedKnownFrame(s, p);
    RewriteOfSerialPacket();
    assert Outgoing(s, p) == RewrittenSerialPacket();
    assert p[HeaderLength..HeaderLength + 4] == [0x01, 0x02, 0x03, 0x04];
  }

  /** With the override set, leading raw bytes pass unchanged, the serial
      packet leaves carrying the override and its recomputed checksum, and the
      captured serial is the one the BMS sent. */
  lemma SerialRecordedAndIntercepted(s: RelayState, lead: seq<byte>)
    requires s.held == [] && s.serialOverride == Some(0x08040201)
    requires forall i :: 0 <= i < |lead| ==> lead[i] != Sync[0]
    ensures var r := Feed(s, lead + SerialPacket());
      r.out == s.out + lead + RewrittenSerialPacket() && r.held == [] &&
      r.readings.capturedSerial == 0x01020304
  {
    FeedAppend(s, lead, SerialPacket());
    NonSyncForwarded(s, lead);
    FeedSerialPacketOverridden(s.(out := s.out + lead));
  }

  /** The test's instance: three raw bytes, then the serial packet. */
  lemma SerialRecordedAndInterceptedVector()
    ensures var r := Feed(Initial().(serialOverride := Some(0x08040201)),
                          [0x01, 0x02, 0x03] + SerialPacket());
      r.out == [0x01, 0x02, 0x03] + RewrittenSerialPacket() &&
      r.readings.capturedSerial == 0x01020304
  {
    SerialRecordedAndIntercepted(Initial().(serialOverride := Some(0x08040201)), [0x01, 0x02, 0x03]);
  }

  // ---- testPacketLengths

  /** One valid packet of every known type, in the order the test feeds them. */
  function LengthVectors(): seq<seq<byte>>
  {
    [ Frame(0x00, [0x80], 0x02, 0x7E),
      Frame(0x02, CellPayloadA(), 0x05, 0x7B),
      Frame(0x03, [0x29], 0x02, 0x2A),
      Frame(0x04, [0x16, 0x17, 0x17, 0x17, 0x18], 0x02, 0x75),
      Frame(0x05, [0x00, 0x01], 0x02, 0x04),
      Frame(0x06, [0x08, 0x04, 0x02, 0x01], 0x02, 0x13),
      Frame(0x07, [0x10, 0xCC, 0x10, 0x57, 0x09, 0xC4, 0x50], 0x04, 0x65),
      Frame(0x08, [0x06], 0x02, 0x0C),
      Frame(0x09, [0x03], 0x02, 0x0A),
      Frame(0x0B, [0x0B, 0xC0], 0x02, 0xD4),
      Frame(0x0C, [0x00, 0x00], 0x02, 0x0A),
      Frame(0x0D, [0x02, 0xDA, 0x47], 0x03, 0x2E),
      Frame(0x0F, [0x02, 0x00, 0x00, 0x00, 0x00], 0x02, 0x0F),
      Frame(0x10, [0x03, 0x03, 0x0B, 0x03, 0x03, 0x03, 0x03, 0x03, 0x03, 0x03], 0x02, 0x34),
      Frame(0x11, [0x00, 0x00, 0x00, 0x00], 0x02, 0x0F) ]
  }

  /** The 32 payload bytes of the test's type-02 vector (16 big-endian slots). */
  function CellPayloadA(): seq<byte>
  {
    [0x0F, 0x28, 0x0F, 0x2C, 0x0F, 0x2B, 0x0F, 0x29] +
    [0x0F, 0x2A, 0x0F, 0x2B, 0x0F, 0x2A, 0x0F, 0x2C] +
    [0x0F, 0x29, 0x0F, 0x2B, 0x0F, 0x29, 0x0F, 0x2A] +
    [0x0F, 0x22, 0x0F, 0x2A, 0x0F, 0x2A, 0x00, 0x2A]
  }

  lemma CellPayloadASum()
    ensures |CellPayloadA()| == 32 && Sum(CellPayloadA()) == 0x57B - 0x1FE - 0x02
  {
    var a: seq<byte> := [0x0F, 0x28, 0x0F, 0x2C, 0x0F, 0x2B, 0x0F, 0x29];
    var b: seq<byte> := [0x0F, 0x2A, 0x0F, 0x2B, 0x0F, 0x2A, 0x0F, 0x2C];
    var c: seq<byte> := [0x0F, 0x29, 0x0F, 0x2B, 0x0F, 0x29, 0x0F, 0x2A];
    var d: seq<byte> := [0x0F, 0x22, 0x0F, 0x2A, 0x0F, 0x2A, 0x00, 0x2A];
    SumOfEight(a);
    SumOfEight(b);
    SumOfEight(c);
    SumOfEight(d);
    SumAppend(a, b);
    SumAppend(a + b, c);
    SumAppend(a + b + c, d);
  }

  lemma CellVectorValid()
    ensures KnownFrame(Frame(0x02, CellPayloadA(), 0x05, 0x7B))
    ensures IsValid(Frame(0x02, CellPayloadA(), 0x05, 0x7B))
  {
    CellPayloadASum();
    FrameValid(0x02, CellPayloadA(), 0x05, 0x7B);
  }

  lemma LengthVectorsValidFrom0()
    ensures KnownFrame(Frame(0x00, [0x80], 0x02, 0x7E)) && IsValid(Frame(0x00, [0x80], 0x02, 0x7E))
    ensures KnownFrame(Frame(0x02, CellPayloadA(), 0x05, 0x7B)) && IsValid(Frame(0x02, CellPayloadA(), 0x05, 0x7B))
    ensures KnownFrame(Frame(0x03, [0x29], 0x02, 0x2A)) && IsValid(Frame(0x03, [0x29], 0x02, 0x2A))
    ensures KnownFrame(Frame(0x04, [0x16, 0x17, 0x17, 0x17, 0x18], 0x02, 0x75)) && IsValid(Frame(0x04, [0x16, 0x17, 0x17, 0x17, 0x18], 0x02, 0x75))
  {
    FrameValid(0x00, [0x80], 0x02, 0x7E);
    CellVectorValid();
    FrameValid(0x03, [0x29], 0x02, 0x2A);
    FrameValid(0x04, [0x16, 0x17, 0x17, 0x17, 0x18], 0x02, 0x75);
  }

  lemma LengthVectorsValidFrom4()
    ensures KnownFrame(Frame(0x05, [0x00, 0x01], 0x02, 0x04)) && IsValid(Frame(0x05, [0x00, 0x01], 0x02, 0x04))
    ensures KnownFrame(Frame(0x06, [0x08, 0x04, 0x02, 0x01], 0x02, 0x13)) && IsValid(Frame(0x06, [0x08, 0x04, 0x02, 0x01], 0x02, 0x13))
  {
    FrameValid(0x05, [0x00, 0x01], 0x02, 0x04);
    FrameValid(0x06, [0x08, 0x04, 0x02, 0x01], 0x02, 0x13);
  }

  lemma LengthVectorsValidFrom6()
    ensures KnownFrame(Frame(0x07, [0x10, 0xCC, 0x10, 0x57, 0x09, 0xC4, 0x50], 0x04, 0x65)) && IsValid(Frame(0x07, [0x10, 0xCC, 0x10, 0x57, 0x09, 0xC4, 0x50], 0x04, 0x65))
    ensures KnownFrame(Frame(0x08, [0x06], 0x02, 0x0C)) && IsValid(Frame(0x08, [0x06], 0x02, 0x0C))
  {
    FrameValid(0x07, [0x10, 0xCC, 0x10, 0x57, 0x09, 0xC4, 0x50], 0x04, 0x65);
    FrameValid(0x08, [0x06], 0x02, 0x0C);
  }

  lemma LengthVectorsValidFrom8()
    ensures KnownFrame(Frame(0x09, [0x03], 0x02, 0x0A)) && IsValid(Frame(0x09, [0x03], 0x02, 0x0A))
    ensures KnownFrame(Frame(0x0B, [0x0B, 0xC0], 0x02, 0xD4)) && IsValid(Frame(0x0B, [0x0B, 0xC0], 0x02, 0xD4))
    ensures KnownFrame(Frame(0x0C, [0x00, 0x00], 0x02, 0x0A)) && IsValid(Frame(0x0C, [0x00, 0x00], 0x02, 0x0A))
    ensures KnownFrame(Frame(0x0D, [0x02, 0xDA, 0x47], 0x03, 0x2E)) && IsValid(Frame(0x0D, [0x02, 0xDA, 0x47], 0x03, 0x2E))
  {
    FrameValid(0x09, [0x03], 0x02, 0x0A);
    FrameValid(0x0B, [0x0B, 0xC0], 0x02, 0xD4);
    FrameValid(0x0C, [0x00, 0x00], 0x02, 0x0A);
    FrameValid(0x0D, [0x02, 0xDA, 0x47], 0x03, 0x2E);
  }

  lemma LengthVectorsValidFrom12()
    ensures KnownFrame(Frame(0x0F, [0x02, 0x00, 0x00, 0x00, 0x00], 0x02, 0x0F)) && IsValid(Frame(0x0F, [0x02, 0x00, 0x00, 0x00, 0x00], 0x02, 0x0F))
    ensures KnownFrame(Frame(0x11, [0x00, 0x00, 0x00, 0x00], 0x02, 0x0F)) && IsValid(Frame(0x11, [0x00, 0x00, 0x00, 0x00], 0x02, 0x0F))
  {
    FrameValid(0x0F, [0x02, 0x00, 0x00, 0x00, 0x00], 0x02, 0x0F);
    FrameValid(0x11, [0x00, 0x00, 0x00, 0x00], 0x02, 0x0F);
  }

  /** The type-10 vector, whose payload is summed in two halves. */
  lemma Type10VectorValid()
    ensures KnownFrame(Frame(0x10, [0x03, 0x03, 0x0B, 0x03, 0x03, 0x03, 0x03, 0x03, 0x03, 0x03], 0x02, 0x34))
    ensures IsValid(Frame(0x10, [0x03, 0x03, 0x0B, 0x03, 0x03, 0x03, 0x03, 0x03, 0x03, 0x03], 0x02, 0x34))
  {
    var a: seq<byte> := [0x03, 0x03, 0x0B, 0x03, 0x03];
    var b: seq<byte> := [0x03, 0x03, 0x03, 0x03, 0x03];
    assert Sum([0x03, 0x03, 0x0B, 0x03, 0x03]) == 0x17;
    assert Sum([0x03, 0x03, 0x03, 0x03, 0x03]) == 0x0F;
    SumAppend(a, b);
    assert a + b == [0x03, 0x03, 0x0B, 0x03, 0x03, 0x03, 0x03, 0x03, 0x03, 0x03];
    FrameValid(0x10, a + b, 0x02, 0x34);
  }

  /** Every vector is a complete packet of the length its type fixes, with a
      checksum that holds. */
  lemma LengthVectorsValid()
    ensures |LengthVectors()| == 15
    ensures forall k :: 0 <= k < 15 ==>
      KnownFrame(LengthVectors()[k]) && IsValid(LengthVectors()[k])
  {
    LengthVectorsValidFrom0();
    LengthVectorsValidFrom4();
    LengthVectorsValidFrom6();
    LengthVectorsValidFrom8();
    LengthVectorsValidFrom12();
    Type10VectorValid();
  }

  /** Fed one after another to a relay with one callback and no override, each
      vector is delivered to the callback exactly once, byte for byte, and
      written out unchanged. */
  lemma PacketLengths(s: RelayState, p: seq<byte>)
    requires s.held == [] && s.serialOverride.None? && s.observers == 1
    requires KnownFrame(p) && IsValid(p)
    ensures var r := Feed(s, p);
      r.held == [] && r.serialOverride.None? && r.observers == 1 &&
      r.out == s.out + p && r.delivered == s.delivered + [Delivery(0, p)]
  {
    FeedValidFrame(s, p);
    assert Deliveries(1, p) == [Delivery(0, p)];
  }

  /** The packets of a list, back to back. */
  function Concat(ps: seq<seq<byte>>): (r: seq<byte>)
    ensures ps != [] ==> r == Concat(ps[..|ps| - 1]) + ps[|ps| - 1]
  {
    if ps == [] then [] else Concat(ps[..|ps| - 1]) + ps[|ps| - 1]
  }

  /** One delivery to the first callback for each packet of a list, in order. */
  function DeliveredInTurn(ps: seq<seq<byte>>): (d: seq<Delivery>)
    ensures |d| == |ps|
    ensures forall i :: 0 <= i < |ps| ==> d[i] == Delivery(0, ps[i])
  {
    if ps == [] then [] else DeliveredInTurn(ps[..|ps| - 1]) + [Delivery(0, ps[|ps| - 1])]
  }

  /** Valid packets fed back to back to a relay with one callback and no
      override: the callback sees each of them once, in order and byte for
      byte, and the output is their concatenation. */
  lemma {:induction false} FeedInTurn(s: RelayState, ps: seq<seq<byte>>)
    requires s.held == [] && s.serialOverride.None? && s.observers == 1
    requires forall i :: 0 <= i < |ps| ==> KnownFrame(ps[i]) && IsValid(ps[i])
    ensures var r := Feed(s, Concat(ps));
      r.held == [] && r.serialOverride.None? && r.observers == 1 &&
      r.out == s.out + Concat(ps) &&
      r.delivered == s.delivered + DeliveredInTurn(ps)
  {
    if ps != [] {
      var init := ps[..|ps| - 1];
      FeedInTurn(s, init);
      FeedOneMore(s, Concat(init), DeliveredInTurn(init), ps[|ps| - 1]);
    }
  }

  /** The inductive step of FeedInTurn: one more valid packet after a prefix
      that left nothing held. */
  lemma FeedOneMore(s: RelayState, prefix: seq<byte>, d: seq<Delivery>, p: seq<byte>)
    requires s.held == [] && KnownFrame(p) && IsValid(p)
    requires var t := Feed(s, prefix);
      t.held == [] && t.serialOverride.None? && t.observers == 1 &&
      t.out == s.out + prefix && t.delivered == s.delivered + d
    ensures var r := Feed(s, prefix + p);
      r.held == [] && r.serialOverride.None? && r.observers == 1 &&
      r.out == s.out + (prefix + p) && r.delivered == s.delivered + (d + [Delivery(0, p)])
  {
    FeedAppend(s, prefix, p);
    PacketLengths(Feed(s, prefix), p);
    AppendAssociative(s.out, prefix, p);
  }

  /** Regrouping a concatenation; a separate lemma keeps FeedOneMore's proof context small. */
  lemma AppendAssociative<T>(a: seq<T>, b: seq<T>, c: seq<T>)
    ensures a + b + c == a + (b + c)
  {
  }

  /** The test's fifteen vectors, one loop per packet, on one relay. */
  lemma PacketLengthsInTurn(s: RelayState)
    requires s.held == [] && s.serialOverride.None? && s.observers == 1
    ensures var r := Feed(s, Concat(LengthVectors()));
      r.out == s.out + Concat(LengthVectors()) &&
      r.delivered == s.delivered + DeliveredInTurn(LengthVectors())
  {
    LengthVectorsValid();
    FeedInTurn(s, LengthVectors());
  }

  // ---- testPacketCallback

  /** A trailing sync header without a type byte is held back: it is neither
      written nor delivered, nor glued to the packet before it. */
  lemma PacketCallback(s: RelayState, lead: seq<byte>)
    requires s.held == [] && s.serialOverride.None? && s.observers == 1
    requires forall i :: 0 <= i < |lead| ==> lead[i] != Sync[0]
    ensures var r := Feed(s, lead + SerialPacket() + Sync);
      r.delivered == s.delivered + [Delivery(0, SerialPacket())] &&
      r.out == s.out + lead + SerialPacket() &&
      r.held == Sync
  {
    FeedAppend(s, lead + SerialPacket(), Sync);
    FeedAppend(s, lead, SerialPacket());
    NonSyncForwarded(s, lead);
    var s1 := s.(out := s.out + lead);
    SerialPacketValid();
    FeedValidFrame(s1, SerialPacket());
    assert Deliveries(1, SerialPacket()) == [Delivery(0, SerialPacket())];
    assert WellFormed(Sync);
    FeedPartialFrame(Feed(s1, SerialPacket()), Sync);
  }

  /** The test's instance: one callback, three raw bytes, the serial packet
      and a bare sync header. */
  lemma PacketCallbackVector()
    ensures var r := Feed(Initial().(observers := 1), [0x01, 0x02, 0x03] + SerialPacket() + Sync);
      r.delivered == [Delivery(0, SerialPacket())] &&
      r.out == [0x01, 0x02, 0x03] + SerialPacket()
  {
    PacketCallback(Initial().(observers := 1), [0x01, 0x02, 0x03]);
  }

  // ---- testBatterySocParsing

  lemma BatterySocParsing()
    ensures Feed(Initial(), Frame(0x03, [0x2B], 0x02, 0x2C) + Sync).readings.soc == 43
  {
    var p := Frame(0x03, [0x2B], 0x02, 0x2C);
    FrameValid(0x03, [0x2B], 0x02, 0x2C);
    FeedAppend(Initial(), p, Sync);
    FeedValidFrame(Initial(), p);
    assert WellFormed(Sync);
    FeedPartialFrame(Feed(Initial(), p), Sync);
  }

  // ---- testCurrentParsing (raw reading; the scaling to amps is not modelled)

  lemma CurrentParsing()
    ensures Feed(Initial(), Frame(0x05, [0xFF, 0xE8], 0x03, 0xEA) + Sync).readings.currentRaw == -24
  {
    var p := Frame(0x05, [0xFF, 0xE8], 0x03, 0xEA);
    FrameValid(0x05, [0xFF, 0xE8], 0x03, 0xEA);
    FeedAppend(Initial(), p, Sync);
    FeedValidFrame(Initial(), p);
    assert WellFormed(Sync);
    FeedPartialFrame(Feed(Initial(), p), Sync);
  }

  // ---- testCellVoltageParsing

  /** The 32 payload bytes of the cell-voltage test vector. */
  function CellPayloadB(): seq<byte>
  {
    [0x0F, 0x14, 0x0F, 0x14, 0x0F, 0x14, 0x0F, 0x13] +
    [0x0F, 0x14, 0x0F, 0x14, 0x0F, 0x14, 0x0F, 0x13] +
    [0x0F, 0x14, 0x0F, 0x13, 0x0F, 0x13, 0x0F, 0x13] +
    [0x0F, 0x13, 0x0F, 0x14, 0x0F, 0x14, 0x00, 0x2A]
  }

  function CellPacket(): seq<byte>
  {
    Frame(0x02, CellPayloadB(), 0x04, 0x31)
  }

  lemma CellPayloadBSum()
    ensures |CellPayloadB()| == 32 && Sum(CellPayloadB()) == 0x431 - 0x1FE - 0x02
  {
    var a: seq<byte> := [0x0F, 0x14, 0x0F, 0x14, 0x0F, 0x14, 0x0F, 0x13];
    var c: seq<byte> := [0x0F, 0x14, 0x0F, 0x13, 0x0F, 0x13, 0x0F, 0x13];
    var d: seq<byte> := [0x0F, 0x13, 0x0F, 0x14, 0x0F, 0x14, 0x00, 0x2A];
    SumOfEight(a);
    SumOfEight(c);
    SumOfEight(d);
    SumAppend(a, a);
    SumAppend(a + a, c);
    SumAppend(a + a + c, d);
  }

  lemma CellPacketValid()
    ensures KnownFrame(CellPacket()) && IsValid(CellPacket())
  {
    CellPayloadBSum();
    FrameValid(0x02, CellPayloadB(), 0x04, 0x31);
  }

  /** The first fifteen big-endian pairs become the cell readings, the
      sixteenth slot (00 2A) is ignored, and the pack voltage is their sum. */
  lemma CellVoltageParsing(s: RelayState)
    requires s.held == []
    ensures var r := Feed(s, CellPacket() + Sync).readings;
      r.cellMillivolts == ExpectedCells() && TotalMillivolts(r) == 57894
  {
    CellPacketValid();
    FeedAppend(s, CellPacket(), Sync);
    FeedKnownFrame(s, CellPacket());
    assert WellFormed(Sync);
    FeedPartialFrame(Feed(s, CellPacket()), Sync);
    CellReadings();
  }

  /** The readings the test expects from its cell-voltage packet. */
  function ExpectedCells(): seq<int>
  {
    [3860, 3860, 3860, 3859, 3860, 3860, 3860, 3859, 3860, 3859, 3859, 3859, 3859, 3860, 3860]
  }

  /** The cell readings and their sum for the test's cell-voltage packet. */
  lemma CellReadings()
    ensures CellMillivolts(CellPacket()) == ExpectedCells()
    ensures Sum(CellMillivolts(CellPacket())) == 57894
  {
    CellPacketValid();
    var p := CellPacket();
    assert Payload(p) == CellPayloadB();
    assert CellPayloadB() ==
      [0x0F, 0x14, 0x0F, 0x14, 0x0F, 0x14, 0x0F, 0x13,
       0x0F, 0x14, 0x0F, 0x14, 0x0F, 0x14, 0x0F, 0x13,
       0x0F, 0x14, 0x0F, 0x13, 0x0F, 0x13, 0x0F, 0x13,
       0x0F, 0x13, 0x0F, 0x14, 0x0F, 0x14, 0x00, 0x2A];
    CellMillivoltsPairs(p);
    PairsOfCellPayloadB(CellMillivolts(p), CellPayloadB());
    ExpectedCellsSum();
  }

  lemma ExpectedCellsSum()
    ensures Sum(ExpectedCells()) == 57894
  {
    var a := [3860, 3860, 3860, 3859, 3860, 3860, 3860, 3859];
    var b := [3860, 3859, 3859, 3859];
    var c := [3859, 3860, 3860];
    SumOfEight(a);
    assert Sum([3860, 3859, 3859, 3859]) == 15437;
    assert Sum([3859, 3860, 3860]) == 11579;
    SumAppend(a, b);
    SumAppend(a + b, c);
    assert ExpectedCells() == a + b + c;
  }

  /** Decoding the test's payload pair by pair gives the expected readings. */
  lemma PairsOfCellPayloadB(cells: seq<u16>, pl: seq<byte>)
    requires pl ==
      [0x0F, 0x14, 0x0F, 0x14, 0x0F, 0x14, 0x0F, 0x13,
       0x0F, 0x14, 0x0F, 0x14, 0x0F, 0x14, 0x0F, 0x13,
       0x0F, 0x14, 0x0F, 0x13, 0x0F, 0x13, 0x0F, 0x13,
       0x0F, 0x13, 0x0F, 0x14, 0x0F, 0x14, 0x00, 0x2A]
    requires |cells| == CellCount
    requires forall i :: 0 <= i < CellCount ==> cells[i] == Be16(pl[2 * i], pl[2 * i + 1])
    ensures cells == ExpectedCells()
  {
  }
}
