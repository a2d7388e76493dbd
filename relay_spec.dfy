/** The relay's framing state machine, as a function of its state and one input
    byte. Bytes that cannot belong to a packet leave at once; the bytes of a
    candidate packet are held until its type's length is reached; a complete
    packet whose checksum holds updates the telemetry, is optionally rewritten,
    is handed to every registered callback and then leaves. */
module RelaySpec {
  import opened Bytes
  import opened Packets
  import opened Telemetry

  /** One callback invocation: which registered callback (in registration
      order) saw which packet bytes. */
  datatype Delivery = Delivery(observer: nat, packet: seq<byte>)

  datatype RelayState = RelayState(
    held: seq<byte>,             // bytes of the candidate packet not yet forwarded
    serialOverride: Option<u32>, // serial number to write into type-06 packets
    observers: nat,              // number of registered packet callbacks
    readings: Readings,          // latest telemetry
    out: seq<byte>,              // every byte written to the output, in order
    delivered: seq<Delivery>)    // every callback invocation, in order

  function Initial(): (r: RelayState)
    ensures r.held == [] && r.out == [] && r.delivered == []
  {
    RelayState([], None, 0, InitialReadings(), [], [])
  }

  /** The bytes the relay holds back always form a proper beginning of a known
      packet: part of the sync header, or the sync header, a known type byte and
      fewer bytes than that type's length. */
  predicate WellFormed(held: seq<byte>)
  {
    if |held| <= 3 then held == Sync[..|held|]
    else held[..3] == Sync && PacketLength(held[3]).Some? && |held| < PacketLength(held[3]).value
  }

  /** The bytes of a validated packet as they leave the relay: a serial-number
      packet carries the override when one is set. */
  function Outgoing(s: RelayState, p: seq<byte>): (q: seq<byte>)
    requires KnownFrame(p)
    ensures KnownFrame(q) && |q| == |p| && q[..HeaderLength] == p[..HeaderLength]
    ensures IsValid(p) ==> IsValid(q)
    ensures s.serialOverride.None? || p[3] != SerialType ==> q == p
  {
    if p[3] == SerialType && s.serialOverride.Some? then
      OverrideSerialSpec(p, s.serialOverride.value);
      OverrideSerial(p, s.serialOverride.value)
    else p
  }

  /** One invocation of every registered callback, in registration order. */
  function Deliveries(observers: nat, q: seq<byte>): (d: seq<Delivery>)
    ensures |d| == observers
    ensures forall i :: 0 <= i < observers ==> d[i] == Delivery(i, q)
  {
    seq(observers, i requires 0 <= i < observers => Delivery(i, q))
  }

  /** A complete known-length packet. A valid one updates the readings (from the
      bytes as received), reaches every callback and leaves, possibly rewritten;
      an invalid one leaves verbatim and nothing else happens. */
  function Complete(s: RelayState, p: seq<byte>): (r: RelayState)
    requires KnownFrame(p)
    ensures r.held == s.held && r.serialOverride == s.serialOverride && r.observers == s.observers
    ensures |r.out| == |s.out| + |p| && r.out[..|s.out|] == s.out
    ensures IsValid(p) ==> r.readings == Apply(s.readings, p)
    ensures IsValid(p) ==> r.delivered == s.delivered + Deliveries(s.observers, r.out[|s.out|..])
    ensures !IsValid(p) ==> r == s.(out := s.out + p)
  {
    if IsValid(p) then
      var q := Outgoing(s, p);
      s.(readings := Apply(s.readings, p),
         delivered := s.delivered + Deliveries(s.observers, q),
         out := s.out + q)
    else
      s.(out := s.out + p)
  }

  /** The relay after one more input byte. */
  function Step(s: RelayState, b: byte): (r: RelayState)
    requires WellFormed(s.held)
    ensures WellFormed(r.held)
  {
    var h := s.held + [b];
    if |h| <= 3 then
      if h == Sync[..|h|] then s.(held := h)
      // an abandoned partial header leaves; the new byte may open another one
      else if b == Sync[0] then s.(held := [b], out := s.out + s.held)
      else s.(held := [], out := s.out + h)
    // an unknown type byte: the header leaves; a 0xFF may open another one
    else if |h| == HeaderLength && PacketLength(b).None? then
      if b == Sync[0] then s.(held := [b], out := s.out + s.held)
      else s.(held := [], out := s.out + h)
    else
      PacketLengthRoom(h[3]);
      if |h| < PacketLength(h[3]).value then s.(held := h)
      else
        assert h[..3] == s.held[..3];
        Complete(s.(held := []), h)
  }

  /** The relay after a sequence of input bytes, taken first to last. */
  function Feed(s: RelayState, bs: seq<byte>): (r: RelayState)
    requires WellFormed(s.held)
    ensures WellFormed(r.held)
  {
    if bs == [] then s else Step(Feed(s, bs[..|bs| - 1]), bs[|bs| - 1])
  }

  /** Feeding one more byte is one more step. */
  lemma FeedSnoc(s: RelayState, bs: seq<byte>, b: byte)
    requires WellFormed(s.held)
    ensures Feed(s, bs + [b]) == Step(Feed(s, bs), b)
  {
    assert (bs + [b])[..|bs|] == bs;
  }

  /** Feeding two chunks one after the other is feeding their concatenation:
      how the input is split across calls does not matter. */
  lemma {:induction false} FeedAppend(s: RelayState, a: seq<byte>, b: seq<byte>)
    requires WellFormed(s.held)
    ensures Feed(s, a + b) == Feed(Feed(s, a), b)
  {
    if b == [] {
      assert a + b == a;
    } else {
      assert (a + b)[..|a + b| - 1] == a + b[..|b| - 1];
      FeedAppend(s, a, b[..|b| - 1]);
    }
  }

  /** Output only grows, held and written bytes together account for every
      input byte, and without an override they are exactly the input bytes,
      in order. */
  lemma StepForwards(s: RelayState, b: byte)
    requires WellFormed(s.held)
    ensures var r := Step(s, b);
      s.out <= r.out &&
      |r.out| + |r.held| == |s.out| + |s.held| + 1 &&
      (s.serialOverride.None? ==> r.out + r.held == s.out + s.held + [b])
  {
    var h := s.held + [b];
    if |h| > HeaderLength || (|h| == HeaderLength && PacketLength(b).Some?) {
      PacketLengthRoom(h[3]);
    }
  }

  /** Every input byte is written exactly once, in order: what has been written
      plus what is held is what was written and held before, plus the input.
      A serial override changes bytes but never their number. */
  lemma {:induction false} FeedForwards(s: RelayState, bs: seq<byte>)
    requires WellFormed(s.held)
    ensures var r := Feed(s, bs);
      s.out <= r.out &&
      |r.out| + |r.held| == |s.out| + |s.held| + |bs| &&
      r.serialOverride == s.serialOverride &&
      (s.serialOverride.None? ==> r.out + r.held == s.out + s.held + bs)
  {
    if bs != [] {
      var init := bs[..|bs| - 1];
      FeedForwards(s, init);
      StepForwards(Feed(s, init), bs[|bs| - 1]);
      assert init + [bs[|bs| - 1]] == bs;
    }
  }

  /** Bytes other than 0xFF never begin a packet: with nothing held they are
      written at once, unchanged and in order, and nothing else changes. */
  lemma {:induction false} NonSyncForwarded(s: RelayState, bs: seq<byte>)
    requires s.held == []
    requires forall i :: 0 <= i < |bs| ==> bs[i] != Sync[0]
    ensures Feed(s, bs) == s.(out := s.out + bs)
  {
    if bs != [] {
      NonSyncForwarded(s, bs[..|bs| - 1]);
      assert s.out + bs[..|bs| - 1] + [bs[|bs| - 1]] == s.out + bs;
    }
  }

  /** The sync header occurs in bs at offset i. */
  predicate SyncAt(bs: seq<byte>, i: int)
    requires 0 <= i <= |bs| - 3
  {
    bs[i] == Sync[0] && bs[i + 1] == Sync[1] && bs[i + 2] == Sync[2]
  }

  /** With nothing held at first, t is s after bs: the last |t.held| <= 2 bytes
      of bs are held, the rest of bs has been written after s.out, and nothing
      else has changed. */
  ghost predicate HeldTail(s: RelayState, t: RelayState, bs: seq<byte>)
  {
    |t.held| <= 2 && |t.held| <= |bs| && t.held == bs[|bs| - |t.held|..] &&
    t.out == s.out + bs[..|bs| - |t.held|] &&
    t.serialOverride == s.serialOverride && t.observers == s.observers &&
    t.readings == s.readings && t.delivered == s.delivered
  }

  /** The first branch of Step, named on its own only so that proofs about
      the header scan (SyncFreeStep, StepDeliveredFree) can split on it. */
  function ScanStep(t: RelayState, b: byte): RelayState
    requires |t.held| <= 2
  {
    var h := t.held + [b];
    if h == Sync[..|h|] then t.(held := h)
    else if b == Sync[0] then t.(held := [b], out := t.out + t.held)
    else t.(held := [], out := t.out + h)
  }

  /** While at most two bytes are held, the relay only scans for a header. */
  lemma StepShort(t: RelayState, b: byte)
    requires WellFormed(t.held) && |t.held| <= 2
    ensures Step(t, b) == ScanStep(t, b)
  {
  }

  /** Before a whole sync header is held, one byte changes only the output and
      the held bytes: nothing is lost or duplicated (written plus held grows by
      exactly that byte), the held bytes stay a beginning of the sync header,
      and they grow by the byte exactly when it continues that header. A byte
      that neither continues the header nor is 0xFF is written at once, behind
      the abandoned held bytes. */
  lemma StepScanForwards(s: RelayState, b: byte)
    requires WellFormed(s.held) && |s.held| <= 2
    ensures var r := Step(s, b);
      r == s.(out := r.out, held := r.held) &&
      s.out <= r.out && r.out + r.held == s.out + s.held + [b] &&
      |r.held| <= 3 && r.held == Sync[..|r.held|] &&
      (r.held == s.held + [b] <==> s.held + [b] == Sync[..|s.held| + 1]) &&
      (s.held + [b] != Sync[..|s.held| + 1] && b != Sync[0] ==> r.out == s.out + s.held + [b])
  {
  }

  /** One more byte that does not complete a sync header keeps HeldTail. */
  lemma SyncFreeStep(s: RelayState, t: RelayState, bs: seq<byte>, b: byte)
    requires HeldTail(s, t, bs)
    requires |bs| >= 2 ==> !SyncAt(bs + [b], |bs| - 2)
    ensures HeldTail(s, ScanStep(t, b), bs + [b])
  {
    var h := t.held + [b];
    if |h| == 3 {
      var c := bs + [b];
      assert c[|bs| - 2] == h[0] && c[|bs| - 1] == h[1] && c[|bs|] == h[2];
    }
    if h == Sync[..|h|] {
      HeldTailHold(s, t, bs, b);
    } else if b == Sync[0] {
      HeldTailRestart(s, t, bs, b);
    } else {
      HeldTailFlush(s, t, bs, b);
    }
  }

  lemma HeldTailHold(s: RelayState, t: RelayState, bs: seq<byte>, b: byte)
    requires HeldTail(s, t, bs) && |t.held| <= 1
    ensures HeldTail(s, t.(held := t.held + [b]), bs + [b])
  {
    var n, k := |bs|, |t.held|;
    assert (bs + [b])[..n - k] == bs[..n - k];
    assert (bs + [b])[n - k..] == t.held + [b];
  }

  lemma HeldTailRestart(s: RelayState, t: RelayState, bs: seq<byte>, b: byte)
    requires HeldTail(s, t, bs)
    ensures HeldTail(s, t.(held := [b], out := t.out + t.held), bs + [b])
  {
    var n := |bs|;
    assert bs[..n - |t.held|] + t.held == bs;
    assert (bs + [b])[..n] == bs;
    assert (bs + [b])[n..] == [b];
  }

  lemma HeldTailFlush(s: RelayState, t: RelayState, bs: seq<byte>, b: byte)
    requires HeldTail(s, t, bs)
    ensures HeldTail(s, t.(held := [], out := t.out + (t.held + [b])), bs + [b])
  {
    var n := |bs|;
    assert bs[..n - |t.held|] + t.held == bs;
    assert (bs + [b])[..n + 1] == bs + [b];
  }

  /** Bytes among which the sync header never occurs, fed to a relay holding
      nothing, are forwarded unchanged and in order, except for at most the
      last two (a possible beginning of a header), which are held; nothing is
      delivered or decoded. */
  lemma SyncFreeForwarded(s: RelayState, bs: seq<byte>)
    requires s.held == []
    requires forall i :: 0 <= i <= |bs| - 3 ==> !SyncAt(bs, i)
    ensures var r := Feed(s, bs);
      |r.held| <= 2 && |r.held| <= |bs| && r.held == bs[|bs| - |r.held|..] &&
      r == s.(out := s.out + bs[..|bs| - |r.held|], held := r.held)
  {
    SyncFreeHeldTail(s, bs);
  }

  lemma {:induction false} SyncFreeHeldTail(s: RelayState, bs: seq<byte>)
    requires s.held == []
    requires forall i :: 0 <= i <= |bs| - 3 ==> !SyncAt(bs, i)
    ensures HeldTail(s, Feed(s, bs), bs)
  {
    if bs != [] {
      SyncFreeInit(bs);
      SyncFreeHeldTail(s, bs[..|bs| - 1]);
      SyncFreeFeedStep(s, bs);
    }
  }

  /** The inductive step of SyncFreeHeldTail: the last byte of bs. */
  lemma SyncFreeFeedStep(s: RelayState, bs: seq<byte>)
    requires s.held == [] && bs != []
    requires HeldTail(s, Feed(s, bs[..|bs| - 1]), bs[..|bs| - 1])
    requires |bs| >= 3 ==> !SyncAt(bs, |bs| - 3)
    ensures HeldTail(s, Step(Feed(s, bs[..|bs| - 1]), bs[|bs| - 1]), bs)
  {
    var init, b := bs[..|bs| - 1], bs[|bs| - 1];
    var t := Feed(s, init);
    LastSplit(bs);
    StepShort(t, b);
    SyncFreeStep(s, t, init, b);
  }

  /** A non-empty sequence is its beginning followed by its last element. */
  lemma LastSplit<T>(bs: seq<T>)
    requires bs != []
    ensures bs[..|bs| - 1] + [bs[|bs| - 1]] == bs
  {
  }

  /** A sync-free sequence without its last byte is sync free. */
  lemma SyncFreeInit(bs: seq<byte>)
    requires bs != []
    requires forall i :: 0 <= i <= |bs| - 3 ==> !SyncAt(bs, i)
    ensures var init := bs[..|bs| - 1];
      forall i :: 0 <= i <= |init| - 3 ==> !SyncAt(init, i)
  {
    var init := bs[..|bs| - 1];
    forall i | 0 <= i <= |init| - 3
      ensures !SyncAt(init, i)
    {
      assert !SyncAt(bs, i);
    }
  }

  /** A whole sync header followed by 0xFF, which is no known type: the header
      leaves and the 0xFF may open the next header. */
  lemma StepUnknownTypeSync(s: RelayState)
    requires s.held == Sync
    ensures Step(s, Sync[0]) == s.(held := [Sync[0]], out := s.out + Sync)
  {
  }

  /** Dropping the last byte of a well-formed held region leaves a well-formed one. */
  lemma WellFormedInit(h: seq<byte>)
    requires h != [] && WellFormed(h)
    ensures WellFormed(h[..|h| - 1])
  {
    var init := h[..|h| - 1];
    if |h| > HeaderLength {
      assert init[..3] == h[..3];
    } else if |h| <= 3 {
      assert init == Sync[..|init|];
    }
  }

  /** A byte that extends the held region to another well-formed one is held. */
  lemma StepHolds(s: RelayState, h: seq<byte>)
    requires h != [] && WellFormed(h) && s.held == h[..|h| - 1]
    ensures Step(s, h[|h| - 1]) == s.(held := h)
  {
    assert s.held + [h[|h| - 1]] == h;
    if |h| >= HeaderLength {
      PacketLengthRoom(h[3]);
    }
  }

  /** Any proper beginning of a known packet, fed to a relay that holds
      nothing, is held back entirely: nothing is written, dispatched or decoded. */
  lemma {:induction false} FeedPartialFrame(s: RelayState, h: seq<byte>)
    requires s.held == [] && WellFormed(h)
    ensures Feed(s, h) == s.(held := h)
  {
    if h != [] {
      WellFormedInit(h);
      FeedPartialFrame(s, h[..|h| - 1]);
      StepHolds(s.(held := h[..|h| - 1]), h);
    }
  }

  /** A complete known packet, fed to a relay that holds nothing, is completed
      by its own last byte: it is validated, dispatched and written within the
      same feed, without waiting for a following header. */
  lemma FeedKnownFrame(s: RelayState, p: seq<byte>)
    requires s.held == [] && KnownFrame(p)
    ensures Feed(s, p) == Complete(s, p)
  {
    PacketLengthRoom(p[3]);
    var init := p[..|p| - 1];
    assert init[..3] == p[..3] && init[3] == p[3];
    FeedPartialFrame(s, init);
    assert init + [p[|p| - 1]] == p;
  }

  /** Callback invocations that come in whole blocks: each block invokes the
      n registered callbacks in registration order with one packet. */
  ghost predicate InBlocks(d: seq<Delivery>, n: nat)
    decreases |d|
  {
    d == [] ||
    (0 < n <= |d| && d[|d| - n..] == Deliveries(n, d[|d| - 1].packet) && InBlocks(d[..|d| - n], n))
  }

  /** One more block keeps the invocations in whole blocks. */
  lemma BlocksAppend(d: seq<Delivery>, n: nat, q: seq<byte>)
    requires InBlocks(d, n)
    ensures InBlocks(d + Deliveries(n, q), n)
  {
    var e := d + Deliveries(n, q);
    if n > 0 {
      assert e[|e| - n..] == Deliveries(n, q);
      assert e[..|e| - n] == d;
    } else {
      assert e == d;
    }
  }

  lemma StepInBlocks(s: RelayState, b: byte)
    requires WellFormed(s.held) && InBlocks(s.delivered, s.observers)
    ensures Step(s, b).observers == s.observers
    ensures InBlocks(Step(s, b).delivered, s.observers)
  {
    var h := s.held + [b];
    if |h| > HeaderLength || (|h| == HeaderLength && PacketLength(b).Some?) {
      PacketLengthRoom(h[3]);
      assert h[..3] == s.held[..3];
      if |h| == PacketLength(h[3]).value && IsValid(h) {
        BlocksAppend(s.delivered, s.observers, Outgoing(s.(held := []), h));
      }
    }
  }

  /** Over any input, every registered callback is invoked once per dispatched
      packet, in registration order, before the next packet's invocations begin;
      the set of callbacks never changes while bytes are fed. */
  lemma {:induction false} FeedInBlocks(s: RelayState, bs: seq<byte>)
    requires WellFormed(s.held) && InBlocks(s.delivered, s.observers)
    ensures Feed(s, bs).observers == s.observers
    ensures InBlocks(Feed(s, bs).delivered, s.observers)
  {
    if bs != [] {
      FeedInBlocks(s, bs[..|bs| - 1]);
      StepInBlocks(Feed(s, bs[..|bs| - 1]), bs[|bs| - 1]);
    }
  }

  /** What one byte delivers does not depend on what was delivered before:
      the earlier invocations are kept and the new ones follow them. */
  lemma StepDeliveredFree(s: RelayState, b: byte)
    requires WellFormed(s.held)
    ensures var t := Step(s.(delivered := []), b);
      Step(s, b) == t.(delivered := s.delivered + t.delivered)
  {
    var h := s.held + [b];
    if |h| <= HeaderLength - 1 {
      StepShort(s, b);
      StepShort(s.(delivered := []), b);
      assert s.delivered + [] == s.delivered;
    } else if |h| == HeaderLength && PacketLength(b).None? {
      UnknownTypeDeliveredFree(s, b);
    } else {
      PacketLengthRoom(h[3]);
      if |h| < PacketLength(h[3]).value {
        PartialDeliveredFree(s, b);
      } else {
        CompleteDeliveredFree(s, b);
      }
    }
  }

  lemma UnknownTypeDeliveredFree(s: RelayState, b: byte)
    requires WellFormed(s.held) && |s.held| == HeaderLength - 1 && PacketLength(b).None?
    ensures var t := Step(s.(delivered := []), b);
      Step(s, b) == t.(delivered := s.delivered + t.delivered)
  {
    assert s.delivered + [] == s.delivered;
  }

  lemma PartialDeliveredFree(s: RelayState, b: byte)
    requires WellFormed(s.held) && |s.held| >= HeaderLength - 1
    requires var h := s.held + [b];
      PacketLength(h[3]).Some? && |h| < PacketLength(h[3]).value
    ensures var t := Step(s.(delivered := []), b);
      Step(s, b) == t.(delivered := s.delivered + t.delivered)
  {
    assert s.delivered + [] == s.delivered;
  }

  lemma CompleteDeliveredFree(s: RelayState, b: byte)
    requires WellFormed(s.held) && |s.held| >= HeaderLength - 1
    requires var h := s.held + [b];
      PacketLength(h[3]).Some? && |h| == PacketLength(h[3]).value
    ensures var t := Step(s.(delivered := []), b);
      Step(s, b) == t.(delivered := s.delivered + t.delivered)
  {
    var h := s.held + [b];
    assert h[..3] == s.held[..3];
    CompleteShift(s.(held := []), h);
  }

  /** Completing a packet appends its invocations after the earlier ones. */
  lemma CompleteShift(s: RelayState, p: seq<byte>)
    requires KnownFrame(p)
    ensures var t := Complete(s.(delivered := []), p);
      Complete(s, p) == t.(delivered := s.delivered + t.delivered)
  {
    assert s.delivered + [] == s.delivered;
  }

  /** What a sequence of bytes delivers does not depend on what was delivered
      before. */
  lemma {:induction false} FeedDeliveredFree(s: RelayState, bs: seq<byte>)
    requires WellFormed(s.held)
    ensures var t := Feed(s.(delivered := []), bs);
      Feed(s, bs) == t.(delivered := s.delivered + t.delivered)
  {
    if bs != [] {
      var init, b := bs[..|bs| - 1], bs[|bs| - 1];
      var t0 := Feed(s.(delivered := []), init);
      FeedDeliveredFree(s, init);
      StepDeliveredFree(Feed(s, init), b);
      StepDeliveredFree(t0, b);
      ShiftTwice(Step(t0.(delivered := []), b), s.delivered, t0.delivered);
    }
  }

  /** Prepending earlier invocations in two steps is prepending them in one. */
  lemma ShiftTwice(x: RelayState, d: seq<Delivery>, e: seq<Delivery>)
    ensures x.(delivered := d + e + x.delivered) ==
            x.(delivered := e + x.delivered).(delivered := d + (e + x.delivered))
  {
    assert d + e + x.delivered == d + (e + x.delivered);
  }

  /** Over any input, whatever was delivered before, the callback invocations
      that feeding adds come in whole blocks: each block invokes every
      registered callback once, in registration order, with one packet. The
      earlier invocations are kept and the callbacks never change. */
  lemma FeedAddsBlocks(s: RelayState, bs: seq<byte>)
    requires WellFormed(s.held)
    ensures Feed(s, bs).observers == s.observers
    ensures s.delivered <= Feed(s, bs).delivered
    ensures InBlocks(Feed(s, bs).delivered[|s.delivered|..], s.observers)
  {
    var t := Feed(s.(delivered := []), bs);
    FeedDeliveredFree(s, bs);
    FeedInBlocks(s.(delivered := []), bs);
    assert (s.delivered + t.delivered)[|s.delivered|..] == t.delivered;
  }

  /** Every packet a callback has been given is a complete known packet whose
      checksum holds. */
  ghost predicate DeliveriesValid(d: seq<Delivery>)
  {
    forall i :: 0 <= i < |d| ==> KnownFrame(d[i].packet) && IsValid(d[i].packet)
  }

  /** Callbacks only ever see complete, valid packets, rewritten or not. */
  lemma {:induction false} FeedDeliversValid(s: RelayState, bs: seq<byte>)
    requires WellFormed(s.held) && DeliveriesValid(s.delivered)
    ensures DeliveriesValid(Feed(s, bs).delivered)
  {
    if bs != [] {
      var t := Feed(s, bs[..|bs| - 1]);
      FeedDeliversValid(s, bs[..|bs| - 1]);
      var b := bs[|bs| - 1];
      var h := t.held + [b];
      if |h| > HeaderLength || (|h| == HeaderLength && PacketLength(b).Some?) {
        PacketLengthRoom(h[3]);
      }
    }
  }
}
