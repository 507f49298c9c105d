/**
 The sender and receiver halves of the reliable stream. `SenderState` and
 `ReceiverState` with the functions on them say what each operation does; the
 classes do it in place and are proved to do exactly that.
 */
module ReliableEndpoints {
  import opened Common
  import opened SerialNumbers
  import opened Powers
  import opened Bitmaps
  import opened XrceFrames

  const SENDER_WINDOW := 16
  const RECEIVER_BUFFER_CAP := 64
  const RELIABLE_MAX_PAYLOAD := 65535
  const RELIABLE_STREAM_ID: Byte := 0x80
  const HEARTBEAT_PERIOD_MS := 500

  // ---- the sender ----

  datatype SubmitStatus = SubmitOK | SubmitTooLarge | SubmitWindowFull

  datatype SenderState = SenderState(nextSeq: U16, inFlight: map<U16, Octets>) {

    function StatusOf(payload: Octets): SubmitStatus {
      if |payload| > RELIABLE_MAX_PAYLOAD then SubmitTooLarge
      else if |inFlight| >= SENDER_WINDOW then SubmitWindowFull
      else SubmitOK
    }

    function Submitted(payload: Octets): SenderState {
      if StatusOf(payload).SubmitOK?
      then SenderState(Wrap(nextSeq + 1), inFlight[nextSeq := payload])
      else this
    }

    /** What an ACKNACK leaves in flight. */
    function Pruned(ack: AckNackBody): SenderState {
      SenderState(nextSeq, map k | k in inFlight && !Acknowledges(ack, k) :: inFlight[k])
    }
  }

  /** An ACKNACK acknowledges every number before its base, and the clear slots of its bitmap. */
  predicate Acknowledges(ack: AckNackBody, k: U16) {
    || SeqLt(k, ack.firstUnacked)
    || (Offset(ack.firstUnacked, k) < 16 && !Nacks(ack, Offset(ack.firstUnacked, k)))
  }

  predicate Nacks(ack: AckNackBody, i: nat) {
    BitAt(Word16(ack.nackLo, ack.nackHi), i)
  }

  /** Slot i of the bitmap is bit i of its low octet, and from the eighth on bit i - 8 of its high one. */
  lemma NackOctets(ack: AckNackBody, i: nat)
    ensures Nacks(ack, i) <==> (if i < 8 then ack.nackLo / Pow2(i) else ack.nackHi / Pow2(i - 8)) % 2 == 1
  {
    assert Pow2(4) == 16 && Pow2(8) == 256;
    BitsOfParts(ack.nackLo, ack.nackHi, 8, i);
    if i < 8 { BitWeighs(ack.nackLo, i); } else { BitWeighs(ack.nackHi, i - 8); }
  }

  /** `first` and `last` are the serially oldest and newest of `keys`, whatever anchor
      puts all of them within half a turn. */
  ghost predicate IsSerialWindow(keys: set<U16>, first: U16, last: U16) {
    && first in keys && last in keys
    && forall anchor: U16, k: U16 :: InHalfTurn(keys, anchor) && k in keys ==>
         Offset(anchor, first) <= Offset(anchor, k) <= Offset(anchor, last)
  }

  ghost predicate InHalfTurn(keys: set<U16>, anchor: U16) {
    forall k :: k in keys ==> Offset(anchor, k) < 0x8000
  }

  class ReliableSender {
    var nextSeq: U16
    var inFlight: map<U16, Octets>
    var lastHeartbeat: int
    var hbStarted: bool

    ghost function State(): SenderState
      reads this
    {
      SenderState(nextSeq, inFlight)
    }

    constructor ()
      ensures State() == SenderState(0, map[]) && !hbStarted
    {
      nextSeq, inFlight, lastHeartbeat, hbStarted := 0, map[], 0, false;
    }

    method Submit(payload: Octets) returns (seqNo: U16, status: SubmitStatus)
      modifies this`nextSeq, this`inFlight
      ensures status == old(State()).StatusOf(payload)
      ensures seqNo == if status.SubmitOK? then old(nextSeq) else 0
      ensures State() == old(State()).Submitted(payload)
      ensures status.SubmitTooLarge? <==> |payload| > 65535
      ensures status.SubmitWindowFull? <==> |payload| <= 65535 && |old(inFlight)| >= 16
      ensures status.SubmitOK? ==> nextSeq == (seqNo + 1) % 0x1_0000 && inFlight == old(inFlight)[seqNo := payload]
      ensures !status.SubmitOK? ==> unchanged(this)
    {
      if |payload| > RELIABLE_MAX_PAYLOAD {
        return 0, SubmitTooLarge;
      }
      if |inFlight| >= SENDER_WINDOW {
        return 0, SubmitWindowFull;
      }
      seqNo := nextSeq;
      inFlight := inFlight[seqNo := payload];
      nextSeq := Wrap(nextSeq + 1);
      status := SubmitOK;
    }

    /** The scan visits the keys in an arbitrary order. */
    method SerialWindow() returns (first: U16, last: U16)
      ensures inFlight == map[] ==> first == last == 0
      ensures inFlight != map[] ==> IsSerialWindow(inFlight.Keys, first, last)
    {
      first, last := 0, 0;
      var seen := false;
      var rest := inFlight.Keys;
      while rest != {}
        invariant rest <= inFlight.Keys
        invariant !seen ==> rest == inFlight.Keys && first == last == 0
        invariant seen ==> IsSerialWindowOf(inFlight.Keys, inFlight.Keys - rest, first, last)
        decreases rest
      {
        var k :| k in rest;
        if !seen {
          first, last, seen := k, k, true;
        } else {
          forall anchor: U16 | InHalfTurn(inFlight.Keys, anchor)
            ensures SeqLt(k, first) <==> Offset(anchor, k) < Offset(anchor, first)
            ensures SeqGt(k, last) <==> Offset(anchor, k) > Offset(anchor, last)
          {
            SerialOrderIsOffsetOrder(anchor, k, first);
            SerialOrderIsOffsetOrder(anchor, last, k);
          }
          if SeqLt(k, first) {
            first := k;
          }
          if SeqGt(k, last) {
            last := k;
          }
        }
        rest := rest - {k};
      }
      if seen {
        assert inFlight.Keys - rest == inFlight.Keys;
      } else {
        assert inFlight.Keys == {};
      }
    }

    method PendingHeartbeat(now: int) returns (hb: Option<HeartbeatBody>)
      modifies this`lastHeartbeat, this`hbStarted
      ensures hb.Some? <==> inFlight != map[] && (!old(hbStarted) || now - old(lastHeartbeat) >= 500)
      ensures hb.Some? ==> IsSerialWindow(inFlight.Keys, hb.value.first, hb.value.last)
      ensures hb.Some? ==> hb.value.streamId == 0x80 && hbStarted && lastHeartbeat == now
      ensures hb.None? ==> unchanged(this)
    {
      if |inFlight| == 0 || (hbStarted && now - lastHeartbeat < HEARTBEAT_PERIOD_MS) {
        return None;
      }
      hbStarted := true;
      lastHeartbeat := now;
      var first, last := SerialWindow();
      hb := Some(HeartbeatBody(first, last, RELIABLE_STREAM_ID));
    }

    method RecvAcknack(ack: AckNackBody)
      modifies this`inFlight
      ensures State() == old(State()).Pruned(ack)
    {
      var base := ack.firstUnacked;
      var bitmap := Word16(ack.nackLo, ack.nackHi);
      var rest := inFlight.Keys;
      while rest != {}
        invariant rest <= inFlight.Keys
        invariant Restricts(inFlight, old(inFlight))
        invariant forall k :: k in old(inFlight) ==> (k in inFlight <==> k in rest || !SeqLt(k, base))
        decreases rest
      {
        var k :| k in rest;
        rest := rest - {k};
        if SeqLt(k, base) {
          inFlight := inFlight - {k};
        }
      }
      for i := 0 to 16
        invariant Restricts(inFlight, old(inFlight))
        invariant forall k :: k in old(inFlight) ==>
                    (k in inFlight <==> !SeqLt(k, base) && (Offset(base, k) < i ==> BitAt(bitmap, Offset(base, k))))
      {
        var seqNo := Wrap(base as int + i);
        SlotOffset(base, i);
        if !BitAt(bitmap, i) {
          inFlight := inFlight - {seqNo};
        }
      }
      assert inFlight == old(State()).Pruned(ack).inFlight;
    }
  }

  ghost predicate Restricts(m: map<U16, Octets>, whole: map<U16, Octets>) {
    forall k :: k in m ==> k in whole && m[k] == whole[k]
  }

  /** The number in slot i of a bitmap, and the only one in it. */
  lemma SlotOffset(base: U16, i: nat)
    requires i < 16
    ensures forall k: U16 :: Offset(base, k) == i <==> k == Wrap(base as int + i)
  {
  }

  /** The serial window of the keys visited so far. */
  ghost predicate IsSerialWindowOf(keys: set<U16>, visited: set<U16>, first: U16, last: U16) {
    && first in visited && last in visited
    && forall anchor: U16, k: U16 :: InHalfTurn(keys, anchor) && k in visited ==>
         Offset(anchor, first) <= Offset(anchor, k) <= Offset(anchor, last)
  }

  // ---- the receiver ----

  datatype Sample = Sample(seqNo: U16, payload: Octets)

  datatype ReceiverState = ReceiverState(expected: U16, received: map<U16, Octets>) {

    /** Whether a sample is taken or silently dropped, rather than refused for want of room. */
    predicate Accepts(seqNo: U16) {
      SeqLt(seqNo, expected) || seqNo in received || |received| < RECEIVER_BUFFER_CAP
    }

    function Buffered(seqNo: U16, payload: Octets): ReceiverState {
      if SeqLt(seqNo, expected) || seqNo in received || |received| >= RECEIVER_BUFFER_CAP then this
      else this.(received := received[seqNo := payload])
    }

    function Drained(): (r: ReceiverState)
      decreases |received|
    {
      if expected in received
      then ReceiverState(Wrap(expected + 1), received - {expected}).Drained()
      else this
    }

    /** The samples one drain hands over. */
    function InOrder(): seq<Sample>
      decreases |received|
    {
      if expected in received
      then [Sample(expected, received[expected])] +
           ReceiverState(Wrap(expected + 1), received - {expected}).InOrder()
      else []
    }

    /** Slot i counts as missing: not buffered, and not past the hint when there is one. */
    predicate Missing(hint: Option<U16>, i: nat) {
      !(hint.Some? && SeqGt(Wrap(expected + i), hint.value)) && Wrap(expected + i) !in received
    }

    function MissingSlots(hint: Option<U16>): seq<bool> {
      seq(16, i requires 0 <= i < 16 => Missing(hint, i))
    }

    function Pending(hint: Option<U16>): (ack: AckNackBody)
      ensures ack.firstUnacked == expected
      ensures forall i :: 0 <= i < 16 ==> Nacks(ack, i) == Missing(hint, i)
    {
      var bits := MissingSlots(hint);
      Pow2Of16();
      assert forall i :: 0 <= i < 16 ==> BitAt(FromBits(bits), i) == bits[i] by {
        forall i | 0 <= i < 16 ensures BitAt(FromBits(bits), i) == bits[i] { BitOfFromBits(bits, i); }
      }
      AckNackBody(expected, Lo(FromBits(bits)), Hi(FromBits(bits)), RELIABLE_STREAM_ID)
    }
  }

  /** A drain hands over the samples of consecutive numbers from the expected one, each with its own payload. */
  lemma {:induction false} DrainHandsOver(s: ReceiverState, i: nat)
    requires i < |s.InOrder()|
    ensures var sample := s.InOrder()[i];
            && sample.seqNo == (s.expected + i) % 0x1_0000
            && sample.seqNo in s.received && sample.payload == s.received[sample.seqNo]
            && sample.seqNo !in s.Drained().received
    decreases i
  {
    hide Wrap;
    var next := ReceiverState(Wrap(s.expected + 1), s.received - {s.expected});
    if i > 0 {
      DrainHandsOver(next, i - 1);
      WrapAdd(s.expected + 1, i - 1);
      assert Wrap(s.expected + i) == (s.expected + i) % 0x1_0000 by { WrapIs(s.expected + i); }
      WrapIs(next.expected + (i - 1));
    } else {
      DrainKeeps(next, s.expected);
      WrapIs(s.expected as int);
    }
  }

  lemma WrapIs(n: int)
    ensures Wrap(n) == n % 0x1_0000
  {
  }

  /** It stops at the first number that is not buffered, having taken as many samples as it hands over. */
  lemma {:induction false} DrainStops(s: ReceiverState)
    ensures s.Drained().expected == Wrap(s.expected as int + |s.InOrder()|)
    ensures s.Drained().expected !in s.Drained().received
    ensures |s.Drained().received| == |s.received| - |s.InOrder()|
    decreases |s.received|
  {
    hide Wrap, ReceiverState.Drained, ReceiverState.InOrder;
    DrainUnfolds(s);
    if s.expected in s.received {
      var next := ReceiverState(Wrap(s.expected + 1), s.received - {s.expected});
      OneLess(s.received, s.expected);
      DrainStops(next);
      WrapAdd(s.expected + 1, |next.InOrder()|);
    } else {
      WrapIs(s.expected as int);
    }
  }

  lemma DrainUnfolds(s: ReceiverState)
    ensures s.expected !in s.received ==> s.Drained() == s && s.InOrder() == []
    ensures s.expected in s.received ==>
              var next := ReceiverState(Wrap(s.expected + 1), s.received - {s.expected});
              s.Drained() == next.Drained() && |s.InOrder()| == 1 + |next.InOrder()|
  {
    hide Wrap;
  }

  lemma OneLess(m: map<U16, Octets>, k: U16)
    requires k in m
    ensures |m - {k}| == |m| - 1
  {
    assert (m - {k}).Keys == m.Keys - {k};
  }

  /** What stays in the buffer stays as it was. */
  lemma {:induction false} DrainKeeps(s: ReceiverState, k: U16)
    ensures k in s.Drained().received ==> k in s.received && s.Drained().received[k] == s.received[k]
    decreases |s.received|
  {
    hide Wrap;
    if s.expected in s.received {
      DrainKeeps(ReceiverState(Wrap(s.expected + 1), s.received - {s.expected}), k);
    }
  }

  class ReliableReceiver {
    var expected: U16
    var received: map<U16, Octets>

    ghost function State(): ReceiverState
      reads this
    {
      ReceiverState(expected, received)
    }

    constructor ()
      ensures State() == ReceiverState(0, map[])
    {
      expected, received := 0, map[];
    }

    method RecvData(seqNo: U16, payload: Octets) returns (ok: bool)
      modifies this`received
      ensures ok == old(State()).Accepts(seqNo)
      ensures State() == old(State()).Buffered(seqNo, payload)
      ensures !ok <==> !SeqLt(seqNo, expected) && seqNo !in old(received) && |old(received)| >= 64
      ensures received == if ok && !SeqLt(seqNo, expected) && seqNo !in old(received)
                          then old(received)[seqNo := payload] else old(received)
    {
      if SeqLt(seqNo, expected) {
        return true;
      }
      if seqNo in received {
        return true;
      }
      if |received| >= RECEIVER_BUFFER_CAP {
        return false;
      }
      received := received[seqNo := payload];
      ok := true;
    }

    method DrainInOrder() returns (out: seq<Sample>)
      modifies this
      ensures State() == old(State()).Drained()
      ensures out == old(State()).InOrder()
    {
      hide Wrap;
      out := [];
      while expected in received
        invariant State().Drained() == old(State()).Drained()
        invariant out + State().InOrder() == old(State()).InOrder()
        decreases |received|
      {
        out := out + [Sample(expected, received[expected])];
        received := received - {expected};
        expected := Wrap(expected + 1);
      }
    }

    method PendingAcknack(hint: Option<U16>) returns (ack: AckNackBody)
      ensures ack == State().Pending(hint) && ack.streamId == 0x80
    {
      hide Wrap, Pow2;
      var base := expected;
      var bitmap := 0;
      ghost var bits := State().MissingSlots(hint);
      for i := 0 to 16
        invariant bitmap == FromBits(bits[..i])
      {
        var seqNo := Wrap(base as int + i);
        FromBitsNext(bits, i);
        if !(hint.Some? && SeqGt(seqNo, hint.value)) {
          if seqNo !in received {
            bitmap := bitmap + Pow2(i);
          }
        }
      }
      assert bits[..16] == bits;
      Pow2Of16();
      ack := AckNackBody(base, Lo(bitmap), Hi(bitmap), RELIABLE_STREAM_ID);
    }
  }
}
