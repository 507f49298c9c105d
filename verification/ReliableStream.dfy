/**
 The reliable stream as it runs: 16-bit sequence numbers at both ends and octet
 frames between them. It is proved to take, step for step, the decisions of the
 stream with unbounded numbers.
 */
module ReliableStream {
  import opened Common
  import opened SerialNumbers
  import opened XrceFrames
  import opened ReliableEndpoints
  import U = UnboundedStream

  const SESSION: Byte := 0x80

  /** A frame on the network. `made` is the history of the frame: which message it was made as. No
      endpoint looks at it; it only says how old the frame is. */
  datatype Packet = Packet(frame: Octets, made: U.Message)

  /** `submitted` counts the samples submitted since the start; it is history as well. */
  datatype System = System(
    enqueued: seq<Octets>,
    pending: seq<Octets>,
    submitted: nat,
    snd: SenderState,
    rcv: ReceiverState,
    delivered: seq<Octets>,
    net: set<Packet>)

  const INITIAL := System([], [], 0, SenderState(0, map[]), ReceiverState(0, map[]), [], {})

  datatype Step =
    | Enqueue(payload: Octets)
    | Submit(objectId: U16)
    | Retransmit(n: nat, objectId: U16)
    | SendHeartbeat(first: nat, last: nat, msgSeq: U16)
    | ReceiveData(p: Packet)
    | Drain
    | SendAck(msgSeq: U16, mode: UnannotatedTypes)
    | SendHintedAck(p: Packet, msgSeq: U16, mode: UnannotatedTypes)
    | ReceiveAck(p: Packet)

  /** `n` is the sample last submitted under its 16-bit number. */
  predicate Latest(c: System, n: nat) {
    n < c.submitted <= n + 0x1_0000
  }

  /** The sequence number a message is compared by. */
  function Number(m: U.Message): nat {
    match m
    case Data(n, _) => n
    case Ack(base, _, _) => base
    case Heartbeat(_, last) => last
  }

  /** The one assumption on the network: when a frame is processed, fewer than 2^15 numbers were
      submitted since its own. A hint is compared with 15 slots past `expected`, hence the slack. */
  predicate Fresh(c: System, m: U.Message, slack: nat) {
    c.submitted + slack < Number(m) + 0x8000
  }

  ghost predicate Enabled(c: System, step: Step) {
    match step
    case Enqueue(_) => true
    case Submit(_) => c.pending != [] && c.snd.StatusOf(c.pending[0]).SubmitOK?
    case Retransmit(n, _) => Latest(c, n) && Wrap(n) in c.snd.inFlight
    case SendHeartbeat(first, last, _) =>
      Latest(c, first) && Latest(c, last) && IsSerialWindow(c.snd.inFlight.Keys, Wrap(first), Wrap(last))
    case ReceiveData(p) => p in c.net && Fresh(c, p.made, 0) && ReadFrame(p.frame).Some?
    case Drain => true
    case SendAck(_, _) => true
    case SendHintedAck(p, _, _) => p in c.net && Fresh(c, p.made, 15) && ParseHeartbeat(p.frame).Some?
    case ReceiveAck(p) => p in c.net && Fresh(c, p.made, 0) && ParseAckNack(p.frame).Some?
  }

  function DataPacket(n: nat, objectId: U16, payload: Octets): Packet {
    Packet(WriteFrame(SESSION, RELIABLE_STREAM_ID, Wrap(n), objectId, payload), U.Data(n, payload))
  }

  function AckPacket(c: System, hint: Option<nat>, msgSeq: U16, mode: UnannotatedTypes): Packet {
    var hint16 := if hint.Some? then Some(Wrap(hint.value)) else None;
    Packet(AckNackFrame(SESSION, RELIABLE_STREAM_ID, msgSeq, c.rcv.Pending(hint16), mode),
           U.Ack(|c.delivered|, c.rcv.MissingSlots(hint16), hint))
  }

  function HeartbeatPacket(first: nat, last: nat, msgSeq: U16): Packet {
    var hb := HeartbeatBody(Wrap(first), Wrap(last), RELIABLE_STREAM_ID);
    Packet(HeartbeatFrame(SESSION, RELIABLE_STREAM_ID, msgSeq, hb), U.Heartbeat(first, last))
  }

  function Payloads(samples: seq<Sample>): seq<Octets> {
    if samples == [] then [] else [samples[0].payload] + Payloads(samples[1..])
  }

  ghost function Next(c: System, step: Step): System
    requires Enabled(c, step)
  {
    match step
    case Enqueue(p) => c.(enqueued := c.enqueued + [p], pending := c.pending + [p])
    case Submit(objectId) =>
      c.(pending := c.pending[1..], submitted := c.submitted + 1, snd := c.snd.Submitted(c.pending[0]),
         net := c.net + {Packet(WriteFrame(SESSION, RELIABLE_STREAM_ID, c.snd.nextSeq, objectId, c.pending[0]),
                                U.Data(c.submitted, c.pending[0]))})
    case Retransmit(n, objectId) => c.(net := c.net + {DataPacket(n, objectId, c.snd.inFlight[Wrap(n)])})
    case SendHeartbeat(first, last, msgSeq) => c.(net := c.net + {HeartbeatPacket(first, last, msgSeq)})
    case ReceiveData(p) =>
      var (seqNo, payload) := ReadFrame(p.frame).value;
      c.(rcv := c.rcv.Buffered(seqNo, payload))
    case Drain => c.(rcv := c.rcv.Drained(), delivered := c.delivered + Payloads(c.rcv.InOrder()))
    case SendAck(msgSeq, mode) => c.(net := c.net + {AckPacket(c, None, msgSeq, mode)})
    case SendHintedAck(p, msgSeq, mode) =>
      // The receiver passes on the `last` it read from the frame.
      var last := ParseHeartbeat(p.frame).value.last;
      c.(net := c.net + {Packet(AckNackFrame(SESSION, RELIABLE_STREAM_ID, msgSeq, c.rcv.Pending(Some(last)), mode),
                                U.Ack(|c.delivered|, c.rcv.MissingSlots(Some(last)), Some(Number(p.made))))})
    case ReceiveAck(p) => c.(snd := c.snd.Pruned(ParseAckNack(p.frame).value))
  }

  ghost predicate Legal(c: System, steps: seq<Step>)
    decreases |steps|
  {
    steps == [] || (Enabled(c, steps[0]) && Legal(Next(c, steps[0]), steps[1..]))
  }

  ghost function Exec(c: System, steps: seq<Step>): System
    requires Legal(c, steps)
    decreases |steps|
  {
    if steps == [] then c else Exec(Next(c, steps[0]), steps[1..])
  }

  // ---- the simulation ----

  /** A map keyed by 16-bit numbers holds what a map keyed by unbounded numbers holds. */
  ghost predicate Represents(m16: map<U16, Octets>, m: map<nat, Octets>) {
    && (forall n :: n in m ==> Wrap(n) in m16 && m16[Wrap(n)] == m[n])
    && (forall k :: k in m16 ==> exists n :: n in m && Wrap(n) == k)
  }

  ghost predicate Encodes(frame: Octets, m: U.Message) {
    match m
    case Data(n, p) =>
      ReadFrame(frame) == Some((Wrap(n), p)) && ParseAckNack(frame) == None && ParseHeartbeat(frame) == None
    case Ack(base, missing, _) =>
      && ReadFrame(frame) == None && ParseHeartbeat(frame) == None && |missing| == 16
      && ParseAckNack(frame).Some? && ParseAckNack(frame).value.firstUnacked == Wrap(base)
      && forall i :: 0 <= i < 16 ==> Nacks(ParseAckNack(frame).value, i) == missing[i]
    case Heartbeat(first, last) =>
      && ReadFrame(frame) == None && ParseAckNack(frame) == None
      && ParseHeartbeat(frame).Some? && ParseHeartbeat(frame).value.last == Wrap(last)
  }

  ghost predicate NetSim(net: set<Packet>, unet: set<U.Message>) {
    forall p :: p in net ==> p.frame == [] || (p.made in unet && Encodes(p.frame, p.made))
  }

  ghost predicate Sim(c: System, s: U.Stream) {
    && c.enqueued == s.enqueued && c.pending == s.pending
    && c.submitted == s.next && c.snd.nextSeq == Wrap(s.next)
    && Represents(c.snd.inFlight, s.inFlight)
    && c.rcv.expected == Wrap(s.rx.expected) && Represents(c.rcv.received, s.rx.received)
    && c.delivered == s.rx.delivered
    && NetSim(c.net, s.net)
  }

  function Abs(step: Step): U.Step {
    match step
    case Enqueue(p) => U.Enqueue(p)
    case Submit(_) => U.Submit
    case Retransmit(n, _) => U.Retransmit(n)
    case SendHeartbeat(first, last, _) => U.SendHeartbeat(first, last)
    case ReceiveData(p) => U.ReceiveData(p.made)
    case Drain => U.Drain
    case SendAck(_, _) => U.SendAck
    case SendHintedAck(p, _, _) => U.SendHintedAck(p.made)
    case ReceiveAck(p) => U.ReceiveAck(p.made)
  }

  /** All numbers of a map lie in less than one turn. */
  ghost predicate InOneTurn(m: map<nat, Octets>, lo: int) {
    forall n :: n in m ==> lo <= n < lo + 0x8000
  }

  lemma {:induction false} RepresentsSameSize(m16: map<U16, Octets>, m: map<nat, Octets>, lo: int)
    requires Represents(m16, m) && InOneTurn(m, lo)
    ensures |m16| == |m|
    decreases |m|
  {
    hide Wrap;
    if m == map[] {
      if k :| k in m16 {
        assert false;
      }
      assert m16 == map[];
    } else {
      var n :| n in m;
      RepresentsRemove(m16, m, lo, n);
      RepresentsSameSize(m16 - {Wrap(n)}, m - {n}, lo);
      assert m16.Keys == (m16 - {Wrap(n)}).Keys + {Wrap(n)};
      assert m.Keys == (m - {n}).Keys + {n};
    }
  }

  lemma RepresentsRemove(m16: map<U16, Octets>, m: map<nat, Octets>, lo: int, n: nat)
    requires Represents(m16, m) && InOneTurn(m, lo) && lo <= n < lo + 0x8000
    ensures Represents(m16 - {Wrap(n)}, m - {n})
  {
    hide Wrap;
    forall k | k in m ensures Wrap(k) == Wrap(n) ==> k == n {
      if Wrap(k) == Wrap(n) { WrapInjective(k, n); }
    }
  }

  /** Within a turn the 16-bit map answers membership truly. */
  lemma RepresentsMember(m16: map<U16, Octets>, m: map<nat, Octets>, lo: int, n: nat)
    requires Represents(m16, m) && InOneTurn(m, lo) && lo <= n < lo + 0x8000
    ensures Wrap(n) in m16 <==> n in m
  {
    hide Wrap;
    if Wrap(n) in m16 {
      var k :| k in m && Wrap(k) == Wrap(n);
      WrapInjective(k, n);
    }
  }

  lemma RepresentsAdd(m16: map<U16, Octets>, m: map<nat, Octets>, lo: int, n: nat, p: Octets)
    requires Represents(m16, m) && InOneTurn(m, lo) && lo <= n < lo + 0x8000
    ensures Represents(m16[Wrap(n) := p], m[n := p])
  {
    hide Wrap;
    forall k | k in m ensures Wrap(k) == Wrap(n) ==> k == n {
      if Wrap(k) == Wrap(n) { WrapInjective(k, n); }
    }
    var added := m[n := p];
    assert n in added;
    forall k | k in m16 ensures exists j :: j in added && Wrap(j) == k {
      var j :| j in m && Wrap(j) == k;
      assert j in added;
    }
  }

  lemma Windows(s: U.Stream)
    requires U.Inv(s)
    ensures s.next <= s.acked + 32 && s.acked <= s.rx.expected <= s.next
    ensures InOneTurn(s.inFlight, s.acked) && InOneTurn(s.rx.received, s.rx.expected)
  {
    U.SpanBound(s);
  }

  lemma NetSimAdd(net: set<Packet>, unet: set<U.Message>, unet': set<U.Message>, p: Packet)
    requires NetSim(net, unet) && unet <= unet'
    requires p.frame == [] || (p.made in unet' && Encodes(p.frame, p.made))
    ensures NetSim(net + {p}, unet')
  {
  }

  lemma DataPacketSim(n: nat, objectId: U16, payload: Octets)
    ensures var p := DataPacket(n, objectId, payload);
            if Sendable(payload) then Encodes(p.frame, p.made) else p.frame == []
  {
    ReadWriteFrame(SESSION, RELIABLE_STREAM_ID, Wrap(n), objectId, payload, []);
  }

  lemma SenderSubmitSim(snd: SenderState, inFlight: map<nat, Octets>, lo: int, next: nat, p: Octets)
    requires snd.nextSeq == Wrap(next) && Represents(snd.inFlight, inFlight)
    requires InOneTurn(inFlight, lo) && lo <= next < lo + 0x8000 && snd.StatusOf(p).SubmitOK?
    ensures |inFlight| < SENDER_WINDOW
    ensures snd.Submitted(p).nextSeq == Wrap(next + 1)
    ensures Represents(snd.Submitted(p).inFlight, inFlight[next := p])
  {
    hide Wrap;
    RepresentsSameSize(snd.inFlight, inFlight, lo);
    RepresentsAdd(snd.inFlight, inFlight, lo, next, p);
    WrapAdd(next, 1);
  }

  lemma SubmitSim(c: System, s: U.Stream, step: Step)
    requires U.Inv(s) && Sim(c, s) && step.Submit? && Enabled(c, step)
    ensures U.Enabled(s, U.Submit) && Sim(Next(c, step), U.Next(s, U.Submit))
  {
    hide Wrap;
    Windows(s);
    var p := s.pending[0];
    SenderSubmitSim(c.snd, s.inFlight, s.acked, s.next, p);
    DataPacketSim(s.next, step.objectId, p);
    NetSimAdd(c.net, s.net, U.Next(s, U.Submit).net, DataPacket(s.next, step.objectId, p));
  }

  lemma LatestIsInFlight(c: System, s: U.Stream, n: nat)
    requires U.Inv(s) && Sim(c, s) && Latest(c, n) && Wrap(n) in c.snd.inFlight
    ensures n in s.inFlight && c.snd.inFlight[Wrap(n)] == s.inFlight[n]
  {
    hide Wrap;
    Windows(s);
    var k :| k in s.inFlight && Wrap(k) == Wrap(n);
    WrapInjective(k, n);
  }

  lemma RetransmitSim(c: System, s: U.Stream, step: Step)
    requires U.Inv(s) && Sim(c, s) && step.Retransmit? && Enabled(c, step)
    ensures U.Enabled(s, Abs(step)) && Sim(Next(c, step), U.Next(s, Abs(step)))
  {
    hide Wrap;
    var n := step.n;
    LatestIsInFlight(c, s, n);
    DataPacketSim(n, step.objectId, s.inFlight[n]);
    NetSimAdd(c.net, s.net, U.Next(s, U.Retransmit(n)).net, DataPacket(n, step.objectId, s.inFlight[n]));
  }

  lemma AllInHalfTurn(c: System, s: U.Stream)
    requires U.Inv(s) && Sim(c, s)
    ensures InHalfTurn(c.snd.inFlight.Keys, Wrap(s.acked))
  {
    hide Wrap;
    Windows(s);
    forall k | k in c.snd.inFlight.Keys ensures Offset(Wrap(s.acked), k) < 0x8000 {
      var n :| n in s.inFlight && Wrap(n) == k;
      OffsetOfWrap(s.acked, n);
    }
  }

  /** The heartbeat scan finds the truly oldest and newest number in flight. */
  lemma SerialWindowIsTrueWindow(c: System, s: U.Stream, first: nat, last: nat)
    requires U.Inv(s) && Sim(c, s) && Latest(c, first) && Latest(c, last)
    requires IsSerialWindow(c.snd.inFlight.Keys, Wrap(first), Wrap(last))
    ensures first in s.inFlight && last in s.inFlight
    ensures forall n :: n in s.inFlight ==> first <= n <= last
  {
    hide Wrap;
    Windows(s);
    LatestIsInFlight(c, s, first);
    LatestIsInFlight(c, s, last);
    OffsetOfWrap(s.acked, first);
    OffsetOfWrap(s.acked, last);
    AllInHalfTurn(c, s);
    forall n | n in s.inFlight ensures first <= n <= last {
      OffsetOfWrap(s.acked, n);
      assert Wrap(n) in c.snd.inFlight.Keys;
    }
  }

  lemma HeartbeatSim(c: System, s: U.Stream, step: Step)
    requires U.Inv(s) && Sim(c, s) && step.SendHeartbeat? && Enabled(c, step)
    ensures U.Enabled(s, Abs(step)) && Sim(Next(c, step), U.Next(s, Abs(step)))
  {
    hide Wrap;
    SerialWindowIsTrueWindow(c, s, step.first, step.last);
    var p := HeartbeatPacket(step.first, step.last, step.msgSeq);
    assert Encodes(p.frame, p.made);
    NetSimAdd(c.net, s.net, U.Next(s, Abs(step)).net, p);
  }

  lemma ReceiveDataSim(c: System, s: U.Stream, step: Step)
    requires U.Inv(s) && Sim(c, s) && step.ReceiveData? && Enabled(c, step)
    ensures U.Enabled(s, Abs(step)) && Sim(Next(c, step), U.Next(s, Abs(step)))
    ensures c.rcv.Accepts(ReadFrame(step.p.frame).value.0)
  {
    hide Wrap;
    var m := step.p.made;
    assert m in s.net && Encodes(step.p.frame, m) && U.MessageInv(s, m);
    Windows(s);
    U.BufferBound(s);
    RepresentsSameSize(c.rcv.received, s.rx.received, s.rx.expected);
    SerialOrderIsTrueOrder(m.n, s.rx.expected);
    if m.n >= s.rx.expected {
      RepresentsMember(c.rcv.received, s.rx.received, s.rx.expected, m.n);
      RepresentsAdd(c.rcv.received, s.rx.received, s.rx.expected, m.n, m.payload);
    }
  }

  ghost predicate ReceiverSim(r: ReceiverState, rx: U.Receiver) {
    && r.expected == Wrap(rx.expected) && Represents(r.received, rx.received)
    && InOneTurn(rx.received, rx.expected)
  }

  /** Both levels have the next sample or neither does. */
  lemma NextSim(r: ReceiverState, rx: U.Receiver)
    requires ReceiverSim(r, rx)
    ensures r.expected in r.received <==> rx.expected in rx.received
    ensures rx.expected in rx.received ==> r.received[r.expected] == rx.received[rx.expected]
  {
    hide Wrap;
    RepresentsMember(r.received, rx.received, rx.expected, rx.expected);
  }

  function Take16(r: ReceiverState): ReceiverState {
    ReceiverState(Wrap(r.expected + 1), r.received - {r.expected})
  }

  function Take(rx: U.Receiver): U.Receiver
    requires rx.expected in rx.received
  {
    U.Receiver(rx.expected + 1, rx.received - {rx.expected}, rx.delivered + [rx.received[rx.expected]])
  }

  /** Taking one sample off the buffer keeps the two levels together. */
  lemma TakeSim(r: ReceiverState, rx: U.Receiver)
    requires ReceiverSim(r, rx) && rx.expected in rx.received
    ensures ReceiverSim(Take16(r), Take(rx))
    ensures |Take(rx).received| < |rx.received|
  {
    hide Wrap;
    RepresentsRemove(r.received, rx.received, rx.expected, rx.expected);
    WrapAdd(rx.expected, 1);
    assert Take(rx).received.Keys == rx.received.Keys - {rx.expected};
  }

  lemma {:induction false} DrainedSim(r: ReceiverState, rx: U.Receiver)
    requires ReceiverSim(r, rx)
    ensures ReceiverSim(r.Drained(), rx.Drained())
    decreases |rx.received|
  {
    hide Wrap;
    NextSim(r, rx);
    if rx.expected in rx.received {
      TakeSim(r, rx);
      DrainedSim(Take16(r), Take(rx));
    }
  }

  /** A drain hands over the same payloads at both levels. */
  lemma {:induction false} DeliveredSim(r: ReceiverState, rx: U.Receiver)
    requires ReceiverSim(r, rx)
    ensures rx.Drained().delivered == rx.delivered + Payloads(r.InOrder())
    decreases |rx.received|
  {
    hide Wrap;
    NextSim(r, rx);
    if rx.expected in rx.received {
      TakeSim(r, rx);
      DeliveredSim(Take16(r), Take(rx));
      PayloadsCons(Sample(r.expected, r.received[r.expected]), Take16(r).InOrder());
    }
  }

  lemma PayloadsCons(x: Sample, rest: seq<Sample>)
    ensures Payloads([x] + rest) == [x.payload] + Payloads(rest)
  {
    assert ([x] + rest)[1..] == rest;
  }

  lemma MissingSlotSim(r: ReceiverState, rx: U.Receiver, hint: Option<nat>, i: nat)
    requires r.expected == Wrap(rx.expected) && Represents(r.received, rx.received)
    requires InOneTurn(rx.received, rx.expected) && i < 16
    requires hint.Some? ==> -0x8000 < rx.expected + i - hint.value < 0x8000
    ensures var hint16 := if hint.Some? then Some(Wrap(hint.value)) else None;
            r.Missing(hint16, i) <==>
            !(hint.Some? && rx.expected + i > hint.value) && rx.expected + i !in rx.received
  {
    hide Wrap;
    WrapAdd(rx.expected, i);
    RepresentsMember(r.received, rx.received, rx.expected, rx.expected + i);
    if hint.Some? {
      SerialOrderIsTrueOrder(hint.value, rx.expected + i);
    }
  }

  lemma MissingSim(c: System, s: U.Stream, hint: Option<nat>)
    requires U.Inv(s) && Sim(c, s)
    requires hint.Some? ==> hint.value < s.next && s.next + 15 < hint.value + 0x8000
    ensures c.rcv.MissingSlots(if hint.Some? then Some(Wrap(hint.value)) else None) == s.rx.MissingSlots(hint)
  {
    hide Wrap;
    Windows(s);
    ReceiverMissingSim(c.rcv, s.rx, hint);
  }

  lemma ReceiverMissingSim(r: ReceiverState, rx: U.Receiver, hint: Option<nat>)
    requires r.expected == Wrap(rx.expected) && Represents(r.received, rx.received)
    requires InOneTurn(rx.received, rx.expected)
    requires hint.Some? ==> -0x8000 < rx.expected - hint.value < 0x8000 - 15
    ensures r.MissingSlots(if hint.Some? then Some(Wrap(hint.value)) else None) == rx.MissingSlots(hint)
  {
    hide Wrap;
    var hint16 := if hint.Some? then Some(Wrap(hint.value)) else None;
    forall i | 0 <= i < 16
      ensures r.MissingSlots(hint16)[i] == rx.MissingSlots(hint)[i]
    {
      MissingSlotSim(r, rx, hint, i);
    }
  }

  lemma AckPacketSim(c: System, s: U.Stream, hint: Option<nat>, msgSeq: U16, mode: UnannotatedTypes)
    requires U.Inv(s) && Sim(c, s)
    requires hint.Some? ==> hint.value < s.next && s.next + 15 < hint.value + 0x8000
    ensures var p := AckPacket(c, hint, msgSeq, mode);
            p.made == U.Ack(s.rx.expected, s.rx.MissingSlots(hint), hint) && Encodes(p.frame, p.made)
  {
    hide Wrap, ParseAckNack, ReadFrame, ParseHeartbeat, AckNackFrame;
    MissingSim(c, s, hint);
    var hint16 := if hint.Some? then Some(Wrap(hint.value)) else None;
    ParseAckNackInverse(SESSION, RELIABLE_STREAM_ID, msgSeq, c.rcv.Pending(hint16), mode);
    var p := AckPacket(c, hint, msgSeq, mode);
    forall i | 0 <= i < 16 ensures Nacks(c.rcv.Pending(hint16), i) == p.made.missing[i] {
      assert c.rcv.MissingSlots(hint16)[i] == c.rcv.Missing(hint16, i);
    }
  }

  lemma SendAckSim(c: System, s: U.Stream, step: Step)
    requires U.Inv(s) && Sim(c, s) && (step.SendAck? || step.SendHintedAck?) && Enabled(c, step)
    ensures U.Enabled(s, Abs(step)) && Sim(Next(c, step), U.Next(s, Abs(step)))
  {
    hide Wrap;
    if step.SendAck? {
      AckPacketSim(c, s, None, step.msgSeq, step.mode);
      NetSimAdd(c.net, s.net, U.Next(s, Abs(step)).net, AckPacket(c, None, step.msgSeq, step.mode));
    } else {
      var m := step.p.made;
      assert m in s.net && Encodes(step.p.frame, m) && U.MessageInv(s, m);
      AckPacketSim(c, s, Some(m.last), step.msgSeq, step.mode);
      NetSimAdd(c.net, s.net, U.Next(s, Abs(step)).net, AckPacket(c, Some(m.last), step.msgSeq, step.mode));
    }
  }

  /** The sender strikes from its window exactly the numbers it should. */
  lemma AcknowledgesTruly(s: U.Stream, m: U.Message, ack: AckNackBody, n: nat)
    requires U.Inv(s) && m in s.net && m.Ack? && n in s.inFlight && s.next < m.base + 0x8000
    requires |m.missing| == 16 && ack.firstUnacked == Wrap(m.base)
    requires forall i :: 0 <= i < 16 ==> Nacks(ack, i) == m.missing[i]
    ensures Acknowledges(ack, Wrap(n)) <==> n < m.base || (n < m.base + 16 && !m.missing[n - m.base])
  {
    hide Wrap;
    Windows(s);
    assert U.MessageInv(s, m);
    SerialOrderIsTrueOrder(n, m.base);
    if n >= m.base {
      OffsetOfWrap(m.base, n);
    }
  }

  lemma PrunedSim(snd: SenderState, inFlight: map<nat, Octets>, ack: AckNackBody, base: nat, missing: seq<bool>)
    requires Represents(snd.inFlight, inFlight) && |missing| == 16
    requires forall n :: n in inFlight ==>
               (Acknowledges(ack, Wrap(n)) <==> n < base || (n < base + 16 && !missing[n - base]))
    ensures Represents(snd.Pruned(ack).inFlight, U.Pruned(inFlight, base, missing))
  {
    hide Wrap, Acknowledges;
    var kept16 := snd.Pruned(ack).inFlight;
    var kept := U.Pruned(inFlight, base, missing);
    forall k | k in kept16 ensures exists n :: n in kept && Wrap(n) == k {
      var n :| n in inFlight && Wrap(n) == k;
      assert n in kept;
    }
  }

  lemma EmptyIsNoAckNack()
    ensures ParseAckNack([]) == None
  {
  }

  /** What an ACKNACK frame on the network says, and what it makes the sender strike. */
  lemma AckDecides(c: System, s: U.Stream, p: Packet)
    requires U.Inv(s) && Sim(c, s) && p in c.net && Fresh(c, p.made, 0) && ParseAckNack(p.frame).Some?
    ensures p.made in s.net && p.made.Ack? && |p.made.missing| == 16
    ensures forall n :: n in s.inFlight ==>
              (Acknowledges(ParseAckNack(p.frame).value, Wrap(n)) <==>
               n < p.made.base || (n < p.made.base + 16 && !p.made.missing[n - p.made.base]))
  {
    hide Wrap, Acknowledges, Nacks, ParseAckNack, ReadFrame, ParseHeartbeat, Represents;
    EmptyIsNoAckNack();
    var m := p.made;
    assert m in s.net && Encodes(p.frame, m) && U.MessageInv(s, m);
    var ack := ParseAckNack(p.frame).value;
    forall n | n in s.inFlight
      ensures Acknowledges(ack, Wrap(n)) <==> n < m.base || (n < m.base + 16 && !m.missing[n - m.base])
    {
      AcknowledgesTruly(s, m, ack, n);
    }
  }

  lemma ReceiveAckSim(c: System, s: U.Stream, step: Step)
    requires U.Inv(s) && Sim(c, s) && step.ReceiveAck? && Enabled(c, step)
    ensures U.Enabled(s, Abs(step)) && Sim(Next(c, step), U.Next(s, Abs(step)))
  {
    hide Wrap, Acknowledges, ParseAckNack, ReadFrame, ParseHeartbeat, U.Inv, Encodes, Represents, U.Pruned;
    AckDecides(c, s, step.p);
    PrunedSim(c.snd, s.inFlight, ParseAckNack(step.p.frame).value, step.p.made.base, step.p.made.missing);
  }

  /** Every step of the 16-bit stream is the corresponding step of the unbounded one. */
  lemma StepSim(c: System, s: U.Stream, step: Step)
    requires U.Inv(s) && Sim(c, s) && Enabled(c, step)
    ensures U.Enabled(s, Abs(step))
    ensures U.Inv(U.Next(s, Abs(step))) && Sim(Next(c, step), U.Next(s, Abs(step)))
  {
    hide Wrap;
    match step {
      case Enqueue(_) =>
      case Submit(_) => SubmitSim(c, s, step);
      case Retransmit(_, _) => RetransmitSim(c, s, step);
      case SendHeartbeat(_, _, _) => HeartbeatSim(c, s, step);
      case ReceiveData(_) => ReceiveDataSim(c, s, step);
      case Drain =>
        Windows(s);
        DrainedSim(c.rcv, s.rx);
        DeliveredSim(c.rcv, s.rx);
      case SendAck(_, _) => SendAckSim(c, s, step);
      case SendHintedAck(_, _, _) => SendAckSim(c, s, step);
      case ReceiveAck(_) => ReceiveAckSim(c, s, step);
    }
    U.StepKeepsInv(s, Abs(step));
  }

  function AbsAll(steps: seq<Step>): seq<U.Step> {
    seq(|steps|, i requires 0 <= i < |steps| => Abs(steps[i]))
  }

  /** Refinement: every run of the 16-bit stream, over any number of wraps, is a run of the unbounded one. */
  lemma {:induction false} RunRefines(c: System, s: U.Stream, steps: seq<Step>)
    requires U.Inv(s) && Sim(c, s) && Legal(c, steps)
    ensures U.Legal(s, AbsAll(steps))
    ensures U.Inv(U.Exec(s, AbsAll(steps))) && Sim(Exec(c, steps), U.Exec(s, AbsAll(steps)))
    decreases |steps|
  {
    hide Wrap;
    if steps != [] {
      StepSim(c, s, steps[0]);
      assert AbsAll(steps)[1..] == AbsAll(steps[1..]);
      RunRefines(Next(c, steps[0]), U.Next(s, Abs(steps[0])), steps[1..]);
    }
  }

  // ---- what follows for every run ----

  /** The receiver has delivered or buffered sample `n`. */
  predicate Has(c: System, n: nat) {
    n < |c.delivered| || Wrap(n) in c.rcv.received
  }

  /** A clear slot past the hint stands for a submitted sample the receiver lacks. */
  ghost predicate LostByHint(c: System, m: U.Message, n: nat)
    requires m.Ack?
  {
    m.hint.Some? && m.hint.value < n && m.base <= n < m.base + 16 && n < c.submitted && !Has(c, n)
  }

  ghost predicate HintMet(c: System, step: Step) {
    step.ReceiveAck? && step.p.made.Ack? ==> forall n: nat :: !LostByHint(c, step.p.made, n)
  }

  /** No ACKNACK of the run strikes a sample by its hint when the sender processes it. */
  ghost predicate HintsMet(c: System, steps: seq<Step>)
    requires Legal(c, steps)
    decreases |steps|
  {
    steps == [] || (HintMet(c, steps[0]) && HintsMet(Next(c, steps[0]), steps[1..]))
  }

  /** No hinted ACKNACK reaches the sender. */
  ghost predicate Unhinted(steps: seq<Step>) {
    forall i :: 0 <= i < |steps| && steps[i].ReceiveAck? ==> steps[i].p.made.Ack? && steps[i].p.made.hint.None?
  }

  lemma {:induction false} UnhintedMeetsHints(c: System, steps: seq<Step>)
    requires Legal(c, steps) && Unhinted(steps)
    ensures HintsMet(c, steps)
    decreases |steps|
  {
    hide Next, Enabled;
    if steps != [] {
      assert steps[0].ReceiveAck? ==> steps[0].p.made.hint.None?;
      assert forall i :: 0 <= i < |steps[1..]| ==> steps[1..][i] == steps[i + 1];
      UnhintedMeetsHints(Next(c, steps[0]), steps[1..]);
    }
  }

  lemma InitialSim()
    ensures U.Inv(U.INITIAL) && U.Conserved(U.INITIAL) && Sim(INITIAL, U.INITIAL)
  {
  }

  lemma HasSim(c: System, s: U.Stream, n: nat)
    requires U.Inv(s) && Sim(c, s) && n < s.next
    ensures Has(c, n) <==> s.rx.Has(n)
  {
    hide Wrap;
    Windows(s);
    if n >= s.rx.expected {
      RepresentsMember(c.rcv.received, s.rx.received, s.rx.expected, n);
    }
  }

  lemma HintMetSim(c: System, s: U.Stream, step: Step)
    requires U.Inv(s) && Sim(c, s)
    ensures HintMet(c, step) <==> U.HintMet(s, Abs(step))
  {
    hide Wrap, U.Inv, Sim, Has;
    assert c.submitted == s.next by { SubmittedIsNext(c, s); }
    if step.ReceiveAck? && step.p.made.Ack? {
      forall n: nat ensures LostByHint(c, step.p.made, n) <==> U.LostByHint(s, step.p.made, n) {
        if n < s.next { HasSim(c, s, n); }
      }
    }
  }

  lemma SubmittedIsNext(c: System, s: U.Stream)
    requires Sim(c, s)
    ensures c.submitted == s.next
  {
  }

  lemma {:induction false} HintsMetSim(c: System, s: U.Stream, steps: seq<Step>)
    requires U.Inv(s) && Sim(c, s) && Legal(c, steps) && HintsMet(c, steps)
    ensures U.Legal(s, AbsAll(steps)) && U.HintsMet(s, AbsAll(steps))
    decreases |steps|
  {
    hide Wrap, U.Inv, Sim, HintMet, U.HintMet, Next, U.Next, Enabled, U.Enabled;
    RunRefines(c, s, steps);
    if steps != [] {
      StepSim(c, s, steps[0]);
      HintMetSim(c, s, steps[0]);
      assert AbsAll(steps)[1..] == AbsAll(steps[1..]);
      HintsMetSim(Next(c, steps[0]), U.Next(s, Abs(steps[0])), steps[1..]);
    }
  }

  /** The state of the unbounded stream that a run has kept up with. */
  lemma Shadow(steps: seq<Step>) returns (s: U.Stream)
    requires Legal(INITIAL, steps)
    ensures U.Inv(s) && Sim(Exec(INITIAL, steps), s)
    ensures HintsMet(INITIAL, steps) ==> U.Conserved(s)
  {
    InitialSim();
    RunRefines(INITIAL, U.INITIAL, steps);
    s := U.Exec(U.INITIAL, AbsAll(steps));
    if HintsMet(INITIAL, steps) {
      HintsMetSim(INITIAL, U.INITIAL, steps);
      U.RunConserves(U.INITIAL, AbsAll(steps));
    }
  }

  /** Under any loss, duplication and reordering, what is delivered is a prefix of what was enqueued:
      each sample once and in order. */
  lemma DeliversPrefix(steps: seq<Step>)
    requires Legal(INITIAL, steps)
    ensures var c := Exec(INITIAL, steps);
            |c.delivered| <= c.submitted <= |c.enqueued| && c.delivered == c.enqueued[..|c.delivered|]
  {
    var s := Shadow(steps);
  }

  /** The receiver refuses no fresh sample, and the sender is at most 32 numbers ahead of it. */
  lemma NeverRefuses(steps: seq<Step>, p: Packet)
    requires Legal(INITIAL, steps)
    ensures var c := Exec(INITIAL, steps);
            && c.submitted <= |c.delivered| + 32 && |c.rcv.received| <= 32
            && (Enabled(c, ReceiveData(p)) ==> c.rcv.Accepts(ReadFrame(p.frame).value.0))
  {
    var s := Shadow(steps);
    BufferSim(Exec(INITIAL, steps), s, p);
  }

  lemma BufferSim(c: System, s: U.Stream, p: Packet)
    requires U.Inv(s) && Sim(c, s)
    ensures c.submitted <= |c.delivered| + 32 && |c.rcv.received| <= 32
    ensures Enabled(c, ReceiveData(p)) ==> c.rcv.Accepts(ReadFrame(p.frame).value.0)
  {
    hide Wrap;
    Windows(s);
    U.BufferBound(s);
    RepresentsSameSize(c.rcv.received, s.rx.received, s.rx.expected);
    if Enabled(c, ReceiveData(p)) {
      ReceiveDataSim(c, s, ReceiveData(p));
    }
  }

  /** In a run in which no hint strikes a sample the writer's exit test is sound: when nothing is in flight, one
      drain delivers all that was submitted, and all that was enqueued when nothing is pending either. */
  lemma ExitTestIsSound(steps: seq<Step>)
    requires Legal(INITIAL, steps) && HintsMet(INITIAL, steps)
    ensures var c := Exec(INITIAL, steps);
            && c.submitted <= |c.enqueued|
            && (c.snd.inFlight == map[] ==> Next(c, Drain).delivered == c.enqueued[..c.submitted])
            && (c.snd.inFlight == map[] && c.pending == [] ==> Next(c, Drain).delivered == c.enqueued)
  {
    var s := Shadow(steps);
    EmptyWindowSim(Exec(INITIAL, steps), s);
  }

  lemma EmptyWindowSim(c: System, s: U.Stream)
    requires U.Inv(s) && U.Conserved(s) && Sim(c, s)
    ensures c.submitted <= |c.enqueued|
    ensures c.snd.inFlight == map[] ==> Next(c, Drain).delivered == c.enqueued[..c.submitted]
    ensures c.snd.inFlight == map[] && c.pending == [] ==> Next(c, Drain).delivered == c.enqueued
  {
    hide Wrap;
    if c.snd.inFlight == map[] {
      assert forall n :: n in s.inFlight ==> Wrap(n) in c.snd.inFlight;
      assert s.inFlight == map[];
      U.EmptyWindowDeliversAll(s);
      StepSim(c, s, Drain);
      assert c.pending == [] ==> c.submitted == |c.enqueued|;
    }
  }

  // ---- what is on the network ----

  /** A frame as the stream sends it: session and stream 0x80, little-endian, of the kind of its message and with the
      length of its body; a sample too long for a frame leaves an empty one. */
  predicate IsOurs(p: Packet) {
    if p.frame == [] then p.made.Data? && |p.made.payload| > 65531
    else
      && |p.frame| >= 8
      && var head := HeadOf(p.frame);
         && head.session == 0x80 && head.stream == 0x80 && head.flags == 0x01 && head.length as int == |p.frame| - 8
         && head.submessage == match p.made
                               case Data(_, _) => 0x07
                               case Ack(_, _, _) => 0x0A
                               case Heartbeat(_, _) => 0x0B
  }

  ghost predicate AllOurs(c: System) {
    forall p :: p in c.net ==> IsOurs(p)
  }

  lemma StepSendsOurs(c: System, step: Step)
    requires Enabled(c, step) && AllOurs(c)
    ensures AllOurs(Next(c, step))
  {
    hide Wrap, WriteFrame, HeartbeatFrame, AckNackFrame, HeadOf, ReceiverState.Pending, ReceiverState.MissingSlots;
    hide ReceiverState.Drained, ReceiverState.InOrder, ReceiverState.Buffered, SenderState.Pruned, ReadFrame;
    forall p | p in Next(c, step).net && p !in c.net ensures IsOurs(p) {
      match step {
        case Submit(objectId) => DataIsOurs(c.snd.nextSeq, objectId, c.pending[0]);
        case Retransmit(n, objectId) => DataIsOurs(Wrap(n), objectId, c.snd.inFlight[Wrap(n)]);
        case SendHeartbeat(first, last, msgSeq) =>
          ControlIsOurs(msgSeq, HeartbeatBody(Wrap(first), Wrap(last), RELIABLE_STREAM_ID), c.rcv.Pending(None), Final);
        case SendAck(msgSeq, mode) =>
          ControlIsOurs(msgSeq, HeartbeatBody(0, 0, 0), c.rcv.Pending(None), mode);
        case SendHintedAck(q, msgSeq, mode) =>
          ControlIsOurs(msgSeq, HeartbeatBody(0, 0, 0), c.rcv.Pending(Some(ParseHeartbeat(q.frame).value.last)), mode);
        case _ =>
      }
    }
  }

  lemma DataIsOurs(seqNo: U16, objectId: U16, payload: Octets)
    ensures forall n: nat :: IsOurs(Packet(WriteFrame(SESSION, RELIABLE_STREAM_ID, seqNo, objectId, payload),
                                           U.Data(n, payload)))
  {
    hide HeadOf, WriteFrame;
    HeadsSayWhatFollows(SESSION, RELIABLE_STREAM_ID, seqNo, objectId, payload, HeartbeatBody(0, 0, 0),
                        AckNackBody(0, 0, 0, 0), Final);
    assert !Sendable(payload) ==> WriteFrame(SESSION, RELIABLE_STREAM_ID, seqNo, objectId, payload) == [] by {
      NoFrame(seqNo, objectId, payload);
    }
  }

  lemma NoFrame(seqNo: U16, objectId: U16, payload: Octets)
    ensures !Sendable(payload) ==> WriteFrame(SESSION, RELIABLE_STREAM_ID, seqNo, objectId, payload) == []
  {
  }

  lemma ControlIsOurs(msgSeq: U16, hb: HeartbeatBody, ack: AckNackBody, mode: UnannotatedTypes)
    ensures forall first: nat, last: nat ::
              IsOurs(Packet(HeartbeatFrame(SESSION, RELIABLE_STREAM_ID, msgSeq, hb), U.Heartbeat(first, last)))
    ensures forall base: nat, missing: seq<bool>, hint: Option<nat> ::
              IsOurs(Packet(AckNackFrame(SESSION, RELIABLE_STREAM_ID, msgSeq, ack, mode), U.Ack(base, missing, hint)))
  {
    hide HeadOf, HeartbeatFrame, AckNackFrame;
    HeadsSayWhatFollows(SESSION, RELIABLE_STREAM_ID, msgSeq, 0, [], hb, ack, mode);
  }

  /** Every frame on the network of every run is one of the stream's. */
  lemma {:induction false} RunSendsOurs(c: System, steps: seq<Step>)
    requires Legal(c, steps) && AllOurs(c)
    ensures AllOurs(Exec(c, steps))
    decreases |steps|
  {
    hide AllOurs, Next, Enabled;
    if steps != [] {
      StepSendsOurs(c, steps[0]);
      RunSendsOurs(Next(c, steps[0]), steps[1..]);
    }
  }

  lemma NetworkIsOurs(steps: seq<Step>)
    requires Legal(INITIAL, steps)
    ensures AllOurs(Exec(INITIAL, steps))
  {
    RunSendsOurs(INITIAL, steps);
  }
}
