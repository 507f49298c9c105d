/**
 The reliable stream with sequence numbers that never wrap: two parties and a
 network that may lose, duplicate and reorder. Every message ever sent stays in
 `net`, and receiving one does not remove it, so any message may be processed
 any number of times, in any order, or never.
 */
module UnboundedStream {
  import opened Common
  import opened XrceFrames
  import opened ReliableEndpoints

  datatype Message =
    | Data(n: nat, payload: Octets)
    | Ack(base: nat, missing: seq<bool>, hint: Option<nat>)
    | Heartbeat(first: nat, last: nat)

  /** The receiver, with everything it has handed over so far. */
  datatype Receiver = Receiver(expected: nat, received: map<nat, Octets>, delivered: seq<Octets>) {

    function Buffered(n: nat, payload: Octets): Receiver {
      if n < expected || n in received || |received| >= RECEIVER_BUFFER_CAP then this
      else this.(received := received[n := payload])
    }

    function Drained(): Receiver
      decreases |received|
    {
      if expected in received
      then Receiver(expected + 1, received - {expected}, delivered + [received[expected]]).Drained()
      else this
    }

    function MissingSlots(hint: Option<nat>): seq<bool> {
      seq(16, i requires 0 <= i < 16 => !(hint.Some? && expected + i > hint.value) && expected + i !in received)
    }

    predicate Has(n: nat) {
      n < expected || n in received
    }
  }

  /** `acked` is the largest ACKNACK base the sender has processed. */
  datatype Stream = Stream(
    enqueued: seq<Octets>,
    pending: seq<Octets>,
    next: nat,
    inFlight: map<nat, Octets>,
    acked: nat,
    rx: Receiver,
    net: set<Message>)

  const INITIAL := Stream([], [], 0, map[], 0, Receiver(0, map[], []), {})

  datatype Step =
    | Enqueue(payload: Octets)
    | Submit
    | Retransmit(n: nat)
    | SendHeartbeat(first: nat, last: nat)
    | ReceiveData(m: Message)
    | Drain
    | SendAck
    | SendHintedAck(hb: Message)
    | ReceiveAck(m: Message)

  ghost predicate Enabled(s: Stream, step: Step) {
    match step
    case Enqueue(_) => true
    case Submit => s.pending != [] && |s.pending[0]| <= RELIABLE_MAX_PAYLOAD && |s.inFlight| < SENDER_WINDOW
    case Retransmit(n) => n in s.inFlight
    case SendHeartbeat(first, last) =>
      && first in s.inFlight && last in s.inFlight
      && forall n :: n in s.inFlight ==> first <= n <= last
    case ReceiveData(m) => m in s.net && m.Data?
    case Drain => true
    case SendAck => true
    case SendHintedAck(hb) => hb in s.net && hb.Heartbeat?
    case ReceiveAck(m) => m in s.net && m.Ack?
  }

  /** A sample too long for its frame puts nothing on the network. */
  function Sent(net: set<Message>, n: nat, payload: Octets): set<Message> {
    if Sendable(payload) then net + {Data(n, payload)} else net
  }

  function Pruned(inFlight: map<nat, Octets>, base: nat, missing: seq<bool>): map<nat, Octets>
    requires |missing| == 16
  {
    map n | n in inFlight && base <= n && (n < base + 16 ==> missing[n - base]) :: inFlight[n]
  }

  ghost function Next(s: Stream, step: Step): Stream
    requires Enabled(s, step)
  {
    match step
    case Enqueue(p) => s.(enqueued := s.enqueued + [p], pending := s.pending + [p])
    case Submit =>
      var p := s.pending[0];
      s.(pending := s.pending[1..], next := s.next + 1, inFlight := s.inFlight[s.next := p],
         net := Sent(s.net, s.next, p))
    case Retransmit(n) => s.(net := Sent(s.net, n, s.inFlight[n]))
    case SendHeartbeat(first, last) => s.(net := s.net + {Heartbeat(first, last)})
    case ReceiveData(m) => s.(rx := s.rx.Buffered(m.n, m.payload))
    case Drain => s.(rx := s.rx.Drained())
    case SendAck => s.(net := s.net + {Ack(s.rx.expected, s.rx.MissingSlots(None), None)})
    case SendHintedAck(hb) =>
      s.(net := s.net + {Ack(s.rx.expected, s.rx.MissingSlots(Some(hb.last)), Some(hb.last))})
    case ReceiveAck(m) =>
      if |m.missing| != 16 then s
      else s.(inFlight := Pruned(s.inFlight, m.base, m.missing),
              acked := if m.base > s.acked then m.base else s.acked)
  }

  ghost predicate Legal(s: Stream, steps: seq<Step>)
    decreases |steps|
  {
    steps == [] || (Enabled(s, steps[0]) && Legal(Next(s, steps[0]), steps[1..]))
  }

  ghost function Exec(s: Stream, steps: seq<Step>): Stream
    requires Legal(s, steps)
    decreases |steps|
  {
    if steps == [] then s else Exec(Next(s, steps[0]), steps[1..])
  }

  // ---- what every step keeps ----

  ghost predicate SenderInv(s: Stream) {
    && s.next <= |s.enqueued| && s.pending == s.enqueued[s.next..]
    && s.acked <= s.rx.expected
    && |s.inFlight| <= SENDER_WINDOW
    && (forall n :: n in s.inFlight ==> s.acked <= n < s.next && s.inFlight[n] == s.enqueued[n])
    && (forall n :: s.acked + 16 <= n < s.next ==> n in s.inFlight)
  }

  ghost predicate DeliveredPrefix(rx: Receiver, enqueued: seq<Octets>, next: nat) {
    && rx.expected <= next <= |enqueued|
    && rx.delivered == enqueued[..rx.expected]
    && (forall n :: n in rx.received ==> rx.expected <= n < next && rx.received[n] == enqueued[n])
  }

  ghost predicate ReceiverInv(s: Stream) {
    DeliveredPrefix(s.rx, s.enqueued, s.next)
  }

  /** What a message says stays true after it was sent. */
  ghost predicate MessageInv(s: Stream, m: Message) {
    match m
    case Data(n, p) => n < s.next <= |s.enqueued| && p == s.enqueued[n] && Sendable(p)
    case Ack(base, missing, hint) =>
      && base <= s.rx.expected && |missing| == 16
      && (forall i :: 0 <= i < 16 && !missing[i] ==> s.rx.Has(base + i) || (hint.Some? && base + i > hint.value))
      && (hint.Some? ==> forall i :: 0 <= i < 16 && base + i > hint.value ==> !missing[i])
    case Heartbeat(first, last) => first <= last < s.next
  }

  ghost predicate Inv(s: Stream) {
    SenderInv(s) && ReceiverInv(s) && forall m :: m in s.net ==> MessageInv(s, m)
  }

  function Range(lo: int, hi: int): (r: set<int>)
    requires lo <= hi
    ensures forall n :: n in r <==> lo <= n < hi
    ensures |r| == hi - lo
    decreases hi - lo
  {
    if lo == hi then {} else {lo} + Range(lo + 1, hi)
  }

  lemma SubsetSize<T>(a: set<T>, b: set<T>)
    requires a <= b
    ensures |a| <= |b|
  {
    assert b == a + (b - a);
  }

  /** The window guard counts entries only, and yet it bounds the span: the next number is at most
      32 past the largest acknowledged base. */
  lemma SpanBound(s: Stream)
    requires SenderInv(s)
    ensures s.next <= s.acked + SENDER_WINDOW + |s.inFlight| <= s.acked + 32
  {
    if s.next > s.acked + 16 {
      var keys: set<int> := set n | n in s.inFlight;
      assert keys == s.inFlight.Keys;
      SubsetSize(Range(s.acked + 16, s.next), keys);
    }
  }

  /** So the 64-slot buffer never has to refuse a sample of a conforming sender. */
  lemma BufferBound(s: Stream)
    requires SenderInv(s) && ReceiverInv(s)
    ensures |s.rx.received| <= 32 < RECEIVER_BUFFER_CAP
  {
    SpanBound(s);
    var keys: set<int> := set n | n in s.rx.received;
    assert keys == s.rx.received.Keys;
    SubsetSize(keys, Range(s.rx.expected, s.next));
  }

  /** Draining takes exactly the run of buffered samples at `expected` and stops at the first gap. */
  lemma {:induction false} DrainMeans(rx: Receiver)
    ensures var d := rx.Drained();
            && rx.expected <= d.expected && d.expected !in d.received
            && (forall n :: rx.expected <= n < d.expected ==> n in rx.received)
            && d.received == map n | n in rx.received && !(rx.expected <= n < d.expected) :: rx.received[n]
    decreases |rx.received|
  {
    if rx.expected in rx.received {
      var step := Receiver(rx.expected + 1, rx.received - {rx.expected}, rx.delivered + [rx.received[rx.expected]]);
      DrainMeans(step);
      forall n | rx.expected <= n < rx.Drained().expected ensures n in rx.received {
        assert n == rx.expected || n in step.received;
      }
    }
  }

  lemma {:induction false} DrainKeepsPrefix(rx: Receiver, enqueued: seq<Octets>, next: nat)
    requires DeliveredPrefix(rx, enqueued, next)
    ensures DeliveredPrefix(rx.Drained(), enqueued, next)
    decreases |rx.received|
  {
    if rx.expected in rx.received {
      var step := Receiver(rx.expected + 1, rx.received - {rx.expected}, rx.delivered + [rx.received[rx.expected]]);
      assert enqueued[..rx.expected] + [enqueued[rx.expected]] == enqueued[..rx.expected + 1];
      DrainKeepsPrefix(step, enqueued, next);
    }
  }

  lemma DrainKeepsReceiverInv(s: Stream)
    requires ReceiverInv(s)
    ensures ReceiverInv(Next(s, Drain))
    ensures forall n: nat :: s.rx.Has(n) ==> s.rx.Drained().Has(n)
  {
    DrainKeepsPrefix(s.rx, s.enqueued, s.next);
    DrainMeans(s.rx);
  }

  /** A message keeps its meaning while the histories grow and the receiver loses nothing. */
  lemma MessageInvStable(s: Stream, s': Stream, m: Message)
    requires MessageInv(s, m)
    requires s.next <= s'.next <= |s'.enqueued| && s.enqueued <= s'.enqueued
    requires s.rx.expected <= s'.rx.expected
    requires forall n: nat :: s.rx.Has(n) ==> s'.rx.Has(n)
    ensures MessageInv(s', m)
  {
  }

  lemma SubmitKeepsSenderInv(s: Stream)
    requires SenderInv(s) && ReceiverInv(s) && Enabled(s, Submit)
    ensures SenderInv(Next(s, Submit)) && ReceiverInv(Next(s, Submit))
  {
    hide Sent, Pruned;
    var s' := Next(s, Submit);
    assert s.pending[0] == s.enqueued[s.next];
    MapGrows(s.inFlight, s.next, s.pending[0]);
    assert s.enqueued[s.next..][1..] == s.enqueued[s.next + 1..];
    assert s'.inFlight == s.inFlight[s.next := s.enqueued[s.next]];
  }

  lemma MapGrows<K, V>(m: map<K, V>, k: K, v: V)
    ensures k !in m ==> |m[k := v]| == |m| + 1
  {
    assert m[k := v].Keys == m.Keys + {k};
  }

  lemma SubmitKeepsInv(s: Stream)
    requires Inv(s) && Enabled(s, Submit)
    ensures Inv(Next(s, Submit))
  {
    SubmitKeepsSenderInv(s);
    var s' := Next(s, Submit);
    assert s.pending[0] == s.enqueued[s.next];
    forall m | m in s'.net ensures MessageInv(s', m) {
      if m in s.net {
        MessageInvStable(s, s', m);
      }
    }
  }

  lemma AckKeepsInv(s: Stream, m: Message)
    requires Inv(s) && Enabled(s, ReceiveAck(m))
    ensures Inv(Next(s, ReceiveAck(m)))
  {
    assert MessageInv(s, m);
    var s' := Next(s, ReceiveAck(m));
    assert s'.inFlight.Keys <= s.inFlight.Keys;
    SubsetSize(s'.inFlight.Keys, s.inFlight.Keys);
    forall x | x in s'.net ensures MessageInv(s', x) {
      MessageInvStable(s, s', x);
    }
  }

  lemma ReceiveKeepsInv(s: Stream, step: Step)
    requires Inv(s) && Enabled(s, step) && (step.ReceiveData? || step.Drain?)
    ensures Inv(Next(s, step))
  {
    var s' := Next(s, step);
    if step.Drain? {
      DrainKeepsReceiverInv(s);
      DrainMeans(s.rx);
    } else {
      assert MessageInv(s, step.m);
    }
    forall m | m in s'.net ensures MessageInv(s', m) {
      MessageInvStable(s, s', m);
    }
  }

  /** Putting one message on the network that tells the truth. */
  lemma SendKeepsInv(s: Stream, m: Message)
    requires Inv(s) && MessageInv(s, m)
    ensures Inv(s.(net := s.net + {m}))
  {
    var s' := s.(net := s.net + {m});
    forall x | x in s'.net ensures MessageInv(s', x) {
      MessageInvStable(s, s', x);
    }
  }

  lemma EnqueueKeepsInv(s: Stream, p: Octets)
    requires Inv(s)
    ensures Inv(Next(s, Enqueue(p)))
  {
    var s' := Next(s, Enqueue(p));
    forall x | x in s'.net ensures MessageInv(s', x) {
      MessageInvStable(s, s', x);
    }
  }

  lemma StepKeepsInv(s: Stream, step: Step)
    requires Inv(s) && Enabled(s, step)
    ensures Inv(Next(s, step))
  {
    hide Inv, Next;
    match step {
      case Submit => SubmitKeepsInv(s);
      case ReceiveAck(m) => AckKeepsInv(s, m);
      case Drain => ReceiveKeepsInv(s, step);
      case ReceiveData(_) => ReceiveKeepsInv(s, step);
      case Enqueue(p) => EnqueueKeepsInv(s, p);
      case _ => SendingKeepsInv(s, step);
    }
  }

  lemma SendingKeepsInv(s: Stream, step: Step)
    requires Inv(s) && Enabled(s, step)
    requires step.Retransmit? || step.SendHeartbeat? || step.SendAck? || step.SendHintedAck?
    ensures Inv(Next(s, step))
  {
    match step {
      case Retransmit(n) =>
        if Sendable(s.inFlight[n]) {
          SendKeepsInv(s, Data(n, s.inFlight[n]));
        }
      case SendHeartbeat(first, last) => SendKeepsInv(s, Heartbeat(first, last));
      case SendAck =>
        AckHolds(s, None);
        SendKeepsInv(s, Ack(s.rx.expected, s.rx.MissingSlots(None), None));
      case SendHintedAck(hb) =>
        AckHolds(s, Some(hb.last));
        SendKeepsInv(s, Ack(s.rx.expected, s.rx.MissingSlots(Some(hb.last)), Some(hb.last)));
    }
  }

  lemma AckHolds(s: Stream, hint: Option<nat>)
    ensures MessageInv(s, Ack(s.rx.expected, s.rx.MissingSlots(hint), hint))
  {
  }

  lemma {:induction false} RunKeepsInv(s: Stream, steps: seq<Step>)
    requires Inv(s) && Legal(s, steps)
    ensures Inv(Exec(s, steps))
    decreases |steps|
  {
    if steps != [] {
      StepKeepsInv(s, steps[0]);
      RunKeepsInv(Next(s, steps[0]), steps[1..]);
    }
  }

  // ---- nothing is lost ----

  /** Every submitted sample was delivered, is buffered at the receiver, or is still in flight. */
  ghost predicate Conserved(s: Stream) {
    forall n: nat :: n < s.next ==> s.rx.Has(n) || n in s.inFlight
  }

  /** The numbers a hinted ACKNACK would strike from the window although the receiver lacks them. */
  ghost predicate LostByHint(s: Stream, m: Message, n: nat)
    requires m.Ack?
  {
    m.hint.Some? && m.hint.value < n && m.base <= n < m.base + 16 && n < s.next && !s.rx.Has(n)
  }

  /** An ACKNACK that strikes no sample by its hint; without a hint it never does. */
  ghost predicate HintMet(s: Stream, step: Step) {
    step.ReceiveAck? && step.m.Ack? ==> forall n: nat :: !LostByHint(s, step.m, n)
  }

  /** Every step keeps conservation, however stale the ACKNACK, unless a hint strikes a sample. */
  lemma StepConserves(s: Stream, step: Step)
    requires Inv(s) && Enabled(s, step) && Conserved(s) && HintMet(s, step)
    ensures Conserved(Next(s, step))
  {
    hide Pruned, Sent, MessageInv, LostByHint, HintMet;
    if step.ReceiveAck? {
      AckConserves(s, step.m);
    } else if step.Drain? {
      DrainKeepsReceiverInv(s);
    }
  }

  lemma AckConserves(s: Stream, m: Message)
    requires Inv(s) && Enabled(s, ReceiveAck(m)) && Conserved(s) && HintMet(s, ReceiveAck(m))
    ensures Conserved(Next(s, ReceiveAck(m)))
  {
    if m.hint.None? {
      UnhintedAckConserves(s, m);
    } else {
      HintedAckConserves(s, m);
    }
  }

  lemma UnhintedAckConserves(s: Stream, m: Message)
    requires Inv(s) && Enabled(s, ReceiveAck(m)) && Conserved(s) && m.hint.None?
    ensures Conserved(Next(s, ReceiveAck(m)))
  {
    assert MessageInv(s, m);
    var s' := Next(s, ReceiveAck(m));
    forall n: nat | n < s.next ensures s'.rx.Has(n) || n in s'.inFlight {
      if m.base <= n < m.base + 16 {
        var i := n - m.base;
        assert !m.missing[i] ==> s.rx.Has(m.base + i);
      }
    }
  }

  /** A hinted ACKNACK keeps it exactly when no number past the hint, in the bitmap's reach and already
      submitted, is one the receiver lacks. */
  lemma HintedAckConserves(s: Stream, m: Message)
    requires Inv(s) && Enabled(s, ReceiveAck(m)) && Conserved(s) && m.hint.Some?
    ensures Conserved(Next(s, ReceiveAck(m))) <==> forall n: nat :: !LostByHint(s, m, n)
    ensures s.next <= m.hint.value + 1 ==> Conserved(Next(s, ReceiveAck(m)))
  {
    var s' := Next(s, ReceiveAck(m));
    forall n: nat | n < s.next ensures !s'.rx.Has(n) && n !in s'.inFlight <==> LostByHint(s, m, n) {
      assert s.rx.Has(n) || n in s.inFlight;
      HintStrikes(s, m, n);
    }
  }

  /** Of the samples the receiver lacks, a hinted ACKNACK strikes just those past its hint. */
  lemma HintStrikes(s: Stream, m: Message, n: nat)
    requires Inv(s) && Enabled(s, ReceiveAck(m)) && m.hint.Some? && n < s.next
    requires s.rx.Has(n) || n in s.inFlight
    ensures !s.rx.Has(n) && n !in Next(s, ReceiveAck(m)).inFlight <==> LostByHint(s, m, n)
  {
    assert MessageInv(s, m);
    if m.base <= n < m.base + 16 {
      var i := n - m.base;
      assert m.missing[i] ==> !(m.base + i > m.hint.value);
      assert !m.missing[i] ==> s.rx.Has(m.base + i) || m.base + i > m.hint.value;
    }
  }

  /** A run in which no hinted ACKNACK reaches the sender. */
  ghost predicate Unhinted(steps: seq<Step>) {
    forall i :: 0 <= i < |steps| && steps[i].ReceiveAck? ==> steps[i].m.Ack? && steps[i].m.hint.None?
  }

  /** No ACKNACK of the run strikes a sample by its hint when it is processed. */
  ghost predicate HintsMet(s: Stream, steps: seq<Step>)
    requires Legal(s, steps)
    decreases |steps|
  {
    steps == [] || (HintMet(s, steps[0]) && HintsMet(Next(s, steps[0]), steps[1..]))
  }

  lemma {:induction false} RunConserves(s: Stream, steps: seq<Step>)
    requires Inv(s) && Conserved(s) && Legal(s, steps) && HintsMet(s, steps)
    ensures Conserved(Exec(s, steps))
    decreases |steps|
  {
    hide Inv, Conserved, Next, Enabled, HintMet;
    if steps != [] {
      StepConserves(s, steps[0]);
      StepKeepsInv(s, steps[0]);
      RunConserves(Next(s, steps[0]), steps[1..]);
    }
  }

  lemma {:induction false} UnhintedMeetsHints(s: Stream, steps: seq<Step>)
    requires Legal(s, steps) && Unhinted(steps)
    ensures HintsMet(s, steps)
    decreases |steps|
  {
    hide Next, Enabled;
    if steps != [] {
      assert steps[0].ReceiveAck? ==> steps[0].m.hint.None?;
      assert forall i :: 0 <= i < |steps[1..]| ==> steps[1..][i] == steps[i + 1];
      UnhintedMeetsHints(Next(s, steps[0]), steps[1..]);
    }
  }

  lemma UnhintedRunConserves(s: Stream, steps: seq<Step>)
    requires Inv(s) && Conserved(s) && Legal(s, steps) && Unhinted(steps)
    ensures Conserved(Exec(s, steps))
  {
    UnhintedMeetsHints(s, steps);
    RunConserves(s, steps);
  }

  /** With conservation, an empty window means that one drain delivers all that was submitted. */
  lemma EmptyWindowDeliversAll(s: Stream)
    requires Inv(s) && Conserved(s) && s.inFlight == map[]
    ensures Next(s, Drain).rx.delivered == s.enqueued[..s.next]
  {
    DrainKeepsReceiverInv(s);
    DrainMeans(s.rx);
    var d := s.rx.Drained();
    assert d.expected < s.next ==> s.rx.Has(d.expected);
  }

  const FIRST_SLOT_MISSING: seq<bool> :=
    [true, false, false, false, false, false, false, false, false, false, false, false, false, false, false, false]
  const ALL_MISSING: seq<bool> :=
    [true, true, true, true, true, true, true, true, true, true, true, true, true, true, true, true]

  /** One more step at the end of a run. */
  lemma {:induction false} RunStep(s: Stream, steps: seq<Step>, step: Step)
    requires Legal(s, steps) && Enabled(Exec(s, steps), step)
    ensures Legal(s, steps + [step])
    ensures Exec(s, steps + [step]) == Next(Exec(s, steps), step)
    decreases |steps|
  {
    if steps == [] {
      assert steps + [step] == [step];
      assert [step][1..] == [];
    } else {
      assert (steps + [step])[1..] == steps[1..] + [step];
      RunStep(Next(s, steps[0]), steps[1..], step);
    }
  }

  /** A state with two enqueued samples, of which those in `pending` are not submitted yet. */
  function HintedState(pending: seq<Octets>, inFlight: map<nat, Octets>, rx: Receiver, net: set<Message>): Stream
    requires |pending| <= 2
  {
    Stream([[1], [2]], pending, 2 - |pending|, inFlight, 0, rx, net)
  }

  lemma HintIsSent() returns (run: seq<Step>)
    ensures Legal(INITIAL, run)
    ensures Exec(INITIAL, run) ==
            HintedState([[2]], map[0 := [1]], Receiver(0, map[], []),
                        {Data(0, [1]), Heartbeat(0, 0), Ack(0, FIRST_SLOT_MISSING, Some(0))})
  {
    var rx := Receiver(0, map[], []);
    var hb := Heartbeat(0, 0);
    run := [];
    RunStep(INITIAL, run, Enqueue([1]));
    run := run + [Enqueue([1])];
    assert Exec(INITIAL, run) == Stream([[1]], [[1]], 0, map[], 0, rx, {});
    RunStep(INITIAL, run, Enqueue([2]));
    run := run + [Enqueue([2])];
    assert Exec(INITIAL, run) == Stream([[1], [2]], [[1], [2]], 0, map[], 0, rx, {});
    RunStep(INITIAL, run, Submit);
    run := run + [Submit];
    assert Exec(INITIAL, run) == HintedState([[2]], map[0 := [1]], rx, {Data(0, [1])});
    RunStep(INITIAL, run, SendHeartbeat(0, 0));
    run := run + [SendHeartbeat(0, 0)];
    assert rx.MissingSlots(Some(0)) == FIRST_SLOT_MISSING;
    RunStep(INITIAL, run, SendHintedAck(hb));
    run := run + [SendHintedAck(hb)];
  }

  lemma HintStrikesSample() returns (run: seq<Step>, net: set<Message>)
    ensures Legal(INITIAL, run)
    ensures Exec(INITIAL, run) == HintedState([], map[0 := [1]], Receiver(0, map[0 := [1]], []), net)
  {
    var rx := Receiver(0, map[], []);
    var ack := Ack(0, FIRST_SLOT_MISSING, Some(0));
    run := HintIsSent();
    RunStep(INITIAL, run, Submit);
    run := run + [Submit];
    net := {Data(0, [1]), Heartbeat(0, 0), ack, Data(1, [2])};
    assert Exec(INITIAL, run) == HintedState([], map[0 := [1], 1 := [2]], rx, net);
    RunStep(INITIAL, run, ReceiveAck(ack));
    run := run + [ReceiveAck(ack)];
    assert Exec(INITIAL, run) == HintedState([], map[0 := [1]], rx, net);
    RunStep(INITIAL, run, ReceiveData(Data(0, [1])));
    run := run + [ReceiveData(Data(0, [1]))];
  }

  /** The run that loses a sample to a hint: the ACKNACK hinted with 0 leaves slot 1 clear, sample 1 is
      submitted meanwhile, and the clear bit strikes it. The writer then finds nothing pending and
      nothing in flight, although sample 1 was never delivered. */
  lemma HintLosesSample() returns (run: seq<Step>)
    ensures Legal(INITIAL, run)
    ensures var s := Exec(INITIAL, run);
            && s.enqueued == [[1], [2]] && s.pending == [] && s.inFlight == map[]
            && Next(s, Drain).rx.delivered == [[1]]
            && !Conserved(s)
  {
    var net;
    run, net := HintStrikesSample();
    var ack := Ack(1, ALL_MISSING, None);
    HintLosesTail(HintedState([], map[0 := [1]], Receiver(0, map[0 := [1]], []), net), ack);
    RunStep(INITIAL, run, Drain);
    run := run + [Drain];
    RunStep(INITIAL, run, SendAck);
    run := run + [SendAck];
    RunStep(INITIAL, run, ReceiveAck(ack));
    run := run + [ReceiveAck(ack)];
    assert !Exec(INITIAL, run).rx.Has(1);
  }

  lemma HintLosesTail(s: Stream, ack: Message)
    requires s.inFlight == map[0 := [1]] && s.rx == Receiver(0, map[0 := [1]], [])
    requires ack == Ack(1, ALL_MISSING, None)
    ensures var s2 := Next(Next(s, Drain), SendAck);
            && Enabled(s2, ReceiveAck(ack))
            && var s3 := Next(s2, ReceiveAck(ack));
            && s3 == s.(inFlight := map[], acked := s3.acked, rx := s3.rx, net := s3.net)
            && s3.rx == s3.rx.Drained() == Receiver(1, map[], [[1]])
  {
    var d := Receiver(1, map[], [[1]]);
    assert s.rx.received - {0} == map[];
    assert s.rx.Drained() == d;
    assert d.MissingSlots(None) == ALL_MISSING;
  }
}
