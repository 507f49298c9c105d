/**
 The other direction of the refinement: every run of the unbounded stream in which
 each frame is fresh when it is processed is a run of the 16-bit stream, with octet
 frames. So what the unbounded stream can do, the stream does.
 */
module StreamRealization {
  import opened Common
  import opened SerialNumbers
  import opened XrceFrames
  import opened ReliableEndpoints
  import opened ReliableStream
  import U = UnboundedStream

  /** Every message sent is on the network as a frame. */
  ghost predicate Covers(net: set<Packet>, unet: set<U.Message>) {
    forall m :: m in unet ==> exists p :: p in net && p.made == m && p.frame != []
  }

  lemma CoversAdd(net: set<Packet>, unet: set<U.Message>, p: Packet)
    requires Covers(net, unet) && p.frame != []
    ensures Covers(net + {p}, unet + {p.made})
  {
    forall m | m in unet + {p.made} ensures exists q :: q in net + {p} && q.made == m && q.frame != [] {
      if m in unet {
        var q :| q in net && q.made == m && q.frame != [];
        assert q in net + {p};
      } else {
        assert p in net + {p};
      }
    }
  }

  lemma CoversMore(net: set<Packet>, unet: set<U.Message>, p: Packet)
    requires Covers(net, unet)
    ensures Covers(net + {p}, unet)
  {
    forall m | m in unet ensures exists q :: q in net + {p} && q.made == m && q.frame != [] {
      var q :| q in net && q.made == m && q.frame != [];
      assert q in net + {p};
    }
  }

  lemma DataCovers(net: set<Packet>, unet: set<U.Message>, n: nat, objectId: U16, payload: Octets)
    requires Covers(net, unet)
    ensures Covers(net + {DataPacket(n, objectId, payload)}, U.Sent(unet, n, payload))
  {
    hide Wrap, Covers;
    var p := DataPacket(n, objectId, payload);
    if Sendable(payload) {
      CoversAdd(net, unet, p);
    } else {
      CoversMore(net, unet, p);
    }
  }

  lemma StepCovers(c: System, s: U.Stream, step: Step)
    requires U.Inv(s) && Sim(c, s) && Covers(c.net, s.net) && Enabled(c, step)
    ensures U.Enabled(s, Abs(step)) && Covers(Next(c, step).net, U.Next(s, Abs(step)).net)
  {
    hide Wrap, Covers, U.Sent, U.Pruned, U.Inv, Sim, AckPacket, AckNackFrame, HeartbeatFrame, WriteFrame;
    StepSim(c, s, step);
    match step {
      case Submit(_) => DataStepCovers(c, s, step);
      case Retransmit(_, _) => DataStepCovers(c, s, step);
      case SendHeartbeat(first, last, msgSeq) =>
        HeartbeatIsFrame(first, last, msgSeq);
        CoversAdd(c.net, s.net, HeartbeatPacket(first, last, msgSeq));
      case SendAck(msgSeq, mode) => AckCovers(c, s, None, msgSeq, mode);
      case SendHintedAck(_, _, _) => HintedAckCovers(c, s, step);
      case _ =>
    }
  }

  lemma DataStepCovers(c: System, s: U.Stream, step: Step)
    requires U.Inv(s) && Sim(c, s) && Covers(c.net, s.net) && Enabled(c, step) && (step.Submit? || step.Retransmit?)
    requires U.Enabled(s, Abs(step))
    ensures Covers(Next(c, step).net, U.Next(s, Abs(step)).net)
  {
    hide Wrap, Covers, U.Sent, U.Inv, WriteFrame;
    if step.Submit? {
      DataCovers(c.net, s.net, s.next, step.objectId, s.pending[0]);
    } else {
      LatestIsInFlight(c, s, step.n);
      DataCovers(c.net, s.net, step.n, step.objectId, s.inFlight[step.n]);
    }
  }

  lemma HintedAckCovers(c: System, s: U.Stream, step: Step)
    requires U.Inv(s) && Sim(c, s) && Covers(c.net, s.net) && Enabled(c, step) && step.SendHintedAck?
    requires U.Enabled(s, Abs(step))
    ensures Covers(Next(c, step).net, U.Next(s, Abs(step)).net)
  {
    hide Wrap, Covers, U.Inv, Sim, AckNackFrame, ParseHeartbeat;
    HintIsLast(c, s, step.p);
    AckCovers(c, s, Some(step.p.made.last), step.msgSeq, step.mode);
  }

  lemma HeartbeatIsFrame(first: nat, last: nat, msgSeq: U16)
    ensures HeartbeatPacket(first, last, msgSeq).frame != []
  {
  }

  lemma AckCovers(c: System, s: U.Stream, hint: Option<nat>, msgSeq: U16, mode: UnannotatedTypes)
    requires U.Inv(s) && Sim(c, s) && Covers(c.net, s.net)
    requires hint.Some? ==> hint.value < s.next && s.next + 15 < hint.value + 0x8000
    ensures Covers(c.net + {AckPacket(c, hint, msgSeq, mode)},
                   s.net + {U.Ack(s.rx.expected, s.rx.MissingSlots(hint), hint)})
  {
    hide Wrap, Covers, U.Inv, Sim, AckNackFrame, AckPacket;
    AckPacketSim(c, s, hint, msgSeq, mode);
    var p := AckPacket(c, hint, msgSeq, mode);
    assert p.frame != [] by { AckIsFrame(p); }
    CoversAdd(c.net, s.net, p);
  }

  lemma AckIsFrame(p: Packet)
    requires p.made.Ack? && Encodes(p.frame, p.made)
    ensures p.frame != []
  {
    EmptyIsNoAckNack();
  }

  lemma HintIsLast(c: System, s: U.Stream, p: Packet)
    requires U.Inv(s) && Sim(c, s) && p in c.net && Fresh(c, p.made, 15) && ParseHeartbeat(p.frame).Some?
    ensures p.made.Heartbeat? && ParseHeartbeat(p.frame).value.last == Wrap(p.made.last)
    ensures p.made.last < s.next && s.next + 15 < p.made.last + 0x8000
  {
    hide Wrap, ReadFrame, ParseAckNack;
    assert p.made in s.net && Encodes(p.frame, p.made) && U.MessageInv(s, p.made);
  }

  // ---- one step ----

  /** A message is processed while fewer than 2^15 numbers were submitted since its own. */
  predicate FreshStep(s: U.Stream, step: U.Step) {
    match step
    case ReceiveData(m) => s.next < Number(m) + 0x8000
    case ReceiveAck(m) => s.next < Number(m) + 0x8000
    case SendHintedAck(m) => s.next + 15 < Number(m) + 0x8000
    case _ => true
  }

  lemma PacketOf(c: System, s: U.Stream, m: U.Message) returns (p: Packet)
    requires Sim(c, s) && Covers(c.net, s.net) && m in s.net
    ensures p in c.net && p.made == m && p.frame != [] && Encodes(p.frame, m)
  {
    p :| p in c.net && p.made == m && p.frame != [];
  }

  /** The true oldest and newest number in flight are a serial window. */
  lemma TrueWindowIsSerial(c: System, s: U.Stream, first: nat, last: nat)
    requires U.Inv(s) && Sim(c, s) && U.Enabled(s, U.SendHeartbeat(first, last))
    ensures IsSerialWindow(c.snd.inFlight.Keys, Wrap(first), Wrap(last))
  {
    hide Wrap, SeqLt, Offset;
    Windows(s);
    var keys := c.snd.inFlight.Keys;
    forall anchor: U16, k: U16 | InHalfTurn(keys, anchor) && k in keys
      ensures Offset(anchor, Wrap(first)) <= Offset(anchor, k) <= Offset(anchor, Wrap(last))
    {
      var n :| n in s.inFlight && Wrap(n) == k;
      SerialOrderIsTrueOrder(n, first);
      SerialOrderIsTrueOrder(last, n);
      SerialOrderIsOffsetOrder(anchor, k, Wrap(first));
      SerialOrderIsOffsetOrder(anchor, Wrap(last), k);
    }
  }

  lemma SubmitIsTaken(c: System, s: U.Stream)
    requires U.Inv(s) && Sim(c, s) && U.Enabled(s, U.Submit)
    ensures Enabled(c, Submit(0))
  {
    hide Wrap;
    Windows(s);
    RepresentsSameSize(c.snd.inFlight, s.inFlight, s.acked);
  }

  lemma InFlightIsLatest(c: System, s: U.Stream, n: nat)
    requires U.Inv(s) && Sim(c, s) && n in s.inFlight
    ensures Latest(c, n) && Wrap(n) in c.snd.inFlight
  {
    hide Wrap;
    Windows(s);
  }

  /** Every fresh step of the unbounded stream is a step of the 16-bit one. */
  lemma Realize(c: System, s: U.Stream, ustep: U.Step) returns (step: Step)
    requires U.Inv(s) && Sim(c, s) && Covers(c.net, s.net) && U.Enabled(s, ustep) && FreshStep(s, ustep)
    ensures Enabled(c, step) && Abs(step) == ustep
  {
    hide Wrap, ReadFrame, ParseAckNack, ParseHeartbeat, U.Inv, Covers, IsSerialWindow;
    match ustep {
      case Enqueue(p) => step := Enqueue(p);
      case Submit =>
        SubmitIsTaken(c, s);
        step := Submit(0);
      case Retransmit(n) =>
        InFlightIsLatest(c, s, n);
        step := Retransmit(n, 0);
      case SendHeartbeat(first, last) =>
        InFlightIsLatest(c, s, first);
        InFlightIsLatest(c, s, last);
        TrueWindowIsSerial(c, s, first, last);
        step := SendHeartbeat(first, last, 0);
      case Drain => step := Drain;
      case SendAck => step := SendAck(0, Appendable);
      case ReceiveData(m) =>
        var p := PacketOf(c, s, m);
        step := ReceiveData(p);
      case SendHintedAck(m) =>
        var p := PacketOf(c, s, m);
        step := SendHintedAck(p, 0, Appendable);
      case ReceiveAck(m) =>
        var p := PacketOf(c, s, m);
        step := ReceiveAck(p);
    }
  }

  // ---- whole runs ----

  ghost predicate FreshRun(s: U.Stream, steps: seq<U.Step>)
    requires U.Legal(s, steps)
    decreases |steps|
  {
    steps == [] || (FreshStep(s, steps[0]) && FreshRun(U.Next(s, steps[0]), steps[1..]))
  }

  /** Every fresh run of the unbounded stream is a run of the 16-bit one, and leads to the same state. */
  lemma {:induction false} RunRealized(c: System, s: U.Stream, usteps: seq<U.Step>) returns (steps: seq<Step>)
    requires U.Inv(s) && Sim(c, s) && Covers(c.net, s.net) && U.Legal(s, usteps) && FreshRun(s, usteps)
    ensures Legal(c, steps) && AbsAll(steps) == usteps
    ensures Sim(Exec(c, steps), U.Exec(s, usteps))
    decreases |usteps|
  {
    hide Sim, U.Inv, Covers, Next, U.Next, Enabled, U.Enabled, FreshStep;
    if usteps == [] {
      steps := [];
    } else {
      var step := Realize(c, s, usteps[0]);
      StepSim(c, s, step);
      StepCovers(c, s, step);
      var rest := RunRealized(Next(c, step), U.Next(s, usteps[0]), usteps[1..]);
      steps := [step] + rest;
      assert steps[1..] == rest;
      assert AbsAll(steps) == [usteps[0]] + usteps[1..];
    }
  }

  lemma {:induction false} RunCovers(c: System, s: U.Stream, steps: seq<Step>)
    requires U.Inv(s) && Sim(c, s) && Covers(c.net, s.net) && Legal(c, steps)
    ensures U.Legal(s, AbsAll(steps)) && Covers(Exec(c, steps).net, U.Exec(s, AbsAll(steps)).net)
    decreases |steps|
  {
    hide Sim, U.Inv, Covers, Next, U.Next, Enabled, U.Enabled;
    RunRefines(c, s, steps);
    if steps != [] {
      StepSim(c, s, steps[0]);
      StepCovers(c, s, steps[0]);
      assert AbsAll(steps)[1..] == AbsAll(steps[1..]);
      RunCovers(Next(c, steps[0]), U.Next(s, Abs(steps[0])), steps[1..]);
    }
  }

  lemma {:induction false} EnqueuedGrows(s: U.Stream, steps: seq<U.Step>)
    requires U.Legal(s, steps)
    ensures |s.enqueued| <= |U.Exec(s, steps).enqueued|
    decreases |steps|
  {
    if steps != [] { EnqueuedGrows(U.Next(s, steps[0]), steps[1..]); }
  }

  /** A run that enqueues few samples in all is fresh, however late its frames are processed. */
  lemma {:induction false} ShortRunIsFresh(s: U.Stream, steps: seq<U.Step>)
    requires U.Inv(s) && U.Legal(s, steps) && |U.Exec(s, steps).enqueued| + 15 < 0x8000
    ensures FreshRun(s, steps)
    decreases |steps|
  {
    hide U.Next, U.Enabled;
    if steps != [] {
      EnqueuedGrows(s, steps);
      U.StepKeepsInv(s, steps[0]);
      ShortRunIsFresh(U.Next(s, steps[0]), steps[1..]);
    }
  }

  /** What happens when the writer meets a hint: a run of the 16-bit stream after which nothing is pending and
      nothing in flight, and the second sample is never delivered. */
  lemma HintLosesFrame() returns (run: seq<Step>)
    ensures Legal(INITIAL, run)
    ensures var c := Exec(INITIAL, run);
            && c.enqueued == [[1], [2]] && c.pending == [] && c.snd.inFlight == map[]
            && Next(c, Drain).delivered == [[1]]
  {
    hide Wrap;
    var urun := U.HintLosesSample();
    InitialSim();
    ShortRunIsFresh(U.INITIAL, urun);
    run := RunRealized(INITIAL, U.INITIAL, urun);
    var c, s := Exec(INITIAL, run), U.Exec(U.INITIAL, urun);
    U.RunKeepsInv(U.INITIAL, urun);
    assert c.snd.inFlight == map[] by {
      if k :| k in c.snd.inFlight { assert false; }
    }
    StepSim(c, s, Drain);
  }
}
