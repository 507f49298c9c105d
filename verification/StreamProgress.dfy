/** The reliable stream does not wedge, except behind a sample no frame can carry. */
module StreamProgress {
  import opened Common
  import opened XrceFrames
  import opened UnboundedStream

  /** How many submitted samples are not delivered yet. */
  function Outstanding(s: Stream): int {
    s.next - s.rx.expected
  }

  /** While samples are outstanding, the next one to deliver is at the receiver or can be sent again. */
  lemma NextSampleIsAtHand(s: Stream)
    requires Inv(s) && Conserved(s) && Outstanding(s) > 0
    ensures s.rx.expected in s.rx.received || s.rx.expected in s.inFlight
  {
    assert s.rx.Has(s.rx.expected) || s.rx.expected in s.inFlight;
  }

  /** Only submitting raises the measure; draining when the next sample is buffered lowers it. */
  lemma OutstandingFalls(s: Stream, step: Step)
    requires Inv(s) && Enabled(s, step)
    ensures !step.Submit? ==> Outstanding(Next(s, step)) <= Outstanding(s)
    ensures step.Drain? && s.rx.expected in s.rx.received ==> Outstanding(Next(s, step)) < Outstanding(s)
  {
    hide Pruned, Sent, Inv;
    if step.Drain? {
      DrainMeans(s.rx);
    }
  }

  /** The retransmission of everything in flight in the order `ns`, each frame arriving. */
  function Arrivals(inFlight: map<nat, Octets>, ns: seq<nat>): seq<Step>
    requires forall n :: n in ns ==> n in inFlight
  {
    if ns == [] then []
    else
      var n := ns[0];
      (if Sendable(inFlight[n]) then [Retransmit(n), ReceiveData(Data(n, inFlight[n]))] else [Retransmit(n)])
      + Arrivals(inFlight, ns[1..])
  }

  lemma {:induction false} RunAppend(s: Stream, first: seq<Step>, second: seq<Step>)
    requires Legal(s, first) && Legal(Exec(s, first), second)
    ensures Legal(s, first + second)
    ensures Exec(s, first + second) == Exec(Exec(s, first), second)
    decreases |first|
  {
    if first == [] {
      assert first + second == second;
    } else {
      assert (first + second)[1..] == first[1..] + second;
      RunAppend(Next(s, first[0]), first[1..], second);
    }
  }

  lemma Arrival(s: Stream, n: nat) returns (s': Stream)
    requires Inv(s) && n in s.inFlight
    ensures var steps := Arrivals(s.inFlight, [n]); Legal(s, steps) && Exec(s, steps) == s'
    ensures Inv(s')
    ensures s' == s.(rx := s'.rx, net := s'.net) && s'.rx == s.rx.(received := s'.rx.received)
    ensures forall k: nat :: s'.rx.Has(k) <==> s.rx.Has(k) || (k == n && Sendable(s.inFlight[n]))
  {
    hide MessageInv;
    BufferBound(s);
    var sent := Next(s, Retransmit(n));
    StepKeepsInv(s, Retransmit(n));
    var steps := Arrivals(s.inFlight, [n]);
    assert [n][1..] == [] && Arrivals(s.inFlight, []) == [];
    RunStep(s, [], Retransmit(n));
    if Sendable(s.inFlight[n]) {
      var arrive := ReceiveData(Data(n, s.inFlight[n]));
      StepKeepsInv(sent, arrive);
      RunStep(s, [Retransmit(n)], arrive);
      s' := Next(sent, arrive);
      assert steps == [Retransmit(n)] + [arrive];
    } else {
      s' := sent;
      assert steps == [] + [Retransmit(n)];
    }
  }

  /** After all of them arrived the receiver has just those it had and those a frame could carry. */
  lemma {:induction false} AllArrive(s: Stream, ns: seq<nat>) returns (s': Stream)
    requires Inv(s) && forall n :: n in ns ==> n in s.inFlight
    ensures var steps := Arrivals(s.inFlight, ns); Legal(s, steps) && Exec(s, steps) == s'
    ensures Inv(s')
    ensures s' == s.(rx := s'.rx, net := s'.net) && s'.rx == s.rx.(received := s'.rx.received)
    ensures forall k: nat :: s'.rx.Has(k) <==> s.rx.Has(k) || (k in ns && Sendable(s.inFlight[k]))
    decreases |ns|
  {
    hide Inv, Next, Enabled, Sendable;
    if ns == [] {
      s' := s;
    } else {
      assert forall n :: n in ns <==> n == ns[0] || n in ns[1..];
      var s1 := Arrival(s, ns[0]);
      s' := AllArrive(s1, ns[1..]);
      RunAppend(s, Arrivals(s.inFlight, [ns[0]]), Arrivals(s.inFlight, ns[1..]));
      assert Arrivals(s.inFlight, [ns[0]]) + Arrivals(s.inFlight, ns[1..]) == Arrivals(s.inFlight, ns);
    }
  }

  /** Drain, acknowledge without a hint, and the ACKNACK arrives. */
  ghost function Acknowledged(s: Stream): Stream {
    var d := Next(s, Drain);
    var a := Next(d, SendAck);
    Next(a, ReceiveAck(Ack(d.rx.expected, d.rx.MissingSlots(None), None)))
  }

  /** It leaves in flight what the receiver lacks and what lies beyond the bitmap's reach. */
  lemma AcknowledgedLeaves(s: Stream)
    requires Inv(s)
    ensures Inv(Acknowledged(s)) && Acknowledged(s).next == s.next
    ensures Acknowledged(s).rx == s.rx.Drained()
    ensures forall n :: n in Acknowledged(s).inFlight <==>
                        n in s.inFlight && (!s.rx.Has(n) || n >= s.rx.Drained().expected + 16)
  {
    var d := Next(s, Drain);
    StepKeepsInv(s, Drain);
    var ack := Ack(d.rx.expected, d.rx.MissingSlots(None), None);
    StepKeepsInv(d, SendAck);
    StepKeepsInv(Next(d, SendAck), ReceiveAck(ack));
    assert forall n: nat :: s.rx.Has(n) <==> d.rx.Has(n) by { DrainMeans(s.rx); }
    AckLeaves(Next(d, SendAck));
  }

  lemma AckLeaves(s: Stream)
    ensures forall n :: n in Pruned(s.inFlight, s.rx.expected, s.rx.MissingSlots(None)) <==>
                        n in s.inFlight && (!s.rx.Has(n) || n >= s.rx.expected + 16)
  {
  }

  /** The steps of a round in which no frame is lost. */
  ghost function LossFreeRound(s: Stream, ns: seq<nat>): seq<Step>
    requires forall n :: n in ns ==> n in s.inFlight
    requires Legal(s, Arrivals(s.inFlight, ns))
  {
    var d := Exec(s, Arrivals(s.inFlight, ns)).rx.Drained();
    Arrivals(s.inFlight, ns) + [Drain, SendAck, ReceiveAck(Ack(d.expected, d.MissingSlots(None), None))]
  }

  lemma AcknowledgedIsRun(s: Stream)
    requires Inv(s)
    ensures var d := s.rx.Drained();
            var steps := [Drain, SendAck, ReceiveAck(Ack(d.expected, d.MissingSlots(None), None))];
            Legal(s, steps) && Exec(s, steps) == Acknowledged(s)
  {
    var d := s.rx.Drained();
    var ack := ReceiveAck(Ack(d.expected, d.MissingSlots(None), None));
    RunStep(s, [], Drain);
    assert [] + [Drain] == [Drain];
    RunStep(s, [Drain], SendAck);
    assert [Drain] + [SendAck] == [Drain, SendAck];
    RunStep(s, [Drain, SendAck], ack);
    assert [Drain, SendAck] + [ack] == [Drain, SendAck, ack];
  }

  /** One loss-free round, whatever the order of the frames, empties the window and delivers everything
      submitted exactly when each sample in flight that the receiver lacks fits a frame. */
  lemma LossFreeRoundEmptiesWindow(s: Stream, ns: seq<nat>)
    requires Inv(s) && Conserved(s)
    requires forall n :: n in ns <==> n in s.inFlight
    ensures Legal(s, Arrivals(s.inFlight, ns)) && Legal(s, LossFreeRound(s, ns))
    ensures var s' := Exec(s, LossFreeRound(s, ns));
            && (s'.inFlight == map[] <==> forall n :: n in s.inFlight && !s.rx.Has(n) ==> Sendable(s.inFlight[n]))
            && (s'.inFlight == map[] ==> s'.rx.delivered == s.enqueued[..s.next])
  {
    var a := AllArrive(s, ns);
    AcknowledgedIsRun(a);
    var d := a.rx.Drained();
    RunAppend(s, Arrivals(s.inFlight, ns), [Drain, SendAck, ReceiveAck(Ack(d.expected, d.MissingSlots(None), None))]);
    AcknowledgedLeaves(a);
    var s' := Acknowledged(a);
    assert Conserved(a);
    if forall n :: n in s.inFlight && !s.rx.Has(n) ==> Sendable(s.inFlight[n]) {
      forall n: nat | n < s.next ensures a.rx.Has(n) {
        assert s.rx.Has(n) || n in s.inFlight;
      }
      DrainReaches(a);
      assert s'.inFlight == map[];
    } else {
      var n :| n in s.inFlight && !s.rx.Has(n) && !Sendable(s.inFlight[n]);
      assert n in s'.inFlight;
    }
  }

  /** A receiver that has every submitted sample drains them all. */
  lemma DrainReaches(s: Stream)
    requires Inv(s) && forall n: nat :: n < s.next ==> s.rx.Has(n)
    ensures s.rx.Drained().expected == s.next && s.rx.Drained().delivered == s.enqueued[..s.next]
  {
    DrainKeepsReceiverInv(s);
    DrainMeans(s.rx);
    var d := s.rx.Drained();
    assert d.expected < s.next ==> s.rx.Has(d.expected);
  }

  /** A submitted sample of 65532 to 65535 octets that the receiver lacks: Submit takes it, no frame carries it. */
  ghost predicate Unsendable(s: Stream, n: nat) {
    n < s.next <= |s.enqueued| && !Sendable(s.enqueued[n]) && !s.rx.Has(n) && n in s.inFlight
  }

  lemma UnsendableStays(s: Stream, step: Step, n: nat)
    requires Inv(s) && Enabled(s, step) && Unsendable(s, n) && HintMet(s, step)
    ensures Unsendable(Next(s, step), n)
  {
    match step {
      case ReceiveData(m) => assert MessageInv(s, m);
      case ReceiveAck(m) =>
        assert MessageInv(s, m) && !LostByHint(s, m, n);
      case Drain => DrainMeans(s.rx);
      case _ =>
    }
  }

  /** Every submitted sample that no frame carries is in flight and lacking. */
  ghost predicate AllUnsendableWait(s: Stream) {
    forall n: nat :: n < s.next <= |s.enqueued| && !Sendable(s.enqueued[n]) ==> Unsendable(s, n)
  }

  lemma StepKeepsWaiting(s: Stream, step: Step)
    requires Inv(s) && Enabled(s, step) && AllUnsendableWait(s) && HintMet(s, step)
    ensures AllUnsendableWait(Next(s, step))
  {
    hide Pruned, Sent, Unsendable, LostByHint;
    var s' := Next(s, step);
    StepKeepsInv(s, step);
    forall n: nat | n < s'.next <= |s'.enqueued| && !Sendable(s'.enqueued[n]) ensures Unsendable(s', n) {
      if n < s.next {
        assert s'.enqueued[n] == s.enqueued[n];
        UnsendableStays(s, step, n);
      } else {
        SubmittedWaits(s);
      }
    }
  }

  lemma SubmittedWaits(s: Stream)
    requires Inv(s) && Enabled(s, Submit)
    ensures var s' := Next(s, Submit);
            s.next < |s'.enqueued| && (!Sendable(s'.enqueued[s.next]) ==> Unsendable(s', s.next))
  {
  }

  /** Such a sample is never delivered and never leaves the window, in any run in which no hint strikes a
      sample; so the stream delivers nothing from it on. */
  lemma {:induction false} UnsendableWedges(s: Stream, steps: seq<Step>)
    requires Inv(s) && Legal(s, steps) && HintsMet(s, steps) && AllUnsendableWait(s)
    ensures AllUnsendableWait(Exec(s, steps))
    decreases |steps|
  {
    hide Inv, Enabled, Next, AllUnsendableWait, HintMet;
    if steps != [] {
      StepKeepsWaiting(s, steps[0]);
      StepKeepsInv(s, steps[0]);
      UnsendableWedges(Next(s, steps[0]), steps[1..]);
    }
  }
}
