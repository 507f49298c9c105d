/** Progress of the 16-bit stream: what the unbounded stream promises, carried over both ways. */
module ReliableProgress {
  import opened Common
  import opened SerialNumbers
  import opened XrceFrames
  import opened ReliableStream
  import opened StreamRealization
  import P = StreamProgress
  import U = UnboundedStream

  /** The unbounded state behind a run in which no hint struck a sample. */
  lemma Behind(steps: seq<Step>) returns (s: U.Stream)
    requires Legal(INITIAL, steps) && HintsMet(INITIAL, steps)
    ensures U.Inv(s) && U.Conserved(s) && P.AllUnsendableWait(s)
    ensures Sim(Exec(INITIAL, steps), s) && Covers(Exec(INITIAL, steps).net, s.net)
  {
    hide Sim, U.Inv, U.Conserved, Covers, P.AllUnsendableWait;
    InitialFacts();
    RunRefines(INITIAL, U.INITIAL, steps);
    HintsMetSim(INITIAL, U.INITIAL, steps);
    s := U.Exec(U.INITIAL, AbsAll(steps));
    U.RunConserves(U.INITIAL, AbsAll(steps));
    P.UnsendableWedges(U.INITIAL, AbsAll(steps));
    RunCovers(INITIAL, U.INITIAL, steps);
  }

  lemma InitialFacts()
    ensures U.Inv(U.INITIAL) && U.Conserved(U.INITIAL) && P.AllUnsendableWait(U.INITIAL)
    ensures Sim(INITIAL, U.INITIAL) && Covers(INITIAL.net, U.INITIAL.net)
  {
    InitialSim();
  }

  // ---- no wedge ----

  /** While samples are outstanding, the expected one is buffered or can be sent again. */
  lemma ExpectedIsAtHand(steps: seq<Step>)
    requires Legal(INITIAL, steps) && HintsMet(INITIAL, steps)
    ensures var c := Exec(INITIAL, steps);
            |c.delivered| < c.submitted ==>
              c.rcv.expected in c.rcv.received || c.rcv.expected in c.snd.inFlight
  {
    hide Wrap, Covers, P.AllUnsendableWait;
    var s := Behind(steps);
    if P.Outstanding(s) > 0 { P.NextSampleIsAtHand(s); }
  }

  /** In every reachable state only submitting raises the number of outstanding samples, and draining lowers it
      when the expected sample is buffered. */
  lemma OutstandingFallsOnDrain(steps: seq<Step>, step: Step)
    requires Legal(INITIAL, steps) && Enabled(Exec(INITIAL, steps), step)
    ensures var c := Exec(INITIAL, steps);
            var c' := Next(c, step);
            && (!step.Submit? ==> c'.submitted - |c'.delivered| <= c.submitted - |c.delivered|)
            && (step.Drain? && c.rcv.expected in c.rcv.received ==>
                  c'.submitted - |c'.delivered| < c.submitted - |c.delivered|)
  {
    hide Wrap, Next, U.Next, Enabled, U.Enabled, U.Inv, Sim;
    var s := Shadow(steps);
    var c := Exec(INITIAL, steps);
    StepSim(c, s, step);
    P.OutstandingFalls(s, Abs(step));
    OutstandingSim(c, s);
    OutstandingSim(Next(c, step), U.Next(s, Abs(step)));
    ExpectedSim(c, s);
  }

  lemma OutstandingSim(c: System, s: U.Stream)
    requires U.Inv(s) && Sim(c, s)
    ensures c.submitted - |c.delivered| == P.Outstanding(s)
  {
  }

  lemma ExpectedSim(c: System, s: U.Stream)
    requires U.Inv(s) && Sim(c, s)
    ensures c.rcv.expected in c.rcv.received <==> s.rx.expected in s.rx.received
  {
    hide Wrap;
    Windows(s);
    RepresentsMember(c.rcv.received, s.rx.received, s.rx.expected, s.rx.expected);
  }

  // ---- a loss-free round ----

  /** The numbers in flight, in some order. */
  ghost predicate Lists(c: System, ns: seq<nat>) {
    && (forall n :: n in ns ==> Latest(c, n) && Wrap(n) in c.snd.inFlight)
    && (forall n: nat :: Latest(c, n) && Wrap(n) in c.snd.inFlight ==> n in ns)
  }

  lemma ListsSim(c: System, s: U.Stream, ns: seq<nat>)
    requires U.Inv(s) && Sim(c, s) && Lists(c, ns)
    ensures forall n :: n in ns <==> n in s.inFlight
  {
    hide Wrap;
    forall n: nat ensures Latest(c, n) && Wrap(n) in c.snd.inFlight <==> n in s.inFlight {
      if n in s.inFlight {
        InFlightIsLatest(c, s, n);
      } else if Latest(c, n) && Wrap(n) in c.snd.inFlight {
        LatestIsInFlight(c, s, n);
      }
    }
  }

  /** A step that submits nothing and processes no message far behind. */
  predicate Near(next: nat, step: U.Step) {
    match step
    case Submit => false
    case ReceiveData(m) => next < Number(m) + 0x8000
    case ReceiveAck(m) => next < Number(m) + 0x8000
    case SendHintedAck(_) => false
    case _ => true
  }

  lemma {:induction false} NearRunIsFresh(s: U.Stream, steps: seq<U.Step>)
    requires U.Legal(s, steps) && forall i :: 0 <= i < |steps| ==> Near(s.next, steps[i])
    ensures FreshRun(s, steps)
    decreases |steps|
  {
    if steps != [] {
      assert U.Next(s, steps[0]).next == s.next;
      assert forall i :: 0 <= i < |steps[1..]| ==> steps[1..][i] == steps[i + 1];
      NearRunIsFresh(U.Next(s, steps[0]), steps[1..]);
    }
  }

  lemma {:induction false} ArrivalsAreNear(inFlight: map<nat, Octets>, ns: seq<nat>, next: nat)
    requires forall n :: n in ns ==> n in inFlight
    requires forall n :: n in inFlight ==> next <= n + 32
    ensures forall i :: 0 <= i < |P.Arrivals(inFlight, ns)| ==> Near(next, P.Arrivals(inFlight, ns)[i])
    decreases |ns|
  {
    if ns != [] {
      var all, rest := P.Arrivals(inFlight, ns), P.Arrivals(inFlight, ns[1..]);
      var first := all[..|all| - |rest|];
      assert all == first + rest;
      ArrivalsAreNear(inFlight, ns[1..], next);
      forall i | 0 <= i < |all| ensures Near(next, all[i]) {
        if i >= |first| { assert all[i] == rest[i - |first|]; }
      }
    }
  }

  lemma RoundIsFresh(s: U.Stream, ns: seq<nat>)
    requires U.Inv(s) && U.Conserved(s) && forall n :: n in ns <==> n in s.inFlight
    requires U.Legal(s, P.Arrivals(s.inFlight, ns)) && U.Legal(s, P.LossFreeRound(s, ns))
    ensures FreshRun(s, P.LossFreeRound(s, ns))
  {
    hide Near, Wrap;
    Windows(s);
    ArrivalsAreNear(s.inFlight, ns, s.next);
    var a := P.AllArrive(s, ns);
    var d := a.rx.Drained();
    DrainedIsAhead(a);
    TailIsNear(s.next, d.expected, d.MissingSlots(None));
    NearRunIsFresh(s, P.LossFreeRound(s, ns));
  }

  lemma DrainedIsAhead(s: U.Stream)
    requires U.Inv(s)
    ensures s.next <= s.rx.Drained().expected + 32
  {
    Windows(s);
    U.DrainMeans(s.rx);
  }

  lemma TailIsNear(next: nat, expected: nat, missing: seq<bool>)
    requires next <= expected + 32
    ensures Near(next, U.Drain) && Near(next, U.SendAck) && Near(next, U.ReceiveAck(U.Ack(expected, missing, None)))
  {
  }

  /** From every reachable state in which no hint struck a sample: a round in which everything in flight is sent
      again and arrives, in any order, is drained and acknowledged. It empties the window exactly if every
      sample submitted and not delivered fits a frame; then all that was submitted is delivered. */
  lemma LossFreeRoundDelivers(steps: seq<Step>, ns: seq<nat>) returns (s: U.Stream, round: seq<Step>)
    requires Legal(INITIAL, steps) && HintsMet(INITIAL, steps) && Lists(Exec(INITIAL, steps), ns)
    ensures var c := Exec(INITIAL, steps);
            && Sim(c, s) && (forall n :: n in ns <==> n in s.inFlight)
            && U.Legal(s, P.Arrivals(s.inFlight, ns)) && AbsAll(round) == P.LossFreeRound(s, ns)
            && Legal(c, round)
            && var c' := Exec(c, round);
               && c.submitted <= |c.enqueued|
               && (c'.snd.inFlight == map[] <==>
                     forall n :: |c.delivered| <= n < c.submitted ==> Sendable(c.enqueued[n]))
               && (c'.snd.inFlight == map[] ==> c'.delivered == c.enqueued[..c.submitted])
  {
    hide Wrap, Covers, P.LossFreeRound, P.Arrivals;
    s := Behind(steps);
    var c := Exec(INITIAL, steps);
    ListsSim(c, s, ns);
    P.LossFreeRoundEmptiesWindow(s, ns);
    RoundIsFresh(s, ns);
    round := RunRealized(c, s, P.LossFreeRound(s, ns));
    var c', s' := Exec(c, round), U.Exec(s, P.LossFreeRound(s, ns));
    EmptyWindows(c', s');
    SendableOutstanding(c, s);
  }

  lemma EmptyWindows(c: System, s: U.Stream)
    requires Sim(c, s)
    ensures c.snd.inFlight == map[] <==> s.inFlight == map[]
  {
    hide Wrap;
    if s.inFlight == map[] {
      if k :| k in c.snd.inFlight { assert false; }
    } else {
      var n :| n in s.inFlight;
      assert Wrap(n) in c.snd.inFlight;
    }
  }

  /** Among the outstanding samples, those in flight that the receiver lacks are the ones that matter. */
  lemma SendableOutstanding(c: System, s: U.Stream)
    requires U.Inv(s) && U.Conserved(s) && P.AllUnsendableWait(s) && Sim(c, s)
    ensures c.submitted <= |c.enqueued|
    ensures (forall n :: n in s.inFlight && !s.rx.Has(n) ==> Sendable(s.inFlight[n])) <==>
            (forall n :: |c.delivered| <= n < c.submitted ==> Sendable(c.enqueued[n]))
  {
    hide Wrap, Sendable;
    if forall n :: n in s.inFlight && !s.rx.Has(n) ==> Sendable(s.inFlight[n]) {
      forall n | |c.delivered| <= n < c.submitted ensures Sendable(c.enqueued[n]) {
        var k: nat := n;
        assert !Sendable(s.enqueued[k]) ==> P.Unsendable(s, k);
      }
    }
  }

  // ---- a sample no frame carries ----

  /** What was submitted and fits no frame stays in flight, and nothing is delivered from it on. */
  lemma UnsendableStopsDelivery(steps: seq<Step>, n: nat)
    requires Legal(INITIAL, steps) && HintsMet(INITIAL, steps)
    ensures var c := Exec(INITIAL, steps);
            && c.submitted <= |c.enqueued|
            && (n < c.submitted && !Sendable(c.enqueued[n]) ==> |c.delivered| <= n && Wrap(n) in c.snd.inFlight)
  {
    hide Wrap, Covers, Sendable;
    var s := Behind(steps);
    assert n < s.next && !Sendable(s.enqueued[n]) ==> P.Unsendable(s, n);
  }

  /** Submit takes a first sample of 65532 to 65535 octets; after that no run without hints delivers anything,
      and the window never empties. */
  lemma OversizeSampleWedges(p: Octets, objectId: U16, more: seq<Step>)
    requires 65532 <= |p| <= 65535
    ensures Legal(INITIAL, [Enqueue(p), Submit(objectId)])
    ensures var c := Exec(INITIAL, [Enqueue(p), Submit(objectId)]);
            Legal(c, more) && Unhinted(more) ==>
              Exec(c, more).delivered == [] && 0 in Exec(c, more).snd.inFlight
  {
    var start := [Enqueue(p), Submit(objectId)];
    OversizeIsSubmitted(p, objectId);
    var c := Exec(INITIAL, start);
    if Legal(c, more) && Unhinted(more) {
      RunAppend(INITIAL, start, more);
      assert Unhinted(start + more);
      UnhintedMeetsHints(INITIAL, start + more);
      UnsendableStopsDelivery(start + more, 0);
      EnqueuedStays(c, more);
    }
  }

  lemma OversizeIsSubmitted(p: Octets, objectId: U16)
    requires 65532 <= |p| <= 65535
    ensures Legal(INITIAL, [Enqueue(p), Submit(objectId)])
    ensures var c := Exec(INITIAL, [Enqueue(p), Submit(objectId)]);
            c.enqueued == [p] && c.submitted == 1 && !Sendable(c.enqueued[0])
  {
    hide WriteFrame;
    var c1 := Next(INITIAL, Enqueue(p));
    assert c1.pending == [p];
    var tail := [Submit(objectId)];
    assert [Enqueue(p), Submit(objectId)][1..] == tail && tail[1..] == [];
    assert Legal(c1, tail) && Exec(c1, tail) == Next(c1, Submit(objectId));
  }

  lemma {:induction false} RunAppend(c: System, first: seq<Step>, second: seq<Step>)
    requires Legal(c, first) && Legal(Exec(c, first), second)
    ensures Legal(c, first + second) && Exec(c, first + second) == Exec(Exec(c, first), second)
    decreases |first|
  {
    hide Next, Enabled;
    if first == [] {
      assert first + second == second;
    } else {
      assert (first + second)[1..] == first[1..] + second;
      RunAppend(Next(c, first[0]), first[1..], second);
    }
  }

  lemma {:induction false} EnqueuedStays(c: System, steps: seq<Step>)
    requires Legal(c, steps)
    ensures c.enqueued <= Exec(c, steps).enqueued && c.submitted <= Exec(c, steps).submitted
    decreases |steps|
  {
    if steps != [] { EnqueuedStays(Next(c, steps[0]), steps[1..]); }
  }
}
