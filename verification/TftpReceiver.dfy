/** The write-request handler: a stop-and-wait receiver that spools what it accepts to a file. */
module TftpReceiver {
  import opened Sequences
  import opened Bytes
  import opened Tftp

  datatype Phase = Listening | Completed | GaveUp | Aborted

  /** `accepted` is the list of payloads written to the spool so far. */
  datatype Receiver = Receiver(block: BlockNumber, timeouts: nat, accepted: seq<seq<byte>>, phase: Phase)

  function Start(): (Receiver, seq<Packet>) {
    (Receiver(1, 0, [], Listening), [Ack(0)])
  }

  /** One report from select: the new state and the acknowledgements written. */
  function Step(r: Receiver, e: Event): (Receiver, seq<Packet>) {
    if r.phase != Listening then (r, [])
    else match e
      case Interrupted => (r, [])
      case SelectError => (r.(phase := Aborted), [])
      case Timeout =>
        var phase := if r.timeouts + 1 < MAX_TIMEOUTS then Listening else GaveUp;
        (r.(timeouts := r.timeouts + 1, phase := phase), [Ack(PreviousBlock(r.block))])
      case Receive(p) =>
        var r' := r.(timeouts := 0);
        if !p.Data? then (r'.(phase := Aborted), [])
        else if p.block != r.block then (r', [Ack(PreviousBlock(r.block))])
        else if |p.payload| < MAX_DATA then
          (r'.(accepted := r.accepted + [p.payload], phase := Completed), [Ack(r.block)])
        else
          (r'.(accepted := r.accepted + [p.payload], block := NextBlock(r.block)), [Ack(r.block)])
  }

  function Run(events: seq<Event>): (Receiver, seq<Packet>) {
    if events == [] then Start()
    else
      var (r, acks) := Run(events[..|events| - 1]);
      var (r', more) := Step(r, events[|events| - 1]);
      (r', acks + more)
  }

  // ----- What every run keeps -----

  /** All payloads but a closing short one are full, and the block counter follows their number. */
  ghost predicate Valid(r: Receiver) {
    var n := |r.accepted|;
    && r.timeouts <= MAX_TIMEOUTS && (r.phase == Listening ==> r.timeouts < MAX_TIMEOUTS)
    && (forall i :: 0 <= i < n - 1 ==> |r.accepted[i]| >= MAX_DATA)
    && (r.phase == Completed <==> n > 0 && |r.accepted[n - 1]| < MAX_DATA)
    && (r.phase != Completed ==> r.block == Wrap(n + 1))
  }

  /** The packet that a receiver waits for. */
  predicate IsNext(r: Receiver, e: Event) {
    r.phase == Listening && e.Receive? && e.packet.Data? && e.packet.block == r.block
  }

  lemma AcceptKeepsValid(r: Receiver, e: Event)
    requires Valid(r) && IsNext(r, e)
    ensures var (r', acks) := Step(r, e);
      Valid(r') && r'.accepted == r.accepted + [e.packet.payload] && acks == [Ack(Wrap(|r'.accepted|))]
  {
    Snoc(r.accepted, e.packet.payload);
    assert NextBlock(Wrap(|r.accepted| + 1)) == Wrap(|r.accepted| + 2);
  }

  lemma OtherKeepsValid(r: Receiver, e: Event)
    requires Valid(r) && !IsNext(r, e)
    ensures var (r', acks) := Step(r, e);
      Valid(r') && r'.accepted == r.accepted && (acks == [] || acks == [Ack(Wrap(|r.accepted|))])
  {
    assert r.phase == Listening ==> PreviousBlock(r.block) == Wrap(|r.accepted|);
  }

  /**
   A step keeps the invariant, only ever adds to what was accepted, and answers
   with at most one packet, which names the number of blocks accepted so far.
   */
  lemma StepKeepsValid(r: Receiver, e: Event)
    requires Valid(r)
    ensures var (r', acks) := Step(r, e);
      && Valid(r')
      && r.accepted <= r'.accepted
      && (acks == [] || acks == [Ack(Wrap(|r'.accepted|))])
      && (r'.accepted != r.accepted <==>
            r.phase == Listening && e.Receive? && e.packet.Data? && e.packet.block == Wrap(|r.accepted| + 1))
      && (r'.accepted != r.accepted ==> r'.accepted == r.accepted + [e.packet.payload] && acks != [])
  {
    if IsNext(r, e) {
      AcceptKeepsValid(r, e);
      Snoc(r.accepted, e.packet.payload);
    } else {
      OtherKeepsValid(r, e);
    }
  }

  lemma {:induction false} RunValid(events: seq<Event>)
    ensures Valid(Run(events).0)
  {
    if events != [] {
      RunValid(events[..|events| - 1]);
      StepKeepsValid(Run(events[..|events| - 1]).0, events[|events| - 1]);
    }
  }
}

/** The write-request handler as the loop that drives receiver and spool together. */
module TftpWrite {
  import opened Bytes
  import opened Tftp
  import opened TftpReceiver
  import opened TftpSpool

  /** No datagram carries more than a full block. */
  ghost predicate WellFormed(events: seq<Event>) {
    forall i :: 0 <= i < |events| && events[i].Receive? && events[i].packet.Data? ==>
                  |events[i].packet.payload| <= MAX_DATA
  }

  lemma Advance(events: seq<Event>, i: nat, r: Receiver, acks: seq<Packet>)
    requires i < |events| && Run(events[..i]) == (r, acks)
    ensures Run(events[..i + 1]) == (Step(r, events[i]).0, acks + Step(r, events[i]).1)
    ensures Step(r, events[i]).1 == [] ==> Run(events[..i + 1]) == (Step(r, events[i]).0, acks)
  {
    assert events[..i + 1][..i] == events[..i];
    assert acks + [] == acks;
  }

  lemma {:induction false} RunStops(events: seq<Event>, i: nat)
    requires i <= |events| && Run(events[..i]).0.phase != Listening
    ensures Run(events) == Run(events[..i])
    decreases |events| - i
  {
    if i == |events| {
      assert events[..i] == events;
    } else {
      Advance(events, i, Run(events[..i]).0, Run(events[..i]).1);
      RunStops(events, i + 1);
    }
  }

  /** What a matching packet does to the payloads accepted and to the spool. */
  lemma AbsorbOne(mode: Mode, payloads: seq<seq<byte>>, payload: seq<byte>)
    ensures AbsorbAll(mode, payloads + [payload])
         == Absorb(mode, AbsorbAll(mode, payloads), Wrap(|payloads| + 1), payload)
    ensures AllFull(payloads) && |payload| == MAX_DATA ==> AllFull(payloads + [payload])
  {
    assert (payloads + [payload])[..|payloads|] == payloads;
  }

  /** The state of the loop after so many reports, in the terms of the step function. */
  ghost predicate InLoop(events: seq<Event>, r: Receiver, acks: seq<Packet>) {
    Run(events) == (r, acks) && Valid(r) && (r.phase == Listening ==> AllFull(r.accepted))
  }

  /** One more report. */
  lemma LoopStep(events: seq<Event>, i: nat, r: Receiver, acks: seq<Packet>)
    requires i < |events| && WellFormed(events) && InLoop(events[..i], r, acks) && r.phase == Listening
    ensures InLoop(events[..i + 1], Step(r, events[i]).0, acks + Step(r, events[i]).1)
    ensures Step(r, events[i]).1 == [] ==> acks + Step(r, events[i]).1 == acks
    ensures r.block == Wrap(|r.accepted| + 1)
  {
    Advance(events, i, r, acks);
    StepKeepsValid(r, events[i]);
    assert acks + [] == acks;
    if events[i].Receive? && events[i].packet.Data? {
      AbsorbOne(Octet, r.accepted, events[i].packet.payload);
    }
  }

  /** The handler itself: acknowledge, spool and write back until the transfer ends. */
  method ServeWrite(mode: Mode, events: seq<Event>)
    returns (acks: seq<Packet>, phase: Phase, file: seq<byte>, undefined: bool)
    requires WellFormed(events)
    ensures phase == Run(events).0.phase && acks == Run(events).1
    ensures undefined <==> AbsorbAll(mode, Run(events).0.accepted).health == Undefined
    ensures !undefined ==> file == FinalFile(mode, Run(events).0.accepted)
  {
    var spool := new SpoolFile(mode);
    acks := [Ack(0)];
    phase := Listening;
    var block: BlockNumber, timeouts: nat := 1, 0;
    ghost var r := Start().0;
    var i := 0;
    assert events[..0] == [];
    while phase == Listening && i < |events|
      invariant i <= |events| && spool.Valid() && spool.mode == mode
      invariant r.block == block && r.timeouts == timeouts && r.phase == phase
      invariant InLoop(events[..i], r, acks)
      invariant spool.View() == AbsorbAll(mode, r.accepted)
      decreases |events| - i
    {
      LoopStep(events, i, r, acks);
      var event := events[i];
      ghost var accepted := r.accepted;
      r := Step(r, event).0;
      i := i + 1;
      if event == SelectError {
        phase := Aborted;
      } else if event == Timeout {
        timeouts := timeouts + 1;
        acks := acks + [Ack(PreviousBlock(block))];
        if timeouts >= MAX_TIMEOUTS {
          phase := GaveUp;
        }
      } else if event.Receive? {
        timeouts := 0;
        if !event.packet.Data? {
          phase := Aborted;
        } else if event.packet.block != block {
          acks := acks + [Ack(PreviousBlock(block))];
        } else {
          AbsorbOne(mode, accepted, event.packet.payload);
          PendingBound(mode, accepted);
          spool.Append(block, event.packet.payload);
          acks := acks + [Ack(block)];
          if |event.packet.payload| < MAX_DATA {
            phase := Completed;
          } else {
            block := NextBlock(block);
          }
        }
      }
    }
    if i == |events| {
      assert events[..i] == events;
    } else {
      RunStops(events, i);
    }
    undefined := spool.undefined;
    spool.Flush();
    file := spool.file;
  }
}
