/** When the write-request handler answers, and when it stops. */
module TftpReceiverRuns {
  import opened Bytes
  import opened Tftp
  import opened TftpReceiver

  /** A report that a listening handler answers: a timeout, or a DATA packet with whatever number. */
  predicate IsAnswered(e: Event) { e == Timeout || (e.Receive? && e.packet.Data?) }

  /** A listening handler answers exactly these, with the number of blocks it has accepted by then. */
  lemma Answers(r: Receiver, e: Event)
    requires Valid(r) && r.phase == Listening
    ensures var (r', acks) := Step(r, e);
      acks == if e == Timeout || (e.Receive? && e.packet.Data?) then [Ack(Wrap(|r'.accepted|))] else []
  {
    if IsNext(r, e) {
      AcceptKeepsValid(r, e);
    } else {
      OtherKeepsValid(r, e);
      assert PreviousBlock(r.block) == Wrap(|r.accepted|);
    }
  }

  /** What each report does to the phase and to the count of timeouts. */
  lemma NextPhase(r: Receiver, e: Event)
    requires Valid(r) && r.phase == Listening
    ensures var r' := Step(r, e).0; var n := |r.accepted|;
      && (r'.phase == GaveUp <==> e == Timeout && r.timeouts == 4)
      && (r'.phase == Aborted <==> e == SelectError || (e.Receive? && !e.packet.Data?))
      && (r'.phase == Completed <==>
            e.Receive? && e.packet.Data? && e.packet.block == Wrap(n + 1) && |e.packet.payload| < 512)
      && r'.timeouts == (match e case Timeout => r.timeouts + 1 case Receive(_) => 0 case _ => r.timeouts)
  {
  }

  lemma RunOneMore(events: seq<Event>, e: Event)
    ensures var (r, acks) := Run(events); Run(events + [e]) == (Step(r, e).0, acks + Step(r, e).1)
  {
    assert (events + [e])[..|events|] == events && (events + [e])[|events|] == e;
  }

  // ----- Counting the acknowledgements -----

  /** Reports that were answered: those of that kind that came while the handler was listening. */
  function Answered(events: seq<Event>): nat {
    if events == [] then 0
    else
      var before, e := events[..|events| - 1], events[|events| - 1];
      Answered(before) + if Run(before).0.phase == Listening && IsAnswered(e) then 1 else 0
  }

  lemma AnsweredOneMore(events: seq<Event>, e: Event)
    ensures Answered(events + [e])
         == Answered(events) + if Run(events).0.phase == Listening && IsAnswered(e) then 1 else 0
  {
    assert (events + [e])[..|events|] == events && (events + [e])[|events|] == e;
  }

  /** One acknowledgement when the transfer starts, and one for every timeout and every DATA packet handled. */
  lemma {:induction false} AcksCounted(events: seq<Event>)
    ensures |Run(events).1| == 1 + Answered(events) && Run(events).1[0] == Ack(0)
  {
    if events != [] {
      var before, e := events[..|events| - 1], events[|events| - 1];
      assert events == before + [e];
      AcksCounted(before);
      AnsweredOneMore(before, e);
      RunOneMore(before, e);
      RunValid(before);
      if Run(before).0.phase == Listening {
        Answers(Run(before).0, e);
      }
    }
  }

  /** Each of them names the number of blocks accepted when it is written, so a repeated block is answered again. */
  lemma EachAckTells(events: seq<Event>, e: Event)
    ensures var (r, acks) := Run(events); var (r', acks') := Run(events + [e]);
      acks' == if r.phase == Listening && IsAnswered(e) then acks + [Ack(Wrap(|r'.accepted|))] else acks
  {
    RunOneMore(events, e);
    RunValid(events);
    var (r, acks) := Run(events);
    assert acks + [] == acks;
    if r.phase == Listening {
      Answers(r, e);
    }
  }

  /** A block that arrives twice is acknowledged twice and accepted once. */
  lemma RepeatedBlock(p: Packet, events: seq<Event>)
    requires p.Data? && p.block == 1 && |p.payload| == 512 && events == [Receive(p), Receive(p)]
    ensures Run(events).1 == [Ack(0), Ack(1), Ack(1)] && Run(events).0.accepted == [p.payload]
  {
    var once := [Receive(p)];
    assert events == once + [Receive(p)] && once == [] + [Receive(p)];
    RunOneMore([], Receive(p));
    RunOneMore(once, Receive(p));
  }

  // ----- Giving up -----

  lemma {:induction false} TimeoutsAreTrailing(events: seq<Event>)
    requires Run(events).0.phase == Listening
    ensures Run(events).0.timeouts == TrailingTimeouts(events) < 5
  {
    if events != [] {
      var before, e := events[..|events| - 1], events[|events| - 1];
      assert events == before + [e];
      RunOneMore(before, e);
      RunValid(before);
      TimeoutsAreTrailing(before);
      NextPhase(Run(before).0, e);
    }
  }

  /** The handler gives up at the fifth timeout in a row and at no other moment, interrupted or not. */
  lemma GivesUpAtFifthTimeout(events: seq<Event>, e: Event)
    requires Run(events).0.phase == Listening
    ensures Run(events + [e]).0.phase == GaveUp <==> e == Timeout && TrailingTimeouts(events + [e]) == 5
  {
    RunOneMore(events, e);
    RunValid(events);
    TimeoutsAreTrailing(events);
    NextPhase(Run(events).0, e);
    assert (events + [e])[..|events|] == events && (events + [e])[|events|] == e;
  }

  /** A handler that has stopped stays as it is and writes nothing more. */
  lemma StoppedForGood(events: seq<Event>, e: Event)
    requires Run(events).0.phase != Listening
    ensures Run(events + [e]) == Run(events)
  {
    RunOneMore(events, e);
    assert Run(events).1 + [] == Run(events).1;
  }
}
