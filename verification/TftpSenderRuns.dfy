/** What every run of the read-request handler sends, and how much. */
module TftpSenderRuns {
  import opened Bytes
  import opened Tftp
  import opened TftpSender

  ghost predicate Uninterrupted(events: seq<Event>) {
    forall i :: 0 <= i < |events| ==> events[i] != Interrupted
  }

  /** Each entry repeats the one before it or is one larger, starting from 1. */
  ghost predicate Stepwise(indices: seq<nat>) {
    && indices != [] && indices[0] == 1
    && forall j :: 0 < j < |indices| ==> indices[j - 1] <= indices[j] <= indices[j - 1] + 1
  }

  ghost predicate Sends(stream: seq<byte>, sent: seq<Packet>, indices: seq<nat>) {
    && |sent| == |indices|
    && forall j :: 0 <= j < |sent| ==>
         1 <= indices[j] <= BlockCount(stream) && sent[j] == DataPacket(stream, indices[j])
  }

  lemma ExtendSends(stream: seq<byte>, sent: seq<Packet>, indices: seq<nat>, k: nat)
    requires Stepwise(indices) && Sends(stream, sent, indices)
    requires indices[|indices| - 1] <= k <= indices[|indices| - 1] + 1 && 1 <= k <= BlockCount(stream)
    ensures Stepwise(indices + [k]) && Sends(stream, sent + [DataPacket(stream, k)], indices + [k])
  {
    StepwiseMore(indices, k);
    SendsMore(stream, sent, indices, k);
  }

  lemma StepwiseMore(indices: seq<nat>, k: nat)
    requires Stepwise(indices) && indices[|indices| - 1] <= k <= indices[|indices| - 1] + 1
    ensures Stepwise(indices + [k])
  {
  }

  lemma SendsMore(stream: seq<byte>, sent: seq<Packet>, indices: seq<nat>, k: nat)
    requires Sends(stream, sent, indices) && 1 <= k <= BlockCount(stream)
    ensures Sends(stream, sent + [DataPacket(stream, k)], indices + [k])
  {
  }

  // ----- Counting -----

  /** Timeouts that were reported while the handler was waiting. */
  function HandledTimeouts(stream: seq<byte>, events: seq<Event>): nat {
    if events == [] then 0
    else
      var before := events[..|events| - 1];
      HandledTimeouts(stream, before) +
      if Run(stream, before).0.phase == Waiting && events[|events| - 1] == Timeout then 1 else 0
  }

  /** Packets that were received while the handler was waiting. */
  function HandledPackets(stream: seq<byte>, events: seq<Event>): nat {
    if events == [] then 0
    else
      var before := events[..|events| - 1];
      HandledPackets(stream, before) +
      if Run(stream, before).0.phase == Waiting && events[|events| - 1].Receive? then 1 else 0
  }

  /** Where a run stands after writing the blocks with these indices, and how the number of writes comes about. */
  ghost predicate Standing(stream: seq<byte>, s: Sender, indices: seq<nat>, timeouts: nat, packets: nat)
    requires indices != []
  {
    var last := indices[|indices| - 1];
    && (s.phase == Waiting ==> At(stream, s, last))
    && (s.phase == Finished ==> last == BlockCount(stream))
    && (s.phase == GaveUp ==> s.timeouts == MAX_TIMEOUTS && timeouts > 0)
    && |indices| + (if s.phase == GaveUp then 1 else 0) == last + timeouts
    && s.timeouts <= MAX_TIMEOUTS
    && timeouts <= 4 * packets + s.timeouts
    && (s.phase != GaveUp ==> timeouts <= 4 * packets + 4)
    && last <= packets + 1
  }

  lemma StandingStart(stream: seq<byte>)
    requires stream != []
    ensures Stepwise([1]) && Sends(stream, Run(stream, []).1, [1]) && Standing(stream, Run(stream, []).0, [1], 0, 0)
  {
    StartAt(stream);
  }

  lemma StandingStep(stream: seq<byte>, s: Sender, e: Event, indices: seq<nat>, timeouts: nat, packets: nat,
                     indices': seq<nat>)
    requires indices != [] && Standing(stream, s, indices, timeouts, packets) && s.phase == Waiting && e != Interrupted
    requires var last := indices[|indices| - 1]; var k := NextIndex(stream, last, e);
      indices' == if Step(stream, s, e).1 != [] then indices + [k] else indices
    ensures Standing(stream, Step(stream, s, e).0, indices',
                     if e == Timeout then timeouts + 1 else timeouts, if e.Receive? then packets + 1 else packets)
  {
    StepAt(stream, s, indices[|indices| - 1], e);
  }

  /**
   An uninterrupted run writes the blocks of the stream in order, each possibly
   several times in a row, without skipping one. While it waits it stands at the
   block it wrote last, it finishes only after the last block, and it wrote as
   often as it reached a block or met a timeout that did not end it.
   */
  lemma {:induction false} SentInOrder(stream: seq<byte>, events: seq<Event>) returns (indices: seq<nat>)
    requires stream != [] && Uninterrupted(events)
    ensures Stepwise(indices) && Sends(stream, Run(stream, events).1, indices)
    ensures Standing(stream, Run(stream, events).0, indices,
                     HandledTimeouts(stream, events), HandledPackets(stream, events))
  {
    if events == [] {
      indices := [1];
      StandingStart(stream);
    } else {
      var before, e := events[..|events| - 1], events[|events| - 1];
      indices := SentInOrder(stream, before);
      assert events == before + [e];
      indices := OneMoreReport(stream, before, e, indices);
    }
  }

  lemma OneMoreReport(stream: seq<byte>, events: seq<Event>, e: Event, indices: seq<nat>) returns (indices': seq<nat>)
    requires stream != [] && e != Interrupted
    requires Stepwise(indices) && Sends(stream, Run(stream, events).1, indices)
    requires Standing(stream, Run(stream, events).0, indices,
                      HandledTimeouts(stream, events), HandledPackets(stream, events))
    ensures Stepwise(indices') && Sends(stream, Run(stream, events + [e]).1, indices')
    ensures Standing(stream, Run(stream, events + [e]).0, indices',
                     HandledTimeouts(stream, events + [e]), HandledPackets(stream, events + [e]))
  {
    var (s, sent) := Run(stream, events);
    var (s', more) := Step(stream, s, e);
    RunOneMore(stream, events, e);
    CountsOneMore(stream, events, e);
    indices' := indices;
    if s.phase == Waiting {
      var last := indices[|indices| - 1];
      var k := NextIndex(stream, last, e);
      StepAt(stream, s, last, e);
      if more != [] {
        ExtendSends(stream, sent, indices, k);
        indices' := indices + [k];
      }
      StandingStep(stream, s, e, indices, HandledTimeouts(stream, events), HandledPackets(stream, events), indices');
    }
  }

  lemma RunOneMore(stream: seq<byte>, events: seq<Event>, e: Event)
    ensures var (s, sent) := Run(stream, events); var (s', more) := Step(stream, s, e);
      && Run(stream, events + [e]) == (s', sent + more)
      && (more == [] ==> Run(stream, events + [e]) == (s', sent))
  {
    assert (events + [e])[..|events|] == events && (events + [e])[|events|] == e;
    var (s, sent) := Run(stream, events);
    assert sent + [] == sent;
  }

  lemma CountsOneMore(stream: seq<byte>, events: seq<Event>, e: Event)
    ensures var waiting := Run(stream, events).0.phase == Waiting;
      && HandledTimeouts(stream, events + [e])
         == HandledTimeouts(stream, events) + (if waiting && e == Timeout then 1 else 0)
      && HandledPackets(stream, events + [e])
         == HandledPackets(stream, events) + (if waiting && e.Receive? then 1 else 0)
  {
    assert (events + [e])[..|events|] == events;
  }

  /** Every block up to the one written last was written. */
  lemma {:induction false} NoneSkipped(indices: seq<nat>, k: nat)
    requires Stepwise(indices) && 1 <= k <= indices[|indices| - 1]
    ensures k in indices
  {
    var n := |indices| - 1;
    if n > 0 && k < indices[n] {
      assert Stepwise(indices[..n]);
      NoneSkipped(indices[..n], k);
    }
  }

  /**
   What a run wrote: blocks 1 to `blocks` of the stream, each of them and in
   order, and besides them only resends after timeouts.
   */
  ghost predicate Accounts(stream: seq<byte>, events: seq<Event>, indices: seq<nat>, blocks: nat) {
    var (s, sent) := Run(stream, events);
    var received := HandledPackets(stream, events);
    var resends := HandledTimeouts(stream, events) - if s.phase == GaveUp then 1 else 0;
    && Sends(stream, sent, indices)
    && (indices != [] ==> Stepwise(indices))
    && (forall j :: 0 <= j < |indices| ==> 1 <= indices[j] <= blocks)
    && (forall k: nat :: 1 <= k <= blocks ==> k in indices)
    && |sent| == blocks + resends
    && (s.phase == Waiting ==> At(stream, s, blocks))
    && blocks <= received + 1
    && 0 <= resends <= 4 * (received + 1)
  }

  /**
   No amplification: the packets written are the distinct blocks plus one resend
   per timeout that did not end the run, a run that received R packets resends at
   most 4 (R + 1) times, and new blocks come at most one per packet received.
   */
  lemma NoAmplification(stream: seq<byte>, events: seq<Event>) returns (indices: seq<nat>, blocks: nat)
    requires Uninterrupted(events)
    ensures Accounts(stream, events, indices, blocks)
  {
    if stream == [] {
      EmptyStreamIsSilent(events);
      indices, blocks := [], 0;
    } else {
      indices := SentInOrder(stream, events);
      blocks := indices[|indices| - 1];
      forall k: nat | 1 <= k <= blocks ensures k in indices { NoneSkipped(indices, k); }
      forall j: nat | j < |indices| ensures 1 <= indices[j] <= blocks { StepwiseBounds(indices, j); }
    }
  }

  lemma {:induction false} StepwiseBounds(indices: seq<nat>, j: nat)
    requires Stepwise(indices) && j < |indices|
    ensures 1 <= indices[j] <= indices[|indices| - 1]
  {
    var n := |indices| - 1;
    if j < n {
      assert Stepwise(indices[..n]);
      StepwiseBounds(indices[..n], j);
      assert indices[..n][j] == indices[j] && indices[..n][n - 1] == indices[n - 1];
    } else if n > 0 {
      StepwiseBounds(indices, n - 1);
    }
  }

  /** For an empty stream the handler finishes at once and writes nothing at all. */
  lemma {:induction false} EmptyStreamIsSilent(events: seq<Event>)
    ensures Run([], events).0.phase == Finished && Run([], events).1 == []
    ensures HandledTimeouts([], events) == HandledPackets([], events) == 0
  {
    if events != [] {
      EmptyStreamIsSilent(events[..|events| - 1]);
    }
  }

  /** An acknowledgement of any other block writes nothing and moves nothing but the timeout count. */
  lemma OtherAckIsSilent(stream: seq<byte>, s: Sender, b: BlockNumber)
    requires b != s.block
    ensures Step(stream, s, Receive(Ack(b))).1 == []
    ensures s.phase == Waiting ==> Step(stream, s, Receive(Ack(b))).0 == s.(timeouts := 0)
  {
  }

  /** An interrupted wait neither ends nor advances the count of timeouts. */
  lemma TimeoutsStep(stream: seq<byte>, s: Sender, e: Event)
    requires s.phase == Waiting && s.timeouts < MAX_TIMEOUTS
    ensures var s' := Step(stream, s, e).0;
      && s'.timeouts == (match e case Timeout => s.timeouts + 1 case Receive(_) => 0 case _ => s.timeouts)
      && (s'.phase == GaveUp <==> e == Timeout && s.timeouts + 1 == MAX_TIMEOUTS)
  {
  }

  lemma {:induction false} TimeoutsAreTrailing(stream: seq<byte>, events: seq<Event>)
    requires Run(stream, events).0.phase == Waiting
    ensures Run(stream, events).0.timeouts == TrailingTimeouts(events) < MAX_TIMEOUTS
  {
    if events != [] {
      var before, e := events[..|events| - 1], events[|events| - 1];
      assert events == before + [e];
      RunOneMore(stream, before, e);
      TimeoutsAreTrailing(stream, before);
      TimeoutsStep(stream, Run(stream, before).0, e);
    }
  }

  /** The handler gives up at the fifth timeout in a row and at no other moment, interrupted or not. */
  lemma GivesUpAtFifthTimeout(stream: seq<byte>, events: seq<Event>, e: Event)
    requires Run(stream, events).0.phase == Waiting
    ensures Run(stream, events + [e]).0.phase == GaveUp <==> e == Timeout && TrailingTimeouts(events + [e]) == 5
    ensures e == Timeout ==> TrailingTimeouts(events + [e]) == TrailingTimeouts(events) + 1
  {
    RunOneMore(stream, events, e);
    TimeoutsAreTrailing(stream, events);
    TimeoutsStep(stream, Run(stream, events).0, e);
    assert (events + [e])[..|events|] == events && (events + [e])[|events|] == e;
  }

  /**
   An interrupted wait for block k sends the bytes of block k + 1 under the number of
   block k, or ends the transfer if k was the last block.
   */
  lemma InterruptedSkips(stream: seq<byte>, s: Sender, k: nat)
    requires At(stream, s, k)
    ensures var (s', sent) := Step(stream, s, Interrupted);
      if k == BlockCount(stream) then s'.phase == Finished && sent == []
      else s'.phase == Waiting && s'.block == Wrap(k) && sent == [Data(Wrap(k), Chunk(stream, k + 1))]
  {
  }
}
