/** From a file served by the read handler to the file left by the write handler. */
module TftpEndToEnd {
  import opened Bytes
  import opened Tftp
  import opened TftpTransfer
  import opened TftpSpool
  import N = Netascii
  import S = TftpSender
  import R = TftpReceiver
  import W = TftpWrite
  import Ordered = TftpOrdered
  import Reordering = TftpReordering

  lemma AcceptedIsTransfer(stream: seq<byte>, r: R.Receiver, a: nat)
    requires Accepted(stream, r, a)
    ensures Transfer(r.accepted)
  {
    forall i | 0 <= i < a ensures |r.accepted[i]| <= MAX_DATA && (i < a - 1 ==> |r.accepted[i]| == MAX_DATA) {
      ChunkLength(stream, i + 1);
    }
  }

  /** What a file looks like after a trip in the given mode: netascii collapses every CRLF. */
  function AfterTrip(mode: Mode, contents: seq<byte>): seq<byte> {
    if mode == Netascii then N.Collapse(contents) else contents
  }

  lemma DeliveredFile(mode: Mode, contents: seq<byte>, r: R.Receiver, a: nat)
    requires Accepted(S.Outgoing(mode, contents), r, a)
    requires Delivered(S.Outgoing(mode, contents), r)
    requires mode == Netascii ==> FewPairs(N.Encode(contents))
    ensures AbsorbAll(mode, r.accepted).health == Sound
    ensures FinalFile(mode, r.accepted) == AfterTrip(mode, contents)
  {
    AcceptedIsTransfer(S.Outgoing(mode, contents), r, a);
    FinalFileIsMeaning(mode, r.accepted);
    N.DecodeEncode(contents);
  }

  lemma EmptyFile(mode: Mode, contents: seq<byte>)
    requires S.Outgoing(mode, contents) == []
    ensures contents == [] && AfterTrip(mode, contents) == []
    ensures FinalFile(mode, []) == [] && AbsorbAll(mode, []).health == Sound
  {
    N.EncodeLength(contents);
  }

  // ----- Over an order-keeping network -----

  /**
   When the serving handler has finished, the receiving handler has accepted a
   stream from which it writes the same file in octet mode, and in netascii mode
   the file with every CRLF collapsed to LF.
   */
  lemma FileArrivesInOrder(mode: Mode, contents: seq<byte>, moves: seq<Ordered.Move>)
    requires Ordered.After(S.Outgoing(mode, contents), moves).Reached? && Ordered.Uninterrupted(moves)
    requires Ordered.After(S.Outgoing(mode, contents), moves).system.sender.phase == S.Finished
    requires mode == Netascii ==> FewPairs(N.Encode(contents))
    ensures var accepted := Ordered.After(S.Outgoing(mode, contents), moves).system.receiver.accepted;
      AbsorbAll(mode, accepted).health == Sound && FinalFile(mode, accepted) == AfterTrip(mode, contents)
  {
    var stream := S.Outgoing(mode, contents);
    if stream == [] {
      Ordered.NothingSentForEmpty(stream, moves);
      EmptyFile(mode, contents);
    } else {
      Ordered.SafeAtAnyLength(stream, moves);
      var k, di, ai := Ordered.Invariant(stream, moves);
      var r := Ordered.After(stream, moves).system.receiver;
      DeliveredFile(mode, contents, r, |r.accepted|);
    }
  }

  /** What the receiving handler was told in a run. */
  function ReportsInOrder(moves: seq<Ordered.Move>): seq<Event> {
    if moves == [] then []
    else
      var before, m := ReportsInOrder(moves[..|moves| - 1]), moves[|moves| - 1];
      if m.AtReceiver? then before + [m.e] else before
  }

  lemma RunOneMore(events: seq<Event>, e: Event)
    ensures R.Run(events + [e]).0 == R.Step(R.Run(events).0, e).0
  {
    assert (events + [e])[..|events|] == events;
  }

  /** The receiver of a network run is the handler run on its own reports. */
  lemma {:induction false} ReceiverInOrder(stream: seq<byte>, moves: seq<Ordered.Move>)
    requires Ordered.After(stream, moves).Reached?
    ensures Ordered.After(stream, moves).system.receiver == R.Run(ReportsInOrder(moves)).0
  {
    if moves != [] {
      var before, m := moves[..|moves| - 1], moves[|moves| - 1];
      ReceiverInOrder(stream, before);
      if m.AtReceiver? {
        RunOneMore(ReportsInOrder(before), m.e);
      }
    }
  }

  lemma {:induction false} ReportsInOrderFit(stream: seq<byte>, moves: seq<Ordered.Move>)
    requires Ordered.After(stream, moves).Reached? && Ordered.Uninterrupted(moves)
    ensures W.WellFormed(ReportsInOrder(moves))
  {
    if moves != [] {
      var before, m := moves[..|moves| - 1], moves[|moves| - 1];
      ReportsInOrderFit(stream, before);
      if m.AtReceiver? && m.e.Receive? {
        DataInOrderFits(stream, before, m.e.packet);
      }
    }
  }

  lemma DataInOrderFits(stream: seq<byte>, moves: seq<Ordered.Move>, p: Packet)
    requires Ordered.After(stream, moves).Reached? && Ordered.Uninterrupted(moves)
    requires var data := Ordered.After(stream, moves).system.data; data != [] && p == data[0]
    ensures p.Data? ==> |p.payload| <= MAX_DATA
  {
    if stream == [] {
      Ordered.NothingSentForEmpty(stream, moves);
    } else {
      var k, di, ai := Ordered.Invariant(stream, moves);
      var y := Ordered.After(stream, moves).system;
      Ordered.DataDelivered(stream, y.data, di, |y.receiver.accepted|, k);
      ChunkLength(stream, di[0]);
    }
  }

  /** The receiving handler, told what such a run tells it, leaves that file. */
  method ReceiveInOrder(mode: Mode, contents: seq<byte>, moves: seq<Ordered.Move>) returns (file: seq<byte>)
    requires Ordered.After(S.Outgoing(mode, contents), moves).Reached? && Ordered.Uninterrupted(moves)
    requires Ordered.After(S.Outgoing(mode, contents), moves).system.sender.phase == S.Finished
    requires mode == Netascii ==> FewPairs(N.Encode(contents))
    ensures file == AfterTrip(mode, contents)
  {
    ReportsInOrderFit(S.Outgoing(mode, contents), moves);
    var acks, phase, written, undefined := W.ServeWrite(mode, ReportsInOrder(moves));
    ReceiverInOrder(S.Outgoing(mode, contents), moves);
    FileArrivesInOrder(mode, contents, moves);
    file := written;
  }

  // ----- Over a reordering network -----

  /** The same for streams of fewer than 65535 full blocks. */
  lemma FileArrivesReordered(mode: Mode, contents: seq<byte>, moves: seq<Reordering.Move>)
    requires Reordering.Legal(S.Outgoing(mode, contents), moves) && Reordering.Uninterrupted(moves)
    requires |S.Outgoing(mode, contents)| < 65535 * 512
    requires Reordering.After(S.Outgoing(mode, contents), moves).sender.phase == S.Finished
    requires mode == Netascii ==> FewPairs(N.Encode(contents))
    ensures var accepted := Reordering.After(S.Outgoing(mode, contents), moves).receiver.accepted;
      AbsorbAll(mode, accepted).health == Sound && FinalFile(mode, accepted) == AfterTrip(mode, contents)
  {
    var stream := S.Outgoing(mode, contents);
    if stream == [] {
      Reordering.NothingSentForEmpty(stream, moves);
      EmptyFile(mode, contents);
    } else {
      Reordering.Delivery(stream, moves);
      var k := Reordering.Invariant(stream, moves);
      var r := Reordering.After(stream, moves).receiver;
      DeliveredFile(mode, contents, r, |r.accepted|);
    }
  }

  function ReportsReordered(moves: seq<Reordering.Move>): seq<Event> {
    if moves == [] then []
    else
      var before, m := ReportsReordered(moves[..|moves| - 1]), moves[|moves| - 1];
      if m.AtReceiver? then before + [m.e] else before
  }

  lemma {:induction false} ReceiverReordered(stream: seq<byte>, moves: seq<Reordering.Move>)
    ensures Reordering.After(stream, moves).receiver == R.Run(ReportsReordered(moves)).0
  {
    if moves != [] {
      var before, m := moves[..|moves| - 1], moves[|moves| - 1];
      ReceiverReordered(stream, before);
      if m.AtReceiver? {
        RunOneMore(ReportsReordered(before), m.e);
      }
    }
  }

  lemma {:induction false} ReportsReorderedFit(stream: seq<byte>, moves: seq<Reordering.Move>)
    requires BlockCount(stream) <= 65536 && Reordering.Legal(stream, moves) && Reordering.Uninterrupted(moves)
    ensures W.WellFormed(ReportsReordered(moves))
  {
    if moves != [] {
      var before, m := moves[..|moves| - 1], moves[|moves| - 1];
      ReportsReorderedFit(stream, before);
      if m.AtReceiver? && m.e.Receive? {
        DataReorderedFits(stream, before, m.e.packet);
      }
    }
  }

  lemma DataReorderedFits(stream: seq<byte>, moves: seq<Reordering.Move>, p: Packet)
    requires BlockCount(stream) <= 65536 && Reordering.Legal(stream, moves) && Reordering.Uninterrupted(moves)
    requires p in Reordering.After(stream, moves).data
    ensures p.Data? ==> |p.payload| <= MAX_DATA
  {
    if stream == [] {
      Reordering.NothingSentForEmpty(stream, moves);
    } else {
      var k := Reordering.Invariant(stream, moves);
      var i :| 1 <= i <= k && p == DataPacket(stream, i);
      ChunkLength(stream, i);
    }
  }

  method ReceiveReordered(mode: Mode, contents: seq<byte>, moves: seq<Reordering.Move>) returns (file: seq<byte>)
    requires Reordering.Legal(S.Outgoing(mode, contents), moves) && Reordering.Uninterrupted(moves)
    requires |S.Outgoing(mode, contents)| < 65535 * 512
    requires Reordering.After(S.Outgoing(mode, contents), moves).sender.phase == S.Finished
    requires mode == Netascii ==> FewPairs(N.Encode(contents))
    ensures file == AfterTrip(mode, contents)
  {
    ReportsReorderedFit(S.Outgoing(mode, contents), moves);
    var acks, phase, written, undefined := W.ServeWrite(mode, ReportsReordered(moves));
    ReceiverReordered(S.Outgoing(mode, contents), moves);
    FileArrivesReordered(mode, contents, moves);
    file := written;
  }
}
