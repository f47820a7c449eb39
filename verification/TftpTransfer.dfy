/** What both networks need to know about the receiver's place in the sender's stream. */
module TftpTransfer {
  import opened Bytes
  import opened Tftp
  import S = TftpSender
  import R = TftpReceiver

  /** The receiver holds exactly the first a blocks of the stream. */
  ghost predicate Accepted(stream: seq<byte>, r: R.Receiver, a: nat) {
    a <= BlockCount(stream) && R.Valid(r) && r.accepted == Chunks(stream, a)
  }

  lemma ChunkLength(stream: seq<byte>, k: nat)
    requires 1 <= k <= BlockCount(stream)
    ensures |Chunk(stream, k)| < MAX_DATA <==> k == BlockCount(stream)
    ensures |Chunk(stream, k)| <= MAX_DATA
  {
  }

  lemma AcceptedPrefix(stream: seq<byte>, r: R.Receiver, a: nat)
    requires Accepted(stream, r, a)
    ensures Flatten(r.accepted) <= stream
    ensures a == BlockCount(stream) <==> r.phase == R.Completed
    ensures a == BlockCount(stream) ==> Flatten(r.accepted) == stream
  {
    FlattenChunks(stream, a);
    if a > 0 {
      ChunkLength(stream, a);
    }
  }

  /** What a report does to such a receiver when any packet it carries is block i of the same stream. */
  lemma ReceiverMoves(stream: seq<byte>, r: R.Receiver, a: nat, e: Event, i: nat)
    requires Accepted(stream, r, a) && 1 <= i <= BlockCount(stream)
    requires e.Receive? ==> e.packet == DataPacket(stream, i)
    requires e.Receive? && r.phase == R.Listening && Wrap(i) == Wrap(a + 1) ==> i == a + 1
    ensures var (r', acks) := R.Step(r, e);
      var a' := if e.Receive? && r.phase == R.Listening && i == a + 1 then a + 1 else a;
      Accepted(stream, r', a') && (acks == [] || acks == [Ack(Wrap(a'))])
  {
    R.StepKeepsValid(r, e);
    if i == a + 1 {
      assert Chunks(stream, a + 1) == Chunks(stream, a) + [Chunk(stream, a + 1)];
    }
  }

  /** The file has arrived: everything sent was accepted and, unless nothing was sent, the receiver is done. */
  ghost predicate Delivered(stream: seq<byte>, r: R.Receiver) {
    Flatten(r.accepted) == stream && (stream != [] ==> r.phase == R.Completed)
  }

  /** A sender that has finished may rely on the file having arrived. */
  ghost predicate Reliable(stream: seq<byte>, s: S.Sender, r: R.Receiver) {
    s.phase == S.Finished ==> Delivered(stream, r)
  }
}

/** Sender and receiver joined by a network that loses, duplicates and reorders at will. */
module TftpReordering {
  import opened Bytes
  import opened Tftp
  import opened TftpTransfer
  import S = TftpSender
  import R = TftpReceiver

  /** Every packet ever written stays available: it may be delivered any number of times, or never. */
  datatype System = System(sender: S.Sender, receiver: R.Receiver, data: set<Packet>, acks: set<Packet>)

  datatype Move = AtSender(e: Event) | AtReceiver(e: Event)

  function Initial(stream: seq<byte>): System {
    System(S.Start(stream).0, R.Start().0, set p | p in S.Start(stream).1, set p | p in R.Start().1)
  }

  predicate Enabled(y: System, m: Move) {
    m.e.Receive? ==> m.e.packet in (if m.AtSender? then y.acks else y.data)
  }

  function Apply(stream: seq<byte>, y: System, m: Move): System {
    match m
    case AtSender(e) =>
      var (s, sent) := S.Step(stream, y.sender, e);
      y.(sender := s, data := y.data + set p | p in sent)
    case AtReceiver(e) =>
      var (r, sent) := R.Step(y.receiver, e);
      y.(receiver := r, acks := y.acks + set p | p in sent)
  }

  function After(stream: seq<byte>, moves: seq<Move>): System {
    if moves == [] then Initial(stream)
    else Apply(stream, After(stream, moves[..|moves| - 1]), moves[|moves| - 1])
  }

  /** Every delivery in the run is of a packet that had been written before. */
  predicate Legal(stream: seq<byte>, moves: seq<Move>) {
    moves != [] ==>
      Legal(stream, moves[..|moves| - 1]) && Enabled(After(stream, moves[..|moves| - 1]), moves[|moves| - 1])
  }

  ghost predicate Uninterrupted(moves: seq<Move>) {
    AtSender(Interrupted) !in moves
  }

  // ----- The invariant -----

  ghost predicate DataUpTo(stream: seq<byte>, data: set<Packet>, k: nat)
    requires k <= BlockCount(stream)
  {
    forall p :: p in data ==> exists i :: 1 <= i <= k && p == DataPacket(stream, i)
  }

  ghost predicate AcksUpTo(acks: set<Packet>, a: nat) {
    forall p :: p in acks ==> exists j :: 0 <= j <= a && p == Ack(Wrap(j))
  }

  /** The sender stands at block k; the receiver has accepted k - 1 or k blocks. */
  ghost predicate Inv(stream: seq<byte>, y: System, k: nat) {
    var a := |y.receiver.accepted|;
    && stream != [] && 1 <= k <= BlockCount(stream)
    && (y.sender.phase == S.Waiting ==> S.At(stream, y.sender, k))
    && Accepted(stream, y.receiver, a)
    && k - 1 <= a <= k
    && DataUpTo(stream, y.data, k)
    && AcksUpTo(y.acks, a)
    && (y.sender.phase == S.Finished && BlockCount(stream) < 65536 ==> a == BlockCount(stream))
  }

  lemma InvStart(stream: seq<byte>)
    requires stream != []
    ensures Inv(stream, Initial(stream), 1)
  {
    S.StartAt(stream);
    assert Chunks(stream, 0) == [];
    assert Ack(0) == Ack(Wrap(0));
  }

  lemma AcksGrow(acks: set<Packet>, a: nat, sent: seq<Packet>, a': nat)
    requires AcksUpTo(acks, a) && a <= a' && (sent == [] || sent == [Ack(Wrap(a'))])
    ensures AcksUpTo(acks + (set p | p in sent), a')
  {
  }

  lemma DataGrow(stream: seq<byte>, data: set<Packet>, k: nat, sent: seq<Packet>, k': nat)
    requires 1 <= k <= k' <= BlockCount(stream) && DataUpTo(stream, data, k)
    requires sent == [] || sent == [DataPacket(stream, k')]
    ensures DataUpTo(stream, data + (set p | p in sent), k')
  {
  }

  /** The packet a receiver is given is a block of the past, and its number tells it apart from the next one. */
  lemma BlockReceived(stream: seq<byte>, data: set<Packet>, k: nat, a: nat, p: Packet) returns (i: nat)
    requires k <= BlockCount(stream) <= 65536 && DataUpTo(stream, data, k) && p in data
    requires k - 1 <= a < BlockCount(stream)
    ensures 1 <= i <= k && p == DataPacket(stream, i) && (Wrap(i) == Wrap(a + 1) ==> i == a + 1)
  {
    i :| 1 <= i <= k && p == DataPacket(stream, i);
  }

  lemma InvReceiver(stream: seq<byte>, y: System, k: nat, e: Event)
    requires Inv(stream, y, k) && BlockCount(stream) <= 65536 && Enabled(y, AtReceiver(e))
    ensures Inv(stream, Apply(stream, y, AtReceiver(e)), k)
  {
    var a := |y.receiver.accepted|;
    AcceptedPrefix(stream, y.receiver, a);
    if y.receiver.phase == R.Listening {
      var i := 1;
      if e.Receive? {
        i := BlockReceived(stream, y.data, k, a, e.packet);
      }
      InvListening(stream, y, k, a, e, i);
    } else {
      AcksGrow(y.acks, a, [], a);
    }
  }

  lemma InvListening(stream: seq<byte>, y: System, k: nat, a: nat, e: Event, i: nat)
    requires Inv(stream, y, k) && a == |y.receiver.accepted| && 1 <= i <= k
    requires e.Receive? ==> e.packet == DataPacket(stream, i) && (Wrap(i) == Wrap(a + 1) ==> i == a + 1)
    ensures Inv(stream, Apply(stream, y, AtReceiver(e)), k)
  {
    ReceiverMoves(stream, y.receiver, a, e, i);
    var (r, acks) := R.Step(y.receiver, e);
    AcksGrow(y.acks, a, acks, |r.accepted|);
  }

  lemma InvSender(stream: seq<byte>, y: System, k: nat, e: Event) returns (k': nat)
    requires Inv(stream, y, k) && BlockCount(stream) <= 65536
    requires Enabled(y, AtSender(e)) && e != Interrupted
    ensures Inv(stream, Apply(stream, y, AtSender(e)), k')
  {
    k' := k;
    if y.sender.phase == S.Waiting {
      S.StepAt(stream, y.sender, k, e);
      k' := S.NextIndex(stream, k, e);
      if e.Receive? {
        var j :| 0 <= j <= |y.receiver.accepted| && e.packet == Ack(Wrap(j));
        assert k < 65536 && e.packet == Ack(Wrap(k)) ==> j == k;
      }
      DataGrow(stream, y.data, k, S.Step(stream, y.sender, e).1, k');
    } else {
      DataGrow(stream, y.data, k, [], k);
    }
  }

  lemma {:induction false} Invariant(stream: seq<byte>, moves: seq<Move>) returns (k: nat)
    requires stream != [] && BlockCount(stream) <= 65536 && Legal(stream, moves) && Uninterrupted(moves)
    ensures Inv(stream, After(stream, moves), k)
  {
    if moves == [] {
      InvStart(stream);
      k := 1;
    } else {
      k := Invariant(stream, moves[..|moves| - 1]);
      var y, m := After(stream, moves[..|moves| - 1]), moves[|moves| - 1];
      if m.AtReceiver? {
        InvReceiver(stream, y, k, m.e);
      } else {
        assert m in moves;
        k := InvSender(stream, y, k, m.e);
      }
    }
  }

  ghost predicate Silent(y: System) {
    y.data == {} && y.receiver.accepted == [] && y.sender.phase == S.Finished
  }

  lemma SilentStep(stream: seq<byte>, y: System, m: Move)
    requires Silent(y) && Enabled(y, m)
    ensures Silent(Apply(stream, y, m))
  {
  }

  lemma {:induction false} NothingSentForEmpty(stream: seq<byte>, moves: seq<Move>)
    requires stream == [] && Legal(stream, moves)
    ensures Silent(After(stream, moves))
  {
    if moves != [] {
      NothingSentForEmpty(stream, moves[..|moves| - 1]);
      SilentStep(stream, After(stream, moves[..|moves| - 1]), moves[|moves| - 1]);
    }
  }

  // ----- The two safety properties -----

  /** In every reachable state the accepted bytes are a prefix of the stream. */
  lemma PrefixSafety(stream: seq<byte>, moves: seq<Move>)
    requires |stream| < 65536 * 512 && Legal(stream, moves) && Uninterrupted(moves)
    ensures Flatten(After(stream, moves).receiver.accepted) <= stream
  {
    if stream == [] {
      NothingSentForEmpty(stream, moves);
    } else {
      var k := Invariant(stream, moves);
      AcceptedPrefix(stream, After(stream, moves).receiver, |After(stream, moves).receiver.accepted|);
    }
  }

  /** A sender that has left its loop at the end of the file leaves a receiver that has all of it. */
  lemma Delivery(stream: seq<byte>, moves: seq<Move>)
    requires |stream| < 65535 * 512 && Legal(stream, moves) && Uninterrupted(moves)
    ensures Reliable(stream, After(stream, moves).sender, After(stream, moves).receiver)
  {
    if stream == [] {
      NothingSentForEmpty(stream, moves);
    } else {
      var k := Invariant(stream, moves);
      AcceptedPrefix(stream, After(stream, moves).receiver, |After(stream, moves).receiver.accepted|);
    }
  }
}
