/** Runs that show the guarantees of the reordering network are not vacuous and cannot be extended. */
module TftpLimits {
  import opened Bytes
  import opened Tftp
  import opened TftpTransfer
  import opened TftpReordering
  import S = TftpSender
  import R = TftpReceiver

  /** After n rounds of block and acknowledgement, with everything written still in the network. */
  ghost predicate InStep(stream: seq<byte>, y: System, n: nat) {
    && n < BlockCount(stream)
    && S.At(stream, y.sender, n + 1)
    && Accepted(stream, y.receiver, n) && y.receiver.phase == R.Listening
    && HasData(stream, y.data, n + 1) && HasAcks(y.acks, n)
  }

  ghost predicate HasData(stream: seq<byte>, data: set<Packet>, n: nat)
    requires n <= BlockCount(stream)
  {
    forall i :: 1 <= i <= n ==> DataPacket(stream, i) in data
  }

  ghost predicate HasAcks(acks: set<Packet>, n: nat) {
    forall j :: 0 <= j <= n ==> Ack(Wrap(j)) in acks
  }

  lemma HasMoreData(stream: seq<byte>, data: set<Packet>, n: nat)
    requires n < BlockCount(stream) && HasData(stream, data, n)
    ensures HasData(stream, data + {DataPacket(stream, n + 1)}, n + 1)
  {
  }

  lemma HasMoreAcks(acks: set<Packet>, n: nat)
    requires HasAcks(acks, n)
    ensures HasAcks(acks + {Ack(Wrap(n + 1))}, n + 1)
  {
  }

  lemma AfterOne(stream: seq<byte>, moves: seq<Move>, m: Move)
    requires Legal(stream, moves) && Uninterrupted(moves)
    requires Enabled(After(stream, moves), m) && m != AtSender(Interrupted)
    ensures Legal(stream, moves + [m]) && Uninterrupted(moves + [m])
    ensures After(stream, moves + [m]) == Apply(stream, After(stream, moves), m)
  {
    assert (moves + [m])[..|moves|] == moves && (moves + [m])[|moves|] == m;
  }

  /** The receiver takes block n + 1 and acknowledges it. */
  lemma ReceiverHalf(stream: seq<byte>, moves: seq<Move>, n: nat) returns (moves': seq<Move>)
    requires Legal(stream, moves) && Uninterrupted(moves) && InStep(stream, After(stream, moves), n)
    ensures Legal(stream, moves') && Uninterrupted(moves')
    ensures var y, y' := After(stream, moves), After(stream, moves');
      && y'.sender == y.sender && y'.data == y.data
      && Accepted(stream, y'.receiver, n + 1) && y'.acks == y.acks + {Ack(Wrap(n + 1))}
      && (n + 1 < BlockCount(stream) ==> y'.receiver.phase == R.Listening)
  {
    var y := After(stream, moves);
    var e := Receive(DataPacket(stream, n + 1));
    AfterOne(stream, moves, AtReceiver(e));
    moves' := moves + [AtReceiver(e)];
    ReceiverMoves(stream, y.receiver, n, e, n + 1);
    R.StepKeepsValid(y.receiver, e);
    ChunkLength(stream, n + 1);
  }

  lemma StartsInStep(stream: seq<byte>)
    requires stream != []
    ensures InStep(stream, Initial(stream), 0)
  {
    S.StartAt(stream);
    assert Chunks(stream, 0) == [];
    assert Ack(Wrap(0)) in Initial(stream).acks;
  }

  /** The sender takes that acknowledgement and writes the next block. */
  lemma SenderHalf(stream: seq<byte>, y: System, z: System, n: nat)
    requires InStep(stream, y, n) && n + 1 < BlockCount(stream)
    requires z.sender == y.sender && z.data == y.data && z.acks == y.acks + {Ack(Wrap(n + 1))}
    requires Accepted(stream, z.receiver, n + 1) && z.receiver.phase == R.Listening
    ensures InStep(stream, Apply(stream, z, AtSender(Receive(Ack(Wrap(n + 1))))), n + 1)
  {
    var e := Receive(Ack(Wrap(n + 1)));
    S.StepAt(stream, z.sender, n + 1, e);
    var sent := S.Step(stream, z.sender, e).1;
    assert sent == [DataPacket(stream, n + 2)];
    assert (set p | p in sent) == {DataPacket(stream, n + 2)};
    HasMoreData(stream, z.data, n + 1);
    HasMoreAcks(y.acks, n);
  }

  lemma NextRound(stream: seq<byte>, moves: seq<Move>, n: nat) returns (moves': seq<Move>)
    requires Reaches(stream, moves, n) && n + 1 < BlockCount(stream)
    ensures Reaches(stream, moves', n + 1)
  {
    var half := ReceiverHalf(stream, moves, n);
    var m := AtSender(Receive(Ack(Wrap(n + 1))));
    AfterOne(stream, half, m);
    moves' := half + [m];
    SenderHalf(stream, After(stream, moves), After(stream, half), n);
  }

  /** The run gets to the state after n rounds. */
  ghost predicate Reaches(stream: seq<byte>, moves: seq<Move>, n: nat) {
    Legal(stream, moves) && Uninterrupted(moves) && InStep(stream, After(stream, moves), n)
  }

  lemma NoMoves(stream: seq<byte>, moves: seq<Move>)
    requires stream != [] && moves == []
    ensures Reaches(stream, moves, 0)
  {
    StartsInStep(stream);
  }

  lemma {:induction false} Lockstep(stream: seq<byte>, n: nat) returns (moves: seq<Move>)
    requires stream != [] && n < BlockCount(stream)
    ensures Reaches(stream, moves, n)
  {
    if n == 0 {
      moves := [];
      NoMoves(stream, moves);
    } else {
      moves := Lockstep(stream, n - 1);
      moves := NextRound(stream, moves, n - 1);
    }
  }

  lemma LastAck(stream: seq<byte>, y: System)
    requires S.At(stream, y.sender, BlockCount(stream))
    ensures var y' := Apply(stream, y, AtSender(Receive(Ack(Wrap(BlockCount(stream))))));
      y'.sender.phase == S.Finished && y'.receiver == y.receiver
  {
    S.StepAt(stream, y.sender, BlockCount(stream), Receive(Ack(Wrap(BlockCount(stream)))));
  }

  lemma LastRound(stream: seq<byte>, moves: seq<Move>) returns (moves': seq<Move>)
    requires stream != [] && Legal(stream, moves) && Uninterrupted(moves)
    requires InStep(stream, After(stream, moves), BlockCount(stream) - 1)
    ensures Legal(stream, moves') && Uninterrupted(moves')
    ensures After(stream, moves').sender.phase == S.Finished
    ensures Accepted(stream, After(stream, moves').receiver, BlockCount(stream))
  {
    var half := ReceiverHalf(stream, moves, BlockCount(stream) - 1);
    var m := AtSender(Receive(Ack(Wrap(BlockCount(stream)))));
    LastAck(stream, After(stream, half));
    AfterOne(stream, half, m);
    moves' := half + [m];
  }

  /** For every stream there is a run that ends with the sender finished and the file delivered. */
  lemma TransferCanComplete(stream: seq<byte>) returns (moves: seq<Move>)
    ensures Legal(stream, moves) && Uninterrupted(moves)
    ensures After(stream, moves).sender.phase == S.Finished
    ensures Delivered(stream, After(stream, moves).receiver)
  {
    if stream == [] {
      moves := [];
      NothingSentForEmpty(stream, []);
    } else {
      moves := Lockstep(stream, BlockCount(stream) - 1);
      moves := LastRound(stream, moves);
      AcceptedPrefix(stream, After(stream, moves).receiver, BlockCount(stream));
    }
  }

  // ----- Too many blocks -----

  /** Once every block number has been acknowledged, old acknowledgements carry the sender to the end. */
  lemma {:induction false} StaleAcks(stream: seq<byte>, moves: seq<Move>, m: nat) returns (moves': seq<Move>)
    requires Legal(stream, moves) && Uninterrupted(moves)
    requires S.At(stream, After(stream, moves).sender, m)
    requires forall b: BlockNumber :: Ack(b) in After(stream, moves).acks
    ensures Legal(stream, moves') && Uninterrupted(moves')
    ensures After(stream, moves').sender.phase == S.Finished
    ensures After(stream, moves').receiver == After(stream, moves).receiver
    decreases BlockCount(stream) - m
  {
    var e := Receive(Ack(Wrap(m)));
    S.StepAt(stream, After(stream, moves).sender, m, e);
    AfterOne(stream, moves, AtSender(e));
    moves' := moves + [AtSender(e)];
    if m < BlockCount(stream) {
      moves' := StaleAcks(stream, moves', m + 1);
    }
  }

  /** With 65536 blocks or more the sender can finish while the receiver still waits for a block. */
  lemma TooLongToDeliver(stream: seq<byte>) returns (moves: seq<Move>)
    requires |stream| >= 65535 * 512
    ensures Legal(stream, moves) && Uninterrupted(moves)
    ensures After(stream, moves).sender.phase == S.Finished
    ensures After(stream, moves).receiver.phase == R.Listening
  {
    var before := Lockstep(stream, 65535);
    forall b: BlockNumber ensures Ack(b) in After(stream, before).acks {
      assert Ack(Wrap(b)) in After(stream, before).acks;
    }
    moves := StaleAcks(stream, before, 65536);
  }

  lemma TooLongForPrefix(stream: seq<byte>) returns (moves: seq<Move>)
    requires |stream| >= 65536 * 512
    requires |stream| > 65536 * 512 ==> stream[65536 * 512] != stream[0]
    ensures Legal(stream, moves) && Uninterrupted(moves)
    ensures !(Flatten(After(stream, moves).receiver.accepted) <= stream)
  {
    var before := Lockstep(stream, 65536);
    var y := After(stream, before);
    var e := Receive(DataPacket(stream, 1));
    AfterOne(stream, before, AtReceiver(e));
    moves := before + [AtReceiver(e)];
    R.StepKeepsValid(y.receiver, e);
    FirstBlockAgain(stream, 65536);
  }

  /** The first n full blocks and then the first again. */
  lemma FirstBlockAgain(stream: seq<byte>, n: nat)
    requires 0 < n && |stream| >= n * 512 && (|stream| > n * 512 ==> stream[n * 512] != stream[0])
    ensures !(Flatten(Chunks(stream, n) + [Chunk(stream, 1)]) <= stream)
  {
    var k := n * 512;
    FlattenChunks(stream, n);
    FlattenOneMore(Chunks(stream, n), Chunk(stream, 1), []);
    var all := Flatten(Chunks(stream, n) + [Chunk(stream, 1)]);
    assert all == all + [] == stream[..k] + Chunk(stream, 1);
    assert |all| > k && all[k] == stream[0];
  }

  // ----- Interrupted waits -----

  function Interrupts(n: nat): seq<Move> { seq(n, _ => AtSender(Interrupted)) }

  /** Each interruption makes the sender drop the block it is waiting for and read the next one. */
  lemma {:induction false} Drain(stream: seq<byte>, n: nat)
    requires stream != [] && n <= BlockCount(stream)
    ensures Legal(stream, Interrupts(n))
    ensures var y := After(stream, Interrupts(n));
      && y.receiver == R.Start().0 && y.sender.timeouts == 0
      && (n == BlockCount(stream) ==> y.sender.phase == S.Finished)
      && (n < BlockCount(stream) ==>
            && y.sender.phase == S.Waiting
            && y.sender.pos == Min(512 * (n + 1), |stream|)
            && y.sender.maxData == (512 * (n + 1) <= |stream|))
  {
    if n == 0 {
      S.StartAt(stream);
      assert Interrupts(0) == [];
    } else {
      Drain(stream, n - 1);
      assert Interrupts(n)[..n - 1] == Interrupts(n - 1);
    }
  }

  // ----- The exact limits -----

  /** Whether every run, with or without interrupted waits, lets a finished sender rely on delivery. */
  ghost predicate AlwaysReliable(stream: seq<byte>, interruptible: bool) {
    forall moves :: Legal(stream, moves) && (interruptible || Uninterrupted(moves)) ==>
      Reliable(stream, After(stream, moves).sender, After(stream, moves).receiver)
  }

  /**
   Over a reordering network a finished sender may rely on delivery exactly for
   streams of fewer than 65535 full blocks, and only if its waits are never
   interrupted; the empty stream alone survives interruptions.
   */
  lemma DeliveryExactly(stream: seq<byte>, interruptible: bool)
    ensures AlwaysReliable(stream, interruptible) <==>
            |stream| < 65535 * 512 && (interruptible ==> stream == [])
  {
    if stream == [] {
      forall moves | Legal(stream, moves)
        ensures Reliable(stream, After(stream, moves).sender, After(stream, moves).receiver)
      { NothingSentForEmpty(stream, moves); }
    } else if |stream| >= 65535 * 512 {
      var moves := TooLongToDeliver(stream);
      assert !Reliable(stream, After(stream, moves).sender, After(stream, moves).receiver);
    } else if interruptible {
      Drain(stream, BlockCount(stream));
      var moves := Interrupts(BlockCount(stream));
      assert !Reliable(stream, After(stream, moves).sender, After(stream, moves).receiver);
    } else {
      forall moves | Legal(stream, moves) && Uninterrupted(moves)
        ensures Reliable(stream, After(stream, moves).sender, After(stream, moves).receiver)
      { Delivery(stream, moves); }
    }
  }

  ghost predicate PrefixSafe(stream: seq<byte>) {
    forall moves :: Legal(stream, moves) && Uninterrupted(moves) ==>
      Flatten(After(stream, moves).receiver.accepted) <= stream
  }

  /** Prefix safety over a reordering network holds for all streams of a length exactly below 65536 blocks. */
  lemma PrefixExactly(length: nat)
    ensures (forall stream: seq<byte> :: |stream| == length ==> PrefixSafe(stream)) <==> length < 65536 * 512
  {
    if length < 65536 * 512 {
      forall stream: seq<byte> | |stream| == length ensures PrefixSafe(stream) {
        forall moves | Legal(stream, moves) && Uninterrupted(moves)
          ensures Flatten(After(stream, moves).receiver.accepted) <= stream
        { PrefixSafety(stream, moves); }
      }
    } else {
      var stream: seq<byte> := seq(length, i => if i == 0 then 1 else 0);
      var moves := TooLongForPrefix(stream);
      assert !PrefixSafe(stream);
    }
  }
}
