/** Sender and receiver joined by two channels that keep order but may lose and duplicate. */
module TftpOrdered {
  import opened Bytes
  import opened Tftp
  import opened TftpTransfer
  import S = TftpSender
  import R = TftpReceiver

  /** The oldest packet of a channel comes first. */
  datatype System = System(sender: S.Sender, receiver: R.Receiver, data: seq<Packet>, acks: seq<Packet>)

  datatype Channel = DataChannel | AckChannel

  /** A Receive report always takes the oldest packet; Lose and Duplicate hit any position. */
  datatype Move =
    | AtSender(e: Event)
    | AtReceiver(e: Event)
    | Lose(channel: Channel, at: nat)
    | Duplicate(channel: Channel, at: nat)

  function Initial(stream: seq<byte>): System {
    System(S.Start(stream).0, R.Start().0, S.Start(stream).1, R.Start().1)
  }

  function Content(y: System, c: Channel): seq<Packet> {
    if c == DataChannel then y.data else y.acks
  }

  predicate Enabled(y: System, m: Move) {
    match m
    case AtSender(e) => e.Receive? ==> y.acks != [] && e.packet == y.acks[0]
    case AtReceiver(e) => e.Receive? ==> y.data != [] && e.packet == y.data[0]
    case Lose(c, at) => at < |Content(y, c)|
    case Duplicate(c, at) => at < |Content(y, c)|
  }

  function Without<T>(s: seq<T>, at: nat): seq<T>
    requires at < |s|
  {
    s[..at] + s[at + 1..]
  }

  function Doubled<T>(s: seq<T>, at: nat): seq<T>
    requires at < |s|
  {
    s[..at + 1] + s[at..]
  }

  function Replace(y: System, c: Channel, content: seq<Packet>): System {
    if c == DataChannel then y.(data := content) else y.(acks := content)
  }

  function Apply(stream: seq<byte>, y: System, m: Move): System
    requires Enabled(y, m)
  {
    match m
    case AtSender(e) =>
      var (s, sent) := S.Step(stream, y.sender, e);
      System(s, y.receiver, y.data + sent, if e.Receive? then y.acks[1..] else y.acks)
    case AtReceiver(e) =>
      var (r, sent) := R.Step(y.receiver, e);
      System(y.sender, r, if e.Receive? then y.data[1..] else y.data, y.acks + sent)
    case Lose(c, at) => Replace(y, c, Without(Content(y, c), at))
    case Duplicate(c, at) => Replace(y, c, Doubled(Content(y, c), at))
  }

  datatype Outcome = Reached(system: System) | Illegal

  /** The state after a run; Illegal when some move was not enabled. */
  function After(stream: seq<byte>, moves: seq<Move>): Outcome {
    if moves == [] then Reached(Initial(stream))
    else
      var y := After(stream, moves[..|moves| - 1]);
      var m := moves[|moves| - 1];
      if y.Reached? && Enabled(y.system, m) then Reached(Apply(stream, y.system, m)) else Illegal
  }

  ghost predicate Uninterrupted(moves: seq<Move>) {
    AtSender(Interrupted) !in moves
  }

  // ----- The invariant, in terms of true block indices that never wrap -----

  /** The indices never decrease and lie between lo and hi. */
  ghost predicate Ascending(indices: seq<nat>, lo: nat, hi: nat) {
    && (forall x, z :: 0 <= x < z < |indices| ==> indices[x] <= indices[z])
    && (forall x :: 0 <= x < |indices| ==> lo <= indices[x] <= hi)
  }

  ghost predicate CarriesData(stream: seq<byte>, data: seq<Packet>, indices: seq<nat>) {
    && |data| == |indices|
    && forall x :: 0 <= x < |data| ==>
         1 <= indices[x] <= BlockCount(stream) && data[x] == DataPacket(stream, indices[x])
  }

  ghost predicate CarriesAcks(acks: seq<Packet>, indices: seq<nat>) {
    |acks| == |indices| && forall x :: 0 <= x < |acks| ==> acks[x] == Ack(Wrap(indices[x]))
  }

  ghost predicate DataFlight(stream: seq<byte>, data: seq<Packet>, di: seq<nat>, lo: nat, hi: nat) {
    CarriesData(stream, data, di) && Ascending(di, lo, hi)
  }

  ghost predicate AckFlight(acks: seq<Packet>, ai: seq<nat>, lo: nat, hi: nat) {
    CarriesAcks(acks, ai) && Ascending(ai, lo, hi)
  }

  /**
   The sender stands at block k and the receiver has accepted a blocks, where a is
   k - 1 or k. Data in flight lies between a and k, acknowledgements between
   k - 1 and a, both in order.
   */
  ghost predicate Inv(stream: seq<byte>, y: System, k: nat, di: seq<nat>, ai: seq<nat>) {
    var a := |y.receiver.accepted|;
    && stream != [] && 1 <= k <= BlockCount(stream)
    && (y.sender.phase == S.Waiting ==> S.At(stream, y.sender, k))
    && Accepted(stream, y.receiver, a)
    && k - 1 <= a <= k
    && DataFlight(stream, y.data, di, a, k)
    && AckFlight(y.acks, ai, k - 1, a)
    && (y.sender.phase == S.Finished ==> a == BlockCount(stream))
  }

  /** Indices that are at most one apart are told apart by their 16-bit numbers. */
  lemma WrapNear(i: nat, j: nat)
    requires Wrap(i) == Wrap(j) && i <= j + 1 && j <= i + 1
    ensures i == j
  {
  }

  // How sending, delivering, losing and duplicating change what is in flight.

  lemma DataSent(stream: seq<byte>, data: seq<Packet>, di: seq<nat>, lo: nat, hi: nat, sent: seq<Packet>, k: nat)
    returns (di': seq<nat>)
    requires DataFlight(stream, data, di, lo, hi) && lo <= k && hi <= k && 1 <= k <= BlockCount(stream)
    requires sent == [] || sent == [DataPacket(stream, k)]
    ensures DataFlight(stream, data + sent, di', lo, k)
  {
    di' := if sent == [] then di else di + [k];
    assert sent == [] ==> data + sent == data;
  }

  lemma AcksSent(acks: seq<Packet>, ai: seq<nat>, lo: nat, hi: nat, sent: seq<Packet>, a: nat)
    returns (ai': seq<nat>)
    requires AckFlight(acks, ai, lo, hi) && lo <= a && hi <= a && (sent == [] || sent == [Ack(Wrap(a))])
    ensures AckFlight(acks + sent, ai', lo, a)
  {
    ai' := if sent == [] then ai else ai + [a];
    assert sent == [] ==> acks + sent == acks;
  }

  lemma DataDelivered(stream: seq<byte>, data: seq<Packet>, di: seq<nat>, lo: nat, hi: nat)
    requires DataFlight(stream, data, di, lo, hi) && data != []
    ensures lo <= di[0] <= hi && 1 <= di[0] <= BlockCount(stream) && data[0] == DataPacket(stream, di[0])
    ensures DataFlight(stream, data[1..], di[1..], di[0], hi)
  {
  }

  lemma AckDelivered(acks: seq<Packet>, ai: seq<nat>, lo: nat, hi: nat)
    requires AckFlight(acks, ai, lo, hi) && acks != []
    ensures lo <= ai[0] <= hi && acks[0] == Ack(Wrap(ai[0]))
    ensures AckFlight(acks[1..], ai[1..], ai[0], hi)
  {
  }

  lemma AscendingHit(indices: seq<nat>, lo: nat, hi: nat, at: nat)
    requires Ascending(indices, lo, hi) && at < |indices|
    ensures Ascending(Without(indices, at), lo, hi) && Ascending(Doubled(indices, at), lo, hi)
  {
  }

  lemma DataHit(stream: seq<byte>, data: seq<Packet>, di: seq<nat>, at: nat)
    requires CarriesData(stream, data, di) && at < |data|
    ensures CarriesData(stream, Without(data, at), Without(di, at))
    ensures CarriesData(stream, Doubled(data, at), Doubled(di, at))
  {
  }

  lemma AckHit(acks: seq<Packet>, ai: seq<nat>, at: nat)
    requires CarriesAcks(acks, ai) && at < |acks|
    ensures CarriesAcks(Without(acks, at), Without(ai, at))
    ensures CarriesAcks(Doubled(acks, at), Doubled(ai, at))
  {
  }

  lemma InvStart(stream: seq<byte>)
    requires stream != []
    ensures Inv(stream, Initial(stream), 1, [1], [0])
  {
    S.StartAt(stream);
    assert Chunks(stream, 0) == [];
  }

  lemma InvReceiver(stream: seq<byte>, y: System, k: nat, di: seq<nat>, ai: seq<nat>, e: Event)
    returns (di': seq<nat>, ai': seq<nat>)
    requires Inv(stream, y, k, di, ai) && Enabled(y, AtReceiver(e))
    ensures Inv(stream, Apply(stream, y, AtReceiver(e)), k, di', ai')
  {
    var a := |y.receiver.accepted|;
    var (r, acks) := R.Step(y.receiver, e);
    var i := k;
    di' := di;
    if e.Receive? {
      DataDelivered(stream, y.data, di, a, k);
      i := di[0];
      di' := di[1..];
      if Wrap(i) == Wrap(a + 1) {
        WrapNear(i, a + 1);
      }
    }
    ReceiverMoves(stream, y.receiver, a, e, i);
    ai' := AcksSent(y.acks, ai, k - 1, a, acks, |r.accepted|);
  }

  lemma InvSender(stream: seq<byte>, y: System, k: nat, di: seq<nat>, ai: seq<nat>, e: Event)
    returns (k': nat, di': seq<nat>, ai': seq<nat>)
    requires Inv(stream, y, k, di, ai) && Enabled(y, AtSender(e)) && e != Interrupted
    ensures Inv(stream, Apply(stream, y, AtSender(e)), k', di', ai')
  {
    var a := |y.receiver.accepted|;
    k', ai' := k, ai;
    if e.Receive? {
      AckDelivered(y.acks, ai, k - 1, a);
      ai' := ai[1..];
      if Wrap(ai[0]) == Wrap(k) {
        WrapNear(ai[0], k);
      }
    }
    if y.sender.phase == S.Waiting {
      S.StepAt(stream, y.sender, k, e);
      k' := S.NextIndex(stream, k, e);
    }
    di' := DataSent(stream, y.data, di, a, k, S.Step(stream, y.sender, e).1, k');
  }

  lemma InvNetwork(stream: seq<byte>, y: System, k: nat, di: seq<nat>, ai: seq<nat>, m: Move)
    returns (di': seq<nat>, ai': seq<nat>)
    requires Inv(stream, y, k, di, ai) && Enabled(y, m) && (m.Lose? || m.Duplicate?)
    ensures Inv(stream, Apply(stream, y, m), k, di', ai')
  {
    var a := |y.receiver.accepted|;
    di', ai' := di, ai;
    if m.channel == DataChannel {
      AscendingHit(di, a, k, m.at);
      DataHit(stream, y.data, di, m.at);
      di' := if m.Lose? then Without(di, m.at) else Doubled(di, m.at);
    } else {
      AscendingHit(ai, k - 1, a, m.at);
      AckHit(y.acks, ai, m.at);
      ai' := if m.Lose? then Without(ai, m.at) else Doubled(ai, m.at);
    }
  }

  lemma {:induction false} Invariant(stream: seq<byte>, moves: seq<Move>)
    returns (k: nat, di: seq<nat>, ai: seq<nat>)
    requires stream != [] && After(stream, moves).Reached? && Uninterrupted(moves)
    ensures Inv(stream, After(stream, moves).system, k, di, ai)
  {
    if moves == [] {
      InvStart(stream);
      k, di, ai := 1, [1], [0];
    } else {
      k, di, ai := Invariant(stream, moves[..|moves| - 1]);
      var y, m := After(stream, moves[..|moves| - 1]).system, moves[|moves| - 1];
      assert m in moves;
      match m {
        case AtReceiver(e) => di, ai := InvReceiver(stream, y, k, di, ai, e);
        case AtSender(e) => k, di, ai := InvSender(stream, y, k, di, ai, e);
        case _ => di, ai := InvNetwork(stream, y, k, di, ai, m);
      }
    }
  }

  ghost predicate Silent(y: System) {
    y.data == [] && y.receiver.accepted == [] && y.sender.phase == S.Finished
  }

  lemma SilentStep(stream: seq<byte>, y: System, m: Move)
    requires Silent(y) && Enabled(y, m)
    ensures Silent(Apply(stream, y, m))
  {
  }

  lemma {:induction false} NothingSentForEmpty(stream: seq<byte>, moves: seq<Move>)
    requires stream == [] && After(stream, moves).Reached?
    ensures Silent(After(stream, moves).system)
  {
    if moves != [] {
      NothingSentForEmpty(stream, moves[..|moves| - 1]);
      SilentStep(stream, After(stream, moves[..|moves| - 1]).system, moves[|moves| - 1]);
    }
  }

  /**
   Over an order-keeping network, for streams of any length, the accepted bytes
   are a prefix of the stream in every reachable state, and a sender that has
   finished leaves a receiver that has the whole of it.
   */
  lemma SafeAtAnyLength(stream: seq<byte>, moves: seq<Move>)
    requires After(stream, moves).Reached? && Uninterrupted(moves)
    ensures var y := After(stream, moves).system;
      Flatten(y.receiver.accepted) <= stream && Reliable(stream, y.sender, y.receiver)
  {
    if stream == [] {
      NothingSentForEmpty(stream, moves);
    } else {
      var k, di, ai := Invariant(stream, moves);
      var r := After(stream, moves).system.receiver;
      AcceptedPrefix(stream, r, |r.accepted|);
    }
  }

  /** Everything in flight is within one block of the sender, and of what the receiver has accepted. */
  lemma InFlightIsNear(stream: seq<byte>, moves: seq<Move>)
    requires stream != [] && After(stream, moves).Reached? && Uninterrupted(moves)
    ensures exists k, di, ai ::
              && Inv(stream, After(stream, moves).system, k, di, ai)
              && (forall x :: 0 <= x < |di| ==> k - 1 <= di[x] <= k)
              && (forall x :: 0 <= x < |ai| ==> k - 1 <= ai[x] <= k)
  {
    var k, di, ai := Invariant(stream, moves);
  }
}
