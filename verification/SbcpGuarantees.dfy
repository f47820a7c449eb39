/** The promises the chat server makes to its users, over all runs. */
module SbcpGuarantees {
  import opened Bytes
  import opened Sbcp
  import opened SbcpMessages
  import opened SbcpLog
  import opened SbcpServer
  import opened SbcpServerRuns

  /** A run that is still going, ending in state s with user u online. */
  ghost predicate OnlineAfter(max: nat, inputs: seq<Input>, u: Name) {
    var y := After(max, inputs);
    y.Reached? && !y.state.crashed && u in y.state.onlineUsers
  }

  ghost function QueueOf(max: nat, inputs: seq<Input>, u: Name): seq<Message>
    requires OnlineAfter(max, inputs, u)
  {
    var s := After(max, inputs).state;
    if u in s.wrFifos && s.wrFifos[u] in s.queues then s.queues[s.wrFifos[u]] else []
  }

  lemma QueueIsFeed(max: nat, inputs: seq<Input>, u: Name)
    requires OnlineAfter(max, inputs, u)
    ensures Inv(max, After(max, inputs).state)
    ensures QueueOf(max, inputs, u) == Feed(After(max, inputs).state.log, u)
    ensures u in Roster(After(max, inputs).state.log)
  {
    Invariant(max, inputs);
    assert u in Members(After(max, inputs).state.onlineUsers);
  }

  /** The collections agree in every reachable state, so the equality test keeps the number of users in bounds. */
  lemma CollectionsAgree(max: nat, inputs: seq<Input>)
    requires After(max, inputs).Reached? && !After(max, inputs).state.crashed
    ensures var s := After(max, inputs).state;
      && s.rdFifos.Keys == s.wrFifos.Keys == Members(s.onlineUsers)
      && NoDuplicates(s.onlineUsers)
      && |s.onlineUsers| <= max
      && (forall m, n :: m in s.wrFifos && n in s.wrFifos && m != n ==> s.wrFifos[m] != s.wrFifos[n])
      && s.onlineUsers == Roster(s.log)
  {
    Invariant(max, inputs);
  }

  /** An online user's queue is its acknowledgement, then the global log since its join without its own events. */
  lemma QueueIsAckThenLog(max: nat, inputs: seq<Input>, u: Name)
    requires OnlineAfter(max, inputs, u)
    ensures var log := After(max, inputs).state.log; var k := LastJoin(log, u);
      && k < |log| && IsJoin(log[k], u)
      && QueueOf(max, inputs, u) == [Acknowledgement(Roster(log[..k]))] + Messages(Others(u, log[k..]))
  {
    QueueIsFeed(max, inputs, u);
    FeedIsAckThenLog(After(max, inputs).state.log, u);
  }

  /** Any two users get what third parties did in the same order. */
  lemma ThirdPartiesInOneOrder(max: nat, inputs: seq<Input>, u: Name, v: Name) returns (early: seq<Message>)
    requires OnlineAfter(max, inputs, u) && OnlineAfter(max, inputs, v)
    requires LastJoin(After(max, inputs).state.log, u) <= LastJoin(After(max, inputs).state.log, v)
    ensures var log := After(max, inputs).state.log; var k := LastJoin(log, v);
      && QueueOf(max, inputs, u) == early + Messages(Others(u, log[k..]))
      && QueueOf(max, inputs, v) == [Acknowledgement(Roster(log[..k]))] + Messages(Others(v, log[k..]))
      && Others(v, Others(u, log[k..])) == Others(u, Others(v, log[k..]))
  {
    QueueIsFeed(max, inputs, u);
    QueueIsFeed(max, inputs, v);
    early := SameOrder(After(max, inputs).state.log, u, v);
  }

  /** Folding the whole queue gives the current roster without the user itself. */
  lemma QueueTellsRoster(max: nat, inputs: seq<Input>, u: Name)
    requires OnlineAfter(max, inputs, u)
    ensures ClientView(QueueOf(max, inputs, u)) == Members(After(max, inputs).state.onlineUsers) - {u}
  {
    QueueIsFeed(max, inputs, u);
    ViewIsRoster(After(max, inputs).state.log, u);
  }

  /** Folding any delivered part that includes the acknowledgement gives a roster of some moment since the join. */
  lemma PrefixTellsEarlierRoster(max: nat, inputs: seq<Input>, u: Name, n: nat) returns (m: nat)
    requires OnlineAfter(max, inputs, u) && 1 <= n <= |QueueOf(max, inputs, u)|
    ensures var log := After(max, inputs).state.log;
      && LastJoin(log, u) < m <= |log|
      && u in Roster(log[..m])
      && ClientView(QueueOf(max, inputs, u)[..n]) == Members(Roster(log[..m])) - {u}
  {
    QueueIsFeed(max, inputs, u);
    var log := After(max, inputs).state.log;
    m := FeedPrefix(log, u, n);
    LogOkPrefix(log, m);
    ViewIsRoster(log[..m], u);
  }

  // ----- Queues as bytes -----

  /** The bytes written to the FIFO for a list of messages. */
  function BytesOf(queue: seq<Message>): seq<byte>
    requires forall i :: 0 <= i < |queue| ==> queue[i].kind < 128
  {
    SerializeAll(RawsOf(queue))
  }

  function RawsOf(queue: seq<Message>): seq<Raw>
    requires forall i :: 0 <= i < |queue| ==> queue[i].kind < 128
  {
    seq(|queue|, i requires 0 <= i < |queue| => RawOf(queue[i]))
  }

  /** What a reader of the byte stream makes of it: frames, then attributes. */
  function Understood(raws: seq<Raw>): seq<Result<Message>> {
    seq(|raws|, i requires 0 <= i < |raws| => Decoded(raws[i]))
  }

  /** A reader of the bytes gets back exactly the messages that were written. */
  ghost predicate ReadsBack(queue: seq<Message>)
    requires forall i :: 0 <= i < |queue| ==> queue[i].kind < 128
  {
    && ReadAll(BytesOf(queue)).Ok?
    && var raws := ReadAll(BytesOf(queue)).value;
       |raws| == |queue| && forall i :: 0 <= i < |queue| ==> Understood(raws)[i] == Ok(queue[i])
  }

  /** An IDLE that outgrew its limit when the sender's name was added. */
  ghost predicate Oversized(m: Message) { m.kind == IDLE && |EncodeAll(m.attributes)| > Limit(IDLE) }

  lemma WellFormedReadBack(queue: seq<Message>)
    requires forall i :: 0 <= i < |queue| ==> WellFormed(queue[i])
    ensures forall i :: 0 <= i < |queue| ==> queue[i].kind < 128
    ensures ReadsBack(queue)
  {
    forall i | 0 <= i < |queue|
      ensures queue[i].kind < 128 && Validates(RawOf(queue[i])) && Decoded(RawOf(queue[i])) == Ok(queue[i])
    { MessageRoundTrip(queue[i]); }
    FramingRoundTrip(RawsOf(queue));
  }

  lemma ReadBackWellFormed(queue: seq<Message>, i: nat)
    requires forall k :: 0 <= k < |queue| ==> queue[k].kind < 128
    requires ReadsBack(queue) && i < |queue|
    ensures |EncodeAll(queue[i].attributes)| <= Limit(queue[i].kind)
  {
    var raws := ReadAll(BytesOf(queue)).value;
    assert Understood(raws)[i] == Decoded(raws[i]);
    DecodedExactly(raws[i], queue[i]);
  }

  /**
   Reading the bytes of an online user's queue message by message gives back the
   queue exactly when no IDLE in it is oversized.
   */
  lemma QueueReadsBack(max: nat, inputs: seq<Input>, u: Name)
    requires OnlineAfter(max, inputs, u)
    ensures var q := QueueOf(max, inputs, u);
      && (forall i :: 0 <= i < |q| ==> q[i].kind < 128)
      && (ReadsBack(q) <==> forall i :: 0 <= i < |q| ==> !Oversized(q[i]))
  {
    QueueIsFeed(max, inputs, u);
    FeedWellFormed(After(max, inputs).state.log, u);
    ReadsBackExactly(QueueOf(max, inputs, u));
  }

  lemma ReadsBackExactly(q: seq<Message>)
    requires forall i :: 0 <= i < |q| ==> if q[i].kind == IDLE then AllValid(q[i].attributes) else WellFormed(q[i])
    ensures forall i :: 0 <= i < |q| ==> q[i].kind < 128
    ensures ReadsBack(q) <==> forall i :: 0 <= i < |q| ==> !Oversized(q[i])
  {
    if forall i :: 0 <= i < |q| ==> !Oversized(q[i]) {
      WellFormedReadBack(q);
    } else if ReadsBack(q) {
      var i :| 0 <= i < |q| && Oversized(q[i]);
      ReadBackWellFormed(q, i);
    }
  }

  // ----- When the server stays up -----

  /** The count passed with an acknowledgement always matches: it never exceeds what 16 bits hold. */
  lemma {:induction false} CountAlwaysMatches(max: nat, inputs: seq<Input>)
    requires After(max, inputs).Reached? && !After(max, inputs).state.crashed
    ensures |After(max, inputs).state.onlineUsers| <= 255
    ensures var n := |After(max, inputs).state.onlineUsers| + 1; n % 65536 == n
  {
    Invariant(max, inputs);
    FitsCount(max, After(max, inputs).state);
  }

  lemma FitsCount(max: nat, s: State)
    requires Inv(max, s)
    ensures |s.onlineUsers| <= 255 && (|s.onlineUsers| + 1) % 65536 == |s.onlineUsers| + 1
  {
  }

  lemma StepStaysUp(max: nat, s: State, input: Input)
    requires max <= 51 && Inv(max, s) && Enabled(s, input)
    ensures !Step(max, s, input).crashed
  {
    match input {
      case Join(c, name) => JoinStaysUp(max, s, c, name);
      case _ =>
    }
  }

  lemma JoinStaysUp(max: nat, s: State, c: Connection, name: Name)
    requires !s.crashed && |s.onlineUsers| <= max <= 51
    ensures !DoJoin(max, s, c, name).crashed
  {
    UserAttributesSize(s.onlineUsers);
  }

  lemma {:induction false} SmallServerStaysUp(max: nat, inputs: seq<Input>)
    requires max <= 51 && After(max, inputs).Reached?
    ensures !After(max, inputs).state.crashed
  {
    if inputs != [] {
      var before := inputs[..|inputs| - 1];
      SmallServerStaysUp(max, before);
      Invariant(max, before);
      StepStaysUp(max, After(max, before).state, inputs[|inputs| - 1]);
    }
  }

  /** Distinct user names of the full 16 bytes. */
  function LongName(i: nat): Name
    requires i < 200
  {
    seq(MAX_USERNAME, k => if k == 0 then 1 + i else 65)
  }

  function LongNames(n: nat): seq<Name>
    requires n <= 200
  {
    if n == 0 then [] else LongNames(n - 1) + [LongName(n - 1)]
  }

  lemma {:induction false} LongNamesFacts(n: nat, k: nat)
    requires n <= k < 200
    ensures NamesSize(LongNames(n)) == 20 * n && |LongNames(n)| == n && LongName(k) !in LongNames(n)
  {
    if n > 0 {
      LongNamesFacts(n - 1, k);
      assert LongNames(n)[..n - 1] == LongNames(n - 1);
      assert LongName(k)[0] != LongName(n - 1)[0];
    }
  }

  /** n users with long names are online, on connections below n. */
  ghost predicate Crowded(s: State, n: nat)
    requires n <= 200
  {
    !s.crashed && s.onlineUsers == LongNames(n) && forall c :: c in s.queues ==> c < n
  }

  lemma JoinOutcome(max: nat, s: State, c: Connection, name: Name)
    requires name !in s.rdFifos && |s.onlineUsers| < max && |s.onlineUsers| <= 255
    ensures var s' := Step(max, s, Join(c, name));
      if 6 + NamesSize(s.onlineUsers) > MAX_PAYLOAD then s'.crashed
      else s'.crashed == s.crashed && s'.onlineUsers == s.onlineUsers + [name] && s'.queues.Keys == s.queues.Keys + {c}
  {
  }

  lemma OneMoreJoins(max: nat, s: State, n: nat, name: Name)
    requires 52 <= max && n <= 51 && Inv(max, s) && Crowded(s, n) && name == LongName(n)
    ensures Enabled(s, Join(n, name))
    ensures n < 51 ==> Crowded(Step(max, s, Join(n, name)), n + 1)
    ensures n == 51 ==> Step(max, s, Join(n, name)).crashed
  {
    LongNamesFacts(n, n);
    NotYetOnline(max, s, name);
    JoinOutcome(max, s, n, name);
    if n < 51 {
      StillCrowded(s, Step(max, s, Join(n, name)), n, name);
    }
  }

  lemma StillCrowded(s: State, s': State, n: nat, name: Name)
    requires n < 51 && Crowded(s, n) && name == LongName(n) && !s'.crashed
    requires s'.onlineUsers == s.onlineUsers + [name] && s'.queues.Keys == s.queues.Keys + {n}
    ensures Crowded(s', n + 1)
  {
    forall c | c in s'.queues ensures c < n + 1 {
      assert c in s'.queues.Keys;
    }
  }

  lemma NotYetOnline(max: nat, s: State, name: Name)
    requires Inv(max, s) && name !in s.onlineUsers
    ensures name !in s.rdFifos
  {
    assert name !in Members(s.onlineUsers);
  }

  lemma AfterAppend(max: nat, inputs: seq<Input>, input: Input)
    requires After(max, inputs).Reached? && Enabled(After(max, inputs).state, input)
    ensures After(max, inputs + [input]) == Reached(Step(max, After(max, inputs).state, input))
  {
    assert (inputs + [input])[..|inputs|] == inputs;
  }

  lemma LongerRun(max: nat, inputs: seq<Input>, n: nat)
    requires 52 <= max && n <= 51 && After(max, inputs).Reached? && Crowded(After(max, inputs).state, n)
    ensures var y := After(max, inputs + [Join(n, LongName(n))]);
      && y.Reached?
      && (n < 51 ==> Crowded(y.state, n + 1))
      && (n == 51 ==> y.state.crashed)
  {
    Invariant(max, inputs);
    OneMoreJoins(max, After(max, inputs).state, n, LongName(n));
    AfterAppend(max, inputs, Join(n, LongName(n)));
  }

  lemma {:induction false} ManyJoins(max: nat, n: nat) returns (inputs: seq<Input>)
    requires 52 <= max && n <= 51
    ensures After(max, inputs).Reached? && Crowded(After(max, inputs).state, n)
  {
    if n == 0 {
      inputs := [];
    } else {
      var before := ManyJoins(max, n - 1);
      LongerRun(max, before, n - 1);
      inputs := before + [Join(n - 1, LongName(n - 1))];
    }
  }

  /** The 52nd user with a long name is one too many for an acknowledgement, and the server goes down. */
  lemma LargeServerCanCrash(max: nat) returns (inputs: seq<Input>)
    requires 52 <= max
    ensures After(max, inputs).Reached? && After(max, inputs).state.crashed
  {
    var before := ManyJoins(max, 51);
    LongerRun(max, before, 51);
    inputs := before + [Join(51, LongName(51))];
  }

  /** No run brings the server down exactly when it admits at most 51 users. */
  lemma StaysUpExactly(max: nat)
    ensures (forall inputs :: After(max, inputs).Reached? ==> !After(max, inputs).state.crashed) <==> max <= 51
  {
    if max <= 51 {
      forall inputs | After(max, inputs).Reached? ensures !After(max, inputs).state.crashed {
        SmallServerStaysUp(max, inputs);
      }
    } else {
      var inputs := LargeServerCanCrash(max);
    }
  }
}
