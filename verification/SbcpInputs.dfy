/** What each input does to everyone's queue, and to who is online. */
module SbcpInputs {
  import opened Bytes
  import opened Sbcp
  import opened SbcpMessages
  import opened SbcpLog
  import opened SbcpServer
  import opened SbcpServerRuns
  import opened SbcpGuarantees

  /** A run that is still going. */
  ghost predicate Up(max: nat, inputs: seq<Input>) {
    After(max, inputs).Reached? && !After(max, inputs).state.crashed
  }

  ghost function Users(max: nat, inputs: seq<Input>): seq<Name>
    requires Up(max, inputs)
  {
    After(max, inputs).state.onlineUsers
  }

  lemma UserIsConnected(max: nat, inputs: seq<Input>, u: Name)
    requires Up(max, inputs)
    ensures Inv(max, After(max, inputs).state)
    ensures u in Users(max, inputs) <==> u in After(max, inputs).state.rdFifos
    ensures u in Users(max, inputs) <==> u in After(max, inputs).state.wrFifos
  {
    Invariant(max, inputs);
    assert u in Members(Users(max, inputs)) <==> u in Users(max, inputs);
  }

  /** A broadcast by u: v gets it at the end of its queue unless v is u. */
  lemma BroadcastReaches(max: nat, inputs: seq<Input>, more: seq<Input>, u: Name, m: Message, v: Name)
    requires OnlineAfter(max, inputs, v) && OnlineAfter(max, more, v)
    requires After(max, more).state.log == After(max, inputs).state.log + [Broadcast(u, m)]
    requires !IsJoin(Broadcast(u, m), v)
    ensures QueueOf(max, more, v) == if u == v then QueueOf(max, inputs, v) else QueueOf(max, inputs, v) + [m]
  {
    QueueIsFeed(max, inputs, v);
    QueueIsFeed(max, more, v);
    FeedAppend(After(max, inputs).state.log, Broadcast(u, m), v);
  }

  // ----- Messages from clients -----

  /** The message that everyone else gets when u's message is relayed. */
  function RelayedAs(kind: nat, m: Message, u: Name): Message {
    Message(kind, m.attributes + [Attribute(2, u)])
  }

  lemma RelayOutcome(max: nat, inputs: seq<Input>, u: Name, m: Message, kind: nat)
    requires OnlineAfter(max, inputs, u) && WellFormed(m)
    requires (m.kind == 4 && kind == 3) || (m.kind == 9 && kind == 9)
    ensures var more := inputs + [FromClient(u, m)];
      && Up(max, more) && Users(max, more) == Users(max, inputs)
      && After(max, more).state.log == After(max, inputs).state.log + [Broadcast(u, RelayedAs(kind, m, u))]
  {
    UserIsConnected(max, inputs, u);
    AfterAppend(max, inputs, FromClient(u, m));
  }

  /** A SEND by u reaches every other user as a FWD with u's name, and u itself gets nothing. */
  lemma SendIsForwarded(max: nat, inputs: seq<Input>, u: Name, v: Name, m: Message)
    requires OnlineAfter(max, inputs, u) && OnlineAfter(max, inputs, v) && WellFormed(m) && m.kind == 4
    ensures OnlineAfter(max, inputs + [FromClient(u, m)], v)
    ensures QueueOf(max, inputs + [FromClient(u, m)], v)
         == QueueOf(max, inputs, v) + if u == v then [] else [Message(3, m.attributes + [Attribute(2, u)])]
  {
    RelayOutcome(max, inputs, u, m, 3);
    BroadcastReaches(max, inputs, inputs + [FromClient(u, m)], u, RelayedAs(3, m, u), v);
  }

  /** An IDLE by u reaches every other user as an IDLE with u's name added. */
  lemma IdleIsForwarded(max: nat, inputs: seq<Input>, u: Name, v: Name, m: Message)
    requires OnlineAfter(max, inputs, u) && OnlineAfter(max, inputs, v) && WellFormed(m) && m.kind == 9
    ensures OnlineAfter(max, inputs + [FromClient(u, m)], v)
    ensures QueueOf(max, inputs + [FromClient(u, m)], v)
         == QueueOf(max, inputs, v) + if u == v then [] else [Message(9, m.attributes + [Attribute(2, u)])]
  {
    RelayOutcome(max, inputs, u, m, 9);
    BroadcastReaches(max, inputs, inputs + [FromClient(u, m)], u, RelayedAs(9, m, u), v);
  }

  /** Any other message from a client changes nothing at all. */
  lemma OthersAreDropped(max: nat, inputs: seq<Input>, u: Name, m: Message)
    requires OnlineAfter(max, inputs, u) && WellFormed(m) && m.kind != 4 && m.kind != 9
    ensures After(max, inputs + [FromClient(u, m)]) == After(max, inputs)
  {
    UserIsConnected(max, inputs, u);
    AfterAppend(max, inputs, FromClient(u, m));
  }

  // ----- Departures -----

  /** After u has left it is in none of the collections, and the others stay in their order. */
  lemma LeaveRemoves(max: nat, inputs: seq<Input>, u: Name)
    requires OnlineAfter(max, inputs, u)
    ensures var more := inputs + [Leave(u)];
      && Up(max, more)
      && var s, s' := After(max, inputs).state, After(max, more).state;
         && u !in s'.onlineUsers && u !in s'.rdFifos && u !in s'.wrFifos
         && Members(s'.onlineUsers) == Members(s.onlineUsers) - {u}
         && s'.log == s.log + [Broadcast(u, Message(6, [Attribute(2, u)]))]
  {
    UserIsConnected(max, inputs, u);
    AfterAppend(max, inputs, Leave(u));
    RemoveMembers(Users(max, inputs), u);
    assert u !in Members(Users(max, inputs + [Leave(u)]));
  }

  /** Every other user is told once. */
  lemma LeaveIsTold(max: nat, inputs: seq<Input>, u: Name, v: Name)
    requires OnlineAfter(max, inputs, u) && OnlineAfter(max, inputs, v) && u != v
    ensures OnlineAfter(max, inputs + [Leave(u)], v)
    ensures QueueOf(max, inputs + [Leave(u)], v) == QueueOf(max, inputs, v) + [Message(6, [Attribute(2, u)])]
  {
    LeaveRemoves(max, inputs, u);
    assert v in Members(Users(max, inputs)) && v in Members(Users(max, inputs + [Leave(u)]));
    BroadcastReaches(max, inputs, inputs + [Leave(u)], u, Message(6, [Attribute(2, u)]), v);
  }

  // ----- Joins -----

  /** A new connection. */
  ghost predicate IsNew(max: nat, inputs: seq<Input>, c: Connection)
    requires Up(max, inputs)
  {
    c !in After(max, inputs).state.queues
  }

  /** A name that is taken: the new connection gets that refusal, and nothing else changes. */
  lemma TakenNameIsRefused(max: nat, inputs: seq<Input>, c: Connection, name: Name)
    requires OnlineAfter(max, inputs, name) && IsNew(max, inputs, c)
    ensures var s := After(max, inputs).state;
      After(max, inputs + [Join(c, name)])
      == Reached(s.(queues := s.queues[c := [Message(5, [Attribute(1, Ascii("Username already exists"))])]]))
  {
    UserIsConnected(max, inputs, name);
    AfterAppend(max, inputs, Join(c, name));
  }

  /** A full server: likewise, with its own reason. */
  lemma FullServerRefuses(max: nat, inputs: seq<Input>, c: Connection, name: Name)
    requires Up(max, inputs) && IsNew(max, inputs, c) && name !in Users(max, inputs) && |Users(max, inputs)| == max
    ensures var s := After(max, inputs).state;
      After(max, inputs + [Join(c, name)])
      == Reached(s.(queues := s.queues[c := [Message(5, [Attribute(1, Ascii("Maximum clients limit"))])]]))
  {
    UserIsConnected(max, inputs, name);
    AfterAppend(max, inputs, Join(c, name));
  }

  /** Otherwise the server goes down exactly when the names of those online do not fit an acknowledgement. */
  lemma JoinCrashesExactly(max: nat, inputs: seq<Input>, c: Connection, name: Name)
    requires Up(max, inputs) && IsNew(max, inputs, c) && name !in Users(max, inputs) && |Users(max, inputs)| < max
    ensures After(max, inputs + [Join(c, name)]).Reached?
    ensures After(max, inputs + [Join(c, name)]).state.crashed <==> 6 + NamesSize(Users(max, inputs)) > 1024
  {
    UserIsConnected(max, inputs, name);
    AfterAppend(max, inputs, Join(c, name));
    JoinOutcome(max, After(max, inputs).state, c, name);
  }

  ghost predicate Admits(max: nat, inputs: seq<Input>, c: Connection, name: Name) {
    && Up(max, inputs) && IsNew(max, inputs, c) && name !in Users(max, inputs) && |Users(max, inputs)| < max
    && 6 + NamesSize(Users(max, inputs)) <= 1024
  }

  /** Admitted: the newcomer comes last, on the new connection, which holds the acknowledgement of all the others. */
  lemma JoinAdmits(max: nat, inputs: seq<Input>, c: Connection, name: Name)
    requires Admits(max, inputs, c, name)
    ensures var more := inputs + [Join(c, name)];
      && OnlineAfter(max, more, name)
      && Users(max, more) == Users(max, inputs) + [name]
      && After(max, more).state.log
         == After(max, inputs).state.log + [Broadcast(name, Message(8, [Attribute(2, name)]))]
      && After(max, more).state.wrFifos == After(max, inputs).state.wrFifos[name := c]
      && QueueOf(max, more, name) == [Acknowledgement(Users(max, inputs))]
  {
    UserIsConnected(max, inputs, name);
    AfterAppend(max, inputs, Join(c, name));
    JoinCrashesExactly(max, inputs, c, name);
    var log, b := After(max, inputs).state.log, Broadcast(name, Online(name));
    QueueIsFeed(max, inputs + [Join(c, name)], name);
    FeedAppend(log, b, name);
  }

  /** Every other user is told once. */
  lemma JoinIsTold(max: nat, inputs: seq<Input>, c: Connection, name: Name, v: Name)
    requires Admits(max, inputs, c, name) && OnlineAfter(max, inputs, v)
    ensures OnlineAfter(max, inputs + [Join(c, name)], v)
    ensures QueueOf(max, inputs + [Join(c, name)], v) == QueueOf(max, inputs, v) + [Message(8, [Attribute(2, name)])]
  {
    JoinAdmits(max, inputs, c, name);
    BroadcastReaches(max, inputs, inputs + [Join(c, name)], name, Message(8, [Attribute(2, name)]), v);
  }
}
