/** The server's broadcasts as one global sequence, and what a single client sees of it. */
module SbcpLog {
  import opened Sequences
  import opened Bytes
  import opened Sbcp
  import opened SbcpMessages

  /** A message sent to everyone but the user it is about. */
  datatype Broadcast = Broadcast(origin: Name, message: Message)

  function Remove(names: seq<Name>, name: Name): seq<Name> {
    if names == [] then []
    else
      var init := Remove(names[..|names| - 1], name);
      if names[|names| - 1] == name then init else init + [names[|names| - 1]]
  }

  function Members<T(==)>(names: seq<T>): set<T> { set n | n in names }

  /** Who is online after these broadcasts, in order of joining. */
  function Roster(log: seq<Broadcast>): seq<Name> {
    if log == [] then []
    else
      var before, b := Roster(log[..|log| - 1]), log[|log| - 1];
      if b.message.kind == ONLINE then before + [b.origin]
      else if b.message.kind == OFFLINE then Remove(before, b.origin)
      else before
  }

  predicate IsJoin(b: Broadcast, u: Name) { b.origin == u && b.message.kind == ONLINE }

  /** The broadcasts that are not u's own. */
  function Others(u: Name, log: seq<Broadcast>): seq<Broadcast> {
    if log == [] then []
    else
      var init := Others(u, log[..|log| - 1]);
      if log[|log| - 1].origin == u then init else init + [log[|log| - 1]]
  }

  function Messages(log: seq<Broadcast>): seq<Message> {
    seq(|log|, i requires 0 <= i < |log| => log[i].message)
  }

  /** Where u joined for the last time. */
  function LastJoin(log: seq<Broadcast>, u: Name): (k: nat)
    ensures k <= |log|
  {
    if log == [] then 0
    else if IsJoin(log[|log| - 1], u) then |log| - 1
    else LastJoin(log[..|log| - 1], u)
  }

  /** What has been queued to u since it last joined. */
  function Feed(log: seq<Broadcast>, u: Name): seq<Message> {
    if log == [] then []
    else
      var init, b := log[..|log| - 1], log[|log| - 1];
      if IsJoin(b, u) then [Acknowledgement(Roster(init))]
      else if b.origin == u then Feed(init, u)
      else Feed(init, u) + [b.message]
  }

  /** A broadcast that may follow these: joins are by users who were not online and could be acknowledged. */
  ghost predicate EntryOk(before: seq<Broadcast>, b: Broadcast) {
    && (if b.message.kind == IDLE then AllValid(b.message.attributes) else WellFormed(b.message))
    && b.message.kind in {ONLINE, OFFLINE, FWD, IDLE}
    && (b.message.kind == ONLINE ==>
          && b.message == Online(b.origin)
          && b.origin !in Roster(before)
          && WellFormed(Acknowledgement(Roster(before))))
    && (b.message.kind == OFFLINE ==> b.message == Offline(b.origin))
  }

  ghost predicate LogOk(log: seq<Broadcast>) {
    forall i :: 0 <= i < |log| ==> EntryOk(log[..i], log[i])
  }

  lemma LogOkPrefix(log: seq<Broadcast>, n: nat)
    requires LogOk(log) && n <= |log|
    ensures LogOk(log[..n])
  {
    forall i | 0 <= i < n ensures EntryOk(log[..n][..i], log[..n][i]) {
      assert log[..n][..i] == log[..i];
    }
  }

  lemma LogOkAppend(log: seq<Broadcast>, b: Broadcast)
    requires LogOk(log) && EntryOk(log, b)
    ensures LogOk(log + [b])
  {
    var log' := log + [b];
    forall i | 0 <= i < |log'| ensures EntryOk(log'[..i], log'[i]) {
      assert log'[..i] == log[..i];
      assert i == |log| ==> log[..i] == log;
    }
  }

  lemma MembersAppend<T>(names: seq<T>, name: T)
    ensures Members(names + [name]) == Members(names) + {name}
  {
  }

  lemma {:induction false} RemoveMembers(names: seq<Name>, name: Name)
    ensures Members(Remove(names, name)) == Members(names) - {name}
  {
    if names != [] {
      var init, last := names[..|names| - 1], names[|names| - 1];
      RemoveMembers(init, name);
      assert names == init + [last];
      MembersAppend(init, last);
      MembersAppend(Remove(init, name), last);
    }
  }

  // ----- The queue is the acknowledgement followed by everyone else's broadcasts -----

  /** The effect of one more broadcast on what a user is sent, and on the roster. */
  lemma FeedAppend(log: seq<Broadcast>, b: Broadcast, u: Name)
    ensures Feed(log + [b], u) ==
            if IsJoin(b, u) then [Acknowledgement(Roster(log))]
            else if b.origin == u then Feed(log, u) else Feed(log, u) + [b.message]
    ensures Roster(log + [b]) ==
            if b.message.kind == ONLINE then Roster(log) + [b.origin]
            else if b.message.kind == OFFLINE then Remove(Roster(log), b.origin)
            else Roster(log)
  {
    assert (log + [b])[..|log|] == log;
  }

  lemma StaysOnline(log: seq<Broadcast>, b: Broadcast, u: Name)
    requires u in Roster(log + [b]) && !IsJoin(b, u)
    ensures u in Roster(log)
  {
    FeedAppend(log, b, u);
    RemoveMembers(Roster(log), b.origin);
    assert u in Members(Roster(log + [b]));
  }

  /** The queue is the acknowledgement, then the log since the last join without the user's own events. */
  ghost predicate AckThenLog(log: seq<Broadcast>, u: Name) {
    var k := LastJoin(log, u);
    && k < |log| && IsJoin(log[k], u)
    && Feed(log, u) == [Acknowledgement(Roster(log[..k]))] + Messages(Others(u, log[k..]))
  }

  lemma AckAfterJoin(log: seq<Broadcast>, b: Broadcast, u: Name)
    requires IsJoin(b, u)
    ensures AckThenLog(log + [b], u)
  {
    Snoc(log, b);
    FeedAppend(log, b, u);
    OthersOne(u, [], b);
    assert (log + [b])[|log|..] == [] + [b];
    assert [Acknowledgement(Roster(log))] + Messages([]) == [Acknowledgement(Roster(log))];
  }

  /** One more broadcast, seen by a user or not. */
  lemma OthersOne(u: Name, log: seq<Broadcast>, b: Broadcast)
    ensures Others(u, log + [b]) == if b.origin == u then Others(u, log) else Others(u, log) + [b]
  {
    Snoc(log, b);
  }

  lemma LastJoinKept(log: seq<Broadcast>, b: Broadcast, u: Name)
    requires !IsJoin(b, u)
    ensures LastJoin(log + [b], u) == LastJoin(log, u)
  {
    Snoc(log, b);
  }

  lemma AckThenMore(log: seq<Broadcast>, b: Broadcast, u: Name)
    requires AckThenLog(log, u) && !IsJoin(b, u)
    ensures AckThenLog(log + [b], u)
  {
    var k := LastJoin(log, u);
    LastJoinKept(log, b, u);
    FeedAppend(log, b, u);
    assert (log + [b])[k..] == log[k..] + [b] && (log + [b])[..k] == log[..k] && (log + [b])[k] == log[k];
    SeenOneMore(u, [Acknowledgement(Roster(log[..k]))], log[k..], b);
  }

  /** One more broadcast by someone else is one more message at the end. */
  lemma SeenOneMore(u: Name, front: seq<Message>, log: seq<Broadcast>, b: Broadcast)
    ensures front + Messages(Others(u, log + [b]))
         == front + Messages(Others(u, log)) + (if b.origin == u then [] else [b.message])
  {
    OthersOne(u, log, b);
    if b.origin != u {
      MessagesAppend(Others(u, log), [b]);
      assert Messages([b]) == [b.message];
      Associative(front, Messages(Others(u, log)), [b.message]);
    }
  }

  /** The feed of an online user is its acknowledgement, then the log since its join without its own events. */
  lemma {:induction false} FeedIsAckThenLog(log: seq<Broadcast>, u: Name)
    requires u in Roster(log)
    ensures AckThenLog(log, u)
  {
    var init, b := log[..|log| - 1], log[|log| - 1];
    assert log == init + [b];
    if IsJoin(b, u) {
      AckAfterJoin(init, b, u);
    } else {
      StaysOnline(init, b, u);
      FeedIsAckThenLog(init, u);
      AckThenMore(init, b, u);
    }
  }

  // ----- The roster a client can work out from its queue -----

  function NamesIn(m: Message): set<seq<byte>> {
    set a | a in m.attributes && a.kind == USERNAME :: a.value
  }

  /** The users a client believes to be online: the acknowledgement's names, plus ONLINE, minus OFFLINE. */
  function ClientView(queue: seq<Message>): set<seq<byte>> {
    if queue == [] then {}
    else
      var before, m := ClientView(queue[..|queue| - 1]), queue[|queue| - 1];
      if m.kind == ACK then NamesIn(m)
      else if m.kind == ONLINE then before + NamesIn(m)
      else if m.kind == OFFLINE then before - NamesIn(m)
      else before
  }

  lemma {:induction false} NamesInUserAttributes(names: seq<Name>)
    ensures (set a | a in UserAttributes(names) && a.kind == USERNAME :: a.value) == Members(names)
  {
    if names != [] {
      var init, last := names[..|names| - 1], names[|names| - 1];
      NamesInUserAttributes(init);
      assert names == init + [last];
      MembersAppend(init, last);
      assert UserAttributes(names) == UserAttributes(init) + [UserAttribute(last)];
      var all := set a | a in UserAttributes(names) && a.kind == USERNAME :: a.value;
      assert UserAttribute(last) in UserAttributes(names) && last in all;
      forall v | v in Members(init) ensures v in all {
        var a :| a in UserAttributes(init) && a.kind == USERNAME && a.value == v;
        assert a in UserAttributes(names);
      }
    }
  }

  lemma NamesInMessages(u: Name, others: seq<Name>)
    ensures NamesIn(Online(u)) == NamesIn(Offline(u)) == {u}
    ensures NamesIn(Acknowledgement(others)) == Members(others)
  {
    var a := UserAttribute(u);
    assert a in Online(u).attributes && a in Offline(u).attributes;
    NamesInUserAttributes(others);
    var ack := Acknowledgement(others).attributes;
    forall b | b in UserAttributes(others) ensures b in ack {}
  }

  lemma ClientViewAppend(queue: seq<Message>, m: Message)
    ensures ClientView(queue + [m]) ==
            if m.kind == ACK then NamesIn(m)
            else if m.kind == ONLINE then ClientView(queue) + NamesIn(m)
            else if m.kind == OFFLINE then ClientView(queue) - NamesIn(m)
            else ClientView(queue)
  {
    assert (queue + [m])[..|queue|] == queue;
  }

  lemma ViewAfterJoin(log: seq<Broadcast>, b: Broadcast, u: Name)
    requires IsJoin(b, u) && u !in Roster(log)
    ensures ClientView(Feed(log + [b], u)) == Members(Roster(log + [b])) - {u}
  {
    FeedAppend(log, b, u);
    ClientViewAppend([], Acknowledgement(Roster(log)));
    assert [] + [Acknowledgement(Roster(log))] == [Acknowledgement(Roster(log))];
    NamesInMessages(u, Roster(log));
    MembersAppend(Roster(log), u);
    assert u !in Members(Roster(log));
  }

  /** What a broadcast by someone else does to a client's view: exactly what its names say. */
  lemma ViewChanges(log: seq<Broadcast>, b: Broadcast, u: Name)
    requires b.origin != u
    ensures var before, names := ClientView(Feed(log, u)), NamesIn(b.message);
      ClientView(Feed(log + [b], u)) ==
      if b.message.kind == ACK then names
      else if b.message.kind == ONLINE then before + names
      else if b.message.kind == OFFLINE then before - names
      else before
  {
    FeedAppend(log, b, u);
    ClientViewAppend(Feed(log, u), b.message);
  }

  lemma RosterChanges(log: seq<Broadcast>, b: Broadcast)
    ensures var before := Members(Roster(log));
      Members(Roster(log + [b])) ==
      if b.message.kind == ONLINE then before + {b.origin}
      else if b.message.kind == OFFLINE then before - {b.origin}
      else before
  {
    FeedAppend(log, b, b.origin);
    MembersAppend(Roster(log), b.origin);
    RemoveMembers(Roster(log), b.origin);
  }

  lemma OwnEvent(log: seq<Broadcast>, b: Broadcast, u: Name)
    requires b.origin == u && b.message.kind != ONLINE && u in Roster(log + [b])
    ensures Feed(log + [b], u) == Feed(log, u) && Roster(log + [b]) == Roster(log)
  {
    FeedAppend(log, b, u);
    RosterChanges(log, b);
    assert u in Members(Roster(log + [b]));
  }

  lemma ViewAfterMore(log: seq<Broadcast>, b: Broadcast, u: Name)
    requires EntryOk(log, b) && !IsJoin(b, u) && u in Roster(log + [b])
    requires ClientView(Feed(log, u)) == Members(Roster(log)) - {u}
    ensures ClientView(Feed(log + [b], u)) == Members(Roster(log + [b])) - {u}
  {
    if b.origin == u {
      OwnEvent(log, b, u);
    } else {
      ViewChanges(log, b, u);
      RosterChanges(log, b);
      NamesInMessages(b.origin, []);
    }
  }

  /** Folding an online user's queue gives exactly the current roster without the user itself. */
  lemma {:induction false} ViewIsRoster(log: seq<Broadcast>, u: Name)
    requires LogOk(log) && u in Roster(log)
    ensures ClientView(Feed(log, u)) == Members(Roster(log)) - {u}
  {
    var init, b := log[..|log| - 1], log[|log| - 1];
    assert log == init + [b];
    assert EntryOk(log[..|log| - 1], log[|log| - 1]);
    if IsJoin(b, u) {
      ViewAfterJoin(init, b, u);
    } else {
      StaysOnline(init, b, u);
      LogOkPrefix(log, |log| - 1);
      ViewIsRoster(init, u);
      ViewAfterMore(init, b, u);
    }
  }

  /** A proper part of a queue was already there before the last broadcast. */
  lemma ShorterFeed(log: seq<Broadcast>, b: Broadcast, u: Name, n: nat)
    requires u in Roster(log + [b]) && 1 <= n < |Feed(log + [b], u)|
    ensures u in Roster(log) && LastJoin(log + [b], u) == LastJoin(log, u)
    ensures n <= |Feed(log, u)| && Feed(log + [b], u)[..n] == Feed(log, u)[..n]
  {
    FeedAppend(log, b, u);
    StaysOnline(log, b, u);
    LastJoinKept(log, b, u);
  }

  /** Any part of the queue that includes the acknowledgement is the whole queue of an earlier moment. */
  lemma {:induction false} FeedPrefix(log: seq<Broadcast>, u: Name, n: nat) returns (m: nat)
    requires u in Roster(log) && 1 <= n <= |Feed(log, u)|
    ensures LastJoin(log, u) < m <= |log| && u in Roster(log[..m])
    ensures Feed(log, u)[..n] == Feed(log[..m], u)
  {
    FeedIsAckThenLog(log, u);
    var init, b := log[..|log| - 1], log[|log| - 1];
    if n == |Feed(log, u)| {
      m := |log|;
      assert log[..m] == log && Feed(log, u)[..n] == Feed(log, u);
    } else {
      assert log == init + [b];
      ShorterFeed(init, b, u, n);
      m := FeedPrefix(init, u, n);
      assert init[..m] == log[..m];
    }
  }

  /** Every message in a feed can be sent and read, save perhaps an IDLE that came with attributes of its own. */
  lemma {:induction false} FeedWellFormed(log: seq<Broadcast>, u: Name)
    requires LogOk(log)
    ensures forall i :: 0 <= i < |Feed(log, u)| ==>
              var m := Feed(log, u)[i];
              if m.kind == IDLE then AllValid(m.attributes) else WellFormed(m)
  {
    if log != [] {
      LogOkPrefix(log, |log| - 1);
      FeedWellFormed(log[..|log| - 1], u);
      assert EntryOk(log[..|log| - 1], log[|log| - 1]);
    }
  }

  // ----- One order for all -----

  lemma {:induction false} OthersAppend(u: Name, a: seq<Broadcast>, b: seq<Broadcast>)
    ensures Others(u, a + b) == Others(u, a) + Others(u, b)
  {
    if b == [] {
      assert a + b == a;
    } else {
      OthersAppend(u, a, b[..|b| - 1]);
      assert (a + b)[..|a + b| - 1] == a + b[..|b| - 1];
    }
  }

  lemma {:induction false} OthersCommute(u: Name, v: Name, log: seq<Broadcast>)
    ensures Others(v, Others(u, log)) == Others(u, Others(v, log))
  {
    if log != [] {
      var init, b := log[..|log| - 1], log[|log| - 1];
      OthersCommute(u, v, init);
      OthersAppend(v, Others(u, init), [b]);
      OthersAppend(u, Others(v, init), [b]);
    }
  }

  /**
   From the later of two joins on, both users' queues are the same log with their
   own events taken out, so what third parties did comes in one order for both.
   */
  lemma SameOrder(log: seq<Broadcast>, u: Name, v: Name) returns (early: seq<Message>)
    requires u in Roster(log) && v in Roster(log) && LastJoin(log, u) <= LastJoin(log, v)
    ensures var k := LastJoin(log, v);
      && Feed(log, u) == early + Messages(Others(u, log[k..]))
      && Feed(log, v) == [Acknowledgement(Roster(log[..k]))] + Messages(Others(v, log[k..]))
      && Others(v, Others(u, log[k..])) == Others(u, Others(v, log[k..]))
  {
    early := FeedFrom(log, u, LastJoin(log, v));
    FeedIsAckThenLog(log, v);
    OthersCommute(u, v, log[LastJoin(log, v)..]);
  }

  /** The queue can be split at any point of the log after the join. */
  lemma FeedFrom(log: seq<Broadcast>, u: Name, k: nat) returns (early: seq<Message>)
    requires u in Roster(log) && LastJoin(log, u) <= k <= |log|
    ensures Feed(log, u) == early + Messages(Others(u, log[k..]))
  {
    FeedIsAckThenLog(log, u);
    var j := LastJoin(log, u);
    assert log[j..] == log[j..k] + log[k..];
    OthersAppend(u, log[j..k], log[k..]);
    MessagesAppend(Others(u, log[j..k]), Others(u, log[k..]));
    early := [Acknowledgement(Roster(log[..j]))] + Messages(Others(u, log[j..k]));
  }

  lemma MessagesAppend(a: seq<Broadcast>, b: seq<Broadcast>)
    ensures Messages(a + b) == Messages(a) + Messages(b)
  {
  }
}
