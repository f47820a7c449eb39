/** What holds in every reachable state of the chat server. */
module SbcpServerRuns {
  import opened Sbcp
  import opened SbcpMessages
  import opened SbcpLog
  import opened SbcpServer

  datatype Outcome = Reached(state: State) | Illegal

  /** The state after a run; Illegal when some input could not happen. */
  ghost function After(max: nat, inputs: seq<Input>): Outcome {
    if inputs == [] then Reached(INITIAL)
    else
      var y := After(max, inputs[..|inputs| - 1]);
      var input := inputs[|inputs| - 1];
      if y.Reached? && Enabled(y.state, input) then Reached(Step(max, y.state, input)) else Illegal
  }

  ghost predicate NoDuplicates(names: seq<Name>) {
    forall i, j :: 0 <= i < j < |names| ==> names[i] != names[j]
  }

  /** The three collections describe the same users, each once, and no more than allowed. */
  ghost predicate Consistent(max: nat, s: State) {
    && s.rdFifos.Keys == s.wrFifos.Keys == Members(s.onlineUsers)
    && NoDuplicates(s.onlineUsers)
    && |s.onlineUsers| <= max
    && Connected(s.wrFifos, s.queues)
  }

  ghost predicate FeedsOk(s: State) {
    forall u :: u in s.wrFifos ==> s.wrFifos[u] in s.queues && s.queues[s.wrFifos[u]] == Feed(s.log, u)
  }

  ghost predicate Inv(max: nat, s: State) {
    && Consistent(max, s)
    && s.onlineUsers == Roster(s.log) && LogOk(s.log)
    && FeedsOk(s)
    && |s.onlineUsers| <= 255
  }

  /** A broadcast reaches exactly the queues of the other users. */
  lemma PublishFeeds(s: State, origin: Name, m: Message)
    requires Connected(s.wrFifos, s.queues) && m.kind in {OFFLINE, FWD, IDLE} && FeedsOk(s)
    ensures Connected(s.wrFifos, Publish(s, origin, m).queues) && FeedsOk(Publish(s, origin, m))
  {
    var s' := Publish(s, origin, m);
    forall u | u in s.wrFifos ensures s'.queues[s.wrFifos[u]] == Feed(s'.log, u) {
      FeedAppend(s.log, Broadcast(origin, m), u);
      assert s.wrFifos[u] in Targets(s.wrFifos, origin) <==> u != origin;
    }
  }

  lemma {:induction false} RemoveKeeps(names: seq<Name>, name: Name)
    ensures Members(Remove(names, name)) == Members(names) - {name}
    ensures NoDuplicates(names) ==> NoDuplicates(Remove(names, name))
    ensures |Remove(names, name)| <= |names|
  {
    if names != [] {
      var init, last := names[..|names| - 1], names[|names| - 1];
      RemoveKeeps(init, name);
      RemoveMembers(init, name);
      assert names == init + [last];
      if NoDuplicates(names) {
        assert last !in init && NoDuplicates(init);
        assert last !in Members(Remove(init, name));
      }
    }
    RemoveMembers(names, name);
  }

  /** The state in which the newcomer's ONLINE is broadcast. */
  function Admitted(s: State, c: Connection, name: Name): State {
    s.(rdFifos := s.rdFifos[name := c], wrFifos := s.wrFifos[name := c], onlineUsers := s.onlineUsers + [name],
       queues := s.queues[c := [Acknowledgement(s.onlineUsers)]])
  }

  lemma AdmittedConsistent(max: nat, s: State, c: Connection, name: Name)
    requires Consistent(max, s) && c !in s.queues && name !in s.rdFifos && |s.onlineUsers| < max
    ensures Consistent(max, Admitted(s, c, name))
  {
    var names := s.onlineUsers + [name];
    assert name !in Members(s.onlineUsers);
    MembersAppend(s.onlineUsers, name);
  }

  lemma AdmittedFeeds(s: State, c: Connection, name: Name)
    requires FeedsOk(s) && Connected(s.wrFifos, s.queues) && c !in s.queues && name !in s.wrFifos
    requires s.onlineUsers == Roster(s.log)
    ensures FeedsOk(Publish(Admitted(s, c, name), name, Online(name)))
  {
    var t := Admitted(s, c, name);
    var s' := Publish(t, name, Online(name));
    forall u | u in s'.wrFifos
      ensures s'.wrFifos[u] in s'.queues && s'.queues[s'.wrFifos[u]] == Feed(s'.log, u)
    {
      FeedAppend(s.log, Broadcast(name, Online(name)), u);
      assert u != name ==> t.wrFifos[u] in Targets(t.wrFifos, name);
    }
  }

  /** A refusal touches nothing but the new connection. */
  lemma InvRefused(max: nat, s: State, c: Connection, queue: seq<Message>)
    requires Inv(max, s) && c !in s.queues
    ensures Inv(max, s.(queues := s.queues[c := queue]))
  {
  }

  lemma InvAdmitted(max: nat, s: State, c: Connection, name: Name)
    requires Inv(max, s) && c !in s.queues && name !in s.rdFifos && |s.onlineUsers| < max
    requires 6 + NamesSize(s.onlineUsers) <= MAX_PAYLOAD
    ensures Inv(max, Publish(Admitted(s, c, name), name, Online(name)))
  {
    UserAttributesSize(s.onlineUsers);
    AdmittedConsistent(max, s, c, name);
    AdmittedFeeds(s, c, name);
    AdmittedLog(max, s, name);
  }

  lemma AdmittedLog(max: nat, s: State, name: Name)
    requires Inv(max, s) && name !in s.rdFifos && 6 + NamesSize(s.onlineUsers) <= MAX_PAYLOAD
    ensures var log := s.log + [Broadcast(name, Online(name))]; LogOk(log) && Roster(log) == s.onlineUsers + [name]
  {
    var b := Broadcast(name, Online(name));
    AcknowledgementSize(s.onlineUsers);
    assert name !in Members(s.onlineUsers);
    SingleIsWellFormed(ONLINE, UserAttribute(name));
    LogOkAppend(s.log, b);
    FeedAppend(s.log, b, name);
  }

  lemma InvJoin(max: nat, s: State, c: Connection, name: Name)
    requires Inv(max, s) && Enabled(s, Join(c, name)) && !DoJoin(max, s, c, name).crashed
    ensures Inv(max, DoJoin(max, s, c, name))
  {
    if name in s.rdFifos {
      InvRefused(max, s, c, [Refusal(Ascii("Username already exists"))]);
    } else if |s.onlineUsers| == max {
      InvRefused(max, s, c, [Refusal(Ascii("Maximum clients limit"))]);
    } else {
      InvAdmitted(max, s, c, name);
    }
  }

  lemma InvLeave(max: nat, s: State, name: Name)
    requires Inv(max, s) && Enabled(s, Leave(name))
    ensures Inv(max, DoLeave(s, name))
  {
    var b := Broadcast(name, Offline(name));
    RemoveKeeps(s.onlineUsers, name);
    SingleIsWellFormed(OFFLINE, UserAttribute(name));
    LogOkAppend(s.log, b);
    FeedAppend(s.log, b, name);
    var t := s.(rdFifos := s.rdFifos - {name}, wrFifos := s.wrFifos - {name},
                onlineUsers := Remove(s.onlineUsers, name));
    PublishFeeds(t, name, Offline(name));
  }

  lemma InvRelay(max: nat, s: State, name: Name, m: Message)
    requires Inv(max, s) && Enabled(s, FromClient(name, m))
    ensures Inv(max, DoRelay(s, name, m))
  {
    if m.kind == SEND || m.kind == IDLE {
      var relayed := Relayed(if m.kind == SEND then FWD else IDLE, m.attributes, name);
      if m.kind == SEND {
        SendRelayed(m, name);
      } else {
        IdleRelayed(m, name);
      }
      LogOkAppend(s.log, Broadcast(name, relayed));
      FeedAppend(s.log, Broadcast(name, relayed), name);
      PublishFeeds(s, name, relayed);
    }
  }

  /** Every run that has not crashed keeps the invariant. */
  lemma {:induction false} Invariant(max: nat, inputs: seq<Input>)
    requires After(max, inputs).Reached? && !After(max, inputs).state.crashed
    ensures Inv(max, After(max, inputs).state)
  {
    if inputs != [] {
      var s, input := After(max, inputs[..|inputs| - 1]).state, inputs[|inputs| - 1];
      Invariant(max, inputs[..|inputs| - 1]);
      match input {
        case Join(c, name) => InvJoin(max, s, c, name);
        case Leave(name) => InvLeave(max, s, name);
        case FromClient(name, m) => InvRelay(max, s, name, m);
      }
    }
  }
}
