/** The chat server's event loop: who is connected, and what is written to whom. */
module SbcpServer {
  import opened Bytes
  import opened Sbcp
  import opened SbcpMessages
  import opened SbcpLog

  /** Identifies the pair of FIFOs that connects the server with one client handler. */
  type Connection = nat

  /**
   `queues` holds everything written to each connection so far and `log` the
   broadcasts in the order they were made; the server itself keeps only the two
   maps and the list of users.
   */
  datatype State = State(
    rdFifos: map<Name, Connection>,
    wrFifos: map<Name, Connection>,
    onlineUsers: seq<Name>,
    queues: map<Connection, seq<Message>>,
    log: seq<Broadcast>,
    crashed: bool)

  const INITIAL := State(map[], map[], [], map[], [], false)

  datatype Input =
    | Join(connection: Connection, name: Name)
    | Leave(name: Name)
    | FromClient(name: Name, message: Message)

  function Ascii(s: string): seq<byte> {
    seq(|s|, i requires 0 <= i < |s| => s[i] as int % 256)
  }

  /** A reason in ASCII goes out as the codes of its characters. */
  lemma AsciiKeeps(s: string)
    ensures |Ascii(s)| == |s| && forall i :: 0 <= i < |s| && s[i] as int < 128 ==> Ascii(s)[i] == s[i] as int
  {
  }

  /** The connections of everyone in the map but one user. */
  function Targets(wrFifos: map<Name, Connection>, except: Name): set<Connection> {
    set n | n in wrFifos && n != except :: wrFifos[n]
  }

  function Push(queues: map<Connection, seq<Message>>, targets: set<Connection>, m: Message)
    : map<Connection, seq<Message>>
  {
    map c | c in queues :: if c in targets then queues[c] + [m] else queues[c]
  }

  function Publish(s: State, origin: Name, m: Message): State {
    s.(queues := Push(s.queues, Targets(s.wrFifos, origin), m), log := s.log + [Broadcast(origin, m)])
  }

  /** What an attempt to join does; an acknowledgement that cannot be built brings the server down. */
  function DoJoin(max: nat, s: State, c: Connection, name: Name): State {
    if name in s.rdFifos then s.(queues := s.queues[c := [Refusal(Ascii("Username already exists"))]])
    else if |s.onlineUsers| == max then s.(queues := s.queues[c := [Refusal(Ascii("Maximum clients limit"))]])
    else if (|s.onlineUsers| + 1) % 65536 != |s.onlineUsers| + 1
         || 6 + NamesSize(s.onlineUsers) > MAX_PAYLOAD then s.(crashed := true)
    else
      Publish(
        s.(rdFifos := s.rdFifos[name := c],
           wrFifos := s.wrFifos[name := c],
           onlineUsers := s.onlineUsers + [name],
           queues := s.queues[c := [Acknowledgement(s.onlineUsers)]]),
        name, Online(name))
  }

  function DoLeave(s: State, name: Name): State {
    Publish(
      s.(rdFifos := s.rdFifos - {name}, wrFifos := s.wrFifos - {name}, onlineUsers := Remove(s.onlineUsers, name)),
      name, Offline(name))
  }

  /** SEND is passed on as FWD, IDLE as IDLE, both with the sender's name; other types are dropped. */
  function DoRelay(s: State, name: Name, m: Message): State {
    if m.kind == SEND then Publish(s, name, Relayed(FWD, m.attributes, name))
    else if m.kind == IDLE then Publish(s, name, Relayed(IDLE, m.attributes, name))
    else s
  }

  function Step(max: nat, s: State, input: Input): State {
    match input
    case Join(c, name) => DoJoin(max, s, c, name)
    case Leave(name) => DoLeave(s, name)
    case FromClient(name, m) => DoRelay(s, name, m)
  }

  /** Connections are new, and events come from connected users. */
  ghost predicate Enabled(s: State, input: Input) {
    && !s.crashed
    && match input
       case Join(c, _) => c !in s.queues
       case Leave(name) => name in s.rdFifos
       case FromClient(name, m) => name in s.rdFifos && WellFormed(m)
  }

  // ----- The server object -----

  class Server {
    const maxClients: nat
    var rdFifos: map<Name, Connection>
    var wrFifos: map<Name, Connection>
    var onlineUsers: seq<Name>
    var queues: map<Connection, seq<Message>>
    ghost var log: seq<Broadcast>
    var crashed: bool

    ghost function View(): State
      reads this
    {
      State(rdFifos, wrFifos, onlineUsers, queues, log, crashed)
    }

    constructor (maxClients: nat)
      ensures View() == INITIAL && this.maxClients == maxClients
    {
      this.maxClients := maxClients;
      rdFifos, wrFifos, onlineUsers, queues, log, crashed := map[], map[], [], map[], [], false;
    }

    /** write_all_except: one write per entry of the map, in whatever order the map has. */
    method WriteAllExcept(m: Message, except: Name)
      requires Connected(wrFifos, queues)
      modifies this`queues
      ensures queues == Push(old(queues), Targets(wrFifos, except), m)
    {
      var todo := wrFifos.Keys;
      while todo != {}
        invariant todo <= wrFifos.Keys
        invariant queues == Push(old(queues), Targets(wrFifos - todo, except), m)
        decreases todo
      {
        var n :| n in todo;
        PushOneMore(old(queues), wrFifos, todo, n, except, m);
        if n != except {
          queues := queues[wrFifos[n] := queues[wrFifos[n]] + [m]];
        }
        todo := todo - {n};
      }
      assert wrFifos - {} == wrFifos;
    }

    /** A broadcast and its place in the log. */
    method Announce(m: Message, origin: Name)
      requires Connected(wrFifos, queues)
      modifies this`queues, this`log
      ensures View() == Publish(old(View()), origin, m)
    {
      WriteAllExcept(m, origin);
      log := log + [Broadcast(origin, m)];
    }

    /** erase(remove(...)): the list without any entry equal to the name. */
    method EraseUser(name: Name)
      modifies this`onlineUsers
      ensures onlineUsers == Remove(old(onlineUsers), name)
    {
      var kept: seq<Name> := [];
      for i := 0 to |onlineUsers|
        invariant onlineUsers == old(onlineUsers)
        invariant kept == Remove(onlineUsers[..i], name)
      {
        assert onlineUsers[..i + 1][..i] == onlineUsers[..i];
        if onlineUsers[i] != name {
          kept := kept + [onlineUsers[i]];
        }
      }
      assert onlineUsers[..|onlineUsers|] == onlineUsers;
      onlineUsers := kept;
    }

    method HandleJoin(c: Connection, name: Name)
      requires Enabled(View(), Join(c, name)) && Connected(wrFifos, queues)
      modifies this
      ensures View() == DoJoin(maxClients, old(View()), c, name)
    {
      if name in rdFifos {
        queues := queues[c := [Refusal(Ascii("Username already exists"))]];
        return;
      }
      if |onlineUsers| == maxClients {
        queues := queues[c := [Refusal(Ascii("Maximum clients limit"))]];
        return;
      }
      var others := onlineUsers;
      var status, ack := BuildAck((|others| + 1) % 65536, others);
      AcknowledgementSize(others);
      if status.Err? {
        crashed := true;
        return;
      }
      Admit(c, name, others);
    }

    /** Register the newcomer, send it its acknowledgement and announce it to everyone else. */
    method Admit(c: Connection, name: Name, others: seq<Name>)
      requires c !in queues && Connected(wrFifos, queues) && others == onlineUsers
      modifies this
      ensures var s := old(View());
        View() == Publish(s.(rdFifos := s.rdFifos[name := c], wrFifos := s.wrFifos[name := c],
                             onlineUsers := s.onlineUsers + [name], queues := s.queues[c := [Acknowledgement(others)]]),
                          name, Online(name))
    {
      rdFifos := rdFifos[name := c];
      wrFifos := wrFifos[name := c];
      onlineUsers := onlineUsers + [name];
      queues := queues[c := [Acknowledgement(others)]];
      Announce(Online(name), name);
    }

    method HandleLeave(name: Name)
      requires Enabled(View(), Leave(name)) && Connected(wrFifos, queues)
      modifies this
      ensures View() == DoLeave(old(View()), name)
    {
      EraseUser(name);
      wrFifos := wrFifos - {name};
      rdFifos := rdFifos - {name};
      Announce(Offline(name), name);
    }

    method HandleMessage(name: Name, m: Message)
      requires Enabled(View(), FromClient(name, m)) && Connected(wrFifos, queues)
      modifies this
      ensures View() == DoRelay(old(View()), name, m)
    {
      if m.kind == SEND {
        SendRelayed(m, name);
        Announce(Relayed(FWD, m.attributes, name), name);
      } else if m.kind == IDLE {
        IdleRelayed(m, name);
        Announce(Relayed(IDLE, m.attributes, name), name);
      }
    }
  }

  /** Every user has a connection of its own, and it is open. */
  ghost predicate Connected(wrFifos: map<Name, Connection>, queues: map<Connection, seq<Message>>) {
    && (forall n :: n in wrFifos ==> wrFifos[n] in queues)
    && (forall m, n :: m in wrFifos && n in wrFifos && m != n ==> wrFifos[m] != wrFifos[n])
  }

  lemma PushOneMore(queues: map<Connection, seq<Message>>, wrFifos: map<Name, Connection>, todo: set<Name>, n: Name,
                    except: Name, m: Message)
    requires Connected(wrFifos, queues) && todo <= wrFifos.Keys && n in todo
    ensures var before := Push(queues, Targets(wrFifos - todo, except), m);
      Push(queues, Targets(wrFifos - (todo - {n}), except), m) ==
      if n == except then before
      else before[wrFifos[n] := queues[wrFifos[n]] + [m]]
    ensures Push(queues, Targets(wrFifos - todo, except), m)[wrFifos[n]] == queues[wrFifos[n]]
  {
    var a, b := wrFifos - todo, wrFifos - (todo - {n});
    assert wrFifos[n] !in Targets(a, except);
    forall c | c in Targets(a, except) ensures c in Targets(b, except) {
      var x :| x in a && x != except && a[x] == c;
      assert x in b;
    }
    forall c | c in Targets(b, except) ensures c in Targets(a, except) || (n != except && c == wrFifos[n]) {
      var x :| x in b && x != except && b[x] == c;
      assert x != n ==> x in a;
    }
    assert n in b;
    assert n != except ==> wrFifos[n] in Targets(b, except);
  }
}
