/** The message builders, and the fact that what they build can be sent and read. */
module SbcpMessages {
  import opened Bytes
  import opened Sbcp
  import opened SbcpBuffer

  /** A user name as the server passes it around: short and without NUL. */
  type Name = n: seq<byte> | |n| <= MAX_USERNAME && NUL !in n witness []

  function UserAttribute(name: Name): Attribute { Attribute(USERNAME, name) }

  function UserAttributes(names: seq<Name>): seq<Attribute> {
    if names == [] then [] else UserAttributes(names[..|names| - 1]) + [UserAttribute(names[|names| - 1])]
  }

  function Online(name: Name): Message { Message(ONLINE, [UserAttribute(name)]) }

  function Offline(name: Name): Message { Message(OFFLINE, [UserAttribute(name)]) }

  function Refusal(reason: seq<byte>): Message { Message(NAK, [Attribute(REASON, reason)]) }

  /** A count that includes the newcomer, then the names of all the others. */
  function Acknowledgement(others: seq<Name>): Message {
    Message(ACK, [Attribute(CLIENT_COUNT, Big(|others| + 1))] + UserAttributes(others))
  }

  /** What becomes of a client's message when it is passed on: its attributes, then the sender's name. */
  function Relayed(kind: nat, attributes: seq<Attribute>, name: Name): Message {
    Message(kind, attributes + [UserAttribute(name)])
  }

  function NamesSize(names: seq<Name>): nat {
    if names == [] then 0 else NamesSize(names[..|names| - 1]) + 4 + |names[|names| - 1]|
  }

  lemma {:induction false} UserAttributesSize(names: seq<Name>)
    ensures AllValid(UserAttributes(names)) && |UserAttributes(names)| == |names|
    ensures |EncodeAll(UserAttributes(names))| == NamesSize(names)
    ensures 4 * |names| <= NamesSize(names) <= 20 * |names|
  {
    if names != [] {
      var init, last := names[..|names| - 1], names[|names| - 1];
      UserAttributesSize(init);
      EncodeAllAppend(UserAttributes(init), [UserAttribute(last)]);
      EncodeAllOne(UserAttribute(last));
    }
  }

  lemma AcknowledgementSize(others: seq<Name>)
    ensures AllValid(Acknowledgement(others).attributes)
    ensures |EncodeAll(Acknowledgement(others).attributes)| == 6 + NamesSize(others)
    ensures WellFormed(Acknowledgement(others)) <==> 6 + NamesSize(others) <= MAX_PAYLOAD
    ensures |others| <= 50 ==> WellFormed(Acknowledgement(others))
  {
    var count := Attribute(CLIENT_COUNT, Big(|others| + 1));
    UserAttributesSize(others);
    EncodeAllAppend([count], UserAttributes(others));
    EncodeAllOne(count);
  }

  /** Every message with one attribute that the builders make is well formed. */
  lemma SingleIsWellFormed(kind: nat, a: Attribute)
    requires ValidAttribute(a)
    requires (kind, a.kind) in {(JOIN, USERNAME), (SEND, MESSAGE), (NAK, REASON), (ONLINE, USERNAME),
                                (OFFLINE, USERNAME), (IDLE, USERNAME)}
    ensures WellFormed(Message(kind, [a]))
  {
    EncodeAllOne(a);
  }

  /** A validated SEND can always be turned into a FWD, and the FWD validates in its turn. */
  lemma SendBecomesFwd(raw: Raw, name: Name)
    requires Validates(raw) && KindOf(raw) == SEND
    ensures ToFwd(raw, name).Ok? && Validates(ToFwd(raw, name).value) && KindOf(ToFwd(raw, name).value) == FWD
  {
  }

  /** On the attributes: the relayed message is well formed and is what the buffer then holds. */
  lemma SendRelayed(m: Message, name: Name)
    requires WellFormed(m) && m.kind == SEND
    ensures WellFormed(Relayed(FWD, m.attributes, name))
    ensures ToFwd(RawOf(m), name) == Ok(RawOf(Relayed(FWD, m.attributes, name)))
  {
    EncodeAllAppend(m.attributes, [UserAttribute(name)]);
    EncodeAllOne(UserAttribute(name));
    HeaderRoundTrip(VERSION, SEND, FWD, EncodeAll(m.attributes));
  }

  /** Naming the sender never fails on an IDLE, but the result is well formed only if the IDLE leaves room for it. */
  lemma IdleRelayed(m: Message, name: Name)
    requires WellFormed(m) && m.kind == IDLE
    ensures Add(RawOf(m), UserAttribute(name)) == Ok(RawOf(Relayed(IDLE, m.attributes, name)))
    ensures WellFormed(Relayed(IDLE, m.attributes, name)) <==> |EncodeAll(m.attributes)| + |name| <= MAX_USERNAME
  {
    EncodeAllAppend(m.attributes, [UserAttribute(name)]);
    EncodeAllOne(UserAttribute(name));
  }

  // ----- The messages the server sends, byte by byte -----

  lemma ClientMessagesOnTheWire(name: Name, text: seq<byte>)
    requires |text| <= 512
    ensures Serialize(RawOf(Message(JOIN, [UserAttribute(name)]))) == [1, 130, 0, 4 + |name|, 2, 0, 0, |name|] + name
    ensures Serialize(RawOf(Message(SEND, [Attribute(MESSAGE, text)])))
         == [1, 132, (4 + |text|) / 256, (4 + |text|) % 256, 4, 0, |text| / 256, |text| % 256] + text
    ensures Serialize(RawOf(Message(IDLE, []))) == [1, 137, 0, 0]
  {
    OnTheWire(JOIN, USERNAME, name);
    OnTheWire(SEND, MESSAGE, text);
  }

  lemma PresenceOnTheWire(name: Name)
    ensures Serialize(RawOf(Online(name))) == [1, 136, 0, 4 + |name|, 2, 0, 0, |name|] + name
    ensures Serialize(RawOf(Offline(name))) == [1, 134, 0, 4 + |name|, 2, 0, 0, |name|] + name
  {
    OnTheWire(ONLINE, USERNAME, name);
    OnTheWire(OFFLINE, USERNAME, name);
  }

  lemma RefusalOnTheWire(reason: seq<byte>)
    requires |reason| <= 32
    ensures Serialize(RawOf(Refusal(reason))) == [1, 133, 0, 4 + |reason|, 1, 0, 0, |reason|] + reason
  {
    OnTheWire(NAK, REASON, reason);
  }

  /** The acknowledgement's type, its count, and a name for every other user in order. */
  lemma AcknowledgementHolds(others: seq<Name>)
    requires |others| < 65535
    ensures var m, n := Acknowledgement(others), |others| + 1;
      && m.kind == 7 && |m.attributes| == n && m.attributes[0] == Attribute(3, [n / 256, n % 256])
      && forall i :: 0 <= i < |others| ==> m.attributes[i + 1] == Attribute(2, others[i])
  {
    forall i | 0 <= i < |others|
      ensures |UserAttributes(others)| == |others| && UserAttributes(others)[i] == Attribute(2, others[i])
    { UserAttributeAt(others, i); }
    UserAttributesSize(others);
  }

  lemma {:induction false} UserAttributeAt(names: seq<Name>, i: nat)
    requires i < |names|
    ensures |UserAttributes(names)| == |names| && UserAttributes(names)[i] == Attribute(2, names[i])
  {
    UserAttributesSize(names);
    UserAttributesSize(names[..|names| - 1]);
    if i < |names| - 1 {
      UserAttributeAt(names[..|names| - 1], i);
    }
  }

  // ----- The builders themselves -----

  /** JOIN, SEND, NAK, ONLINE, OFFLINE and IDLE: a fresh message with one attribute added. */
  method BuildSingle(kind: nat, a: Attribute) returns (m: MessageBuffer)
    requires ValidAttribute(a) && WellFormed(Message(kind, [a]))
    ensures fresh(m) && fresh(m.payload) && m.Valid() && m.View() == RawOf(Message(kind, [a]))
  {
    EncodeAllOne(a);
    m := new MessageBuffer(kind);
    var ok := m.AddAttribute(a);
  }

  lemma FwdSize(name: Name, text: seq<byte>)
    requires |text| <= MAX_MESSAGE
    ensures EncodeAll([UserAttribute(name), Attribute(MESSAGE, text)])
         == Encode(UserAttribute(name)) + Encode(Attribute(MESSAGE, text))
    ensures WellFormed(Message(FWD, [UserAttribute(name), Attribute(MESSAGE, text)]))
  {
    var user, body := UserAttribute(name), Attribute(MESSAGE, text);
    EncodeAllOne(body);
    assert [user, body][1..] == [body];
  }

  /** FWD: the name, then the text; the result is always well formed. */
  method BuildFwd(name: Name, text: seq<byte>) returns (m: MessageBuffer)
    requires |text| <= MAX_MESSAGE
    ensures fresh(m) && fresh(m.payload) && m.Valid()
    ensures m.View() == RawOf(Message(FWD, [UserAttribute(name), Attribute(MESSAGE, text)]))
    ensures Validates(m.View())
  {
    FwdSize(name, text);
    m := new MessageBuffer(FWD);
    var ok := m.AddAttribute(UserAttribute(name));
    ok := m.AddAttribute(Attribute(MESSAGE, text));
  }

  /** The attributes of an acknowledgement after the count and the first i names. */
  function AckSoFar(others: seq<Name>, i: nat): seq<Attribute>
    requires i <= |others|
  {
    [Attribute(CLIENT_COUNT, Big(|others| + 1))] + UserAttributes(others[..i])
  }

  lemma AckSoFarStep(others: seq<Name>, i: nat)
    requires i <= |others|
    ensures |EncodeAll(AckSoFar(others, i))| == 6 + NamesSize(others[..i])
    ensures i < |others| ==>
              && AckSoFar(others, i + 1) == AckSoFar(others, i) + [UserAttribute(others[i])]
              && EncodeAll(AckSoFar(others, i + 1)) == EncodeAll(AckSoFar(others, i)) + Encode(UserAttribute(others[i]))
  {
    var count := Attribute(CLIENT_COUNT, Big(|others| + 1));
    UserAttributesSize(others[..i]);
    EncodeAllAppend([count], UserAttributes(others[..i]));
    EncodeAllOne(count);
    if i < |others| {
      assert others[..i + 1][..i] == others[..i];
      EncodeAllAppend(AckSoFar(others, i), [UserAttribute(others[i])]);
      EncodeAllOne(UserAttribute(others[i]));
    }
  }

  lemma {:induction false} NamesSizeGrows(names: seq<Name>, i: nat)
    requires i <= |names|
    ensures NamesSize(names[..i]) <= NamesSize(names)
    decreases |names| - i
  {
    if i == |names| {
      assert names[..i] == names;
    } else {
      NamesSizeGrows(names, i + 1);
      assert names[..i + 1][..i] == names[..i];
    }
  }

  lemma NamesSizeStep(names: seq<Name>, i: nat)
    requires i < |names|
    ensures NamesSize(names[..i + 1]) == NamesSize(names[..i]) + 4 + |names[i]|
  {
    assert names[..i + 1][..i] == names[..i];
  }

  lemma AckAdd(others: seq<Name>, i: nat)
    requires i < |others| && |EncodeAll(AckSoFar(others, i))| <= MAX_PAYLOAD
    ensures var r := Add(RawOf(Message(ACK, AckSoFar(others, i))), UserAttribute(others[i]));
      && (r.Err? ==> 6 + NamesSize(others) > MAX_PAYLOAD)
      && (r.Ok? ==> r.value == RawOf(Message(ACK, AckSoFar(others, i + 1))))
  {
    var raw := RawOf(Message(ACK, AckSoFar(others, i)));
    HeaderRoundTrip(VERSION, ACK, ACK, raw.payload);
    assert Validates(raw);
    AckSoFarStep(others, i);
    NamesSizeStep(others, i);
    NamesSizeGrows(others, i + 1);
  }

  /** The buffer holds the count and the first i names. */
  ghost predicate AckHolds(others: seq<Name>, i: nat, raw: Raw)
    requires i <= |others|
  {
    raw == RawOf(Message(ACK, AckSoFar(others, i))) && |raw.payload| <= MAX_PAYLOAD
  }

  lemma AckStarts(others: seq<Name>, none: seq<Attribute>, count: Attribute)
    requires |others| < 65535 && count == Attribute(CLIENT_COUNT, Big(|others| + 1)) && none == []
    ensures var r := Add(RawOf(Message(ACK, none)), count); r.Ok? && AckHolds(others, 0, r.value)
  {
    AddOneMore(ACK, none, count);
    EncodeAllAppend(none, [count]);
    EncodeAllOne(count);
    assert others[..0] == [] && AckSoFar(others, 0) == none + [count];
  }

  lemma AckGrows(others: seq<Name>, i: nat, raw: Raw)
    requires i < |others| && AckHolds(others, i, raw)
    ensures var r := Add(raw, UserAttribute(others[i]));
      (r.Err? ==> !WellFormed(Acknowledgement(others))) && (r.Ok? ==> AckHolds(others, i + 1, r.value))
  {
    AckAdd(others, i);
    AcknowledgementSize(others);
  }

  lemma AckEnds(others: seq<Name>, raw: Raw)
    requires AckHolds(others, |others|, raw)
    ensures WellFormed(Acknowledgement(others)) && raw == RawOf(Acknowledgement(others))
  {
    assert others[..|others|] == others;
    AcknowledgementSize(others);
  }

  /** ACK: the count, which must match, then the names one by one until one does not fit. */
  method BuildAck(clientCount: nat, others: seq<Name>) returns (status: Result<()>, m: MessageBuffer)
    requires clientCount < 65536
    ensures fresh(m) && fresh(m.payload) && m.Valid()
    ensures status == Err(Assertion) <==> |others| + 1 != clientCount
    ensures status.Ok? <==> |others| + 1 == clientCount && WellFormed(Acknowledgement(others))
    ensures status.Ok? ==> m.View() == RawOf(Acknowledgement(others))
  {
    m := new MessageBuffer(ACK);
    if |others| + 1 != clientCount {
      return Err(Assertion), m;
    }
    var count := Attribute(CLIENT_COUNT, Big(clientCount));
    AckStarts(others, [], count);
    var ok := m.AddAttribute(count);
    var i := 0;
    while i < |others|
      invariant i <= |others| && fresh(m) && fresh(m.payload) && m.Valid()
      invariant AckHolds(others, i, m.View())
    {
      AckGrows(others, i, m.View());
      ok := m.AddAttribute(UserAttribute(others[i]));
      if !ok {
        return Err(PayloadOverflow), m;
      }
      i := i + 1;
    }
    AckEnds(others, m.View());
    status := Ok(());
  }
}
