/** SBCP messages as values and as bytes. */
module Sbcp {
  import opened Sequences
  import opened Bytes

  const VERSION := 3
  const MAX_PAYLOAD := 1024
  const MAX_USERNAME := 16
  const MAX_MESSAGE := 512
  const MAX_REASON := 32

  // Message types.
  const JOIN := 2
  const FWD := 3
  const SEND := 4
  const NAK := 5
  const OFFLINE := 6
  const ACK := 7
  const ONLINE := 8
  const IDLE := 9

  // Attribute types.
  const REASON := 1
  const USERNAME := 2
  const CLIENT_COUNT := 3
  const MESSAGE := 4

  datatype Error = InvalidMessage | InvalidAttribute | PayloadOverflow | OutOfRange | Overrun | ShortRead | Assertion

  datatype Result<+T> = Ok(value: T) | Err(error: Error)

  /** An attribute whose value is the bytes its length field counts. */
  datatype Attribute = Attribute(kind: nat, value: seq<byte>)

  datatype Message = Message(kind: nat, attributes: seq<Attribute>)

  // ----- Layout: attribute types little-endian, all lengths big-endian -----

  function Little(n: nat): seq<byte> { [n % 256, n / 256 % 256] }

  function Big(n: nat): seq<byte> { [n / 256 % 256, n % 256] }

  /** The number that two bytes stand for. */
  function Word(high: int, low: int): int { 256 * high + low }

  function Size(a: Attribute): nat { 4 + |a.value| }

  function Encode(a: Attribute): seq<byte> { Little(a.kind) + Big(|a.value|) + a.value }

  function EncodeAll(attributes: seq<Attribute>): seq<byte> {
    if attributes == [] then [] else Encode(attributes[0]) + EncodeAll(attributes[1..])
  }

  predicate ValidAttribute(a: Attribute) {
    match a.kind
    case 2 => |a.value| <= MAX_USERNAME
    case 4 => |a.value| <= MAX_MESSAGE
    case 1 => |a.value| <= MAX_REASON
    case 3 => |a.value| == 2
    case _ => false
  }

  ghost predicate AllValid(attributes: seq<Attribute>) {
    forall i :: 0 <= i < |attributes| ==> ValidAttribute(attributes[i])
  }

  /** A message as it lies in memory: the two packed header bytes and the used part of the payload. */
  datatype Raw = Raw(upper: byte, lower: byte, payload: seq<byte>)

  /** Nine bits of version, then seven of type. */
  function Pack(version: nat, kind: nat, payload: seq<byte>): Raw
    requires version < 512 && kind < 128
  {
    Raw(version / 2, version % 2 * 128 + kind, payload)
  }

  function KindOf(raw: Raw): nat { raw.lower % 128 }

  function VersionOf(raw: Raw): nat { raw.upper * 2 + raw.lower / 128 }

  function WithKind(raw: Raw, kind: nat): Raw
    requires kind < 128
  {
    raw.(lower := raw.lower / 128 * 128 + kind)
  }

  /** The longest payload a message of this type may have; none for an unknown type. */
  function Limit(kind: nat): int {
    match kind
    case 2 => 4 + MAX_USERNAME
    case 4 => 4 + MAX_MESSAGE
    case 3 => 2 * 4 + MAX_USERNAME + MAX_MESSAGE
    case 9 => 4 + MAX_USERNAME
    case 7 => MAX_PAYLOAD
    case 5 => 4 + MAX_REASON
    case 8 => MAX_PAYLOAD
    case 6 => MAX_PAYLOAD
    case _ => -1
  }

  predicate HeaderValid(version: nat, kind: nat, length: nat) {
    version == VERSION && length <= Limit(kind)
  }

  predicate Validates(raw: Raw) {
    HeaderValid(VersionOf(raw), KindOf(raw), |raw.payload|)
  }

  function RawOf(m: Message): Raw
    requires m.kind < 128
  {
    Pack(VERSION, m.kind, EncodeAll(m.attributes))
  }

  /** The two packed bytes give the version and the type back, and changing the type keeps the version. */
  lemma HeaderRoundTrip(version: nat, kind: nat, kind': nat, payload: seq<byte>)
    requires version < 512 && kind < 128 && kind' < 128
    ensures VersionOf(Pack(version, kind, payload)) == version && KindOf(Pack(version, kind, payload)) == kind
    ensures WithKind(Pack(version, kind, payload), kind') == Pack(version, kind', payload)
  {
  }

  lemma {:induction false} EncodeAllAppend(attributes: seq<Attribute>, more: seq<Attribute>)
    ensures EncodeAll(attributes + more) == EncodeAll(attributes) + EncodeAll(more)
  {
    if attributes == [] {
      assert attributes + more == more;
    } else {
      var a, rest := attributes[0], attributes[1..];
      EncodeAllAppend(rest, more);
      assert attributes + more == [a] + (rest + more);
      EncodeAllFirst(a, rest + more);
      Associative(Encode(a), EncodeAll(rest), EncodeAll(more));
    }
  }

  lemma EncodeAllOne(a: Attribute)
    ensures EncodeAll([a]) == Encode(a)
  {
    assert [a][1..] == [];
  }

  lemma EncodeAllFirst(a: Attribute, rest: seq<Attribute>)
    ensures EncodeAll([a] + rest) == Encode(a) + EncodeAll(rest)
    ensures ValidAttribute(a) && AllValid(rest) ==> AllValid([a] + rest)
  {
    assert ([a] + rest)[1..] == rest;
  }

  // ----- The numbers on the wire -----

  /** A message with one attribute, byte by byte. */
  lemma OnTheWire(kind: nat, t: byte, value: seq<byte>)
    requires kind < 128 && |value| < 65532
    ensures Serialize(RawOf(Message(kind, [Attribute(t, value)])))
         == [1, 128 + kind, (4 + |value|) / 256, (4 + |value|) % 256]
            + [t, 0, |value| / 256, |value| % 256] + value
  {
    EncodeAllOne(Attribute(t, value));
  }

  /** The longest value of each type of attribute, and no other types. */
  lemma ValuesFit(t: nat, value: seq<byte>)
    ensures ValidAttribute(Attribute(t, value)) <==>
            || (t == 2 && |value| <= 16)
            || (t == 4 && |value| <= 512)
            || (t == 1 && |value| <= 32)
            || (t == 3 && |value| == 2)
  {
  }

  /** A header validates exactly with version 3, a known type and no more than that type's payload. */
  lemma HeadersFit(version: nat, kind: nat, length: nat)
    ensures HeaderValid(version, kind, length) <==>
            && version == 3
            && (((kind == 2 || kind == 9) && length <= 20)
                || (kind == 4 && length <= 516)
                || (kind == 3 && length <= 536)
                || (kind == 5 && length <= 36)
                || ((kind == 6 || kind == 7 || kind == 8) && length <= 1024))
  {
  }

  // ----- Adding an attribute -----

  /** Checked against the limits before the addition, never after it. */
  function Add(raw: Raw, a: Attribute): Result<Raw> {
    if !Validates(raw) then Err(InvalidMessage)
    else if |raw.payload| + Size(a) > MAX_PAYLOAD then Err(PayloadOverflow)
    else Ok(raw.(payload := raw.payload + Encode(a)))
  }

  function ToFwd(raw: Raw, name: seq<byte>): Result<Raw> {
    if KindOf(raw) != SEND then Err(Assertion)
    else Add(WithKind(raw, FWD), Attribute(USERNAME, name))
  }

  /** Add attributes one after the other, stopping at the first failure. */
  function AddAll(raw: Raw, attributes: seq<Attribute>): Result<Raw> {
    if attributes == [] then Ok(raw)
    else
      var r := AddAll(raw, attributes[..|attributes| - 1]);
      if r.Err? then r else Add(r.value, attributes[|attributes| - 1])
  }

  /** However attributes were added, the payload is their encoding in order and fits the buffer. */
  lemma {:induction false} AddAllEncodes(raw: Raw, attributes: seq<Attribute>)
    requires raw.payload == [] && AddAll(raw, attributes).Ok?
    ensures AddAll(raw, attributes).value == raw.(payload := EncodeAll(attributes))
    ensures |EncodeAll(attributes)| <= MAX_PAYLOAD
  {
    if attributes != [] {
      AddAllEncodes(raw, attributes[..|attributes| - 1]);
      EncodeAllLast(attributes);
    }
  }

  lemma EncodeAllLast(attributes: seq<Attribute>)
    requires attributes != []
    ensures EncodeAll(attributes) == EncodeAll(attributes[..|attributes| - 1]) + Encode(attributes[|attributes| - 1])
  {
    var init, last := attributes[..|attributes| - 1], attributes[|attributes| - 1];
    assert attributes == init + [last];
    EncodeAllAppend(init, [last]);
    EncodeAllOne(last);
  }

  /** One more addition to a message that holds these attributes. */
  lemma AddOneMore(kind: nat, init: seq<Attribute>, last: Attribute)
    requires kind < 128
    ensures var r := Add(RawOf(Message(kind, init)), last);
      r.Ok? <==> |EncodeAll(init)| <= Limit(kind) && |EncodeAll(init)| + Size(last) <= MAX_PAYLOAD
  {
    HeaderRoundTrip(VERSION, kind, kind, EncodeAll(init));
  }

  /** Additions throw exactly when a limit was already exceeded before the last of them, or the buffer is full. */
  lemma {:induction false} AddAllExactly(kind: nat, attributes: seq<Attribute>)
    requires kind < 128
    ensures AddAll(RawOf(Message(kind, [])), attributes).Ok? <==>
            (attributes != [] ==>
               && |EncodeAll(attributes[..|attributes| - 1])| <= Limit(kind)
               && |EncodeAll(attributes)| <= MAX_PAYLOAD)
  {
    if attributes != [] {
      var init, last := attributes[..|attributes| - 1], attributes[|attributes| - 1];
      AddAllExactly(kind, init);
      EncodeAllLast(attributes);
      AddOneMore(kind, init, last);
      if init != [] {
        EncodeAllLast(init);
      }
      if AddAll(RawOf(Message(kind, [])), init).Ok? {
        AddAllEncodes(RawOf(Message(kind, [])), init);
      }
    }
  }

  // ----- Walking the attributes by offset -----

  /** The attribute at an offset of the payload buffer, checked as the iterator checks it. */
  function ReadAt(buffer: seq<byte>, offset: nat): (r: Result<Attribute>)
    ensures r.Ok? ==> offset + Size(r.value) <= |buffer|
  {
    if offset + 4 > |buffer| then Err(Overrun)
    else
      var kind := Word(buffer[offset + 1], buffer[offset]);
      var length := Word(buffer[offset + 2], buffer[offset + 3]);
      if offset + 4 + length > |buffer| then
        (if ValidAttribute(Attribute(kind, seq(length, _ => 0))) then Err(Overrun) else Err(InvalidAttribute))
      else
        var a := Attribute(kind, buffer[offset + 4..offset + 4 + length]);
        if ValidAttribute(a) then Ok(a) else Err(InvalidAttribute)
  }

  /** From an offset to the end offset, which must be met exactly. */
  function WalkFrom(buffer: seq<byte>, end: nat, offset: nat): Result<seq<Attribute>>
    decreases |buffer| - offset
  {
    if offset == end then Ok([])
    else
      var a := ReadAt(buffer, offset);
      if a.Err? then Err(a.error)
      else
        var rest := WalkFrom(buffer, end, offset + Size(a.value));
        if rest.Err? then rest else Ok([a.value] + rest.value)
  }

  /** operator[]: the check for the end comes after the first attribute has been read. */
  function IndexFrom(buffer: seq<byte>, end: nat, offset: nat, index: nat): Result<Attribute>
    decreases |buffer| - offset
  {
    var a := ReadAt(buffer, offset);
    if a.Err? || index == 0 then a
    else if offset + Size(a.value) < end then IndexFrom(buffer, end, offset + Size(a.value), index - 1)
    else Err(OutOfRange)
  }

  /** The whole payload buffer: what is not used is zero. */
  function Padded(payload: seq<byte>): seq<byte>
    requires |payload| <= MAX_PAYLOAD
  {
    payload + seq(MAX_PAYLOAD - |payload|, _ => 0)
  }

  function Walk(payload: seq<byte>): Result<seq<Attribute>>
    requires |payload| <= MAX_PAYLOAD
  {
    WalkFrom(Padded(payload), |payload|, 0)
  }

  function Index(payload: seq<byte>, index: nat): Result<Attribute>
    requires |payload| <= MAX_PAYLOAD
  {
    IndexFrom(Padded(payload), |payload|, 0, index)
  }

  lemma EncodingLayout(a: Attribute)
    requires a.kind < 65536 && |a.value| < 65536
    ensures var e := Encode(a);
      && |e| == Size(a) && e[4..] == a.value
      && Word(e[1], e[0]) == a.kind && Word(e[2], e[3]) == |a.value|
  {
  }

  lemma ReadEncoded(buffer: seq<byte>, offset: nat, a: Attribute)
    requires ValidAttribute(a)
    requires offset + Size(a) <= |buffer| && buffer[offset..offset + Size(a)] == Encode(a)
    ensures ReadAt(buffer, offset) == Ok(a)
  {
    EncodingLayout(a);
    var e := buffer[offset..offset + Size(a)];
    assert e[0] == buffer[offset] && e[1] == buffer[offset + 1] && e[2] == buffer[offset + 2]
        && e[3] == buffer[offset + 3];
    assert e[4..] == buffer[offset + 4..offset + Size(a)];
  }

  /** The bytes from one offset to another are the encoding of these attributes. */
  ghost predicate EncodedAt(buffer: seq<byte>, offset: nat, end: nat, attributes: seq<Attribute>) {
    offset <= end <= |buffer| && buffer[offset..end] == EncodeAll(attributes) && AllValid(attributes)
  }

  lemma EncodedFirst(buffer: seq<byte>, offset: nat, end: nat, attributes: seq<Attribute>)
    requires EncodedAt(buffer, offset, end, attributes) && attributes != []
    ensures ReadAt(buffer, offset) == Ok(attributes[0])
    ensures EncodedAt(buffer, offset + Size(attributes[0]), end, attributes[1..])
  {
    var n := Size(attributes[0]);
    var part := buffer[offset..end];
    EncodingLayout(attributes[0]);
    assert part[..n] == Encode(attributes[0]) && part[n..] == EncodeAll(attributes[1..]);
    assert part[..n] == buffer[offset..offset + n] && part[n..] == buffer[offset + n..end];
    ReadEncoded(buffer, offset, attributes[0]);
  }

  /** Reading attribute after attribute gives this list and ends at the end offset. */
  ghost predicate ReadsAs(buffer: seq<byte>, offset: nat, end: nat, attributes: seq<Attribute>)
    decreases |attributes|
  {
    if attributes == [] then offset == end
    else
      && offset < end && ReadAt(buffer, offset) == Ok(attributes[0])
      && ReadsAs(buffer, offset + Size(attributes[0]), end, attributes[1..])
  }

  lemma {:induction false} EncodedReads(buffer: seq<byte>, offset: nat, end: nat, attributes: seq<Attribute>)
    requires EncodedAt(buffer, offset, end, attributes)
    ensures ReadsAs(buffer, offset, end, attributes)
    decreases |attributes|
  {
    EncodedRest(buffer, offset, end, attributes);
    if attributes != [] {
      EncodedFirst(buffer, offset, end, attributes);
      var next := offset + Size(attributes[0]);
      EncodedReads(buffer, next, end, attributes[1..]);
      ReadsOneMore(buffer, offset, next, end, attributes);
    }
  }

  lemma ReadsOneMore(buffer: seq<byte>, offset: nat, next: nat, end: nat, attributes: seq<Attribute>)
    requires attributes != [] && offset < end && ReadAt(buffer, offset) == Ok(attributes[0])
    requires next == offset + Size(attributes[0]) && ReadsAs(buffer, next, end, attributes[1..])
    ensures ReadsAs(buffer, offset, end, attributes)
  {
  }

  lemma WalkStep(buffer: seq<byte>, end: nat, offset: nat, a: Attribute, rest: seq<Attribute>)
    requires offset != end && ReadAt(buffer, offset) == Ok(a)
    ensures WalkFrom(buffer, end, offset + Size(a)) == Ok(rest) ==> WalkFrom(buffer, end, offset) == Ok([a] + rest)
  {
  }

  lemma {:induction false} WalkEncoded(buffer: seq<byte>, offset: nat, end: nat, attributes: seq<Attribute>)
    requires ReadsAs(buffer, offset, end, attributes)
    ensures WalkFrom(buffer, end, offset) == Ok(attributes)
    decreases |attributes|
  {
    if attributes != [] {
      WalkEncoded(buffer, offset + Size(attributes[0]), end, attributes[1..]);
      WalkStep(buffer, end, offset, attributes[0], attributes[1..]);
      assert [attributes[0]] + attributes[1..] == attributes;
    }
  }

  lemma BytesOfWord(high: byte, low: byte)
    ensures Little(Word(high, low)) == [low, high] && Big(Word(high, low)) == [high, low]
  {
  }

  lemma ReadGivesEncoding(buffer: seq<byte>, offset: nat)
    requires ReadAt(buffer, offset).Ok?
    ensures buffer[offset..offset + Size(ReadAt(buffer, offset).value)] == Encode(ReadAt(buffer, offset).value)
    ensures ValidAttribute(ReadAt(buffer, offset).value)
  {
    var a := ReadAt(buffer, offset).value;
    var b0, b1, b2, b3 := buffer[offset], buffer[offset + 1], buffer[offset + 2], buffer[offset + 3];
    BytesOfWord(b1, b0);
    BytesOfWord(b2, b3);
    assert buffer[offset..offset + Size(a)] == [b0, b1] + [b2, b3] + a.value;
  }

  lemma MiddleSplit(s: seq<byte>, i: nat, j: nat, k: nat)
    requires i <= j <= k <= |s|
    ensures s[i..k] == s[i..j] + s[j..k]
  {
  }

  lemma {:induction false} WalkGivesEncoding(buffer: seq<byte>, end: nat, offset: nat)
    requires offset <= |buffer| && end <= |buffer| && WalkFrom(buffer, end, offset).Ok?
    ensures offset <= end && buffer[offset..end] == EncodeAll(WalkFrom(buffer, end, offset).value)
    ensures AllValid(WalkFrom(buffer, end, offset).value)
    decreases |buffer| - offset
  {
    if offset != end {
      var a := ReadAt(buffer, offset).value;
      var next := offset + Size(a);
      ReadGivesEncoding(buffer, offset);
      WalkGivesEncoding(buffer, end, next);
      var rest := WalkFrom(buffer, end, next).value;
      WalkStep(buffer, end, offset, a, rest);
      EncodeAllFirst(a, rest);
      MiddleSplit(buffer, offset, next, end);
    }
  }

  /** Walking a payload yields a list of attributes exactly when it is the encoding of that list. */
  lemma WalkExactly(payload: seq<byte>, attributes: seq<Attribute>)
    requires |payload| <= MAX_PAYLOAD
    ensures Walk(payload) == Ok(attributes) <==> payload == EncodeAll(attributes) && AllValid(attributes)
  {
    assert Padded(payload)[0..|payload|] == payload;
    if payload == EncodeAll(attributes) && AllValid(attributes) {
      EncodedReads(Padded(payload), 0, |payload|, attributes);
      WalkEncoded(Padded(payload), 0, |payload|, attributes);
    }
    if Walk(payload) == Ok(attributes) {
      WalkGivesEncoding(Padded(payload), |payload|, 0);
    }
  }

  lemma EncodedRest(buffer: seq<byte>, offset: nat, end: nat, attributes: seq<Attribute>)
    requires EncodedAt(buffer, offset, end, attributes)
    ensures offset == end <==> attributes == []
  {
  }

  lemma IndexStep(buffer: seq<byte>, end: nat, offset: nat, index: nat, a: Attribute)
    requires ReadAt(buffer, offset) == Ok(a)
    ensures IndexFrom(buffer, end, offset, index)
         == if index == 0 then Ok(a)
            else if offset + Size(a) < end then IndexFrom(buffer, end, offset + Size(a), index - 1)
            else Err(OutOfRange)
  {
  }

  lemma {:induction false} IndexEncoded(buffer: seq<byte>, offset: nat, end: nat, attributes: seq<Attribute>,
                                        index: nat)
    requires ReadsAs(buffer, offset, end, attributes) && attributes != []
    ensures IndexFrom(buffer, end, offset, index)
         == if index < |attributes| then Ok(attributes[index]) else Err(OutOfRange)
    decreases |attributes|
  {
    var next := offset + Size(attributes[0]);
    IndexStep(buffer, end, offset, index, attributes[0]);
    if index > 0 && |attributes| > 1 {
      IndexEncoded(buffer, next, end, attributes[1..], index - 1);
    }
  }

  /** operator[] agrees with the walk at every index; on an empty message it trips over the zeroed buffer. */
  lemma IndexAgreesWithWalk(payload: seq<byte>, attributes: seq<Attribute>, index: nat)
    requires |payload| <= MAX_PAYLOAD && Walk(payload) == Ok(attributes)
    ensures Index(payload, index) ==
            if index < |attributes| then Ok(attributes[index])
            else if attributes == [] then Err(InvalidAttribute)
            else Err(OutOfRange)
  {
    WalkExactly(payload, attributes);
    if attributes != [] {
      assert Padded(payload)[0..|payload|] == payload;
      EncodedReads(Padded(payload), 0, |payload|, attributes);
      IndexEncoded(Padded(payload), 0, |payload|, attributes, index);
    }
  }

  // ----- Framing on a byte stream -----

  function Serialize(raw: Raw): seq<byte> {
    [raw.upper, raw.lower] + Big(|raw.payload|) + raw.payload
  }

  function SerializeAll(raws: seq<Raw>): seq<byte> {
    if raws == [] then [] else Serialize(raws[0]) + SerializeAll(raws[1..])
  }

  datatype ReadResult = EndOfStream | Got(raw: Raw, rest: seq<byte>) | Failed(error: Error)

  /** Read a header, check it, then read as many payload bytes as it announces. */
  function ReadMessage(bytes: seq<byte>): ReadResult {
    if bytes == [] then EndOfStream
    else if |bytes| < 4 then Failed(ShortRead)
    else
      var length := Word(bytes[2], bytes[3]);
      var header := Raw(bytes[0], bytes[1], []);
      if !HeaderValid(VersionOf(header), KindOf(header), length) then Failed(InvalidMessage)
      else if |bytes| < 4 + length then Failed(ShortRead)
      else Got(header.(payload := bytes[4..4 + length]), bytes[4 + length..])
  }

  function ReadAll(bytes: seq<byte>): Result<seq<Raw>>
    decreases |bytes|
  {
    match ReadMessage(bytes)
    case EndOfStream => Ok([])
    case Failed(error) => Err(error)
    case Got(raw, rest) =>
      var more := ReadAll(rest);
      if more.Err? then more else Ok([raw] + more.value)
  }

  lemma FrameLayout(upper: byte, lower: byte, length: seq<byte>, payload: seq<byte>, rest: seq<byte>)
    requires |length| == 2
    ensures var bytes := [upper, lower] + length + payload + rest;
      && |bytes| == 4 + |payload| + |rest|
      && bytes[0] == upper && bytes[1] == lower && bytes[2] == length[0] && bytes[3] == length[1]
      && bytes[4..4 + |payload|] == payload && bytes[4 + |payload|..] == rest
  {
  }

  lemma LengthField(n: nat)
    requires n < 65536
    ensures Word(Big(n)[0], Big(n)[1]) == n
  {
  }

  lemma ReadFramed(bytes: seq<byte>, raw: Raw, rest: seq<byte>)
    requires Validates(raw) && |bytes| == 4 + |raw.payload| + |rest|
    requires bytes[0] == raw.upper && bytes[1] == raw.lower && Word(bytes[2], bytes[3]) == |raw.payload|
    requires bytes[4..4 + |raw.payload|] == raw.payload && bytes[4 + |raw.payload|..] == rest
    ensures ReadMessage(bytes) == Got(raw, rest)
  {
  }

  lemma ReadSerialized(raw: Raw, rest: seq<byte>)
    requires Validates(raw)
    ensures ReadMessage(Serialize(raw) + rest) == Got(raw, rest)
  {
    FrameLayout(raw.upper, raw.lower, Big(|raw.payload|), raw.payload, rest);
    LengthField(|raw.payload|);
    ReadFramed(Serialize(raw) + rest, raw, rest);
  }

  /** Messages written back to back are read back as the same messages. */
  lemma {:induction false} FramingRoundTrip(raws: seq<Raw>)
    requires forall i :: 0 <= i < |raws| ==> Validates(raws[i])
    ensures ReadAll(SerializeAll(raws)) == Ok(raws)
  {
    if raws != [] {
      var rest := raws[1..];
      assert forall i :: 0 <= i < |rest| ==> rest[i] == raws[i + 1];
      FramingRoundTrip(rest);
      ReadSerialized(raws[0], SerializeAll(rest));
      assert [raws[0]] + rest == raws;
    }
  }

  lemma {:induction false} ReadGivesFrame(bytes: seq<byte>)
    requires ReadMessage(bytes).Got?
    ensures var got := ReadMessage(bytes);
      Validates(got.raw) && bytes == Serialize(got.raw) + got.rest && |got.rest| < |bytes|
  {
    var n := Word(bytes[2], bytes[3]);
    BytesOfWord(bytes[2], bytes[3]);
    assert bytes == [bytes[0], bytes[1]] + [bytes[2], bytes[3]] + bytes[4..4 + n] + bytes[4 + n..];
  }

  /** A stream is read as a list of messages exactly when it is those messages back to back and all of them validate. */
  lemma {:induction false} FramingExactly(bytes: seq<byte>, raws: seq<Raw>)
    ensures ReadAll(bytes) == Ok(raws) <==>
            bytes == SerializeAll(raws) && forall i :: 0 <= i < |raws| ==> Validates(raws[i])
    decreases |bytes|
  {
    if bytes == SerializeAll(raws) && forall i :: 0 <= i < |raws| ==> Validates(raws[i]) {
      FramingRoundTrip(raws);
    }
    if ReadAll(bytes) == Ok(raws) && bytes != [] {
      ReadGivesFrame(bytes);
      FramingExactly(ReadMessage(bytes).rest, raws[1..]);
      assert forall i :: 0 < i < |raws| ==> raws[i] == raws[1..][i - 1];
    }
  }

  /** A header that does not validate is where reading stops with an error. */
  lemma BadHeaderStops(bytes: seq<byte>, b0: nat, b1: nat, b2: nat, b3: nat)
    requires |bytes| >= 4 && bytes[..4] == [b0, b1, b2, b3]
    requires !HeaderValid(b0 * 2 + b1 / 128, b1 % 128, 256 * b2 + b3)
    ensures ReadMessage(bytes) == Failed(InvalidMessage) && ReadAll(bytes) == Err(InvalidMessage)
  {
    assert bytes[0] == bytes[..4][0] && bytes[1] == bytes[..4][1];
    assert bytes[2] == bytes[..4][2] && bytes[3] == bytes[..4][3];
  }

  // ----- Well-formed messages -----

  /** A known type, valid attributes, and no more payload than the type allows. */
  ghost predicate WellFormed(m: Message) {
    AllValid(m.attributes) && |EncodeAll(m.attributes)| <= Limit(m.kind)
  }

  function Decoded(raw: Raw): Result<Message> {
    if !Validates(raw) then Err(InvalidMessage)
    else
      var attributes := Walk(raw.payload);
      if attributes.Err? then Err(attributes.error) else Ok(Message(KindOf(raw), attributes.value))
  }

  /** Iterating over a message, header check included, gives exactly what its bytes encode within its limits. */
  lemma DecodedExactly(raw: Raw, m: Message)
    ensures Decoded(raw) == Ok(m) <==>
            Validates(raw) && KindOf(raw) == m.kind && raw.payload == EncodeAll(m.attributes) && AllValid(m.attributes)
  {
    if Validates(raw) {
      WalkExactly(raw.payload, m.attributes);
    }
  }

  /**
   Attributes that were added without an exception are iterated over as they were
   added exactly when they fit the limit of the message's type; if they do not,
   iterating throws although adding did not.
   */
  lemma AddedThenIterated(kind: nat, attributes: seq<Attribute>)
    requires kind < 128 && AllValid(attributes) && AddAll(RawOf(Message(kind, [])), attributes).Ok?
    ensures Decoded(AddAll(RawOf(Message(kind, [])), attributes).value)
         == if |EncodeAll(attributes)| <= Limit(kind) then Ok(Message(kind, attributes)) else Err(InvalidMessage)
  {
    AddAllEncodes(RawOf(Message(kind, [])), attributes);
    DecodedOf(kind, attributes);
  }

  lemma DecodedOf(kind: nat, attributes: seq<Attribute>)
    requires kind < 128 && AllValid(attributes)
    ensures Decoded(RawOf(Message(kind, attributes)))
         == if |EncodeAll(attributes)| <= Limit(kind) then Ok(Message(kind, attributes)) else Err(InvalidMessage)
  {
    HeaderRoundTrip(VERSION, kind, kind, EncodeAll(attributes));
    DecodedExactly(RawOf(Message(kind, attributes)), Message(kind, attributes));
  }

  /** A JOIN takes a second name without an exception, and then cannot be iterated over. */
  lemma JoinTakesTwoNames(a: Attribute)
    requires a.kind == USERNAME && 6 < |a.value| <= MAX_USERNAME
    ensures var r := AddAll(RawOf(Message(JOIN, [])), [a, a]);
      r.Ok? && Decoded(r.value) == Err(InvalidMessage)
  {
    EncodeAllOne(a);
    EncodeAllLast([a, a]);
    assert [a, a][..1] == [a];
    AddAllExactly(JOIN, [a, a]);
    AddedThenIterated(JOIN, [a, a]);
  }

  /** A well-formed message survives the trip through its bytes. */
  lemma MessageRoundTrip(m: Message)
    requires WellFormed(m)
    ensures m.kind < 128 && Validates(RawOf(m)) && Decoded(RawOf(m)) == Ok(m)
  {
    WalkExactly(EncodeAll(m.attributes), m.attributes);
  }
}
