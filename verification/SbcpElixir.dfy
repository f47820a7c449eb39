/** The recursive attribute parser of the Elixir client, and how it compares with the offset walk. */
module SbcpElixir {
  import opened Sequences
  import opened Bytes
  import opened Sbcp

  /** Text attributes keep their bytes; a client count becomes a number. */
  datatype Payload = Text(bytes: seq<byte>) | Number(value: nat)

  datatype Parsed = Parsed(kind: nat, payload: Payload)

  predicate KnownKind(kind: nat) { 1 <= kind <= 4 }

  function BigEndian(bytes: seq<byte>): nat {
    if bytes == [] then 0 else 256 * BigEndian(bytes[..|bytes| - 1]) + bytes[|bytes| - 1]
  }

  function PayloadOf(kind: nat, bytes: seq<byte>): Payload {
    if kind == CLIENT_COUNT then Number(BigEndian(bytes)) else Text(bytes)
  }

  function Deserialize(bin: seq<byte>): Result<seq<Parsed>> {
    if bin == [] then Ok([])
    else if |bin| < 4 then Err(InvalidMessage)
    else
      var kind := Word(bin[1], bin[0]);
      var length := Word(bin[2], bin[3]);
      if !KnownKind(kind) then Err(InvalidAttribute)
      else if |bin| < 4 + length then Err(Overrun)
      else
        var rest := Deserialize(bin[4 + length..]);
        if rest.Err? then rest
        else Ok([Parsed(kind, PayloadOf(kind, bin[4..4 + length]))] + rest.value)
  }

  /** How an attribute looks to the Elixir client. */
  function Seen(a: Attribute): Parsed { Parsed(a.kind, PayloadOf(a.kind, a.value)) }

  function SeenAll(attributes: seq<Attribute>): seq<Parsed> {
    if attributes == [] then [] else [Seen(attributes[0])] + SeenAll(attributes[1..])
  }

  ghost predicate Representable(attributes: seq<Attribute>) {
    forall i :: 0 <= i < |attributes| ==> KnownKind(attributes[i].kind) && |attributes[i].value| < 65536
  }

  lemma {:induction false} DeserializeEncoded(attributes: seq<Attribute>)
    requires Representable(attributes)
    ensures Deserialize(EncodeAll(attributes)) == Ok(SeenAll(attributes))
  {
    if attributes != [] {
      var a, rest := attributes[0], attributes[1..];
      var bin := EncodeAll(attributes);
      EncodingLayout(a);
      assert bin[..Size(a)] == Encode(a) && bin[Size(a)..] == EncodeAll(rest);
      assert bin[0] == Encode(a)[0] && bin[1] == Encode(a)[1] && bin[2] == Encode(a)[2] && bin[3] == Encode(a)[3];
      assert bin[4..Size(a)] == Encode(a)[4..];
      DeserializeEncoded(rest);
    }
  }

  /** The attribute at the front of a binary. */
  function Front(bin: seq<byte>): Attribute
    requires |bin| >= 4 && |bin| >= 4 + Word(bin[2], bin[3])
  {
    Attribute(Word(bin[1], bin[0]), bin[4..4 + Word(bin[2], bin[3])])
  }

  lemma FrontIsEncoded(bin: seq<byte>)
    requires |bin| >= 4 && |bin| >= 4 + Word(bin[2], bin[3])
    ensures bin[..Size(Front(bin))] == Encode(Front(bin))
    ensures bin == Encode(Front(bin)) + bin[Size(Front(bin))..]
  {
    var n := Word(bin[2], bin[3]);
    BytesOfWord(bin[1], bin[0]);
    BytesOfWord(bin[2], bin[3]);
    assert bin[..4 + n] == [bin[0], bin[1]] + [bin[2], bin[3]] + bin[4..4 + n];
    Halves(bin, 4 + n);
  }

  /** Whatever the recursive parser accepts is the encoding of some list of attributes of known types. */
  lemma {:induction false} DeserializeGivesEncoding(bin: seq<byte>) returns (attributes: seq<Attribute>)
    requires Deserialize(bin).Ok?
    ensures Representable(attributes) && bin == EncodeAll(attributes)
    ensures Deserialize(bin).value == SeenAll(attributes)
  {
    if bin == [] {
      attributes := [];
    } else {
      var a := Front(bin);
      FrontIsEncoded(bin);
      var rest := DeserializeGivesEncoding(bin[Size(a)..]);
      attributes := [a] + rest;
      assert attributes[1..] == rest;
    }
  }

  /** Two lists of attributes the fields can hold never share an encoding. */
  lemma {:induction false} EncodingIsInjective(xs: seq<Attribute>, ys: seq<Attribute>)
    requires Representable(xs) && Representable(ys) && EncodeAll(xs) == EncodeAll(ys)
    ensures xs == ys
  {
    if xs != [] && ys != [] {
      var x, y := xs[0], ys[0];
      EncodingLayout(x);
      EncodingLayout(y);
      var bin := EncodeAll(xs);
      assert bin[..Size(x)] == Encode(x) && bin[..Size(y)] == Encode(y);
      assert forall i :: 0 <= i < 4 ==> Encode(x)[i] == bin[i] == Encode(y)[i];
      assert Size(x) == Size(y) && Encode(x) == Encode(y);
      assert bin[Size(x)..] == EncodeAll(xs[1..]) == EncodeAll(ys[1..]);
      EncodingIsInjective(xs[1..], ys[1..]);
    }
  }

  lemma ValidIsRepresentable(attributes: seq<Attribute>)
    requires AllValid(attributes)
    ensures Representable(attributes)
  {
  }

  /**
   The two parsers compared on every payload that fits the buffer. What the
   recursive parser rejects, the offset walk rejects; what it accepts has one
   list of attributes behind it, which the walk returns exactly when every
   attribute is within its length limit.
   */
  lemma ParsersCompared(payload: seq<byte>) returns (attributes: seq<Attribute>)
    requires |payload| <= MAX_PAYLOAD
    ensures Deserialize(payload).Err? ==> Walk(payload).Err?
    ensures Deserialize(payload).Ok? ==>
              && payload == EncodeAll(attributes)
              && Deserialize(payload).value == SeenAll(attributes)
              && (Walk(payload) == Ok(attributes) <==> AllValid(attributes))
              && (Walk(payload).Ok? <==> AllValid(attributes))
  {
    attributes := [];
    if Walk(payload).Ok? {
      WalkExactly(payload, Walk(payload).value);
      ValidIsRepresentable(Walk(payload).value);
      DeserializeEncoded(Walk(payload).value);
    }
    if Deserialize(payload).Ok? {
      attributes := DeserializeGivesEncoding(payload);
      WalkExactly(payload, attributes);
      if Walk(payload).Ok? {
        EncodingIsInjective(attributes, Walk(payload).value);
      }
    }
  }

  /** The type little-endian, the byte size in 16 bits, the bytes. */
  function Serialize(kind: nat, text: seq<byte>): seq<byte> {
    Little(kind) + Big(|text|) + text
  }

  /** A serialized text has the layout of the C++ side; one that is too long for the field loses its true length. */
  lemma SerializedFront(kind: nat, text: seq<byte>)
    requires KnownKind(kind)
    ensures var bin := Serialize(kind, text);
      && bin == Encode(Attribute(kind, text))
      && |bin| == 4 + |text| && bin[4..] == text
      && Word(bin[1], bin[0]) == kind && Word(bin[2], bin[3]) == |text| % 65536
  {
    var low, high := Little(kind)[0], Little(kind)[1];
    assert Little(kind) == [low, high];
    FrameLayout(low, high, Big(|text|), text, []);
    assert Serialize(kind, text) + [] == Serialize(kind, text);
    WordOfBytes(kind);
    WordOfBytes(|text|);
  }

  lemma WordOfBytes(n: nat)
    ensures Word(Little(n)[1], Little(n)[0]) == n % 65536 && Word(Big(n)[0], Big(n)[1]) == n % 65536
  {
  }

  /** A text attribute is read back unchanged exactly when its length fits 16 bits. */
  lemma SerializeRoundTrip(kind: nat, text: seq<byte>)
    requires KnownKind(kind) && kind != CLIENT_COUNT
    ensures Deserialize(Serialize(kind, text)) == Ok([Parsed(kind, Text(text))]) <==> |text| < 65536
  {
    SerializedFront(kind, text);
    var a := Attribute(kind, text);
    if |text| < 65536 {
      EncodeAllOne(a);
      DeserializeEncoded([a]);
      assert [a][1..] == [];
      assert SeenAll([a]) == [Seen(a)];
    } else if Deserialize(Serialize(kind, text)).Ok? {
      LongTextIsCut(kind, text);
    }
  }

  lemma LongTextIsCut(kind: nat, text: seq<byte>)
    requires KnownKind(kind) && kind != CLIENT_COUNT && |text| >= 65536 && Deserialize(Serialize(kind, text)).Ok?
    ensures var parsed := Deserialize(Serialize(kind, text)).value;
      parsed != [] && parsed[0] == Parsed(kind, Text(text[..|text| % 65536]))
  {
    SerializedFront(kind, text);
    var bin := Serialize(kind, text);
    assert bin[4..4 + |text| % 65536] == bin[4..][..|text| % 65536];
  }

  /** Exactly the four types of attribute are known. */
  lemma KnownTypes(t: nat, value: seq<byte>)
    requires t < 65536 && |value| < 65536
    ensures Deserialize(Encode(Attribute(t, value))).Ok? <==> t == 1 || t == 2 || t == 3 || t == 4
  {
    var a := Attribute(t, value);
    EncodingLayout(a);
    if KnownKind(t) {
      EncodeAllOne(a);
      DeserializeEncoded([a]);
    }
  }

  /** A client count is read as the number it stands for. */
  lemma CountBack(n: nat)
    requires n < 65536
    ensures Deserialize(Encode(Attribute(3, [n / 256, n % 256]))) == Ok([Parsed(3, Number(n))])
  {
    var a := Attribute(CLIENT_COUNT, [n / 256, n % 256]);
    EncodeAllOne(a);
    DeserializeEncoded([a]);
    assert [a][1..] == [];
    assert SeenAll([a]) == [Seen(a)];
    TwoBytes(n / 256, n % 256);
  }

  lemma TwoBytes(high: byte, low: byte)
    ensures BigEndian([high, low]) == Word(high, low)
  {
    assert [high, low][..1] == [high] && [high][..0] == [];
    assert BigEndian([high]) == 256 * BigEndian([]) + high;
  }
}
