/** The message object: a packed header and a payload buffer that is changed in place. */
module SbcpBuffer {
  import opened Bytes
  import opened Sbcp

  /** What was found so far, followed by the rest of a walk. */
  function Onto(found: seq<Attribute>, rest: Result<seq<Attribute>>): Result<seq<Attribute>> {
    if rest.Err? then rest else Ok(found + rest.value)
  }

  lemma OntoNothing(rest: Result<seq<Attribute>>)
    ensures Onto([], rest) == rest
  {
    assert rest.Ok? ==> [] + rest.value == rest.value;
  }

  lemma OntoStep(buffer: seq<byte>, end: nat, offset: nat, found: seq<Attribute>)
    requires offset != end
    ensures var a := ReadAt(buffer, offset);
      Onto(found, WalkFrom(buffer, end, offset)) ==
      if a.Err? then Err(a.error) else Onto(found + [a.value], WalkFrom(buffer, end, offset + Size(a.value)))
  {
    var a := ReadAt(buffer, offset);
    if a.Ok? && WalkFrom(buffer, end, offset + Size(a.value)).Ok? {
      var rest := WalkFrom(buffer, end, offset + Size(a.value)).value;
      assert found + ([a.value] + rest) == (found + [a.value]) + rest;
    }
  }

  class MessageBuffer {
    var upper: byte
    var lower: byte
    var length: nat
    const payload: array<byte>

    ghost predicate Valid()
      reads this, payload
    {
      && payload.Length == MAX_PAYLOAD
      && length <= MAX_PAYLOAD
      && forall i :: length <= i < MAX_PAYLOAD ==> payload[i] == 0
    }

    /** The message as a value. */
    ghost function View(): Raw
      requires Valid()
      reads this, payload
    {
      Raw(upper, lower, payload[..length])
    }

    constructor (kind: nat)
      requires kind < 128
      ensures Valid() && View() == RawOf(Message(kind, []))
      ensures fresh(payload)
    {
      upper, lower, length := VERSION / 2, VERSION % 2 * 128 + kind, 0;
      payload := new byte[MAX_PAYLOAD](_ => 0);
    }

    predicate HeaderOk()
      reads this
    {
      HeaderValid(upper * 2 + lower / 128, lower % 128, length)
    }

    /** Checks the header, then copies the attribute behind what is there; nothing changes on failure. */
    method AddAttribute(a: Attribute) returns (ok: bool)
      requires Valid() && a.kind < 65536 && |a.value| < 65536
      modifies this`length, payload
      ensures Valid()
      ensures ok == Add(old(View()), a).Ok?
      ensures View() == if ok then Add(old(View()), a).value else old(View())
    {
      if !HeaderOk() || length + Size(a) > MAX_PAYLOAD {
        return false;
      }
      var bytes := Encode(a);
      for i := 0 to |bytes|
        invariant length == old(length)
        invariant payload[..length] == old(payload[..length])
        invariant payload[length..length + i] == bytes[..i]
        invariant forall j :: length + i <= j < MAX_PAYLOAD ==> payload[j] == 0
      {
        payload[length + i] := bytes[i];
      }
      ghost var before := payload[..length];
      assert bytes[..|bytes|] == bytes;
      assert payload[..length + |bytes|] == payload[..length] + payload[length..length + |bytes|];
      length := length + |bytes|;
      assert payload[..length] == before + bytes;
      ok := true;
    }

    /** A SEND becomes a FWD by changing the type bits and naming the sender. */
    method ChangeToFwd(name: seq<byte>) returns (ok: bool)
      requires Valid() && |name| <= MAX_USERNAME && KindOf(View()) == SEND
      modifies this`lower, this`length, payload
      ensures Valid()
      ensures ok == ToFwd(old(View()), name).Ok?
      ensures View() == if ok then ToFwd(old(View()), name).value else WithKind(old(View()), FWD)
    {
      lower := lower / 128 * 128 + FWD;
      ok := AddAttribute(Attribute(USERNAME, name));
    }

    lemma WholeBuffer()
      requires Valid()
      ensures payload[..] == Padded(View().payload)
    {
    }

    /** Reads the attribute at an offset the way operator* does. */
    method Read(offset: nat) returns (r: Result<Attribute>)
      requires Valid()
      ensures r == ReadAt(Padded(View().payload), offset)
    {
      WholeBuffer();
      if offset + 4 > MAX_PAYLOAD {
        return Err(Overrun);
      }
      var kind := Word(payload[offset + 1], payload[offset]);
      var size := Word(payload[offset + 2], payload[offset + 3]);
      assert kind == Word(payload[..][offset + 1], payload[..][offset]);
      assert size == Word(payload[..][offset + 2], payload[..][offset + 3]);
      var valid := ValidAttribute(Attribute(kind, seq(size, _ => 0)));
      if !valid {
        r := Err(InvalidAttribute);
      } else if offset + 4 + size > MAX_PAYLOAD {
        r := Err(Overrun);
      } else {
        assert payload[offset + 4..offset + 4 + size] == payload[..][offset + 4..offset + 4 + size];
        r := Ok(Attribute(kind, payload[offset + 4..offset + 4 + size]));
      }
    }

    /** Range-for over the attributes. */
    method Attributes() returns (r: Result<seq<Attribute>>)
      requires Valid()
      ensures r == if Validates(View()) then Walk(View().payload) else Err(InvalidMessage)
    {
      if !HeaderOk() {
        return Err(InvalidMessage);
      }
      ghost var buffer := Padded(View().payload);
      var found: seq<Attribute> := [];
      var offset: nat := 0;
      OntoNothing(Walk(View().payload));
      while offset != length
        invariant offset <= MAX_PAYLOAD
        invariant Walk(View().payload) == Onto(found, WalkFrom(buffer, length, offset))
        decreases MAX_PAYLOAD - offset
      {
        var a := Read(offset);
        OntoStep(buffer, length, offset, found);
        if a.Err? {
          return Err(a.error);
        }
        found := found + [a.value];
        offset := offset + Size(a.value);
      }
      assert found + [] == found;
      r := Ok(found);
    }

    /** operator[]. */
    method At(index: nat) returns (r: Result<Attribute>)
      requires Valid()
      ensures r == Index(View().payload, index)
    {
      ghost var buffer := Padded(View().payload);
      var offset: nat, left: nat := 0, index;
      while true
        invariant offset <= MAX_PAYLOAD && left <= index
        invariant Index(View().payload, index) == IndexFrom(buffer, length, offset, left)
        decreases MAX_PAYLOAD - offset
      {
        var a := Read(offset);
        if a.Err? || left == 0 {
          return a;
        }
        offset, left := offset + Size(a.value), left - 1;
        if offset >= length {
          return Err(OutOfRange);
        }
      }
    }
  }
}
