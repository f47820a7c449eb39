/**
 The two netascii stream buffers, which translate while a caller reads. Each
 pulls single bytes from an underlying stream and looks one byte ahead.
 */
module NetasciiStreams {
  import opened Sequences
  import opened Bytes
  import opened Netascii

  const END_OF_FILE := -1

  /**
   A byte stream with a get position, as std::ifstream and std::stringstream
   are used here. Once a read or a peek meets the end, `good` is lost and every
   later operation on the stream does nothing.
   */
  class ByteStream {
    var content: seq<byte>
    var pos: nat
    var good: bool

    ghost predicate Valid()
      reads this
    {
      pos <= |content| && (!good ==> pos == |content|)
    }

    ghost function Unread(): seq<byte>
      requires Valid()
      reads this
    {
      content[pos..]
    }

    constructor (content: seq<byte>)
      ensures Valid() && this.content == content && pos == 0 && good
    {
      this.content, pos, good := content, 0, true;
    }

    /** ss.write: dropped when the stream is no longer good. */
    method Write(bytes: seq<byte>)
      requires Valid()
      modifies this
      ensures Valid() && pos == old(pos) && good == old(good)
      ensures Unread() == old(Unread()) + (if good then bytes else [])
      ensures content == old(content) + (if good then bytes else [])
    {
      if good { content := content + bytes; }
    }

    /** read(buffer, 1) followed by gcount(): the byte, or nothing. */
    method ReadByte() returns (c: int)
      requires Valid()
      modifies this
      ensures Valid() && content == old(content)
      ensures old(Unread()) == [] || !old(good) ==> c == END_OF_FILE && pos == old(pos) && !good
      ensures old(Unread()) != [] && old(good) ==>
                c == old(Unread())[0] && Unread() == old(Unread())[1..] && pos == old(pos) + 1 && good
    {
      if good && pos < |content| {
        c := content[pos];
        pos := pos + 1;
      } else {
        c := END_OF_FILE;
        good := false;
      }
    }

    /** peek(): the next byte without taking it; meeting the end loses `good`. */
    method Peek() returns (c: int)
      requires Valid()
      modifies this`good
      ensures Valid()
      ensures Unread() == [] || !old(good) ==> c == END_OF_FILE && !good
      ensures Unread() != [] && old(good) ==> c == Unread()[0] && good
    {
      if good && pos < |content| {
        c := content[pos];
      } else {
        c := END_OF_FILE;
        good := false;
      }
    }

    /** read(data, n) on a plain stream; a short read loses `good`. */
    method Read(n: nat) returns (out: seq<byte>)
      requires Valid()
      modifies this
      ensures Valid() && content == old(content)
      ensures !old(good) ==> out == [] && !good && pos == old(pos)
      ensures old(good) ==> out == old(Unread())[..Min(n, |old(Unread())|)]
      ensures old(good) ==> pos == old(pos) + |out| && good == (n <= |old(Unread())|)
    {
      var k := if good then Min(n, |content| - pos) else 0;
      out := content[pos..pos + k];
      good := good && k == n;
      pos := pos + k;
    }
  }

  lemma TakenOneMore(was: seq<byte>, out: seq<byte>, rest: seq<byte>)
    requires |out| <= |was| && out == was[..|out|] && rest == was[|out|..] && rest != []
    ensures |out| < |was| && out + [rest[0]] == was[..|out| + 1] && rest[1..] == was[|out| + 1..]
  {
  }

  /** UNIX text in, netascii out, through a two-byte buffer. */
  class Encoder {
    const file: ByteStream
    const buffer: array<byte>
    var gptr: nat
    var egptr: nat

    ghost predicate Valid()
      reads this, file, buffer
    {
      buffer.Length == 2 && gptr <= egptr <= 2 && file.Valid()
    }

    /** Everything the stream will still hand out. */
    ghost function Rest(): seq<byte>
      requires Valid()
      reads this, file, buffer
    {
      buffer[gptr..egptr] + Encode(file.Unread())
    }

    constructor (file: ByteStream)
      requires file.Valid()
      ensures Valid() && this.file == file && fresh(buffer)
      ensures Rest() == Encode(file.Unread())
    {
      this.file := file;
      buffer := new byte[2];
      gptr, egptr := 0, 0;
    }

    method Underflow() returns (c: int)
      requires Valid()
      modifies this, file, buffer
      ensures Valid() && Rest() == old(Rest())
      ensures c == END_OF_FILE <==> Rest() == []
      ensures c != END_OF_FILE ==> gptr < egptr && c == buffer[gptr]
    {
      if gptr < egptr {
        return buffer[gptr];
      }
      ghost var unread := file.Unread();
      var first := file.ReadByte();
      if first == END_OF_FILE {
        return END_OF_FILE;
      }
      buffer[0] := first;
      var count := 1;
      if first == LF {
        buffer[0], buffer[1] := CR, LF;
        count := 2;
      } else if first == CR {
        var next := file.Peek();
        if next == LF {
          var taken := file.ReadByte();
          buffer[1] := taken;
          assert file.Unread() == unread[2..];
        } else {
          buffer[1] := NUL;
        }
        count := 2;
      }
      gptr, egptr := 0, count;
      assert buffer[0..1] == [buffer[0]] && buffer[0..2] == [buffer[0], buffer[1]];
      c := buffer[0];
    }

    /** uflow: refill if needed and take one byte. */
    method Take() returns (c: int)
      requires Valid()
      modifies this, file, buffer
      ensures Valid()
      ensures c == END_OF_FILE <==> old(Rest()) == []
      ensures c == END_OF_FILE ==> Rest() == []
      ensures c != END_OF_FILE ==> c == old(Rest())[0] && Rest() == old(Rest())[1..]
    {
      c := Underflow();
      if c != END_OF_FILE {
        gptr := gptr + 1;
      }
    }

    /** istream::read: take buffered bytes first, refill when the buffer is empty. */
    method Read(n: nat) returns (out: seq<byte>)
      requires Valid()
      modifies this, file, buffer
      ensures Valid()
      ensures out == old(Rest())[..Min(n, |old(Rest())|)]
      ensures Rest() == old(Rest())[|out|..]
    {
      ghost var was := Rest();
      out := [];
      while |out| < n
        invariant Valid()
        invariant |out| <= n && |out| <= |was|
        invariant out == was[..|out|] && Rest() == was[|out|..]
      {
        ghost var rest := Rest();
        var c := Take();
        if c == END_OF_FILE {
          break;
        }
        TakenOneMore(was, out, rest);
        out := out + [c];
      }
    }

    /** Reading in pieces of any sizes hands out consecutive slices of the one-shot encoding. */
    method ReadPieces(sizes: seq<nat>) returns (pieces: seq<seq<byte>>)
      requires Valid()
      modifies this, file, buffer
      ensures Valid() && |pieces| == |sizes|
      ensures Flatten(pieces) + Rest() == old(Rest())
      ensures forall i :: 0 <= i < |sizes| ==> |pieces[i]| <= sizes[i]
      ensures forall i :: 0 <= i < |sizes| && |pieces[i]| < sizes[i] ==> Rest() == []
    {
      pieces := [];
      for i := 0 to |sizes|
        invariant Valid() && |pieces| == i
        invariant Flatten(pieces) + Rest() == old(Rest())
        invariant forall j :: 0 <= j < i ==> |pieces[j]| <= sizes[j]
        invariant forall j :: 0 <= j < i && |pieces[j]| < sizes[j] ==> Rest() == []
      {
        ghost var before := Rest();
        var piece := Read(sizes[i]);
        assert before == piece + Rest();
        FlattenOneMore(pieces, piece, Rest());
        pieces := pieces + [piece];
      }
    }
  }

  /** Netascii in, UNIX text out, through a one-byte buffer. */
  class Decoder {
    const file: ByteStream
    var buffer: byte

    constructor (file: ByteStream)
      ensures this.file == file
    {
      this.file := file;
      buffer := 0;
    }

    /** Fetch the next decoded byte; the caller takes it from the buffer at once. */
    method Underflow() returns (c: int)
      requires file.Valid()
      modifies this, file
      ensures file.Valid() && file.content == old(file.content) && file.pos >= old(file.pos)
      ensures !old(file.good) ==> c == END_OF_FILE && !file.good && file.pos == old(file.pos)
      ensures old(file.good) ==> file.good == !LooksPastEnd(old(file.Unread()), 1)
      ensures old(file.good) ==> (c == END_OF_FILE <==> old(file.Unread()) == [])
      ensures c != END_OF_FILE ==>
                && c == UnitValue(old(file.Unread()))
                && file.Unread() == old(file.Unread())[UnitLength(old(file.Unread()))..]
    {
      var first := file.ReadByte();
      if first == END_OF_FILE {
        return END_OF_FILE;
      }
      buffer := first;
      if first == CR {
        var next := file.Peek();
        if next == LF {
          var taken := file.ReadByte();
          buffer := taken;
        }
        if next == NUL {
          var _ := file.ReadByte();
        }
      }
      c := buffer;
    }

    /**
     istream::read of n decoded bytes. What comes out is the start of the
     one-shot decoding, the get position moves past exactly the raw bytes that
     were decoded, and the stream stays good unless the decoder had to look
     past the end.
     */
    method Read(n: nat) returns (out: seq<byte>)
      requires file.Valid()
      modifies this, file
      ensures file.Valid() && file.content == old(file.content)
      ensures out == Decode(old(file.Unread()))[..Min(n, |Decode(old(file.Unread()))|)]
      ensures file.Unread() == old(file.Unread())[Consumed(old(file.Unread()), n)..]
      ensures file.good == (old(file.good) && !LooksPastEnd(old(file.Unread()), n))
    {
      out := [];
      if !file.good {
        assert file.Unread() == [];
        return;
      }
      ghost var was := file.Unread();
      ProgressStarts(was);
      while |out| < n
        invariant file.Valid() && file.content == old(file.content)
        invariant |out| <= n && Progress(was, out, file.Unread(), file.good)
      {
        ghost var rest, good := file.Unread(), file.good;
        var c := Underflow();
        if c == END_OF_FILE {
          assert rest == [] && file.Unread() == [];
          ProgressEnds(was, out, rest, good, n);
          return;
        }
        ProgressStep(was, out, rest, good);
        out := out + [c];
      }
      ProgressEnds(was, out, file.Unread(), file.good, n);
    }

    /** operator<< on the buffer: everything that is left, decoded. */
    method ReadAll() returns (out: seq<byte>)
      requires file.Valid()
      modifies this, file
      ensures file.Valid() && file.Unread() == []
      ensures out == Decode(old(file.Unread()))
    {
      out := [];
      ghost var was := file.Unread();
      var done := false;
      while !done
        invariant file.Valid()
        invariant Decode(was) == out + Decode(file.Unread())
        invariant !file.good || done ==> file.Unread() == []
        decreases |file.Unread()|, !done
      {
        ghost var here := file.Unread();
        var c := Underflow();
        if c == END_OF_FILE {
          done := true;
        } else {
          DecodedStep(here, file.Unread());
          Associative(out, [UnitValue(here)], Decode(file.Unread()));
          out := out + [c];
        }
      }
    }
  }
}
