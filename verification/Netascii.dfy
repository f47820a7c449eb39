/** Bytes and the control characters that netascii treats specially. */
module Bytes {

  type byte = b: int | 0 <= b < 256

  const NUL: byte := 0
  const LF: byte := 10
  const CR: byte := 13

  function Min(a: int, b: int): int { if a < b then a else b }

  /** The concatenation of a list of pieces, in order. */
  function Flatten<T>(pieces: seq<seq<T>>): seq<T> {
    if pieces == [] then [] else Flatten(pieces[..|pieces| - 1]) + pieces[|pieces| - 1]
  }

  lemma FlattenOneMore<T>(pieces: seq<seq<T>>, piece: seq<T>, rest: seq<T>)
    ensures Flatten(pieces + [piece]) + rest == Flatten(pieces) + (piece + rest)
  {
    assert (pieces + [piece])[..|pieces|] == pieces;
  }

  lemma FlattenLast<T>(pieces: seq<seq<T>>, rest: seq<T>)
    requires pieces != []
    ensures Flatten(pieces) + rest == Flatten(pieces[..|pieces| - 1]) + (pieces[|pieces| - 1] + rest)
  {
  }

  lemma PrependSplit<T>(v: T, t: seq<T>, n: nat, tail: seq<T>)
    requires n <= |t| && t == t[..n] + tail
    ensures [v] + t == ([v] + t)[..n + 1] + tail
  {
    assert ([v] + t)[..n + 1] == [v] + t[..n];
  }
}

/**
 The netascii translation as functions on whole byte strings, and the laws
 that relate the two directions.
 */
module Netascii {
  import opened Sequences
  import opened Bytes

  /** UNIX text to netascii: LF and CRLF become CRLF, any other CR becomes CR NUL. */
  function Encode(s: seq<byte>): seq<byte> {
    if s == [] then []
    else if s[0] == LF then [CR, LF] + Encode(s[1..])
    else if s[0] == CR then
      if |s| > 1 && s[1] == LF then [CR, LF] + Encode(s[2..]) else [CR, NUL] + Encode(s[1..])
    else [s[0]] + Encode(s[1..])
  }

  predicate IsPair(a: byte, b: byte) {
    a == CR && (b == LF || b == NUL)
  }

  /** How many raw bytes the next decoded byte takes. */
  function UnitLength(s: seq<byte>): nat
    requires s != []
  {
    if |s| > 1 && IsPair(s[0], s[1]) then 2 else 1
  }

  function UnitValue(s: seq<byte>): byte
    requires s != []
  {
    if |s| > 1 && s[0] == CR && s[1] == LF then LF else s[0]
  }

  /** Netascii to UNIX text: CRLF becomes LF and CR NUL becomes CR; anything else stands for itself. */
  function Decode(s: seq<byte>): seq<byte> {
    if s == [] then [] else [UnitValue(s)] + Decode(s[UnitLength(s)..])
  }

  /** The text with every CRLF collapsed to a single LF. */
  function Collapse(s: seq<byte>): seq<byte> {
    if s == [] then []
    else if |s| > 1 && s[0] == CR && s[1] == LF then [LF] + Collapse(s[2..])
    else [s[0]] + Collapse(s[1..])
  }

  predicate HasCrLf(s: seq<byte>) {
    exists i :: 0 <= i < |s| - 1 && s[i] == CR && s[i + 1] == LF
  }

  /** Every CR is followed by LF or NUL, and every LF is preceded by CR. */
  ghost predicate NvtForm(t: seq<byte>) {
    && (forall i :: 0 <= i < |t| && t[i] == CR ==> i + 1 < |t| && IsPair(t[i], t[i + 1]))
    && (forall i :: 0 <= i < |t| && t[i] == LF ==> i > 0 && t[i - 1] == CR)
  }

  // ----- Encoding is a symbol-by-symbol code applied to the collapsed text -----

  function Symbol(b: byte): seq<byte> {
    if b == LF then [CR, LF] else if b == CR then [CR, NUL] else [b]
  }

  /** The prefix code that replaces each byte on its own, with no lookahead. */
  function Quote(c: seq<byte>): seq<byte> {
    if c == [] then [] else Symbol(c[0]) + Quote(c[1..])
  }

  lemma {:induction false} EncodeQuotesCollapse(s: seq<byte>)
    ensures Encode(s) == Quote(Collapse(s))
  {
    if s != [] {
      var rest := if |s| > 1 && s[0] == CR && s[1] == LF then s[2..] else s[1..];
      EncodeQuotesCollapse(rest);
      assert Collapse(s)[1..] == Collapse(rest);
    }
  }

  lemma {:induction false} DecodeUndoesQuote(c: seq<byte>)
    ensures Decode(Quote(c)) == c
  {
    if c != [] {
      DecodeUndoesQuote(c[1..]);
      var q := Quote(c);
      assert q[|Symbol(c[0])|..] == Quote(c[1..]);
      assert UnitLength(q) == |Symbol(c[0])|;
    }
  }

  /** Decoding an encoding gives back the text with each CRLF collapsed to LF. */
  lemma {:induction false} DecodeEncode(s: seq<byte>)
    ensures Decode(Encode(s)) == Collapse(s)
  {
    EncodeQuotesCollapse(s);
    DecodeUndoesQuote(Collapse(s));
  }

  /** Exactly the texts with the same collapsed form share an encoding. */
  lemma SameEncoding(a: seq<byte>, b: seq<byte>)
    ensures Encode(a) == Encode(b) <==> Collapse(a) == Collapse(b)
  {
    EncodeQuotesCollapse(a);
    EncodeQuotesCollapse(b);
    DecodeEncode(a);
    DecodeEncode(b);
  }

  lemma {:induction false} CollapseLength(s: seq<byte>)
    ensures |Collapse(s)| <= |s|
    ensures HasCrLf(s) ==> |Collapse(s)| < |s|
    ensures !HasCrLf(s) ==> Collapse(s) == s
  {
    if s == [] {
    } else if |s| > 1 && s[0] == CR && s[1] == LF {
      CollapseLength(s[2..]);
      assert s[0] == CR && s[0 + 1] == LF;
    } else {
      CollapseLength(s[1..]);
      if HasCrLf(s) {
        var i :| 0 <= i < |s| - 1 && s[i] == CR && s[i + 1] == LF;
        assert s[1..][i - 1] == CR && s[1..][i - 1 + 1] == LF;
      }
    }
  }

  /** The round trip is exact for precisely the texts that hold no CRLF. */
  lemma {:induction false} ExactRoundTrip(s: seq<byte>)
    ensures Decode(Encode(s)) == s <==> !HasCrLf(s)
  {
    DecodeEncode(s);
    CollapseLength(s);
  }

  // ----- The shape of encoded text -----

  lemma NvtFormPrepend(b: byte, t: seq<byte>)
    requires NvtForm(t)
    ensures NvtForm(Symbol(b) + t)
  {
    var q := Symbol(b) + t;
    var k := |Symbol(b)|;
    forall i | 0 <= i < |q| && q[i] == CR ensures i + 1 < |q| && IsPair(q[i], q[i + 1]) {
      if i >= k { assert t[i - k] == CR; assert q[i + 1] == t[i - k + 1]; }
    }
    forall i | 0 <= i < |q| && q[i] == LF ensures i > 0 && q[i - 1] == CR {
      if i >= k { assert t[i - k] == LF; assert q[i - 1] == t[i - k - 1]; }
    }
  }

  lemma {:induction false} QuoteNvtForm(c: seq<byte>)
    ensures NvtForm(Quote(c)) && |c| <= |Quote(c)| <= 2 * |c|
  {
    if c != [] {
      QuoteNvtForm(c[1..]);
      NvtFormPrepend(c[0], Quote(c[1..]));
    }
  }

  lemma {:induction false} EncodeLength(s: seq<byte>)
    ensures |s| <= |Encode(s)| <= 2 * |s|
  {
    if s != [] {
      EncodeLength(s[1..]);
      if |s| > 1 { EncodeLength(s[2..]); }
    }
  }

  /** Encoded text obeys the NVT line rules and is at most twice as long. */
  lemma {:induction false} EncodeShape(s: seq<byte>)
    ensures NvtForm(Encode(s)) && |s| <= |Encode(s)| <= 2 * |s|
  {
    EncodeQuotesCollapse(s);
    QuoteNvtForm(Collapse(s));
    EncodeLength(s);
  }

  /** A text whose encoding is Quote(c): write every LF as CRLF. */
  function Expand(c: seq<byte>): seq<byte> {
    if c == [] then [] else (if c[0] == LF then [CR, LF] else [c[0]]) + Expand(c[1..])
  }

  lemma {:induction false} CollapseUndoesExpand(c: seq<byte>)
    ensures Collapse(Expand(c)) == c
  {
    if c != [] {
      CollapseUndoesExpand(c[1..]);
      var e := Expand(c);
      if c[0] == LF {
        assert e[2..] == Expand(c[1..]);
      } else {
        assert e[1..] == Expand(c[1..]);
        // an expanded text never starts with a bare LF
        assert c[1..] != [] ==> e[1] == CR || e[1] == c[1] != LF;
      }
    }
  }

  lemma {:induction false} QuoteUndoesDecode(t: seq<byte>)
    requires NvtForm(t)
    ensures Quote(Decode(t)) == t
  {
    if t != [] {
      var k := UnitLength(t);
      var rest := t[k..];
      assert NvtForm(rest) by {
        forall i | 0 <= i < |rest| && rest[i] == CR
          ensures i + 1 < |rest| && IsPair(rest[i], rest[i + 1])
        { assert t[i + k] == CR; assert IsPair(t[i + k], t[i + k + 1]); }
        forall i | 0 <= i < |rest| && rest[i] == LF ensures i > 0 && rest[i - 1] == CR {
          assert t[i + k] == LF;
          assert t[i + k - 1] == CR;
        }
      }
      QuoteUndoesDecode(rest);
      assert Decode(t)[1..] == Decode(rest);
      assert t == Symbol(UnitValue(t)) + rest;
    }
  }

  /** The NVT line rules describe exactly the strings that encoding can produce. */
  lemma EncodingImage(t: seq<byte>)
    ensures NvtForm(t) <==> exists s :: Encode(s) == t
  {
    if NvtForm(t) {
      QuoteUndoesDecode(t);
      var s := Expand(Decode(t));
      CollapseUndoesExpand(Decode(t));
      EncodeQuotesCollapse(s);
      assert Encode(s) == t;
    }
    if s :| Encode(s) == t {
      EncodeShape(s);
    }
  }

  // ----- Both directions byte by byte, on any text -----

  /** What single bytes and pairs stand for. */
  lemma DecodeUnits(b: byte)
    ensures Decode([b]) == [b] && Decode([CR, LF]) == [LF] && Decode([CR, NUL]) == [CR]
    ensures b != LF && b != NUL ==> Decode([CR, b]) == [CR] + Decode([b])
  {
    assert [b][1..] == [] && [CR, LF][2..] == [] && [CR, NUL][2..] == [] && [CR, b][1..] == [b];
  }

  lemma EncodeUnits(b: byte)
    ensures Encode([LF]) == [CR, LF] && Encode([CR, LF]) == [CR, LF] && Encode([CR]) == [CR, NUL]
    ensures b != CR && b != LF ==> Encode([b]) == [b]
  {
    assert [b][1..] == [] && [LF][1..] == [] && [CR][1..] == [] && [CR, LF][2..] == [];
  }

  /** A pair does not straddle the place where two texts meet. */
  predicate MeetsCleanly(s: seq<byte>, t: seq<byte>) {
    s == [] || t == [] || !IsPair(s[|s| - 1], t[0])
  }

  /** Away from pairs decoding goes piece by piece, so any byte outside a pair stands for itself. */
  lemma {:induction false} DecodeConcat(s: seq<byte>, t: seq<byte>)
    requires MeetsCleanly(s, t)
    ensures Decode(s + t) == Decode(s) + Decode(t)
  {
    if s == [] {
      assert s + t == t;
    } else {
      var u := UnitLength(s);
      assert UnitLength(s + t) == u && UnitValue(s + t) == UnitValue(s);
      assert (s + t)[u..] == s[u..] + t;
      DecodeConcat(s[u..], t);
      DecodedStep(s + t, s[u..] + t);
      DecodedStep(s, s[u..]);
      Associative([UnitValue(s)], Decode(s[u..]), Decode(t));
    }
  }

  /** Encoding goes piece by piece wherever a CRLF is not cut in two. */
  lemma {:induction false} EncodeConcat(s: seq<byte>, t: seq<byte>)
    requires s == [] || t == [] || !(s[|s| - 1] == CR && t[0] == LF)
    ensures Encode(s + t) == Encode(s) + Encode(t)
  {
    if s == [] {
      assert s + t == t;
    } else {
      var n := if |s| > 1 && s[0] == CR && s[1] == LF then 2 else 1;
      assert (s + t)[n..] == s[n..] + t;
      EncodeConcat(s[n..], t);
      assert |s| > 1 ==> (s + t)[1] == s[1];
      var head := Encode(s)[..|Encode(s)| - |Encode(s[n..])|];
      assert Encode(s) == head + Encode(s[n..]) && Encode(s + t) == head + Encode(s[n..] + t);
      Associative(head, Encode(s[n..]), Encode(t));
    }
  }

  /** Text without CR is its own decoding, and text without CR and LF its own encoding. */
  lemma {:induction false} PlainText(s: seq<byte>)
    ensures CR !in s ==> Decode(s) == s
    ensures CR !in s && LF !in s ==> Encode(s) == s
  {
    if s != [] && CR !in s {
      PlainText(s[1..]);
      assert s == [s[0]] + s[1..];
    }
  }

  // ----- Decoding a stream a few bytes at a time -----

  /** How many CR LF or CR NUL pairs the bytes hold. */
  function Pairs(s: seq<byte>): nat {
    if |s| < 2 then 0 else (if IsPair(s[0], s[1]) then 1 else 0) + Pairs(s[1..])
  }

  /** Raw bytes taken up by the first n decoded bytes (all of them when there are fewer). */
  function Consumed(s: seq<byte>, n: nat): (k: nat)
    ensures k <= |s|
  {
    if n == 0 || s == [] then 0 else UnitLength(s) + Consumed(s[UnitLength(s)..], n - 1)
  }

  /**
   Whether producing n decoded bytes makes the decoder look for a byte beyond
   the end of what has arrived: either the bytes run out, or a CR is the very
   last byte and the decoder peeks behind it.
   */
  predicate LooksPastEnd(s: seq<byte>, n: nat) {
    n > 0 && (s == [] || s == [CR] || LooksPastEnd(s[UnitLength(s)..], n - 1))
  }

  lemma {:induction false} PairsSkipUnit(s: seq<byte>)
    requires s != []
    ensures Pairs(s) == UnitLength(s) - 1 + Pairs(s[UnitLength(s)..])
  {
    if UnitLength(s) == 2 && |s| > 2 {
      assert s[1..][1..] == s[2..];
    }
  }

  lemma {:induction false} DecodedLength(s: seq<byte>)
    ensures |Decode(s)| + Pairs(s) == |s|
  {
    if s != [] {
      DecodedLength(s[UnitLength(s)..]);
      PairsSkipUnit(s);
    }
  }

  lemma {:induction false} ConsumedAtLeast(s: seq<byte>, n: nat)
    requires n <= |Decode(s)|
    ensures n <= Consumed(s, n)
  {
    if n > 0 {
      ConsumedAtLeast(s[UnitLength(s)..], n - 1);
    }
  }

  /** The first n decoded bytes are those of the first c raw ones. */
  ghost predicate CutAt(s: seq<byte>, n: nat, c: nat) {
    c <= |s| && n <= |Decode(s)| && Decode(s) == Decode(s)[..n] + Decode(s[c..])
  }

  lemma CutAtStart(s: seq<byte>)
    ensures CutAt(s, 0, 0)
  {
    assert s[0..] == s;
  }

  lemma CutLater(s: seq<byte>, t: seq<byte>, n: nat, c: nat)
    requires s != [] && t == s[UnitLength(s)..] && CutAt(t, n, c)
    ensures CutAt(s, n + 1, UnitLength(s) + c)
  {
    DecodedStep(s, t);
    SuffixOfSuffix(s, UnitLength(s), c);
    PrependSplit(UnitValue(s), Decode(t), n, Decode(t[c..]));
  }

  lemma DecodedNonEmpty(s: seq<byte>, t: seq<byte>, n: nat)
    requires 0 < n <= |Decode(s)|
    ensures s != [] && (t == s[UnitLength(s)..] ==> n - 1 <= |Decode(t)|)
  {
  }

  /** Decoding may be cut after any number of decoded bytes. */
  lemma {:induction false} DecodeSplit(s: seq<byte>, n: nat)
    requires n <= |Decode(s)|
    ensures CutAt(s, n, Consumed(s, n))
    decreases n
  {
    if n == 0 {
      CutAtStart(s);
    } else {
      DecodedNonEmpty(s, s, n);
      var t := s[UnitLength(s)..];
      DecodedNonEmpty(s, t, n);
      DecodeSplit(t, n - 1);
      ConsumedStep(s, t, n - 1);
      CutLater(s, t, n - 1, Consumed(t, n - 1));
    }
  }

  // What decoding one more byte after the first k does, `here` being the raw bytes it starts from.

  ghost predicate RawHere(s: seq<byte>, k: nat, here: seq<byte>) {
    && here == s[Consumed(s, k)..]
    && (here != [] ==> Consumed(s, k + 1) == Consumed(s, k) + UnitLength(here))
  }

  ghost predicate ValueHere(s: seq<byte>, k: nat, here: seq<byte>) {
    (k < |Decode(s)| <==> here != []) && (here != [] ==> Decode(s)[k] == UnitValue(here))
  }

  ghost predicate LookHere(s: seq<byte>, k: nat, here: seq<byte>) {
    here != [] ==> (LooksPastEnd(s, k + 1) <==> LooksPastEnd(s, k) || here == [CR])
  }

  ghost predicate OneMore(s: seq<byte>, k: nat, here: seq<byte>) {
    RawHere(s, k, here) && ValueHere(s, k, here) && LookHere(s, k, here)
  }

  lemma FirstStep(s: seq<byte>)
    ensures OneMore(s, 0, s)
  {
    assert s[0..] == s;
  }

  lemma ConsumedStep(s: seq<byte>, t: seq<byte>, k: nat)
    requires s != [] && t == s[UnitLength(s)..]
    ensures Consumed(s, k + 1) == UnitLength(s) + Consumed(t, k)
  {
  }

  lemma DecodedStep(s: seq<byte>, t: seq<byte>)
    requires s != [] && t == s[UnitLength(s)..]
    ensures Decode(s) == [UnitValue(s)] + Decode(t)
  {
  }

  lemma LookStep(s: seq<byte>, t: seq<byte>, k: nat)
    requires s != [] && t == s[UnitLength(s)..]
    ensures LooksPastEnd(s, k + 1) <==> s == [CR] || LooksPastEnd(t, k)
  {
  }

  lemma RawLater(s: seq<byte>, t: seq<byte>, k: nat, here: seq<byte>)
    requires s != [] && t == s[UnitLength(s)..] && RawHere(t, k, here)
    ensures RawHere(s, k + 1, here)
  {
    ConsumedStep(s, t, k);
    ConsumedStep(s, t, k + 1);
    SuffixOfSuffix(s, UnitLength(s), Consumed(t, k));
  }

  lemma ValueLater(s: seq<byte>, t: seq<byte>, k: nat, here: seq<byte>)
    requires s != [] && t == s[UnitLength(s)..] && ValueHere(t, k, here)
    ensures ValueHere(s, k + 1, here)
  {
    DecodedStep(s, t);
  }

  lemma LookLater(s: seq<byte>, t: seq<byte>, k: nat, here: seq<byte>)
    requires s != [] && t == s[UnitLength(s)..] && LookHere(t, k, here)
    ensures LookHere(s, k + 1, here)
  {
    LookStep(s, t, k);
    LookStep(s, t, k + 1);
  }

  lemma {:induction false} DecodeStep(s: seq<byte>, k: nat) returns (here: seq<byte>)
    requires k <= |Decode(s)|
    ensures OneMore(s, k, here)
  {
    if k == 0 {
      here := s;
      FirstStep(s);
    } else {
      var t := s[UnitLength(s)..];
      DecodedStep(s, t);
      here := DecodeStep(t, k - 1);
      RawLater(s, t, k - 1, here);
      ValueLater(s, t, k - 1, here);
      LookLater(s, t, k - 1, here);
    }
  }

  /** Asking for more than there is takes everything and looks past the end. */
  lemma {:induction false} DecodeStop(s: seq<byte>, k: nat, n: nat)
    requires k == |Decode(s)| < n
    ensures Consumed(s, k) == Consumed(s, n) == |s|
    ensures LooksPastEnd(s, n)
  {
    if s != [] {
      DecodeStop(s[UnitLength(s)..], k - 1, n - 1);
    }
  }

  /** These bytes have been decoded, this is left of the raw ones, and the end has not been looked past. */
  ghost predicate Progress(s: seq<byte>, out: seq<byte>, rest: seq<byte>, good: bool) {
    && |out| <= |Decode(s)| && out == Decode(s)[..|out|]
    && rest == s[Consumed(s, |out|)..]
    && good == !LooksPastEnd(s, |out|)
  }

  lemma ProgressStarts(s: seq<byte>)
    ensures Progress(s, [], s, true)
  {
    assert s[0..] == s;
  }

  lemma ProgressStep(s: seq<byte>, out: seq<byte>, rest: seq<byte>, good: bool)
    requires Progress(s, out, rest, good) && rest != []
    ensures Progress(s, out + [UnitValue(rest)], rest[UnitLength(rest)..], good && !LooksPastEnd(rest, 1))
  {
    var k := |out|;
    var here := DecodeStep(s, k);
    SuffixOfSuffix(s, Consumed(s, k), UnitLength(rest));
    assert Decode(s)[..k + 1] == Decode(s)[..k] + [UnitValue(rest)];
    FirstStep(rest);
  }

  /** A read of n bytes that has made this progress is done when it has them, or when nothing is left. */
  lemma ProgressEnds(s: seq<byte>, out: seq<byte>, rest: seq<byte>, good: bool, n: nat)
    requires Progress(s, out, rest, good) && (|out| == n || (|out| < n && rest == []))
    ensures out == Decode(s)[..Min(n, |Decode(s)|)] && rest == s[Consumed(s, n)..]
    ensures LooksPastEnd(s, n) <==> !good || |out| < n
  {
    if |out| < n {
      var here := DecodeStep(s, |out|);
      DecodeStop(s, |out|, n);
      assert s[|s|..] == [];
    }
  }

  /** What is decoded without looking past the end does not depend on what arrives later. */
  lemma {:induction false} DecodeExtend(s: seq<byte>, more: seq<byte>, n: nat)
    requires !LooksPastEnd(s, n)
    ensures n <= |Decode(s)| && n <= |Decode(s + more)|
    ensures Consumed(s + more, n) == Consumed(s, n)
    ensures Decode(s + more)[..n] == Decode(s)[..n]
  {
    if n > 0 {
      var u := UnitLength(s);
      assert UnitLength(s + more) == u;
      assert (s + more)[u..] == s[u..] + more;
      DecodeExtend(s[u..], more, n - 1);
    }
  }

  lemma {:induction false} LooksPastEndByLength(s: seq<byte>, n: nat)
    ensures LooksPastEnd(s, n) <==>
            n > |Decode(s)| || (n == |Decode(s)| && s != [] && s[|s| - 1] == CR)
  {
    if n > 0 && s != [] {
      LooksPastEndByLength(s[UnitLength(s)..], n - 1);
    } else if s != [] {
      assert |Decode(s)| > 0;
    }
  }

  /**
   Asking for all but k of the bytes that have arrived runs past the end exactly
   when more than k of them are spent on pairs, or when just k are and a bare CR
   comes last.
   */
  lemma ReadReachesEnd(s: seq<byte>, k: nat)
    requires k <= |s|
    ensures LooksPastEnd(s, |s| - k) <==>
            Pairs(s) > k || (Pairs(s) == k && |s| > 0 && s[|s| - 1] == CR)
  {
    LooksPastEndByLength(s, |s| - k);
    DecodedLength(s);
  }
}
