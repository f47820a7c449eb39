/** The header loop of the message parser, as jumps from one line start to the next. */
module HttpScan {
  import opened Sequences
  import opened HttpText

  /** A round of the loop: the blank line, an exception, or a header and where the next line starts. */
  datatype Round<+H> = Blank | Bad(error: Error) | Line(header: H, next: nat)

  /** Stopped at a position whose line is empty, an exception, or still running after the given rounds. */
  datatype Scan<+H> = Stopped(pos: nat, headers: seq<H>) | Threw(error: Error) | Running

  /** The loop from a position, for at most so many rounds. */
  function ScanFrom<H>(round: nat -> Round<H>, pos: nat, headers: seq<H>, rounds: nat): Scan<H>
    decreases rounds
  {
    match round(pos)
    case Blank => Stopped(pos, headers)
    case Bad(error) => if rounds == 0 then Running else Threw(error)
    case Line(h, next) => if rounds == 0 then Running else ScanFrom(round, next, headers + [h], rounds - 1)
  }

  // ----- Paths of the loop -----

  /** Round after round yields these headers and leads to the position `stop`. */
  ghost predicate Path<H(!new)>(round: nat -> Round<H>, pos: nat, headers: seq<H>, stop: nat)
    decreases |headers|
  {
    if headers == [] then pos == stop
    else
      && round(pos).Line? && round(pos).header == headers[0]
      && Path(round, round(pos).next, headers[1..], stop)
  }

  /** How the loop ends at a position that is not a header line. */
  function EndOf<H>(end: Round<H>, pos: nat, headers: seq<H>): Scan<H>
    requires !end.Line?
  {
    if end.Blank? then Stopped(pos, headers) else Threw(end.error)
  }

  lemma PathPrepend<H(!new)>(round: nat -> Round<H>, pos: nat, headers: seq<H>, stop: nat)
    requires round(pos).Line? && Path(round, round(pos).next, headers, stop)
    ensures Path(round, pos, [round(pos).header] + headers, stop)
  {
    assert ([round(pos).header] + headers)[1..] == headers;
  }

  lemma ScanOnce<H>(round: nat -> Round<H>, pos: nat, headers: seq<H>, rounds: nat)
    requires round(pos).Line? && rounds > 0
    ensures ScanFrom(round, pos, headers, rounds)
         == ScanFrom(round, round(pos).next, headers + [round(pos).header], rounds - 1)
  {
  }

  lemma {:induction false} PathScan<H(!new)>(round: nat -> Round<H>, pos: nat, headers: seq<H>, stop: nat,
                                             found: seq<H>, rounds: nat)
    requires Path(round, pos, headers, stop) && !round(stop).Line?
    requires rounds >= |headers| && (round(stop).Bad? ==> rounds > |headers|)
    ensures ScanFrom(round, pos, found, rounds) == EndOf(round(stop), stop, found + headers)
    decreases |headers|
  {
    if headers == [] {
      assert found + headers == found;
    } else {
      var h := headers[0];
      ScanOnce(round, pos, found, rounds);
      PathScan(round, round(pos).next, headers[1..], stop, found + [h], rounds - 1);
      assert (found + [h]) + headers[1..] == found + headers;
    }
  }

  /** A loop that has ended took a path to where it ended. */
  lemma {:induction false} ScanPath<H(!new)>(round: nat -> Round<H>, pos: nat, found: seq<H>, rounds: nat)
    returns (headers: seq<H>, stop: nat)
    requires ScanFrom(round, pos, found, rounds) != Running
    ensures Path(round, pos, headers, stop) && !round(stop).Line?
    ensures ScanFrom(round, pos, found, rounds) == EndOf(round(stop), stop, found + headers)
    decreases rounds
  {
    if round(pos).Line? {
      var h := round(pos).header;
      ScanOnce(round, pos, found, rounds);
      var rest;
      rest, stop := ScanPath(round, round(pos).next, found + [h], rounds - 1);
      headers := [h] + rest;
      PathPrepend(round, pos, rest, stop);
      assert (found + [h]) + rest == found + headers;
    } else {
      headers, stop := [], pos;
      assert found + headers == found;
    }
  }

  lemma {:induction false} PathUnique<H(!new)>(round: nat -> Round<H>, pos: nat, hs: seq<H>, s: nat, ks: seq<H>, t: nat)
    requires Path(round, pos, hs, s) && !round(s).Line?
    requires Path(round, pos, ks, t) && !round(t).Line?
    ensures hs == ks && s == t
    decreases |hs|
  {
    if hs != [] && ks != [] {
      PathUnique(round, round(pos).next, hs[1..], s, ks[1..], t);
      assert hs == [hs[0]] + hs[1..] && ks == [ks[0]] + ks[1..];
    }
  }

  // ----- Line starts -----

  /** A position behind a line end, or the one that the wrap leads to. */
  ghost predicate LineStart(text: string, pos: nat) {
    pos == 1 || (pos >= 2 && OccursAt(text, CRLF, pos - 2))
  }

  /** The next position is computed in 64 bits, so a missing line end leads back to position 1. */
  function NextStart(text: string, pos: nat): nat { Plus(Find(text, CRLF, pos), 2) }

  lemma NextStartFacts(text: Text, pos: nat)
    requires pos <= |text|
    ensures var next := NextStart(text, pos);
      && LineStart(text, next)
      && (next == 1 || pos + 2 <= next <= |text|)
      && (next == 1 ==> forall i: nat :: pos <= i ==> !OccursAt(text, CRLF, i))
  {
    FindFinds(text, CRLF, pos);
    StepOverNothing();
  }

  /** No line start is jumped over. */
  lemma NoneBetween(text: Text, pos: nat, p: nat)
    requires LineStart(text, pos) && LineStart(text, p) && 2 <= pos < p
    ensures pos + 2 <= NextStart(text, pos) <= p <= |text|
  {
    CrLfOccurs(text, p - 2);
    CrLfOccurs(text, pos - 2);
    FindFinds(text, CRLF, pos);
  }

  /** The rounds of a loop over the lines of a text, whatever they make of them. */
  ghost predicate Follows<H>(round: nat -> Round<H>, text: Text) {
    forall pos: nat :: pos <= |text| ==>
      && (round(pos).Blank? <==> OccursAt(text, CRLF, pos))
      && (round(pos).Line? ==> round(pos).next == NextStart(text, pos))
  }

  ghost predicate AllLines<H>(round: nat -> Round<H>, text: Text, from: nat, to: nat) {
    forall q: nat :: from <= q < to && LineStart(text, q) ==> round(q).Line?
  }

  lemma OneMoreLine<H>(round: nat -> Round<H>, text: Text, pos: nat, to: nat)
    requires LineStart(text, pos) && 2 <= pos && round(pos).Line? && AllLines(round, text, NextStart(text, pos), to)
    ensures AllLines(round, text, pos, to)
  {
    forall q: nat | pos <= q < to && LineStart(text, q) ensures round(q).Line? {
      if pos < q {
        NoneBetween(text, pos, q);
      }
    }
  }

  /** From a line start the loop gets to the first line start that is not a header line. */
  lemma {:induction false} FirstEnd<H(!new)>(round: nat -> Round<H>, text: Text, pos: nat, stop: nat)
    returns (headers: seq<H>, p: nat)
    requires Follows(round, text) && LineStart(text, pos) && LineStart(text, stop) && 2 <= pos <= stop
    requires !round(stop).Line?
    ensures Path(round, pos, headers, p) && pos <= p <= stop && LineStart(text, p) && |headers| <= p - pos
    ensures !round(p).Line? && AllLines(round, text, pos, p)
    decreases stop - pos
  {
    if round(pos).Line? {
      NoneBetween(text, pos, stop);
      NextStartFacts(text, pos);
      var rest;
      rest, p := FirstEnd(round, text, round(pos).next, stop);
      headers := [round(pos).header] + rest;
      PathPrepend(round, pos, rest, p);
      OneMoreLine(round, text, pos, p);
    } else {
      headers, p := [], pos;
    }
  }

  /** From a line start behind which there are only header lines the loop gets to the wrap. */
  lemma {:induction false} ToTheWrap<H(!new)>(round: nat -> Round<H>, text: Text, pos: nat) returns (headers: seq<H>)
    requires Follows(round, text) && LineStart(text, pos) && 2 <= pos && AllLines(round, text, pos, |text| + 1)
    ensures Path(round, pos, headers, 1)
    decreases |text| + 1 - pos
  {
    NextStartFacts(text, pos);
    headers := [];
    var next := NextStart(text, pos);
    assert round(pos).Line?;
    if next != 1 {
      assert AllLines(round, text, next, |text| + 1);
      headers := ToTheWrap(round, text, next);
    }
    PathPrepend(round, pos, headers, 1);
    headers := [round(pos).header] + headers;
  }

  // ----- Blank lines -----

  /** The first empty line is the one behind the line end at j. */
  ghost predicate BlankLineAt(text: string, j: nat) {
    && OccursAt(text, CRLF + CRLF, j)
    && forall i :: 0 <= i < j ==> !OccursAt(text, CRLF + CRLF, i)
  }

  ghost predicate NoBlankLine(text: string) { forall i: nat :: !OccursAt(text, CRLF + CRLF, i) }

  lemma BlankOccurs(s: string, i: nat)
    ensures OccursAt(s, CRLF + CRLF, i) <==> OccursAt(s, CRLF, i) && OccursAt(s, CRLF, i + 2)
  {
    CrLfOccurs(s, i);
    CrLfOccurs(s, i + 2);
    if i + 4 <= |s| {
      assert s[i..i + 4] == [s[i], s[i + 1], s[i + 2], s[i + 3]];
      assert CRLF + CRLF == ['\r', '\n', '\r', '\n'];
    }
  }

  lemma {:induction false} FirstBlankLine(text: string, i: nat) returns (j: nat)
    requires OccursAt(text, CRLF + CRLF, i)
    ensures BlankLineAt(text, j)
  {
    if k :| 0 <= k < i && OccursAt(text, CRLF + CRLF, k) {
      j := FirstBlankLine(text, k);
    } else {
      j := i;
    }
  }

  /** Every text has a first blank line or none. */
  lemma BlankLineOrNone(text: string)
    ensures NoBlankLine(text) <==> !exists j: nat :: BlankLineAt(text, j)
  {
    if i: nat :| OccursAt(text, CRLF + CRLF, i) {
      var j := FirstBlankLine(text, i);
    }
  }

  /** An empty line at a line start that is not behind the first blank line is that one. */
  lemma BlankStart(text: Text, j: nat, p: nat)
    requires BlankLineAt(text, j) && LineStart(text, p) && 2 <= p <= j + 2
    ensures OccursAt(text, CRLF, p) <==> p == j + 2
  {
    BlankOccurs(text, j);
    BlankOccurs(text, p - 2);
  }

  /** A text with a blank line: the loop ends at it, or throws before it. */
  lemma EndsBeforeBlankLine<H(!new)>(round: nat -> Round<H>, text: Text, j: nat, pos: nat)
    returns (headers: seq<H>, p: nat)
    requires Follows(round, text) && BlankLineAt(text, j) && LineStart(text, pos) && 2 <= pos <= j + 2
    ensures Path(round, pos, headers, p) && pos <= p <= j + 2 && LineStart(text, p) && |headers| <= p - pos
    ensures !round(p).Line? && AllLines(round, text, pos, p)
    ensures round(p).Blank? <==> p == j + 2
  {
    BlankOccurs(text, j);
    CrLfOccurs(text, j + 2);
    headers, p := FirstEnd(round, text, pos, j + 2);
    BlankStart(text, j, p);
  }

  // ----- The constructor around the loop -----

  datatype Outcome<+F, +H> = Parsed(first: F, headers: seq<H>, body: Option<string>) | Failed(error: Error) | Unfinished

  function Finish<F, H>(text: Text, first: F, scan: Scan<H>): Outcome<F, H> {
    match scan
    case Running => Unfinished
    case Threw(error) => Failed(error)
    case Stopped(pos, headers) => Parsed(first, headers, if pos + 2 < |text| then Some(text[pos + 2..]) else None)
  }

  /** Where the first line ends. */
  function FirstEndOf(text: string): nat { Find(text, CRLF, 0) }

  /** The first line, the header lines, and what lies behind the blank one; the loop is watched for so many rounds. */
  function Construct<F, H>(first: Text -> Result<F>, round: nat -> Round<H>, text: Text, rounds: nat): Outcome<F, H> {
    var end := FirstEndOf(text);
    FindFinds(text, CRLF, 0);
    if end == NPOS then Failed(InvalidMessage)
    else
      var line := first(text[..end]);
      if line.Err? then Failed(line.error)
      else Finish(text, line.value, ScanFrom(round, end + 2, [], rounds))
  }

  /** There is a first line, and it parses. */
  ghost predicate Begins<F>(first: Text -> Result<F>, text: Text) {
    FirstEndOf(text) <= |text| && first(text[..FirstEndOf(text)]).Ok?
  }

  lemma FirstLineStart(text: Text)
    requires FirstEndOf(text) <= |text|
    ensures FirstEndOf(text) + 2 <= |text| && OccursAt(text, CRLF, FirstEndOf(text))
    ensures LineStart(text, FirstEndOf(text) + 2)
    ensures forall i: nat :: OccursAt(text, CRLF, i) ==> FirstEndOf(text) <= i
  {
    FindFinds(text, CRLF, 0);
  }

  lemma ConstructScan<F, H>(first: Text -> Result<F>, round: nat -> Round<H>, text: Text, rounds: nat)
    requires Begins(first, text)
    ensures Construct(first, round, text, rounds)
         == Finish(text, first(text[..FirstEndOf(text)]).value, ScanFrom(round, FirstEndOf(text) + 2, [], rounds))
  {
  }

  lemma ConstructFails<F, H>(first: Text -> Result<F>, round: nat -> Round<H>, text: Text, rounds: nat)
    ensures !Begins(first, text) ==> Construct(first, round, text, rounds).Failed?
  {
    FindFinds(text, CRLF, 0);
  }

  ghost predicate IsParsed<F, H>(first: Text -> Result<F>, round: nat -> Round<H>, text: Text) {
    exists rounds: nat :: Construct(first, round, text, rounds).Parsed?
  }

  ghost predicate Ends<F, H>(first: Text -> Result<F>, round: nat -> Round<H>, text: Text) {
    exists rounds: nat :: Construct(first, round, text, rounds) != Unfinished
  }

  lemma StartsBeforeBlankLine(text: Text, j: nat)
    requires BlankLineAt(text, j)
    ensures FirstEndOf(text) <= j && LineStart(text, FirstEndOf(text) + 2) && j + 4 <= |text|
  {
    BlankOccurs(text, j);
    FindFinds(text, CRLF, 0);
  }

  lemma ScanWithBlankLine<H(!new)>(round: nat -> Round<H>, text: Text, j: nat, rounds: nat)
    returns (headers: seq<H>, p: nat)
    requires Follows(round, text) && BlankLineAt(text, j) && rounds >= |text|
    ensures !round(p).Line? && (round(p).Blank? ==> p == j + 2)
    ensures ScanFrom(round, FirstEndOf(text) + 2, [], rounds) == EndOf(round(p), p, headers)
  {
    StartsBeforeBlankLine(text, j);
    headers, p := EndsBeforeBlankLine(round, text, j, FirstEndOf(text) + 2);
    PathScan(round, FirstEndOf(text) + 2, headers, p, [], rounds);
    assert [] + headers == headers;
  }

  /** Constructing from a text with a blank line ends, and the body is everything behind the first one. */
  lemma ConstructWithBlankLine<F, H(!new)>(first: Text -> Result<F>, round: nat -> Round<H>, text: Text, j: nat,
                                           rounds: nat)
    requires Follows(round, text) && BlankLineAt(text, j) && rounds >= |text|
    ensures var outcome := Construct(first, round, text, rounds);
      && outcome != Unfinished
      && (outcome.Parsed? ==> outcome.body == if j + 4 < |text| then Some(text[j + 4..]) else None)
  {
    if Begins(first, text) {
      var headers, p := ScanWithBlankLine(round, text, j, rounds);
      ConstructScan(first, round, text, rounds);
    } else {
      ConstructFails(first, round, text, rounds);
    }
  }

  /** What constructing comes to when the loop has a path to its end. */
  lemma ConstructByPath<F, H(!new)>(first: Text -> Result<F>, round: nat -> Round<H>, text: Text, headers: seq<H>,
                                    p: nat)
    requires Begins(first, text) && Path(round, FirstEndOf(text) + 2, headers, p) && !round(p).Line?
    ensures Ends(first, round, text) && (IsParsed(first, round, text) <==> round(p).Blank?)
  {
    var start, rounds := FirstEndOf(text) + 2, |headers| + 1;
    PathScan(round, start, headers, p, [], rounds);
    ConstructScan(first, round, text, rounds);
    assert Construct(first, round, text, rounds) != Unfinished;
    if more: nat :| Construct(first, round, text, more).Parsed? {
      ConstructScan(first, round, text, more);
      var headers', p' := ScanPath(round, start, [], more);
      PathUnique(round, start, headers, p, headers', p');
    }
  }

  lemma NotConstructed<F, H>(first: Text -> Result<F>, round: nat -> Round<H>, text: Text)
    requires !Begins(first, text)
    ensures !IsParsed(first, round, text)
  {
    forall rounds: nat ensures !Construct(first, round, text, rounds).Parsed? {
      ConstructFails(first, round, text, rounds);
    }
  }

  /** With a blank line: parsed exactly when the first line parses and all lines up to the blank one are headers. */
  lemma ParsedWithBlankLine<F, H(!new)>(first: Text -> Result<F>, round: nat -> Round<H>, text: Text, j: nat)
    requires Follows(round, text) && BlankLineAt(text, j)
    ensures IsParsed(first, round, text) <==>
            Begins(first, text) && AllLines(round, text, FirstEndOf(text) + 2, j + 2)
  {
    if Begins(first, text) {
      StartsBeforeBlankLine(text, j);
      var headers, p := EndsBeforeBlankLine(round, text, j, FirstEndOf(text) + 2);
      ConstructByPath(first, round, text, headers, p);
    } else {
      NotConstructed(first, round, text);
    }
  }

  lemma NoEmptyStart(text: Text)
    requires NoBlankLine(text)
    ensures forall q: nat :: 2 <= q && LineStart(text, q) ==> !OccursAt(text, CRLF, q)
  {
    forall q: nat | 2 <= q && LineStart(text, q) ensures !OccursAt(text, CRLF, q) { BlankOccurs(text, q - 2); }
  }

  lemma LineEndAtOne(text: Text)
    requires FirstEndOf(text) <= |text|
    ensures OccursAt(text, CRLF, 1) <==> FirstEndOf(text) == 1
  {
    FirstLineStart(text);
    CrLfOccurs(text, 0);
    CrLfOccurs(text, 1);
  }

  /** The loop never ends on positions from which header lines lead only to each other. */
  lemma {:induction false} RunsOn<H>(round: nat -> Round<H>, inside: nat -> bool, pos: nat, headers: seq<H>,
                                     rounds: nat)
    requires inside(pos) && forall p: nat :: inside(p) ==> round(p).Line? && inside(round(p).next)
    ensures ScanFrom(round, pos, headers, rounds) == Running
    decreases rounds
  {
    if rounds > 0 {
      ScanOnce(round, pos, headers, rounds);
      RunsOn(round, inside, round(pos).next, headers + [round(pos).header], rounds - 1);
    }
  }

  /** The positions that the loop can get to. */
  ghost function LineStarts(text: string, from: nat): nat -> bool {
    (p: nat) => 1 <= p <= |text| && LineStart(text, p) && (p == 1 || from <= p)
  }

  lemma StartsLeadOn<H>(round: nat -> Round<H>, text: Text, from: nat, p: nat)
    requires Follows(round, text) && round(1).Line? && AllLines(round, text, from, |text| + 1)
    requires forall i: nat :: OccursAt(text, CRLF, i) ==> from <= i + 2
    requires LineStarts(text, from)(p)
    ensures round(p).Line? && LineStarts(text, from)(round(p).next)
  {
    assert round(p).Line?;
    NextStartFacts(text, p);
  }

  lemma LinesRunOn<H>(round: nat -> Round<H>, text: Text, from: nat, rounds: nat)
    requires Follows(round, text) && round(1).Line? && AllLines(round, text, from, |text| + 1)
    requires forall i: nat :: OccursAt(text, CRLF, i) ==> from <= i + 2
    requires LineStarts(text, from)(from)
    ensures ScanFrom(round, from, [], rounds) == Running
  {
    var inside := LineStarts(text, from);
    forall p: nat | inside(p) ensures round(p).Line? && inside(round(p).next) { StartsLeadOn(round, text, from, p); }
    RunsOn(round, inside, from, [], rounds);
  }

  /** A loop that meets only header lines never ends. */
  lemma AllLinesRunOn<F, H>(first: Text -> Result<F>, round: nat -> Round<H>, text: Text)
    requires Follows(round, text) && Begins(first, text)
    requires round(1).Line? && AllLines(round, text, FirstEndOf(text) + 2, |text| + 1)
    ensures !IsParsed(first, round, text) && !Ends(first, round, text)
  {
    FirstLineStart(text);
    forall rounds: nat ensures Construct(first, round, text, rounds) == Unfinished {
      LinesRunOn(round, text, FirstEndOf(text) + 2, rounds);
      ConstructScan(first, round, text, rounds);
    }
  }

  /** Some line behind the first is not a header: the loop ends at the first such line. */
  lemma SomeLineEnds<F, H(!new)>(first: Text -> Result<F>, round: nat -> Round<H>, text: Text) returns (p: nat)
    requires Follows(round, text) && Begins(first, text)
    requires !AllLines(round, text, FirstEndOf(text) + 2, |text| + 1)
    ensures 2 <= p && LineStart(text, p)
    ensures Ends(first, round, text) && (IsParsed(first, round, text) <==> round(p).Blank?)
  {
    var start := FirstEndOf(text) + 2;
    FirstLineStart(text);
    var q: nat :| start <= q < |text| + 1 && LineStart(text, q) && !round(q).Line?;
    var headers;
    headers, p := FirstEnd(round, text, start, q);
    ConstructByPath(first, round, text, headers, p);
  }

  /** All lines behind the first are headers: the loop gets to position 1. */
  lemma AllLinesWrap<F, H(!new)>(first: Text -> Result<F>, round: nat -> Round<H>, text: Text)
    requires Follows(round, text) && Begins(first, text) && AllLines(round, text, FirstEndOf(text) + 2, |text| + 1)
    ensures Ends(first, round, text) <==> !round(1).Line?
    ensures IsParsed(first, round, text) <==> round(1).Blank?
  {
    FirstLineStart(text);
    if round(1).Line? {
      AllLinesRunOn(first, round, text);
    } else {
      var headers := ToTheWrap(round, text, FirstEndOf(text) + 2);
      ConstructByPath(first, round, text, headers, 1);
    }
  }

  /** Without one: only the wrap can end the loop well, in a text whose first line has one character. */
  lemma ParsedWithoutBlankLine<F, H(!new)>(first: Text -> Result<F>, round: nat -> Round<H>, text: Text)
    requires Follows(round, text) && NoBlankLine(text)
    ensures IsParsed(first, round, text) <==>
            && Begins(first, text) && FirstEndOf(text) == 1
            && AllLines(round, text, FirstEndOf(text) + 2, |text| + 1)
  {
    if !Begins(first, text) {
      NotConstructed(first, round, text);
    } else if AllLines(round, text, FirstEndOf(text) + 2, |text| + 1) {
      FirstLineStart(text);
      LineEndAtOne(text);
      AllLinesWrap(first, round, text);
    } else {
      var p := SomeLineEnds(first, round, text);
      NoEmptyStart(text);
    }
  }

  /** Once the first line has parsed, the loop ends exactly when it can meet a line that is not a header. */
  lemma EndsIfSomeLineDoes<F, H(!new)>(first: Text -> Result<F>, round: nat -> Round<H>, text: Text)
    requires Follows(round, text) && Begins(first, text)
    ensures Ends(first, round, text) <==>
            !(round(1).Line? && AllLines(round, text, FirstEndOf(text) + 2, |text| + 1))
  {
    if AllLines(round, text, FirstEndOf(text) + 2, |text| + 1) {
      AllLinesWrap(first, round, text);
    } else {
      var p := SomeLineEnds(first, round, text);
    }
  }

  // ----- The rounds of the loop, for any way of parsing a header line -----

  function LineAt<H>(parse: Text -> Result<H>, text: Text, pos: nat, end: nat): Result<H> {
    var line := Substr(text, pos, Minus(end, pos));
    if line.Err? then Err(line.error) else parse(line.value)
  }

  function RoundAt<H>(parse: Text -> Result<H>, text: Text, pos: nat): Round<H> {
    var end := Find(text, CRLF, pos);
    if end == pos then Blank
    else
      var h := LineAt(parse, text, pos, end);
      if h.Err? then Bad(h.error) else Line(h.value, Plus(end, 2))
  }

  function Rounds<H>(parse: Text -> Result<H>, text: Text): nat -> Round<H> { (pos: nat) => RoundAt(parse, text, pos) }

  /** The line from a position, up to its end or the end of the text. */
  function LineFrom(text: string, pos: nat): string
    requires pos <= |text|
  {
    var end := Find(text, CRLF, pos);
    if pos <= end <= |text| then text[pos..end] else text[pos..]
  }

  lemma LineIsCut(text: Text, pos: nat)
    requires pos <= |text|
    ensures Substr(text, pos, Minus(Find(text, CRLF, pos), pos)) == Ok(LineFrom(text, pos))
  {
    FindFinds(text, CRLF, pos);
    LineFromEnd(text, pos);
  }

  lemma LineFromEnd(text: Text, pos: nat)
    requires pos <= |text|
    ensures Substr(text, pos, Minus(NPOS, pos)) == Ok(text[pos..])
  {
  }

  /** A round looks for an empty line first and then parses the line. */
  lemma RoundShape<H>(parse: Text -> Result<H>, text: Text, pos: nat)
    requires pos <= |text|
    ensures var round := Rounds(parse, text)(pos);
      if OccursAt(text, CRLF, pos) then round == Blank
      else
        match parse(LineFrom(text, pos))
        case Err(error) => round == Bad(error)
        case Ok(h) => round == Line(h, NextStart(text, pos))
  {
    LineIsCut(text, pos);
    FindFinds(text, CRLF, pos);
  }

  lemma RoundsFollow<H>(parse: Text -> Result<H>, text: Text)
    ensures Follows(Rounds(parse, text), text)
  {
    forall pos: nat | pos <= |text|
      ensures var round := Rounds(parse, text)(pos);
        (round.Blank? <==> OccursAt(text, CRLF, pos)) && (round.Line? ==> round.next == NextStart(text, pos))
    { RoundShape(parse, text, pos); }
  }

  // ----- Exactly which texts are parsed -----

  /** Every line from the second on that starts before a position is a header. */
  ghost predicate HeadersBefore<H>(parse: Text -> Result<H>, text: Text, limit: nat) {
    forall q: nat :: 2 <= q < limit && q <= |text| && LineStart(text, q) ==> parse(LineFrom(text, q)).Ok?
  }

  lemma LinesAreHeaders<H>(parse: Text -> Result<H>, text: Text, from: nat, to: nat)
    requires from >= 2 && to <= |text| + 1
    requires forall q: nat :: from <= q < to && LineStart(text, q) ==> !OccursAt(text, CRLF, q)
    requires forall i: nat :: OccursAt(text, CRLF, i) ==> from <= i + 2
    ensures AllLines(Rounds(parse, text), text, from, to) <==> HeadersBefore(parse, text, to)
  {
    var round := Rounds(parse, text);
    forall q: nat | q <= |text|
      ensures round(q).Line? <==> !OccursAt(text, CRLF, q) && parse(LineFrom(text, q)).Ok?
    { RoundShape(parse, text, q); }
  }

  lemma HeadersToBlankLine<H>(parse: Text -> Result<H>, text: Text, j: nat)
    requires BlankLineAt(text, j)
    ensures AllLines(Rounds(parse, text), text, FirstEndOf(text) + 2, j + 2) <==> HeadersBefore(parse, text, j + 2)
  {
    var start := FirstEndOf(text) + 2;
    StartsBeforeBlankLine(text, j);
    FirstLineStart(text);
    forall q: nat | start <= q < j + 2 && LineStart(text, q) ensures !OccursAt(text, CRLF, q) {
      BlankStart(text, j, q);
    }
    LinesAreHeaders(parse, text, start, j + 2);
  }

  lemma HeadersToTheEnd<H>(parse: Text -> Result<H>, text: Text)
    requires NoBlankLine(text) && FirstEndOf(text) <= |text|
    ensures AllLines(Rounds(parse, text), text, FirstEndOf(text) + 2, |text| + 1) <==>
            HeadersBefore(parse, text, |text| + 1)
  {
    FirstLineStart(text);
    NoEmptyStart(text);
    LinesAreHeaders(parse, text, FirstEndOf(text) + 2, |text| + 1);
  }

  lemma ParsedToBlankLine<F, H(!new)>(first: Text -> Result<F>, parse: Text -> Result<H>, text: Text, j: nat)
    requires BlankLineAt(text, j)
    ensures IsParsed(first, Rounds(parse, text), text) <==>
            Begins(first, text) && HeadersBefore(parse, text, j + 2)
  {
    RoundsFollow(parse, text);
    ParsedWithBlankLine(first, Rounds(parse, text), text, j);
    HeadersToBlankLine(parse, text, j);
  }

  lemma ParsedByWrap<F, H(!new)>(first: Text -> Result<F>, parse: Text -> Result<H>, text: Text)
    requires NoBlankLine(text)
    ensures IsParsed(first, Rounds(parse, text), text) <==>
            Begins(first, text) && FirstEndOf(text) == 1 && HeadersBefore(parse, text, |text| + 1)
  {
    RoundsFollow(parse, text);
    ParsedWithoutBlankLine(first, Rounds(parse, text), text);
    if FirstEndOf(text) <= |text| {
      HeadersToTheEnd(parse, text);
    }
  }

  // ----- Exactly when parsing ends -----

  /** The line there is empty or is not a header. */
  ghost predicate EndsAt<H>(parse: Text -> Result<H>, text: Text, pos: nat) {
    pos <= |text| && (OccursAt(text, CRLF, pos) || parse(LineFrom(text, pos)).Err?)
  }

  lemma EndingLines<H>(parse: Text -> Result<H>, text: Text)
    requires FirstEndOf(text) <= |text|
    ensures var round := Rounds(parse, text);
      round(1).Line? && AllLines(round, text, FirstEndOf(text) + 2, |text| + 1)
      <==> forall p: nat :: LineStart(text, p) ==> !EndsAt(parse, text, p)
  {
    var round := Rounds(parse, text);
    FirstLineStart(text);
    forall q: nat | q <= |text| ensures round(q).Line? <==> !EndsAt(parse, text, q) { RoundShape(parse, text, q); }
  }

  lemma EndsAtSomeLine<F, H(!new)>(first: Text -> Result<F>, parse: Text -> Result<H>, text: Text)
    requires Begins(first, text)
    ensures Ends(first, Rounds(parse, text), text) <==> exists p: nat :: LineStart(text, p) && EndsAt(parse, text, p)
  {
    RoundsFollow(parse, text);
    EndsIfSomeLineDoes(first, Rounds(parse, text), text);
    EndingLines(parse, text);
  }

  // ----- Texts of two lines -----

  lemma FirstLineOf(text: Text, line: string, rest: string)
    requires text == line + CRLF + rest && OneLine(line)
    ensures FirstEndOf(text) == |line| && text[..|line|] == line
  {
    assert text == "" + line + CRLF + rest;
    LineEnd("", line, rest);
    Associative(line, CRLF, rest);
    TwoParts(line, CRLF + rest);
  }

  lemma TwoLineStarts(text: Text, line: string, rest: string, p: nat)
    requires text == line + CRLF + rest && OneLine(line) && OneLine(rest) && LineStart(text, p) && p != 1
    ensures p == |line| + 2 && text[p..] == rest
  {
    ThreeParts(text, line, CRLF, rest);
    FirstLineOf(text, line, rest);
    FindFinds(text, CRLF, 0);
    CrLfOccurs(text, p - 2);
    assert text[|line| + 1] == '\n';
    NoCrLf(text, |line| + 2);
    FindFinds(text, CRLF, |line| + 2);
  }

  lemma LastLine(text: Text, line: string, rest: string)
    requires text == line + CRLF + rest && OneLine(rest)
    ensures LineFrom(text, |line| + 2) == rest && !OccursAt(text, CRLF, |line| + 2)
  {
    ThreeParts(text, line, CRLF, rest);
    NoCrLf(text, |line| + 2);
    FindFinds(text, CRLF, |line| + 2);
  }

  lemma ShortenedLine(text: Text, line: string, rest: string)
    requires text == line + CRLF + rest && OneLine(line) && |line| >= 2
    ensures LineFrom(text, 1) == line[1..] && !OccursAt(text, CRLF, 1)
  {
    assert text == line[..1] + line[1..] + CRLF + rest;
    LineEnd(line[..1], line[1..], rest);
    assert text[1..|line|] == line[1..];
    CrLfOccurs(text, 1);
    assert line[1] == text[1];
  }

  /** The loop alternates between the last line, which is not ended, and the first less its first character. */
  lemma TwoLinesRunOn<F, H(!new)>(first: Text -> Result<F>, parse: Text -> Result<H>, text: Text,
                                  line: string, rest: string)
    requires text == line + CRLF + rest && |line| >= 2 && OneLine(line) && OneLine(rest)
    requires first(line).Ok? && parse(rest).Ok? && parse(line[1..]).Ok?
    ensures !Ends(first, Rounds(parse, text), text)
  {
    FirstLineOf(text, line, rest);
    LastLine(text, line, rest);
    ShortenedLine(text, line, rest);
    forall p: nat | LineStart(text, p) ensures !EndsAt(parse, text, p) {
      if p != 1 {
        TwoLineStarts(text, line, rest, p);
      }
    }
    EndsAtSomeLine(first, parse, text);
  }

  lemma OneLineEnd(text: Text, line: string, rest: string, i: nat)
    requires text == line + CRLF + rest && OneLine(line) && OneLine(rest)
    ensures OccursAt(text, CRLF, i) ==> i == |line|
  {
    if OccursAt(text, CRLF, i) {
      TwoLineStarts(text, line, rest, i + 2);
    }
  }

  /** Two lines, the first of a single character and the second a header: no blank line, and yet parsed. */
  lemma TwoLinesParsed<F, H(!new)>(first: Text -> Result<F>, parse: Text -> Result<H>, text: Text,
                                   line: string, rest: string)
    requires text == line + CRLF + rest && |line| == 1 && OneLine(rest) && first(line).Ok? && parse(rest).Ok?
    ensures NoBlankLine(text) && IsParsed(first, Rounds(parse, text), text)
  {
    FirstLineOf(text, line, rest);
    LastLine(text, line, rest);
    forall i: nat ensures !OccursAt(text, CRLF + CRLF, i) {
      BlankOccurs(text, i);
      OneLineEnd(text, line, rest, i);
      OneLineEnd(text, line, rest, i + 2);
    }
    forall q: nat | 2 <= q <= |text| && LineStart(text, q) ensures parse(LineFrom(text, q)).Ok? {
      TwoLineStarts(text, line, rest, q);
    }
    ParsedByWrap(first, parse, text);
  }
}
