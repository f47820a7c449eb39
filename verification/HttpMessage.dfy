/** Whole messages: the header loop of the parser, the printer, and how they undo each other. */
module HttpMessage {
  import opened HttpText
  import opened HttpLines
  import opened HttpScan
  import HttpNumber
  import opened Sequences

  /** Date text and the clock, which the library takes from the system. */
  datatype Dates = Dates(parse: string -> Option<int>, format: int -> string, now: int)

  /** A Date, Expires or Last-Modified header carries a date and prints that instead of its text. */
  datatype Header = Header(name: string, value: string, date: Option<int>)

  datatype Message = Message(first: FirstLine, headers: seq<Header>, body: Option<string>)

  function MakeHeader(dates: Dates, name: string, value: string): Result<Header> {
    if name == "Date" || name == "Last-Modified" then
      match dates.parse(value)
      case None => Err(DateParse)
      case Some(d) => Ok(Header(name, value, Some(d)))
    else if name == "Expires" then
      match dates.parse(value)
      case None => Ok(Header(name, dates.format(dates.now), Some(dates.now)))
      case Some(d) => Ok(Header(name, value, Some(d)))
    else Ok(Header(name, value, None))
  }

  /** The name up to the first colon, the value from two characters further on. */
  function ParseHeader(dates: Dates, line: Text): Result<Header> {
    var colon := FindChar(line, ':', 0);
    if colon == NPOS then Err(HeaderParse)
    else
      var name, value := Substr(line, 0, colon), Substr(line, colon + 2, NPOS);
      if name.Err? then Err(name.error)
      else if value.Err? then Err(value.error)
      else MakeHeader(dates, name.value, value.value)
  }

  function PrintHeader(dates: Dates, h: Header): string {
    h.name + ": " + (if h.date.Some? then dates.format(h.date.value) else h.value)
  }

  // ----- The constructor -----

  function Headers(dates: Dates): Text -> Result<Header> { (line: Text) => ParseHeader(dates, line) }

  function FirstLines(): Text -> Result<FirstLine> { (line: Text) => ParseFirstLine(line) }

  /** What constructing a message from text gives when the header loop is watched for so many rounds. */
  function Parse(dates: Dates, text: Text, rounds: nat): Outcome<FirstLine, Header> {
    Construct(FirstLines(), Rounds(Headers(dates), text), text, rounds)
  }

  /** The scan has got as far as this position and these headers. */
  ghost predicate Continues(round: nat -> Round<Header>, scan: Scan<Header>, pos: nat, headers: seq<Header>,
                            rounds: nat)
  {
    scan == ScanFrom(round, pos, headers, rounds)
  }

  lemma ContinueOnce(round: nat -> Round<Header>, scan: Scan<Header>, pos: nat, headers: seq<Header>, h: Header,
                     next: nat, headers': seq<Header>, rounds: nat)
    requires Continues(round, scan, pos, headers, rounds + 1) && headers' == headers + [h]
    requires round(pos) == Line(h, next)
    ensures Continues(round, scan, next, headers', rounds)
  {
  }

  /** The loop over the header lines. */
  method ScanHeaders(parse: Text -> Result<Header>, text: Text, start: nat, rounds: nat) returns (scan: Scan<Header>)
    ensures scan == ScanFrom(Rounds(parse, text), start, [], rounds)
  {
    var headers: seq<Header> := [];
    var pos := start;
    var end := Find(text, CRLF, pos);
    var left := rounds;
    ghost var round := Rounds(parse, text);
    ghost var whole := ScanFrom(round, start, [], rounds);
    while end != pos
      invariant end == Find(text, CRLF, pos)
      invariant Continues(round, whole, pos, headers, left)
      decreases left
    {
      assert round(pos) == RoundAt(parse, text, pos);
      if left == 0 {
        return Running;
      }
      var h := LineAt(parse, text, pos, end);
      if h.Err? {
        return Threw(h.error);
      }
      ghost var pos', headers' := pos, headers;
      headers := headers + [h.value];
      pos := Plus(end, 2);
      left := left - 1;
      ContinueOnce(round, whole, pos', headers', h.value, pos, headers, left);
      end := Find(text, CRLF, pos);
    }
    assert round(pos) == RoundAt(parse, text, pos);
    scan := Stopped(pos, headers);
  }

  /** The constructor: the first line, the header lines, and what lies behind the blank one. */
  method ConstructMessage(first: Text -> Result<FirstLine>, parse: Text -> Result<Header>, text: Text, rounds: nat)
    returns (outcome: Outcome<FirstLine, Header>)
    ensures outcome == Construct(first, Rounds(parse, text), text, rounds)
  {
    var end := Find(text, CRLF, 0);
    FindFinds(text, CRLF, 0);
    if end == NPOS {
      return Failed(InvalidMessage);
    }
    var line := first(text[..end]);
    if line.Err? {
      return Failed(line.error);
    }
    var scan := ScanHeaders(parse, text, end + 2, rounds);
    ConstructScan(first, Rounds(parse, text), text, rounds);
    if scan == Running {
      return Unfinished;
    } else if scan.Threw? {
      return Failed(scan.error);
    }
    var pos := scan.pos + 2;
    var body := None;
    if pos < |text| {
      body := Some(text[pos..]);
    }
    outcome := Parsed(line.value, scan.headers, body);
  }

  method ParseMessage(dates: Dates, text: Text, rounds: nat) returns (outcome: Outcome<FirstLine, Header>)
    ensures outcome == Parse(dates, text, rounds)
  {
    outcome := ConstructMessage(FirstLines(), Headers(dates), text, rounds);
  }

  function PrintHeaders(dates: Dates, headers: seq<Header>): string {
    if headers == [] then "" else PrintHeader(dates, headers[0]) + CRLF + PrintHeaders(dates, headers[1..])
  }

  function Print(dates: Dates, m: Message): string {
    PrintFirstLine(m.first) + CRLF + PrintHeaders(dates, m.headers) + CRLF
    + (if m.body.Some? then m.body.value else "")
  }

  lemma {:induction false} PrintHeadersAppend(dates: Dates, headers: seq<Header>, h: Header)
    ensures PrintHeaders(dates, headers + [h]) == PrintHeaders(dates, headers) + PrintHeader(dates, h) + CRLF
  {
    if headers == [] {
      assert headers + [h] == [h] && [h][1..] == [];
    } else {
      PrintHeadersAppend(dates, headers[1..], h);
      assert (headers + [h])[1..] == headers[1..] + [h];
    }
  }

  lemma PrintHeadersGrow(dates: Dates, start: string, headers: seq<Header>, i: nat)
    requires i < |headers|
    ensures start + PrintHeaders(dates, headers[..i + 1])
         == start + PrintHeaders(dates, headers[..i]) + PrintHeader(dates, headers[i]) + CRLF
  {
    assert headers[..i + 1] == headers[..i] + [headers[i]];
    PrintHeadersAppend(dates, headers[..i], headers[i]);
  }

  /** to_string: append piece by piece. */
  method PrintMessage(dates: Dates, m: Message) returns (text: string)
    ensures text == Print(dates, m)
  {
    text := PrintFirstLine(m.first) + CRLF;
    ghost var start := text;
    assert m.headers[..0] == [] && start == start + PrintHeaders(dates, []);
    for i := 0 to |m.headers|
      invariant text == start + PrintHeaders(dates, m.headers[..i])
    {
      PrintHeadersGrow(dates, start, m.headers, i);
      text := text + PrintHeader(dates, m.headers[i]);
      text := text + CRLF;
    }
    assert m.headers[..|m.headers|] == m.headers;
    text := text + CRLF;
    if m.body.Some? {
      text := text + m.body.value;
    }
  }

  // ----- Which texts are parsed, and to what -----

  /** Parsing a text with a blank line ends, and the body is everything behind the first one. */
  lemma BodyFollowsBlankLine(dates: Dates, text: Text, j: nat, rounds: nat)
    requires BlankLineAt(text, j) && rounds >= |text|
    ensures Parse(dates, text, rounds) != Unfinished
    ensures Parse(dates, text, rounds).Parsed? ==>
              Parse(dates, text, rounds).body == if j + 4 < |text| then Some(text[j + 4..]) else None
  {
    RoundsFollow(Headers(dates), text);
    ConstructWithBlankLine(FirstLines(), Rounds(Headers(dates), text), text, j, rounds);
  }

  /** Some number of rounds is enough to parse the text. */
  ghost predicate EventuallyParsed(dates: Dates, text: Text) {
    IsParsed(FirstLines(), Rounds(Headers(dates), text), text)
  }

  /** Some number of rounds is enough for the constructor to return or throw. */
  ghost predicate EventuallyEnds(dates: Dates, text: Text) {
    Ends(FirstLines(), Rounds(Headers(dates), text), text)
  }

  lemma EventuallyMeans(dates: Dates, text: Text)
    ensures EventuallyParsed(dates, text) <==> exists rounds: nat :: Parse(dates, text, rounds).Parsed?
    ensures EventuallyEnds(dates, text) <==> exists rounds: nat :: Parse(dates, text, rounds) != Unfinished
  {
    var round := Rounds(Headers(dates), text);
    forall rounds: nat ensures Parse(dates, text, rounds) == Construct(FirstLines(), round, text, rounds) {
    }
  }

  /** With a blank line a text is parsed exactly when its first line parses and all others before it are headers. */
  lemma ParsedExactly(dates: Dates, text: Text, j: nat)
    requires BlankLineAt(text, j)
    ensures EventuallyParsed(dates, text) <==>
            Begins(FirstLines(), text) && HeadersBefore(Headers(dates), text, j + 2)
  {
    ParsedToBlankLine(FirstLines(), Headers(dates), text, j);
  }

  /** Without one exactly when, besides, the first line has one character, so that the wrap meets its end. */
  lemma ParsedOnlyByWrap(dates: Dates, text: Text)
    requires NoBlankLine(text)
    ensures EventuallyParsed(dates, text) <==>
            Begins(FirstLines(), text) && FirstEndOf(text) == 1 && HeadersBefore(Headers(dates), text, |text| + 1)
  {
    ParsedByWrap(FirstLines(), Headers(dates), text);
  }

  /**
   Once the first line has parsed, the constructor ends if and only if some line
   behind it, or the first one less its first character, is empty or not a header.
   */
  lemma EndsExactly(dates: Dates, text: Text)
    requires Begins(FirstLines(), text)
    ensures EventuallyEnds(dates, text) <==> exists p: nat :: LineStart(text, p) && EndsAt(Headers(dates), text, p)
  {
    EndsAtSomeLine(FirstLines(), Headers(dates), text);
  }

  // ----- Texts on which it does not end -----

  /** The name and the rest of a header line that holds no date. */
  predicate IsPlain(name: string, value: string) {
    ':' !in name && name !in {"Date", "Expires", "Last-Modified"} && value != ""
  }

  lemma PlainHeader(dates: Dates, name: string, value: string, line: Text)
    requires IsPlain(name, value) && line == name + ":" + value
    ensures ParseHeader(dates, line).Ok?
  {
    HeaderName(line, name, value);
  }

  lemma PrintedVersion()
    ensures PrintVersion(Version(1, 0)) == "HTTP/1.0"
  {
    assert HttpNumber.Decimal(1) == "1" && HttpNumber.Decimal(0) == "0";
  }

  lemma WithoutCr(s: string)
    requires '\r' !in s
    ensures OneLine(s)
  {
  }

  lemma ExampleLines(line: string, rest: string)
    requires line == "GET a:b HTTP/1.0" && rest == "A: b"
    ensures OneLine(line) && OneLine(rest) && |line| == 16 && |rest| == 4
    ensures line[1..] == "ET a" + ":" + "b HTTP/1.0" && rest == "A" + ":" + " b"
    ensures line == "GET" + " " + "a:b" + " " + "HTTP/1.0"
  {
    WithoutCr(line);
    WithoutCr(rest);
  }

  /** Texts whose last line is a header that is not ended, and whose first line less its first character is one too. */
  lemma LoopsForever(dates: Dates, text: Text, line: string, rest: string)
    requires text == line + CRLF + rest && |line| >= 2 && OneLine(line) && OneLine(rest)
    requires ParseFirstLine(line).Ok? && ParseHeader(dates, rest).Ok? && ParseHeader(dates, line[1..]).Ok?
    ensures !EventuallyEnds(dates, text)
  {
    TwoLinesRunOn(FirstLines(), Headers(dates), text, line, rest);
  }

  lemma PlainLinesLoop(dates: Dates, text: Text, line: string, rest: string,
                       name: string, value: string, name': string, value': string)
    requires text == line + CRLF + rest && |line| >= 2 && OneLine(line) && OneLine(rest) && ParseFirstLine(line).Ok?
    requires line[1..] == name + ":" + value && IsPlain(name, value)
    requires rest == name' + ":" + value' && IsPlain(name', value')
    ensures !EventuallyEnds(dates, text)
  {
    PlainHeader(dates, name, value, line[1..]);
    PlainHeader(dates, name', value', rest);
    LoopsForever(dates, text, line, rest);
  }

  lemma ExampleRequest(line: string)
    requires line == "GET" + " " + "a:b" + " " + "HTTP/1.0" && |line| == 16
    ensures ParseFirstLine(line).Ok?
  {
    PrintedVersion();
    RequestLine(line, "GET", "a:b", Version(1, 0));
  }

  /** One such text: a request for an absolute URI whose only header line is not ended. */
  lemma RequestLoopsForever(dates: Dates, line: string, rest: string)
    requires line == "GET a:b HTTP/1.0" && rest == "A: b"
    ensures !EventuallyEnds(dates, line + CRLF + rest)
  {
    ExampleLines(line, rest);
    ExampleRequest(line);
    PlainLinesLoop(dates, line + CRLF + rest, line, rest, "ET a", "b HTTP/1.0", "A", " b");
  }

  // ----- A text without a blank line that is parsed -----

  /** A first line that is one digit is a request for that digit in version digit.digit. */
  lemma DigitParses(line: string)
    requires |line| == 1 && HttpNumber.IsDigit(line[0])
    ensures ParseFirstLine(line).Ok?
  {
    assert Plus(NPOS, 1) == 0 && Minus(Minus(NPOS, NPOS), 1) == NPOS;
    NotFound(line, ' ');
    NotFound(line, '/');
    NotFound(line, '.');
    assert Substr(line, 0, NPOS) == Ok(line);
    DigitNumber(line);
  }

  lemma DigitNumber(line: string)
    requires |line| == 1 && HttpNumber.IsDigit(line[0])
    ensures HttpNumber.Stoi(line).Ok?
  {
    var n := line[0] as int - '0' as int;
    assert HttpNumber.Decimal(n) == line == HttpNumber.Decimal(n) + "";
    HttpNumber.StoiOfDecimal(n, "");
  }

  /** One digit, a line end and a header: no blank line, and yet it is parsed to the end. */
  lemma DigitIsParsed(dates: Dates, text: Text, line: string, rest: string)
    requires text == line + CRLF + rest && |line| == 1 && HttpNumber.IsDigit(line[0])
    requires OneLine(rest) && ParseHeader(dates, rest).Ok?
    ensures NoBlankLine(text) && EventuallyParsed(dates, text)
  {
    DigitParses(line);
    TwoLinesParsed(FirstLines(), Headers(dates), text, line, rest);
  }

  lemma DigitExample(dates: Dates, text: Text, line: string, rest: string)
    requires text == line + CRLF + rest && line == "5" && rest == "A: b"
    ensures NoBlankLine(text) && EventuallyParsed(dates, text)
  {
    WithoutCr(rest);
    assert rest == "A" + ":" + " b";
    PlainHeader(dates, "A", " b", rest);
    DigitIsParsed(dates, text, line, rest);
  }

  // ----- Printing and parsing -----

  function PrintedValue(dates: Dates, h: Header): string {
    if h.date.Some? then dates.format(h.date.value) else h.value
  }

  /** One line, no colon in the name, and dates in the text the library itself produces. */
  ghost predicate CanonicalHeader(dates: Dates, h: Header) {
    && OneLine(PrintHeader(dates, h)) && ':' !in h.name
    && if h.name in {"Date", "Expires", "Last-Modified"}
       then h.date.Some? && h.value == dates.format(h.date.value) && dates.parse(h.value) == h.date
       else h.date == None
  }

  /** The name of a header line ends at its first colon. */
  lemma HeaderName(line: Text, name: string, rest: string)
    requires ':' !in name && line == name + ":" + rest
    ensures FindChar(line, ':', 0) == |name| && Substr(line, 0, |name|) == Ok(name)
    ensures rest != "" ==> Substr(line, |name| + 2, NPOS) == Ok(rest[1..])
  {
    FirstFound(name, ':', rest);
    ThreeParts(line, name, ":", rest);
    if rest != "" {
      SuffixOfSuffix(line, |name| + 1, 1);
    }
  }

  lemma HeaderRoundTrip(dates: Dates, h: Header)
    requires CanonicalHeader(dates, h) && |PrintHeader(dates, h)| < 0x7fff_ffff_ffff_fff0
    ensures ParseHeader(dates, PrintHeader(dates, h)) == Ok(h)
  {
    var value := PrintedValue(dates, h);
    assert PrintHeader(dates, h) == h.name + ":" + (" " + value);
    HeaderName(PrintHeader(dates, h), h.name, " " + value);
    assert (" " + value)[1..] == value;
  }

  /** A round at a line that was printed there. */
  lemma RoundOfPrinted<H>(parse: Text -> Result<H>, text: Text, before: string, line: Text, after: string, h: H)
    requires text == before + line + CRLF + after && OneLine(line) && |line| >= 2 && parse(line) == Ok(h)
    ensures Rounds(parse, text)(|before|) == Line(h, |before + line + CRLF|)
  {
    LineEnd(before, line, after);
    Associative(before + line, CRLF, after);
    ThreeParts(text, before, line, CRLF + after);
    RoundShape(parse, text, |before|);
    CrLfOccurs(text, |before|);
    assert line[0] == text[|before|] && line[1] == text[|before| + 1];
  }

  lemma Regroup(a: string, b: string, c: string, d: string)
    ensures a + (b + CRLF + c) + CRLF + d == a + b + CRLF + (c + CRLF + d)
    ensures a + b + CRLF + (c + CRLF + d) == (a + b + CRLF) + c + CRLF + d
    ensures |(a + b + CRLF) + c| == |a + (b + CRLF + c)|
  {
  }

  lemma BlankAt<H>(parse: Text -> Result<H>, text: Text, before: string, after: string)
    requires text == before + CRLF + after
    ensures Rounds(parse, text)(|before|) == Blank
  {
    assert text == before + "" + CRLF + after;
    LineEnd(before, "", after);
  }

  lemma {:induction false} PrintedPath(dates: Dates, text: Text, before: string, headers: seq<Header>, after: string)
    requires text == before + PrintHeaders(dates, headers) + CRLF + after
    requires forall i :: 0 <= i < |headers| ==> CanonicalHeader(dates, headers[i])
    ensures Path(Rounds(Headers(dates), text), |before|, headers, |before + PrintHeaders(dates, headers)|)
    decreases |headers|
  {
    if headers == [] {
      assert before + PrintHeaders(dates, headers) == before;
    } else {
      var h, rest := headers[0], headers[1..];
      var line, after' := PrintHeader(dates, h), PrintHeaders(dates, rest) + CRLF + after;
      Regroup(before, line, PrintHeaders(dates, rest), after);
      HeaderRoundTrip(dates, h);
      RoundOfPrinted(Headers(dates), text, before, line, after', h);
      PrintedPath(dates, text, before + line + CRLF, rest, after);
    }
  }

  ghost predicate CanonicalMessage(dates: Dates, m: Message) {
    && Canonical(m.first) && OneLine(PrintFirstLine(m.first))
    && (forall i :: 0 <= i < |m.headers| ==> CanonicalHeader(dates, m.headers[i]))
    && |Print(dates, m)| < 0x7fff_ffff_ffff_fff0
  }

  /** What comes back: an absent reason as an empty one, an empty body as none. */
  function Normalized(m: Message): Message {
    Message(WithReason(m.first), m.headers, if m.body == Some("") then None else m.body)
  }

  /** The headers of a printed message are scanned one by one, up to the blank line. */
  lemma ScanPrinted(dates: Dates, m: Message, text: Text, rounds: nat)
    requires CanonicalMessage(dates, m) && rounds >= |m.headers| && text == Print(dates, m)
    ensures ScanFrom(Rounds(Headers(dates), text), |PrintFirstLine(m.first)| + 2, [], rounds)
         == Stopped(|PrintFirstLine(m.first) + CRLF + PrintHeaders(dates, m.headers)|, m.headers)
  {
    var head := PrintFirstLine(m.first) + CRLF;
    var body := if m.body.Some? then m.body.value else "";
    PrintedPath(dates, text, head, m.headers, body);
    BlankAt(Headers(dates), text, head + PrintHeaders(dates, m.headers), body);
    PathScan(Rounds(Headers(dates), text), |head|, m.headers, |head + PrintHeaders(dates, m.headers)|, [], rounds);
    assert [] + m.headers == m.headers;
  }

  /** The printed text as head, headers, blank line and body. */
  lemma PrintedText(dates: Dates, m: Message, text: string, body: string)
    requires text == Print(dates, m) && body == if m.body.Some? then m.body.value else ""
    ensures var head := PrintFirstLine(m.first) + CRLF + PrintHeaders(dates, m.headers);
      && text == head + CRLF + body
      && text == PrintFirstLine(m.first) + CRLF + (PrintHeaders(dates, m.headers) + CRLF + body)
      && |text| == |head| + 2 + |body| && text[|head| + 2..] == body
  {
    FourPieces(text, PrintFirstLine(m.first), PrintHeaders(dates, m.headers), body);
  }

  lemma FourPieces(text: string, first: string, headers: string, body: string)
    requires text == first + CRLF + headers + CRLF + body
    ensures text == first + CRLF + (headers + CRLF + body)
    ensures |text| == |first + CRLF + headers| + 2 + |body| && text[|first + CRLF + headers| + 2..] == body
  {
    Associative(first + CRLF, headers, CRLF);
    Associative(first + CRLF, headers + CRLF, body);
    ThreeParts(text, first + CRLF + headers, CRLF, body);
  }

  /** The printed text begins with the printed first line. */
  lemma PrintedBegins(dates: Dates, m: Message, text: Text)
    requires CanonicalMessage(dates, m) && text == Print(dates, m)
    ensures FirstEndOf(text) == |PrintFirstLine(m.first)| <= |text|
    ensures FirstLines()(text[..FirstEndOf(text)]) == Ok(WithReason(m.first))
  {
    var body := if m.body.Some? then m.body.value else "";
    PrintedText(dates, m, text, body);
    FirstLineOf(text, PrintFirstLine(m.first), PrintHeaders(dates, m.headers) + CRLF + body);
    FirstLineRoundTrip(m.first);
  }

  /** The outcome of parsing, as a message. */
  function AsOutcome(m: Message): Outcome<FirstLine, Header> { Parsed(m.first, m.headers, m.body) }

  lemma ParsePrinted(dates: Dates, m: Message, text: Text, rounds: nat)
    requires CanonicalMessage(dates, m) && rounds >= |m.headers| && text == Print(dates, m)
    ensures Parse(dates, text, rounds) == AsOutcome(Normalized(m))
  {
    PrintedBegins(dates, m, text);
    ScanPrinted(dates, m, text, rounds);
    var end := |PrintFirstLine(m.first) + CRLF + PrintHeaders(dates, m.headers)|;
    NormalizedParts(dates, m, text, end);
    Constructed(FirstLines(), Rounds(Headers(dates), text), text, rounds, WithReason(m.first), end, m.headers);
  }

  lemma NormalizedParts(dates: Dates, m: Message, text: string, end: nat)
    requires text == Print(dates, m) && end == |PrintFirstLine(m.first) + CRLF + PrintHeaders(dates, m.headers)|
    ensures end + 2 <= |text|
    ensures AsOutcome(Normalized(m))
         == Parsed(WithReason(m.first), m.headers, if end + 2 < |text| then Some(text[end + 2..]) else None)
  {
    PrintedText(dates, m, text, if m.body.Some? then m.body.value else "");
  }

  lemma Constructed<F, H>(first: Text -> Result<F>, round: nat -> Round<H>, text: Text, rounds: nat,
                          line: F, pos: nat, headers: seq<H>)
    requires FirstEndOf(text) <= |text| && first(text[..FirstEndOf(text)]) == Ok(line)
    requires ScanFrom(round, FirstEndOf(text) + 2, [], rounds) == Stopped(pos, headers)
    ensures Construct(first, round, text, rounds)
         == Parsed(line, headers, if pos + 2 < |text| then Some(text[pos + 2..]) else None)
  {
    ConstructScan(first, round, text, rounds);
  }

  /** Parsing the printed text of a canonical message recovers it, and it prints the same again. */
  lemma MessageRoundTrip(dates: Dates, m: Message, rounds: nat)
    requires CanonicalMessage(dates, m) && rounds >= |m.headers|
    ensures Parse(dates, Print(dates, m), rounds) == AsOutcome(Normalized(m))
    ensures Print(dates, Normalized(m)) == Print(dates, m)
  {
    ParsePrinted(dates, m, Print(dates, m), rounds);
    FirstLineRoundTrip(m.first);
  }
}
