/** What numbers, versions, first lines and header lines of every shape come to. */
module HttpShapes {
  import opened Sequences
  import opened HttpText
  import opened HttpUri
  import opened HttpNumber
  import opened HttpLines
  import opened HttpScan
  import opened HttpMessage

  // ----- Numbers -----

  /** Blanks are the space and the five control characters from tab to carriage return. */
  lemma CharacterClasses(c: char)
    ensures IsSpace(c) <==> c as int == 32 || 9 <= c as int <= 13
    ensures IsDigit(c) <==> 48 <= c as int <= 57
  {
  }

  predicate AllSpaces(s: string) { forall i :: 0 <= i < |s| ==> IsSpace(s[i]) }

  predicate AllDigits(s: string) { forall i :: 0 <= i < |s| ==> IsDigit(s[i]) }

  lemma {:induction false} SpacesSkipped(blanks: string, t: string)
    requires AllSpaces(blanks) && (t == [] || !IsSpace(t[0]))
    ensures SkipSpaces(blanks + t) == t
  {
    if blanks == [] {
      assert blanks + t == t;
    } else {
      SpacesSkipped(blanks[1..], t);
      assert (blanks + t)[1..] == blanks[1..] + t;
    }
  }

  /** A number that fits 32 bits, or the exception. */
  function Ranged(v: int): Result<int> {
    if -2147483648 <= v <= 2147483647 then Ok(v) else Err(InvalidNumber)
  }

  /** Blanks, a sign or none, digits, and anything that is not a digit. */
  lemma StoiReads(blanks: string, sign: string, digits: string, rest: string)
    requires AllSpaces(blanks) && (sign == "" || sign == "+" || sign == "-")
    requires digits != [] && AllDigits(digits) && (rest == [] || !IsDigit(rest[0]))
    ensures Stoi(blanks + (sign + (digits + rest))) == Ranged(if sign == "-" then -Value(digits) else Value(digits))
  {
    var u := digits + rest;
    var t := sign + u;
    DigitsThen(digits, rest);
    TwoParts(digits, rest);
    TwoParts(sign, u);
    assert u[0] == digits[0] && IsDigit(u[0]);
    assert sign == "" ==> t == u;
    SpacesSkipped(blanks, t);
  }

  /** Blanks, a sign or none, and then no digit. */
  lemma StoiFails(blanks: string, sign: string, rest: string)
    requires AllSpaces(blanks) && (sign == "" || sign == "+" || sign == "-") && (rest == [] || !IsDigit(rest[0]))
    requires sign == "" && rest != [] ==> !IsSpace(rest[0]) && rest[0] != '+' && rest[0] != '-'
    ensures Stoi(blanks + (sign + rest)) == Err(InvalidNumber)
  {
    var t := sign + rest;
    TwoParts(sign, rest);
    assert sign == "" ==> t == rest;
    SpacesSkipped(blanks, t);
  }

  // ----- Versions -----

  /** The two numbers of a version, read from these texts. */
  function VersionFrom(major: string, minor: string): Result<Version> {
    if Stoi(major).Err? || Stoi(minor).Err? then Err(InvalidNumber)
    else Ok(Version(Stoi(major).value, Stoi(minor).value))
  }

  /** The lengths and positions that a missing or misplaced separator leads to. */
  lemma VersionWraps(slash: nat, dot: nat)
    requires slash == NPOS || slash < 0x7fff_ffff_ffff_fff0
    requires dot == NPOS || dot < 0x7fff_ffff_ffff_fff0
    ensures Plus(NPOS, 1) == 0
    ensures (slash != NPOS ==> Plus(slash, 1) == slash + 1) && (dot != NPOS ==> Plus(dot, 1) == dot + 1)
    ensures slash == NPOS && dot != NPOS ==> Minus(Minus(dot, slash), 1) == dot
    ensures slash == NPOS && dot == NPOS ==> Minus(Minus(dot, slash), 1) == NPOS
  {
  }

  /** Which parts of a text are read as the two numbers, wherever its first slash and its first dot are. */
  lemma VersionParts(s: Text, slash: nat, dot: nat)
    requires slash == FindChar(s, '/', 0) && dot == FindChar(s, '.', 0)
    ensures slash < dot < NPOS ==> dot < |s| && ParseVersion(s) == VersionFrom(s[slash + 1..dot], s[dot + 1..])
    ensures dot < slash < NPOS ==> slash < |s| && ParseVersion(s) == VersionFrom(s[slash + 1..], s[dot + 1..])
    ensures slash < NPOS && dot == NPOS ==> slash < |s| && ParseVersion(s) == VersionFrom(s[slash + 1..], s)
    ensures slash == NPOS && dot < NPOS ==> dot < |s| && ParseVersion(s) == VersionFrom(s[..dot], s[dot + 1..])
    ensures slash == NPOS && dot == NPOS ==> ParseVersion(s) == VersionFrom(s, s)
  {
    FindCharFinds(s, '/', 0);
    FindCharFinds(s, '.', 0);
    VersionWraps(slash, dot);
    if slash != NPOS {
      GapLength(dot, slash);
    }
  }

  // ----- First lines with fewer than two spaces -----

  lemma OneSpace(line: Text, head: string, tail: string)
    requires line == head + " " + tail && ' ' !in head && ' ' !in tail
    ensures Cut(line) == Fields(Ok(head), Ok(tail), NPOS)
  {
    FirstFound(head, ' ', tail);
    ThreeParts(line, head, " ", tail);
    FindCharFinds(line, ' ', |head| + 1);
    SecondNotFound(line, head, tail);
    GapLength(NPOS, |head|);
    assert Plus(|head|, 1) == |head| + 1;
  }

  lemma SecondNotFound(line: Text, head: string, tail: string)
    requires line == head + " " + tail && ' ' !in tail
    ensures FindChar(line, ' ', |head| + 1) == NPOS
  {
    FindCharFinds(line, ' ', |head| + 1);
    forall j | |head| + 1 <= j < |line| ensures line[j] != ' ' { assert line[j] == tail[j - |head| - 1]; }
  }

  lemma NoSpace(line: Text)
    requires ' ' !in line
    ensures Cut(line) == Fields(Ok(line), Ok(line), NPOS)
  {
    NotFound(line, ' ');
    VersionWraps(NPOS, NPOS);
    assert line[0..] == line;
  }

  lemma WholeLine(line: Text)
    ensures Substr(line, Plus(NPOS, 1), NPOS) == Ok(line)
  {
    VersionWraps(NPOS, NPOS);
    assert line[0..] == line;
  }

  /** A request without a version: the whole line is read as one. */
  lemma RequestWithoutVersion(line: Text, name: string, uri: Text)
    requires line == name + " " + uri && ' ' !in name && ' ' !in uri
    ensures ParseRequest(line)
         == match ParseVersion(line)
            case Err(error) => Err(error)
            case Ok(v) => Ok(Request(name, HttpUri.Parse(uri), v))
  {
    OneSpace(line, name, uri);
    RequestByCut(Versions(), Uris(), line, name, uri);
  }

  lemma RequestByCut(versions: Text -> Result<Version>, uris: Text -> Uri, line: Text, name: string, uri: Text)
    requires Cut(line) == Fields(Ok(name), Ok(uri), NPOS)
    ensures RequestWith(versions, uris, line)
         == match versions(line) case Err(error) => Err(error) case Ok(v) => Ok(Request(name, uris(uri), v))
  {
    WholeLine(line);
  }

  /** A request of one word: it is its own method, URI and version. */
  lemma RequestOfOneWord(line: Text)
    requires ' ' !in line
    ensures ParseRequest(line)
         == match ParseVersion(line)
            case Err(error) => Err(error)
            case Ok(v) => Ok(Request(line, HttpUri.Parse(line), v))
  {
    NoSpace(line);
    RequestByCut(Versions(), Uris(), line, line, line);
  }

  /** The simple request of older clients is not understood. */
  lemma SimpleRequestFails(line: Text, name: string, uri: Text)
    requires name == "GET" && uri == "/" && line == name + " " + uri
    ensures ParseFirstLine(line) == Err(InvalidNumber)
  {
    var front := name + " ";
    assert line == front + ['/'] + [] && |line| == 5;
    FirstFound(front, '/', []);
    assert '.' !in line;
    NotFound(line, '.');
    VersionParts(line, 4, NPOS);
    assert line[5..] == "";
    assert "" + ("" + "") == "";
    StoiFails("", "", "");
    RequestWithoutVersion(line, name, uri);
    assert line == name + " " + (uri + "");
    NotAStatus(name, uri);
    ChoosesRequest(line);
  }

  lemma NoReasonAt(line: Text)
    requires OneLine(line)
    ensures ParseReason(line, NPOS) == Ok(None)
  {
    VersionWraps(NPOS, NPOS);
    assert line[0..] == line;
    NoCrLf(line, 0);
  }

  /** In a line that is ended the reason goes up to the line end, and an empty one is none. */
  lemma ReasonBeforeLineEnd(line: Text, second: nat, reason: string, after: string)
    requires second < |line| && OneLine(reason) && line[second + 1..] == reason + CRLF + after
    ensures ParseReason(line, second) == Ok(if reason == "" then None else Some(reason))
  {
    var front := line[..second + 1];
    Halves(line, second + 1);
    Associative(front, reason + CRLF, after);
    Associative(front, reason, CRLF);
    assert line == front + reason + CRLF + after;
    LineEnd(front, reason, after);
    Associative(front + reason, CRLF, after);
    ThreeParts(line, front, reason, CRLF + after);
    assert Plus(second, 1) == second + 1;
    GapLength(second + 1 + |reason|, second);
  }

  lemma StatusByCut(versions: Text -> Result<Version>, codes: string -> Result<StatusCode>, line: Text, version: Text,
                    code: string)
    requires OneLine(line) && Cut(line) == Fields(Ok(version), Ok(code), NPOS)
    ensures StatusWith(versions, codes, line)
         == match versions(version)
            case Err(error) => Err(error)
            case Ok(v) =>
              match codes(code)
              case Err(error) => Err(error)
              case Ok(c) => Ok(Status(v, c, None))
  {
    NoReasonAt(line);
  }

  /** A status line that ends with its code has no reason. */
  lemma StatusWithoutReason(line: Text, v: Version, c: StatusCode)
    requires CanonicalVersion(v) && CanonicalCode(c) && OneLine(line)
    requires line == PrintVersion(v) + " " + ToString(c.code)
    ensures ParseStatus(line) == Ok(Status(v, c, None))
  {
    VersionRoundTrip(v);
    CodeRoundTrip(c);
    OneSpace(line, PrintVersion(v), ToString(c.code));
    StatusByCut(Versions(), Codes(), line, PrintVersion(v), ToString(c.code));
  }

  /** A status line of one word fails: the word is read as the code too, and it is no number. */
  lemma StatusOfOneWord(line: Text, rest: string)
    requires line == "H" + rest && ' ' !in line && OneLine(line)
    ensures ParseStatus(line).Err?
  {
    NoSpace(line);
    StatusByCut(Versions(), Codes(), line, line, line);
    assert "" + ("" + line) == line;
    StoiFails("", "", line);
    NoCode(line);
  }

  lemma NoCode(s: string)
    requires Stoi(s).Err?
    ensures ParseCode(s) == Err(InvalidNumber)
  {
  }

  // ----- Header lines -----

  /** A line with a name, a colon, one more character, and a value. */
  ghost predicate IsHeaderLine(line: Text, name: string, c: char, value: string) {
    ':' !in name && line == name + ":" + ([c] + value)
  }

  /** Everything but the three dates is kept as it is, whatever the character behind the colon. */
  lemma OtherHeader(dates: Dates, line: Text, name: string, c: char, value: string)
    requires IsHeaderLine(line, name, c, value) && name != "Date" && name != "Expires" && name != "Last-Modified"
    ensures ParseHeader(dates, line) == Ok(Header(name, value, None))
  {
    HeaderName(line, name, [c] + value);
    TwoParts([c], value);
  }

  /** A date that can be read is carried along with its text. */
  lemma ReadableDate(dates: Dates, line: Text, name: string, c: char, value: string, d: int)
    requires IsHeaderLine(line, name, c, value) && (name == "Date" || name == "Expires" || name == "Last-Modified")
    requires dates.parse(value) == Some(d)
    ensures ParseHeader(dates, line) == Ok(Header(name, value, Some(d)))
  {
    HeaderName(line, name, [c] + value);
    TwoParts([c], value);
  }

  /** An Expires that cannot be read stands for the present moment. */
  lemma UnreadableExpires(dates: Dates, line: Text, c: char, value: string)
    requires IsHeaderLine(line, "Expires", c, value) && dates.parse(value) == None
    ensures ParseHeader(dates, line) == Ok(Header("Expires", dates.format(dates.now), Some(dates.now)))
  {
    HeaderName(line, "Expires", [c] + value);
    TwoParts([c], value);
  }

  /** A Date or a Last-Modified that cannot be read is an error. */
  lemma UnreadableDate(dates: Dates, line: Text, name: string, c: char, value: string)
    requires IsHeaderLine(line, name, c, value) && (name == "Date" || name == "Last-Modified")
    requires dates.parse(value) == None
    ensures ParseHeader(dates, line) == Err(DateParse)
  {
    HeaderName(line, name, [c] + value);
    TwoParts([c], value);
  }

  /** So is a line without a colon, and one that ends with its first colon. */
  lemma NoHeader(dates: Dates, line: Text, name: string)
    ensures ':' !in line ==> ParseHeader(dates, line) == Err(HeaderParse)
    ensures ':' !in name && line == name + ":" ==> ParseHeader(dates, line) == Err(OutOfRange)
  {
    if ':' !in line {
      NotFound(line, ':');
    } else if ':' !in name && line == name + ":" {
      assert line == name + [':'] + [];
      FirstFound(name, ':', []);
      assert line[..|name|] == name;
    }
  }

  /** The line that says "expires at once" the short way. */
  lemma ExpiresZero(dates: Dates, line: Text)
    requires line == "Expires" + ":" + ([' '] + "0") && dates.parse("0") == None
    ensures ParseHeader(dates, line) == Ok(Header("Expires", dates.format(dates.now), Some(dates.now)))
  {
    UnreadableExpires(dates, line, ' ', "0");
  }

  /** A header with a date prints that date and not the text it came with. */
  lemma DatesArePrinted(dates: Dates, h: Header)
    ensures PrintHeader(dates, h)
         == match h.date case Some(d) => h.name + ": " + dates.format(d) case None => h.name + ": " + h.value
  {
  }

  /** So a message that is parsed and printed again carries its dates in the library's own text. */
  lemma DateIsRewritten(dates: Dates, line: Text, name: string, c: char, value: string, d: int)
    requires IsHeaderLine(line, name, c, value) && (name == "Date" || name == "Expires" || name == "Last-Modified")
    requires dates.parse(value) == Some(d)
    ensures var parsed := ParseHeader(dates, line);
      parsed.Ok? && PrintHeader(dates, parsed.value) == name + ": " + dates.format(d)
  {
    ReadableDate(dates, line, name, c, value, d);
  }

  // ----- Messages that fail before their first header -----

  /** A text without a line end is no message, and a first line that does not parse fails the message. */
  lemma FailsAtOnce(dates: Dates, text: Text, rounds: nat)
    ensures (forall i: nat :: !OccursAt(text, CRLF, i)) ==>
              HttpMessage.Parse(dates, text, rounds) == Failed(InvalidMessage)
    ensures FirstEndOf(text) <= |text| && ParseFirstLine(text[..FirstEndOf(text)]).Err? ==>
              HttpMessage.Parse(dates, text, rounds) == Failed(ParseFirstLine(text[..FirstEndOf(text)]).error)
  {
    FirstLineDecides(FirstLines(), Rounds(Headers(dates), text), text, rounds);
  }

  lemma FirstLineDecides<F, H>(first: Text -> Result<F>, round: nat -> Round<H>, text: Text, rounds: nat)
    ensures (forall i: nat :: !OccursAt(text, CRLF, i)) ==>
              Construct(first, round, text, rounds) == Failed(InvalidMessage)
    ensures FirstEndOf(text) <= |text| && first(text[..FirstEndOf(text)]).Err? ==>
              Construct(first, round, text, rounds) == Failed(first(text[..FirstEndOf(text)]).error)
  {
    FindFinds(text, CRLF, 0);
  }
}
