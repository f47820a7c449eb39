/** Decimal numbers as std::stoi and std::to_string treat them. */
module HttpNumber {
  import opened HttpText

  const INT_MAX := 0x7fff_ffff

  predicate IsDigit(c: char) { '0' <= c <= '9' }

  predicate IsSpace(c: char) { c == ' ' || '\t' <= c <= '\r' }

  function SkipSpaces(s: string): string {
    if s != [] && IsSpace(s[0]) then SkipSpaces(s[1..]) else s
  }

  /** How many digits the text starts with. */
  function DigitCount(s: string): (n: nat)
    ensures n <= |s|
  {
    if s != [] && IsDigit(s[0]) then 1 + DigitCount(s[1..]) else 0
  }

  function Value(digits: string): int {
    if digits == [] then 0
    else 10 * Value(digits[..|digits| - 1]) + (digits[|digits| - 1] as int - '0' as int)
  }

  /** Leading blanks, an optional sign, then at least one digit; what follows is ignored. */
  function Stoi(s: string): Result<int> {
    var t := SkipSpaces(s);
    var signed := t != [] && (t[0] == '-' || t[0] == '+');
    var u := if signed then t[1..] else t;
    var n := DigitCount(u);
    if n == 0 then Err(InvalidNumber)
    else
      var v := if signed && t[0] == '-' then -Value(u[..n]) else Value(u[..n]);
      if -INT_MAX - 1 <= v <= INT_MAX then Ok(v) else Err(InvalidNumber)
  }

  function Digit(d: nat): char
    requires d < 10
  {
    '0' + d as char
  }

  function Decimal(n: nat): string {
    if n < 10 then [Digit(n)] else Decimal(n / 10) + [Digit(n % 10)]
  }

  function ToString(n: int): string { if n < 0 then "-" + Decimal(-n) else Decimal(n) }

  lemma {:induction false} DecimalValue(n: nat)
    ensures Decimal(n) != [] && Value(Decimal(n)) == n
    ensures forall i :: 0 <= i < |Decimal(n)| ==> IsDigit(Decimal(n)[i])
  {
    if n < 10 {
      assert Decimal(n)[..0] == [];
    } else {
      DecimalValue(n / 10);
      assert Decimal(n)[..|Decimal(n)| - 1] == Decimal(n / 10);
    }
  }

  lemma {:induction false} DigitsThen(s: string, rest: string)
    requires forall i :: 0 <= i < |s| ==> IsDigit(s[i])
    requires rest != [] ==> !IsDigit(rest[0])
    ensures DigitCount(s + rest) == |s|
  {
    if s == [] {
      assert s + rest == rest;
    } else {
      DigitsThen(s[1..], rest);
      assert (s + rest)[1..] == s[1..] + rest;
    }
  }

  /** Reading a printed number gives it back, whatever non-digit follows. */
  lemma StoiOfDecimal(n: nat, rest: string)
    requires n <= INT_MAX && (rest != [] ==> !IsDigit(rest[0]))
    ensures Stoi(Decimal(n) + rest) == Ok(n)
  {
    DecimalValue(n);
    DigitsThen(Decimal(n), rest);
    var s := Decimal(n) + rest;
    assert IsDigit(s[0]) && s[..|Decimal(n)|] == Decimal(n);
  }
}

/** Request and status lines. */
module HttpLines {
  import opened HttpText
  import opened HttpNumber
  import opened HttpUri
  import opened Sequences

  datatype Version = Version(major: int, minor: int)

  /** A code from the table, or any other number. */
  datatype StatusCode = Known(code: int) | Extension(code: int)

  /** Methods outside GET, HEAD and POST keep their text, so a method is its text. */
  datatype FirstLine =
    | Request(requestMethod: string, uri: Uri, version: Version)
    | Status(version: Version, status: StatusCode, reason: Option<string>)

  const CODES: set<int> := {200, 201, 202, 204, 301, 302, 304, 400, 401, 403, 404, 500, 501, 502, 503}

  function ParseVersion(s: Text): Result<Version> {
    var slash, dot := FindChar(s, '/', 0), FindChar(s, '.', 0);
    var major := Substr(s, Plus(slash, 1), Minus(Minus(dot, slash), 1));
    var minor := Substr(s, Plus(dot, 1), NPOS);
    if major.Err? then Err(major.error)
    else if Stoi(major.value).Err? then Err(InvalidNumber)
    else if minor.Err? then Err(minor.error)
    else if Stoi(minor.value).Err? then Err(InvalidNumber)
    else Ok(Version(Stoi(major.value).value, Stoi(minor.value).value))
  }

  function PrintVersion(v: Version): string { "HTTP/" + ToString(v.major) + "." + ToString(v.minor) }

  predicate IsTableCode(s: string) {
    s in {"200", "201", "202", "204", "301", "302", "304", "400", "401", "403", "404", "500", "501", "502", "503"}
  }

  /** The table is matched on the text; anything else must be a number. */
  function ParseCode(s: string): Result<StatusCode> {
    var n := Stoi(s);
    if IsTableCode(s) then (if n.Ok? then Ok(Known(n.value)) else Err(InvalidNumber))
    else if n.Ok? then Ok(Extension(n.value))
    else Err(InvalidNumber)
  }

  /** What lies before the first space, what lies between the first and the second, and where the second is. */
  datatype Fields = Fields(head: Result<string>, middle: Result<string>, second: nat)

  function Cut(line: Text): Fields {
    var first := FindChar(line, ' ', 0);
    var second := FindChar(line, ' ', Plus(first, 1));
    Fields(Substr(line, 0, first), Substr(line, Plus(first, 1), Minus(Minus(second, first), 1)), second)
  }

  function Versions(): Text -> Result<Version> { (s: Text) => ParseVersion(s) }

  function Codes(): string -> Result<StatusCode> { (s: string) => ParseCode(s) }

  function Uris(): Text -> Uri { (s: Text) => HttpUri.Parse(s) }

  function ParseRequest(line: Text): Result<FirstLine> {
    RequestWith(Versions(), Uris(), line)
  }

  /** A request line, for any way of parsing the version and the URI. */
  function RequestWith(versions: Text -> Result<Version>, uris: Text -> Uri, line: Text): Result<FirstLine> {
    var f := Cut(line);
    var rest := Substr(line, Plus(f.second, 1), NPOS);
    if f.head.Err? then Err(f.head.error)
    else if f.middle.Err? then Err(f.middle.error)
    else if rest.Err? then Err(rest.error)
    else
      var version := versions(rest.value);
      if version.Err? then Err(version.error)
      else Ok(Request(f.head.value, uris(f.middle.value), version.value))
  }

  /** The reason: everything after the second space, or none when there is no such space. */
  function ParseReason(line: Text, second: nat): Result<Option<string>> {
    var crlf := Find(line, CRLF, Plus(second, 1));
    if Minus(crlf, second) > 1 then
      var reason := Substr(line, Plus(second, 1), Minus(Minus(crlf, second), 1));
      if reason.Err? then Err(reason.error) else Ok(Some(reason.value))
    else Ok(None)
  }

  function ParseStatus(line: Text): Result<FirstLine> {
    StatusWith(Versions(), Codes(), line)
  }

  /** A status line, for any way of parsing the version and the code. */
  function StatusWith(versions: Text -> Result<Version>, codes: string -> Result<StatusCode>, line: Text)
    : Result<FirstLine>
  {
    var f := Cut(line);
    if f.head.Err? then Err(f.head.error)
    else
      var version := versions(f.head.value);
      if version.Err? then Err(version.error)
      else if f.middle.Err? then Err(f.middle.error)
      else
        var status := codes(f.middle.value);
        if status.Err? then Err(status.error)
        else
          var reason := ParseReason(line, f.second);
          if reason.Err? then Err(reason.error)
          else Ok(Status(version.value, status.value, reason.value))
  }

  function ParseFirstLine(line: Text): Result<FirstLine> {
    if Find(line, "HTTP", 0) == 0 then ParseStatus(line) else ParseRequest(line)
  }

  function PrintFirstLine(f: FirstLine): string {
    match f
    case Request(name, uri, version) => name + " " + HttpUri.Print(uri) + " " + PrintVersion(version)
    case Status(version, status, reason) =>
      PrintVersion(version) + " " + ToString(status.code) + " " + (if reason.Some? then reason.value else "")
  }

  // ----- Canonical lines survive printing and parsing -----

  predicate CanonicalVersion(v: Version) { 0 <= v.major <= INT_MAX && 0 <= v.minor <= INT_MAX }

  predicate CanonicalCode(c: StatusCode) { 0 <= c.code <= INT_MAX && (c.Known? <==> c.code in CODES) }

  ghost predicate Canonical(f: FirstLine) {
    && |PrintFirstLine(f)| < 0x7fff_ffff_ffff_fff0
    && CanonicalVersion(f.version)
    && match f
       case Request(name, uri, _) =>
         && ' ' !in name && !("HTTP" <= name)
         && ' ' !in HttpUri.Print(uri) && |HttpUri.Print(uri)| < 0x7fff_ffff_ffff_fff0
         && CanonicalUri(uri)
       case Status(_, status, reason) => CanonicalCode(status) && (reason.Some? ==> OneLine(reason.value))
  }

  /** Two pieces joined by a separator that the first one does not hold: where the search finds it. */
  lemma SeparatorFound(before: string, piece: string, c: char, after: string)
    requires c !in piece && |before + piece + [c] + after| < NPOS
    ensures FindChar(before + piece + [c] + after, c, |before|) == |before| + |piece|
  {
    var s := before + piece + [c] + after;
    forall j | |before| <= j < |before| + |piece| ensures s[j] != c {
      assert s[j] == piece[j - |before|];
    }
    FindCharFirst(s, c, |before|, |before| + |piece|);
  }

  lemma DecimalPlain(n: nat, c: char)
    requires !IsDigit(c)
    ensures c !in Decimal(n)
  {
    DecimalValue(n);
  }

  lemma ParseVersionAt(s: Text, slash: nat, dot: nat)
    requires FindChar(s, '/', 0) == slash < dot < |s| && FindChar(s, '.', 0) == dot
    requires Stoi(s[slash + 1..dot]).Ok? && Stoi(s[dot + 1..]).Ok?
    ensures ParseVersion(s) == Ok(Version(Stoi(s[slash + 1..dot]).value, Stoi(s[dot + 1..]).value))
  {
    GapLength(dot, slash);
  }

  lemma StoiDecimal(n: nat)
    requires n <= INT_MAX
    ensures Stoi(Decimal(n)) == Ok(n)
  {
    StoiOfDecimal(n, "");
    assert Decimal(n) + "" == Decimal(n);
  }

  /** Where the separators of a version are. */
  lemma VersionText(s: Text, name: string, major: string, minor: string)
    requires name == "HTTP" && s == name + "/" + major + "." + minor && '.' !in major
    ensures FindChar(s, '/', 0) == 4 && FindChar(s, '.', 0) == 5 + |major| < |s|
    ensures s[5..5 + |major|] == major && s[6 + |major|..] == minor
  {
    var front := name + "/" + major;
    assert s == name + ['/'] + (major + "." + minor);
    FirstFound(name, '/', major + "." + minor);
    FirstFound(front, '.', minor);
    ThreeParts(s, front, ".", minor);
    ThreeParts(front, name, "/", major);
    assert s[5..5 + |major|] == s[..|front|][5..];
  }

  lemma VersionPlain(v: Version)
    requires CanonicalVersion(v)
    ensures ' ' !in PrintVersion(v)
  {
    DecimalPlain(v.major, ' ');
    DecimalPlain(v.minor, ' ');
  }

  lemma VersionRoundTrip(v: Version)
    requires CanonicalVersion(v) && |PrintVersion(v)| < 0x7fff_ffff_ffff_fff0
    ensures ParseVersion(PrintVersion(v)) == Ok(v)
    ensures ' ' !in PrintVersion(v)
  {
    var major, minor := Decimal(v.major), Decimal(v.minor);
    DecimalPlain(v.major, '.');
    VersionPlain(v);
    assert PrintVersion(v) == "HTTP" + "/" + major + "." + minor;
    VersionText(PrintVersion(v), "HTTP", major, minor);
    StoiDecimal(v.major);
    StoiDecimal(v.minor);
    ParseVersionAt(PrintVersion(v), 4, 5 + |major|);
  }

  lemma CodeRoundTrip(c: StatusCode)
    requires CanonicalCode(c)
    ensures ParseCode(ToString(c.code)) == Ok(c) && ' ' !in ToString(c.code)
  {
    StoiDecimal(c.code);
    DecimalPlain(c.code, ' ');
    TableCodes(c.code);
  }

  lemma ThreeDigits(n: nat)
    requires 100 <= n < 1000
    ensures Decimal(n) == [Digit(n / 100), Digit(n / 10 % 10), Digit(n % 10)]
  {
    assert Decimal(n) == Decimal(n / 10) + [Digit(n % 10)];
    assert Decimal(n / 10) == Decimal(n / 10 / 10) + [Digit(n / 10 % 10)];
    assert n / 10 / 10 == n / 100 && n / 100 < 10;
  }

  lemma TableTexts(a: nat, b: nat, c: nat)
    requires a < 10 && b < 10 && c < 10
    ensures IsTableCode([Digit(a), Digit(b), Digit(c)]) <==> 100 * a + 10 * b + c in CODES
  {
  }

  lemma TableDigits(n: nat, a: nat, b: nat, c: nat)
    requires a < 10 && b < 10 && c < 10 && n == 100 * a + 10 * b + c
    ensures IsTableCode([Digit(a), Digit(b), Digit(c)]) <==> n in CODES
  {
    TableTexts(a, b, c);
  }

  lemma TableNumber(n: nat, s: string)
    requires 100 <= n < 1000 && s == Decimal(n)
    ensures IsTableCode(s) <==> n in CODES
  {
    ThreeDigits(n);
    TableDigits(n, n / 100, n / 10 % 10, n % 10);
  }

  lemma CodesHaveThreeDigits(n: nat)
    ensures n in CODES ==> 100 <= n < 1000
  {
  }

  lemma TableLength(s: string)
    ensures IsTableCode(s) ==> |s| == 3
  {
  }

  /** The texts in the table are the printed codes. */
  lemma TableCodes(n: nat)
    ensures IsTableCode(Decimal(n)) <==> n in CODES
  {
    DecimalLength(n);
    if 100 <= n < 1000 {
      TableNumber(n, Decimal(n));
    } else {
      TableLength(Decimal(n));
      CodesHaveThreeDigits(n);
    }
  }

  lemma DecimalLength(n: nat)
    ensures |Decimal(n)| == 3 <==> 100 <= n < 1000
  {
    assert n >= 10 ==> |Decimal(n)| == |Decimal(n / 10)| + 1;
    assert n >= 100 ==> |Decimal(n / 10)| == |Decimal(n / 10 / 10)| + 1;
    assert n >= 1000 ==> |Decimal(n / 10 / 10)| == |Decimal(n / 10 / 10 / 10)| + 1;
  }

  lemma CutBetween(line: Text, first: nat, second: nat)
    requires FindChar(line, ' ', 0) == first && FindChar(line, ' ', first + 1) == second && first < second < |line|
    ensures Cut(line) == Fields(Ok(line[..first]), Ok(line[first + 1..second]), second)
  {
    GapLength(second, first);
    assert Plus(first, 1) == first + 1;
  }

  lemma CutAt(line: Text, head: string, middle: string, tail: string)
    requires line == head + " " + middle + " " + tail && ' ' !in head && ' ' !in middle
    ensures Cut(line) == Fields(Ok(head), Ok(middle), |head| + 1 + |middle|)
    ensures |head| + 1 + |middle| < |line| && line[|head| + 1 + |middle| + 1..] == tail
  {
    SpacesFound(line, head, middle, tail);
    CutBetween(line, |head|, |head| + 1 + |middle|);
  }

  /** Where the two spaces are, and what lies around them. */
  lemma SpacesFound(line: Text, head: string, middle: string, tail: string)
    requires line == head + " " + middle + " " + tail && ' ' !in head && ' ' !in middle
    ensures var first, second := |head|, |head| + 1 + |middle|;
      && second < |line| && FindChar(line, ' ', 0) == first && FindChar(line, ' ', first + 1) == second
      && line[..first] == head && line[first + 1..second] == middle && line[second + 1..] == tail
  {
    var front, rest := head + " ", middle + " " + tail;
    Associative(front, middle, " ");
    Associative(front, middle + " ", tail);
    FirstFound(head, ' ', rest);
    SeparatorFound(front, middle, ' ', tail);
    ThreeParts(line, front, middle, " " + tail);
    Associative(front + middle, " ", tail);
    ThreeParts(line, front + middle, " ", tail);
    ThreeParts(line, head, " ", rest);
  }

  lemma RequestCut(versions: Text -> Result<Version>, uris: Text -> Uri, line: Text, name: string, uri: Text,
                   version: Text)
    requires line == name + " " + uri + " " + version && ' ' !in name && ' ' !in uri && versions(version).Ok?
    ensures RequestWith(versions, uris, line) == Ok(Request(name, uris(uri), versions(version).value))
  {
    var second := |name| + 1 + |uri|;
    CutAt(line, name, uri, version);
    assert Plus(second, 1) == second + 1;
  }

  lemma RequestParsed(line: Text, name: string, uri: Text, v: Version)
    requires ' ' !in name && ' ' !in uri && CanonicalVersion(v) && line == name + " " + uri + " " + PrintVersion(v)
    ensures ParseRequest(line) == Ok(Request(name, HttpUri.Parse(uri), v))
  {
    VersionRoundTrip(v);
    RequestCut(Versions(), Uris(), line, name, uri, PrintVersion(v));
  }

  lemma RequestLine(line: Text, name: string, uri: Text, v: Version)
    requires ' ' !in name && ' ' !in uri && CanonicalVersion(v) && line == name + " " + uri + " " + PrintVersion(v)
    requires !("HTTP" <= name)
    ensures ParseFirstLine(line) == Ok(Request(name, HttpUri.Parse(uri), v))
  {
    RequestParsed(line, name, uri, v);
    NotAStatusLine(line, name, uri, PrintVersion(v));
    ChoosesRequest(line);
  }

  lemma ChoosesRequest(line: Text)
    requires Find(line, "HTTP", 0) != 0
    ensures ParseFirstLine(line) == ParseRequest(line)
  {
  }

  lemma NotAStatusLine(line: Text, name: string, uri: string, version: string)
    requires line == name + " " + uri + " " + version && ' ' !in name && !("HTTP" <= name)
    ensures Find(line, "HTTP", 0) != 0
  {
    Associative(name + " ", uri, " ");
    Associative(name + " ", uri + " ", version);
    NotAStatus(name, uri + " " + version);
  }

  lemma RequestRoundTrip(f: FirstLine)
    requires Canonical(f) && f.Request?
    ensures ParseFirstLine(PrintFirstLine(f)) == Ok(f)
  {
    HttpUri.ParsePrinted(f.uri);
    RequestLine(PrintFirstLine(f), f.requestMethod, HttpUri.Print(f.uri), f.version);
  }

  lemma NotAStatus(name: string, rest: string)
    requires ' ' !in name && !("HTTP" <= name) && |name + " " + rest| < NPOS
    ensures Find(name + " " + rest, "HTTP", 0) != 0
  {
    var line := name + " " + rest;
    assert |name| >= 4 ==> line[0..4] == name[..4];
    assert |name| < 4 ==> line[|name|] == ' ';
    FindFinds(line, "HTTP", 0);
  }

  /** The reason text is always read back, as an empty one if there was none. */
  function WithReason(f: FirstLine): FirstLine {
    if f.Status? && f.reason == None then f.(reason := Some("")) else f
  }

  lemma ReasonAt(line: Text, second: nat)
    requires second < |line| && OneLine(line[second + 1..])
    ensures ParseReason(line, second) == Ok(Some(line[second + 1..]))
  {
    NoCrLf(line, second + 1);
    GapLength(NPOS, second);
  }

  lemma StatusCut(versions: Text -> Result<Version>, codes: string -> Result<StatusCode>, line: Text, version: Text,
                  code: string, reason: string)
    requires line == version + " " + code + " " + reason && ' ' !in version && ' ' !in code && OneLine(reason)
    requires versions(version).Ok? && codes(code).Ok?
    ensures StatusWith(versions, codes, line) == Ok(Status(versions(version).value, codes(code).value, Some(reason)))
  {
    var second := |version| + 1 + |code|;
    CutAt(line, version, code, reason);
    ReasonAt(line, second);
    StatusOfFields(versions, codes, line, version, code, second, Some(reason));
  }

  lemma StatusOfFields(versions: Text -> Result<Version>, codes: string -> Result<StatusCode>, line: Text,
                       version: Text, code: string, second: nat, reason: Option<string>)
    requires Cut(line) == Fields(Ok(version), Ok(code), second) && ParseReason(line, second) == Ok(reason)
    requires versions(version).Ok? && codes(code).Ok?
    ensures StatusWith(versions, codes, line) == Ok(Status(versions(version).value, codes(code).value, reason))
  {
  }

  lemma StatusParsed(line: Text, v: Version, c: StatusCode, reason: string)
    requires CanonicalVersion(v) && CanonicalCode(c) && OneLine(reason)
    requires line == PrintVersion(v) + " " + ToString(c.code) + " " + reason
    ensures ParseStatus(line) == Ok(Status(v, c, Some(reason)))
  {
    VersionRoundTrip(v);
    CodeRoundTrip(c);
    StatusCut(Versions(), Codes(), line, PrintVersion(v), ToString(c.code), reason);
  }

  lemma StatusRoundTrip(f: FirstLine)
    requires Canonical(f) && f.Status?
    ensures ParseFirstLine(PrintFirstLine(f)) == Ok(WithReason(f))
  {
    var version, code := PrintVersion(f.version), ToString(f.status.code);
    var reason := if f.reason.Some? then f.reason.value else "";
    StatusParsed(PrintFirstLine(f), f.version, f.status, reason);
    StartsWithHttp(f.version, code, reason);
  }

  lemma StartsWithHttp(v: Version, code: string, reason: string)
    ensures Find(PrintVersion(v) + " " + code + " " + reason, "HTTP", 0) == 0
  {
    assert PrintVersion(v)[0..4] == "HTTP";
    assert (PrintVersion(v) + " " + code + " " + reason)[0..4] == "HTTP";
  }

  /** Printing and parsing a canonical first line recovers it, up to an absent reason, and prints the same again. */
  lemma FirstLineRoundTrip(f: FirstLine)
    requires Canonical(f)
    ensures ParseFirstLine(PrintFirstLine(f)) == Ok(WithReason(f))
    ensures PrintFirstLine(WithReason(f)) == PrintFirstLine(f)
  {
    if f.Request? {
      RequestRoundTrip(f);
    } else {
      StatusRoundTrip(f);
    }
  }
}
