/** std::string searching and slicing, with the 64-bit arithmetic that its callers do on positions. */
module HttpText {

  datatype Option<+T> = None | Some(value: T)

  datatype Error = OutOfRange | InvalidMessage | HeaderParse | DateParse | InvalidNumber

  datatype Result<+T> = Ok(value: T) | Err(error: Error)

  const SIZE_MODULUS := 0x1_0000_0000_0000_0000

  /** What a failed search returns: the largest size_t. */
  const NPOS := SIZE_MODULUS - 1

  const CRLF := "\r\n"

  /** A string that fits in memory. */
  type Text = s: string | |s| < 0x7fff_ffff_ffff_fff0

  function Plus(a: nat, b: nat): nat { (a + b) % SIZE_MODULUS }

  function Minus(a: nat, b: nat): nat { (a - b) % SIZE_MODULUS }

  /** The length between two positions, less one, as the callers compute it. */
  lemma GapLength(a: nat, b: nat)
    requires b < 0x7fff_ffff_ffff_fff0 && (a == NPOS || a < 0x7fff_ffff_ffff_fff0)
    ensures b < a < NPOS ==> Minus(Minus(a, b), 1) == a - b - 1
    ensures a == NPOS || a <= b ==> Minus(Minus(a, b), 1) >= 0x7fff_ffff_ffff_fff0
  {
  }

  /** Stepping over a line end that was not found. */
  lemma StepOverNothing()
    ensures Plus(NPOS, 2) == 1
  {
  }

  predicate OccursAt(s: string, pattern: string, i: nat) {
    i + |pattern| <= |s| && s[i..i + |pattern|] == pattern
  }

  /** The first occurrence at or after a position. */
  function Find(s: string, pattern: string, pos: nat): nat
    decreases |s| - pos
  {
    if pos + |pattern| > |s| then NPOS
    else if OccursAt(s, pattern, pos) then pos
    else if pos == |s| then NPOS
    else Find(s, pattern, pos + 1)
  }

  function FindChar(s: string, c: char, pos: nat): nat { Find(s, [c], pos) }

  /** The last position that holds the character. */
  function FindLast(s: string, c: char): nat {
    if s == [] then NPOS else if s[|s| - 1] == c then |s| - 1 else FindLast(s[..|s| - 1], c)
  }

  /** substr: everything up to the end when the count is too large, an exception when the start is. */
  function Substr(s: string, pos: nat, count: nat): Result<string> {
    if pos > |s| then Err(OutOfRange)
    else if pos + count <= |s| then Ok(s[pos..pos + count])
    else Ok(s[pos..])
  }

  // ----- What a search finds -----

  lemma {:induction false} FindFinds(s: string, pattern: string, pos: nat)
    requires |s| < NPOS
    ensures var i := Find(s, pattern, pos);
      && (i != NPOS ==> pos <= i <= |s| && OccursAt(s, pattern, i))
      && (forall j :: pos <= j && j < i && j <= |s| ==> !OccursAt(s, pattern, j))
    decreases |s| - pos
  {
    if pos + |pattern| <= |s| && !OccursAt(s, pattern, pos) && pos < |s| {
      FindFinds(s, pattern, pos + 1);
    }
  }

  /** The first occurrence is the one the search returns. */
  lemma FindFirst(s: string, pattern: string, pos: nat, i: nat)
    requires |s| < NPOS && pos <= i && OccursAt(s, pattern, i)
    requires forall j :: pos <= j < i ==> !OccursAt(s, pattern, j)
    ensures Find(s, pattern, pos) == i
  {
    FindFinds(s, pattern, pos);
  }

  lemma FindNone(s: string, pattern: string, pos: nat)
    requires |s| < NPOS
    requires forall j :: pos <= j <= |s| ==> !OccursAt(s, pattern, j)
    ensures Find(s, pattern, pos) == NPOS
  {
    FindFinds(s, pattern, pos);
  }

  lemma CharOccurs(s: string, c: char, i: nat)
    ensures OccursAt(s, [c], i) <==> i < |s| && s[i] == c
  {
    if i < |s| {
      assert s[i..i + 1] == [s[i]];
    }
  }

  lemma FindCharFirst(s: string, c: char, pos: nat, i: nat)
    requires |s| < NPOS && pos <= i < |s| && s[i] == c
    requires forall j :: pos <= j < i ==> s[j] != c
    ensures FindChar(s, c, pos) == i
  {
    CharOccurs(s, c, i);
    forall j | pos <= j < i ensures !OccursAt(s, [c], j) { CharOccurs(s, c, j); }
    FindFirst(s, [c], pos, i);
  }

  lemma FindCharFinds(s: string, c: char, pos: nat)
    requires |s| < NPOS
    ensures var i := FindChar(s, c, pos);
      && (i != NPOS ==> pos <= i < |s| && s[i] == c)
      && (forall j :: pos <= j < i && j < |s| ==> s[j] != c)
  {
    FindFinds(s, [c], pos);
    var i := FindChar(s, c, pos);
    if i != NPOS { CharOccurs(s, c, i); }
    forall j | pos <= j < i && j < |s| ensures s[j] != c { CharOccurs(s, c, j); }
  }

  lemma {:induction false} FindLastFinds(s: string, c: char)
    requires |s| < NPOS
    ensures var i := FindLast(s, c);
      && (i != NPOS ==> i < |s| && s[i] == c && forall j :: i < j < |s| ==> s[j] != c)
      && (i == NPOS ==> c !in s)
  {
    if s != [] && s[|s| - 1] != c {
      FindLastFinds(s[..|s| - 1], c);
    }
  }

  lemma LastFound(before: string, c: char, after: string)
    requires c !in after && |before + [c] + after| < NPOS
    ensures FindLast(before + [c] + after, c) == |before|
  {
    var s := before + [c] + after;
    FindLastFinds(s, c);
    assert s[|before|] == c;
    forall j | |before| < j < |s| ensures s[j] != c { assert s[j] == after[j - |before| - 1]; }
  }

  lemma FirstFound(before: string, c: char, after: string)
    requires c !in before && |before + [c] + after| < NPOS
    ensures FindChar(before + [c] + after, c, 0) == |before|
  {
    var s := before + [c] + after;
    forall j | 0 <= j < |before| ensures s[j] != c { assert s[j] == before[j]; }
    FindCharFirst(s, c, 0, |before|);
  }

  lemma NotFound(s: string, c: char)
    requires c !in s && |s| < NPOS
    ensures FindChar(s, c, 0) == NPOS && FindLast(s, c) == NPOS
  {
    FindCharFinds(s, c, 0);
    FindLastFinds(s, c);
  }

  // ----- Lines -----

  predicate OneLine(s: string) {
    forall i :: 0 <= i < |s| - 1 ==> !(s[i] == '\r' && s[i + 1] == '\n')
  }

  lemma CrLfOccurs(s: string, i: nat)
    ensures OccursAt(s, CRLF, i) <==> i + 1 < |s| && s[i] == '\r' && s[i + 1] == '\n'
  {
    if i + 1 < |s| {
      assert s[i..i + 2] == [s[i], s[i + 1]];
    }
  }

  /** Searching for the end of a line finds the CRLF that was written after it. */
  lemma LineEnd(before: string, line: string, after: string)
    requires OneLine(line) && |before + line + CRLF + after| < NPOS
    ensures Find(before + line + CRLF + after, CRLF, |before|) == |before| + |line|
  {
    var s := before + line + CRLF + after;
    CrLfOccurs(s, |before| + |line|);
    forall j | |before| <= j < |before| + |line| ensures !OccursAt(s, CRLF, j) {
      CrLfOccurs(s, j);
      assert s[j] == line[j - |before|];
      if j + 1 < |before| + |line| {
        assert s[j + 1] == line[j - |before| + 1];
      } else {
        assert s[j + 1] == '\r';
      }
    }
    FindFirst(s, CRLF, |before|, |before| + |line|);
  }

  lemma NoCrLf(s: string, pos: nat)
    requires pos <= |s| < NPOS && OneLine(s[pos..])
    ensures Find(s, CRLF, pos) == NPOS
  {
    forall j: nat | pos <= j <= |s| ensures !OccursAt(s, CRLF, j) {
      CrLfOccurs(s, j);
      if j + 1 < |s| {
        assert s[j] == s[pos..][j - pos] && s[j + 1] == s[pos..][j - pos + 1];
      }
    }
    FindNone(s, CRLF, pos);
  }
}

/** URIs: a scheme up to the first colon, a fragment from the last octothorpe. */
module HttpUri {
  import opened Sequences
  import opened HttpText

  datatype Location = Absolute(scheme: string, path: string) | Relative(path: string)

  datatype Uri = Uri(location: Location, fragment: Option<string>)

  /** The slice from a valid start, up to the end when the count is too large. */
  function Slice(s: string, pos: nat, count: nat): string
    requires pos <= |s|
  {
    Substr(s, pos, count).value
  }

  function Parse(u: Text): Uri {
    var octothorpe := FindLast(u, '#');
    var colon := FindChar(u, ':', 0);
    FindLastFinds(u, '#');
    FindCharFinds(u, ':', 0);
    var fragment := if octothorpe != NPOS then Some(Slice(u, octothorpe + 1, NPOS)) else None;
    if colon != NPOS then
      Uri(Absolute(Slice(u, 0, colon), Slice(u, colon + 1, Minus(Minus(octothorpe, colon), 1))), fragment)
    else
      Uri(Relative(Slice(u, 0, octothorpe)), fragment)
  }

  function PrintLocation(l: Location): string {
    match l
    case Absolute(scheme, path) => scheme + ":" + path
    case Relative(path) => path
  }

  function Print(uri: Uri): string {
    PrintLocation(uri.location) + (if uri.fragment.Some? then "#" + uri.fragment.value else "")
  }

  /** The first colon lies behind the last octothorpe. */
  predicate ColonInFragment(u: string) {
    var octothorpe, colon := FindLast(u, '#'), FindChar(u, ':', 0);
    octothorpe != NPOS && colon != NPOS && octothorpe < colon
  }

  /** The parts that parsing cuts out, with the wrap-around in the path's length worked out. */
  lemma ParsedParts(u: Text)
    ensures var octothorpe, colon := FindLast(u, '#'), FindChar(u, ':', 0);
      && (octothorpe == NPOS ==> Parse(u).fragment == None)
      && (octothorpe != NPOS ==> octothorpe < |u| && Parse(u).fragment == Some(u[octothorpe + 1..]))
      && (colon == NPOS ==>
            Parse(u).location == Relative(if octothorpe == NPOS then u else u[..octothorpe]))
      && (colon != NPOS ==>
            && colon < |u| && u[colon] == ':'
            && Parse(u).location == Absolute(u[..colon],
                 if octothorpe != NPOS && colon < octothorpe then u[colon + 1..octothorpe] else u[colon + 1..]))
  {
    FindLastFinds(u, '#');
    FindCharFinds(u, ':', 0);
    if FindChar(u, ':', 0) != NPOS {
      GapLength(FindLast(u, '#'), FindChar(u, ':', 0));
    }
  }

  lemma Split(u: string, i: nat, c: char)
    requires i < |u| && u[i] == c
    ensures u == u[..i] + [c] + u[i + 1..]
  {
  }

  /** What printing puts together from the parts that parsing cut out. */
  function Reassembled(u: string, octothorpe: nat, colon: nat): string
    requires (octothorpe == NPOS || octothorpe < |u|) && (colon == NPOS || colon < |u|)
  {
    var location :=
      if colon == NPOS then (if octothorpe == NPOS then u else u[..octothorpe])
      else if octothorpe != NPOS && colon < octothorpe then u[..colon] + ":" + u[colon + 1..octothorpe]
      else u[..colon] + ":" + u[colon + 1..];
    if octothorpe == NPOS then location else location + ("#" + u[octothorpe + 1..])
  }

  lemma PrintedParts(u: Text)
    ensures var octothorpe, colon := FindLast(u, '#'), FindChar(u, ':', 0);
      && (octothorpe != NPOS ==>
            octothorpe < |u| && u[octothorpe] == '#' && Parse(u).fragment == Some(u[octothorpe + 1..]))
      && (colon != NPOS ==> colon < |u| && u[colon] == ':')
      && Print(Parse(u)) == Reassembled(u, octothorpe, colon)
  {
    ParsedParts(u);
    FindLastFinds(u, '#');
    assert PrintLocation(Parse(u).location) + "" == PrintLocation(Parse(u).location);
  }

  lemma SplitTwice(u: string, i: nat, j: nat)
    requires i < j < |u| && u[i] == ':' && u[j] == '#'
    ensures u[..i] + ":" + u[i + 1..j] + ("#" + u[j + 1..]) == u
  {
    Split(u, j, '#');
    Split(u[..j], i, ':');
    assert u[..j][..i] == u[..i] && u[..j][i + 1..] == u[i + 1..j];
  }

  lemma SplitOnce(u: string, i: nat, c: char)
    requires i < |u| && u[i] == c
    ensures u[..i] + [c] + u[i + 1..] == u && u[..i] + ([c] + u[i + 1..]) == u
  {
    Split(u, i, c);
    Associative(u[..i], [c], u[i + 1..]);
  }

  lemma ReassembledIs(u: string, octothorpe: nat, colon: nat)
    requires octothorpe == NPOS || (octothorpe < |u| && u[octothorpe] == '#')
    requires colon == NPOS || (colon < |u| && u[colon] == ':')
    ensures Reassembled(u, octothorpe, colon)
         == if octothorpe != NPOS && colon != NPOS && octothorpe < colon then u + ("#" + u[octothorpe + 1..]) else u
  {
    if colon == NPOS {
      if octothorpe != NPOS {
        SplitOnce(u, octothorpe, '#');
      }
    } else if octothorpe != NPOS && colon < octothorpe {
      SplitTwice(u, colon, octothorpe);
    } else {
      SplitOnce(u, colon, ':');
    }
  }

  /** Printing a parsed URI gives it back, except that a fragment with the first colon is printed twice. */
  lemma PrintParsed(u: Text)
    ensures Print(Parse(u)) == u <==> !ColonInFragment(u)
    ensures ColonInFragment(u) ==>
              Parse(u).fragment.Some? && Print(Parse(u)) == u + ("#" + Parse(u).fragment.value)
  {
    PrintedParts(u);
    ReassembledIs(u, FindLast(u, '#'), FindChar(u, ':', 0));
  }

  // ----- Which URIs survive printing -----

  /** The scheme ends at the first colon, a relative URI has none, and the last octothorpe starts the fragment. */
  predicate CanonicalUri(uri: Uri) {
    && (match uri.fragment
        case Some(f) => '#' !in f
        case None => '#' !in Print(uri))
    && (match uri.location
        case Absolute(scheme, _) => ':' !in scheme
        case Relative(_) => ':' !in Print(uri))
  }

  /** The fragment of a printed URI is read back. */
  lemma FragmentBack(uri: Uri, u: Text)
    requires u == Print(uri) && CanonicalUri(uri)
    ensures FindLast(u, '#') == if uri.fragment.Some? then |PrintLocation(uri.location)| else NPOS
    ensures Parse(u).fragment == uri.fragment
  {
    ParsedParts(u);
    if uri.fragment.Some? {
      var front, f := PrintLocation(uri.location), uri.fragment.value;
      assert u == front + ['#'] + f;
      LastFound(front, '#', f);
      assert u[|front| + 1..] == f;
    } else {
      NotFound(u, '#');
    }
  }

  lemma PrintedSplit(uri: Uri, u: Text, tail: string)
    requires u == Print(uri) && tail == if uri.fragment.Some? then "#" + uri.fragment.value else ""
    ensures u == PrintLocation(uri.location) + tail
    ensures uri.location.Absolute? ==> u == uri.location.scheme + [':'] + (uri.location.path + tail)
  {
    if uri.location.Absolute? {
      Associative(uri.location.scheme + [':'], uri.location.path, tail);
    }
  }

  lemma AbsoluteBack(uri: Uri, u: Text)
    requires u == Print(uri) && CanonicalUri(uri) && uri.location.Absolute?
    ensures Parse(u).location == uri.location
  {
    var tail := if uri.fragment.Some? then "#" + uri.fragment.value else "";
    var scheme, path := uri.location.scheme, uri.location.path;
    FragmentBack(uri, u);
    ParsedParts(u);
    PrintedSplit(uri, u, tail);
    FirstFound(scheme, ':', path + tail);
    ThreeParts(u, scheme, [':'], path + tail);
    TwoParts(path, tail);
    assert u[|scheme| + 1..|scheme| + 1 + |path|] == u[|scheme| + 1..][..|path|];
  }

  lemma RelativeBack(uri: Uri, u: Text)
    requires u == Print(uri) && CanonicalUri(uri) && uri.location.Relative?
    ensures Parse(u).location == uri.location
  {
    var tail := if uri.fragment.Some? then "#" + uri.fragment.value else "";
    FragmentBack(uri, u);
    ParsedParts(u);
    PrintedSplit(uri, u, tail);
    NotFound(u, ':');
    TwoParts(uri.location.path, tail);
  }

  /** A URI is recovered from its printed form if and only if its separators are where the parser looks for them. */
  lemma ParsePrinted(uri: Uri)
    requires |Print(uri)| < 0x7fff_ffff_ffff_fff0
    ensures Parse(Print(uri)) == uri <==> CanonicalUri(uri)
  {
    var u: Text := Print(uri);
    if CanonicalUri(uri) {
      FragmentBack(uri, u);
      if uri.location.Absolute? {
        AbsoluteBack(uri, u);
      } else {
        RelativeBack(uri, u);
      }
    } else {
      FindLastFinds(u, '#');
      FindCharFinds(u, ':', 0);
      ParsedParts(u);
    }
  }
}
