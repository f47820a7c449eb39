/** The proxy's cache: at most ten responses, the least recently used one making room. */
module ProxyCache {
  import opened Sequences
  import opened HttpText
  import opened HttpLines
  import opened HttpScan
  import opened HttpMessage

  const CAPACITY := 10

  datatype Entry = Entry(lastUsed: int, expires: int, response: Message)

  /** Keyed by the URI itself: the hash is taken to be free of collisions. */
  type Cache = map<string, Entry>

  /** The first header with the name. */
  function FirstHeader(headers: seq<Header>, name: string): Option<Header> {
    if headers == [] then None
    else if headers[0].name == name then Some(headers[0])
    else FirstHeader(headers[1..], name)
  }

  method GetHeader(m: Message, name: string) returns (h: Option<Header>)
    ensures h == FirstHeader(m.headers, name)
    ensures h.Some? ==> h.value in m.headers && h.value.name == name
    ensures h == None ==> forall i :: 0 <= i < |m.headers| ==> m.headers[i].name != name
  {
    for i := 0 to |m.headers|
      invariant FirstHeader(m.headers, name) == FirstHeader(m.headers[i..], name)
      invariant forall j :: 0 <= j < i ==> m.headers[j].name != name
    {
      if m.headers[i].name == name {
        return Some(m.headers[i]);
      }
      assert m.headers[i..][1..] == m.headers[i + 1..];
    }
    h := None;
  }

  predicate IsDateName(name: string) { name in {"Date", "Expires", "Last-Modified"} }

  /** Date headers carry dates. */
  ghost predicate DatesCarried(headers: seq<Header>) {
    forall i :: 0 <= i < |headers| && IsDateName(headers[i].name) ==> headers[i].date.Some?
  }

  /** What the handler relies on when it casts the date headers of a response. */
  ghost predicate IsResponse(m: Message) { m.first.Status? && DatesCarried(m.headers) }

  lemma ParsedHeaderCarriesDate(dates: Dates, line: Text)
    requires ParseHeader(dates, line).Ok?
    ensures var h := ParseHeader(dates, line).value; IsDateName(h.name) ==> h.date.Some?
  {
  }

  lemma LineCarriesDate(dates: Dates, text: Text, pos: nat)
    ensures var round := Rounds(Headers(dates), text)(pos);
      round.Line? && IsDateName(round.header.name) ==> round.header.date.Some?
  {
    var line := Substr(text, pos, Minus(Find(text, CRLF, pos), pos));
    if line.Ok? && ParseHeader(dates, line.value).Ok? {
      ParsedHeaderCarriesDate(dates, line.value);
    }
  }

  /** Headers collected by a loop whose every round yields a header that carries its date. */
  lemma {:induction false} PathCarriesDates(round: nat -> Round<Header>, pos: nat, headers: seq<Header>, stop: nat)
    requires Path(round, pos, headers, stop)
    requires forall p: nat :: round(p).Line? && IsDateName(round(p).header.name) ==> round(p).header.date.Some?
    ensures DatesCarried(headers)
    decreases |headers|
  {
    if headers != [] {
      PathCarriesDates(round, round(pos).next, headers[1..], stop);
      assert forall i :: 0 < i < |headers| ==> headers[i] == headers[1..][i - 1];
    }
  }

  /** Whatever text the origin sends, a response that parses is one the handler can work with. */
  lemma ParsedIsResponse(dates: Dates, text: Text, rounds: nat, m: Message)
    ensures Parse(dates, text, rounds) == AsOutcome(m) && m.first.Status? ==> IsResponse(m)
  {
    var round := Rounds(Headers(dates), text);
    forall p: nat | round(p).Line? && IsDateName(round(p).header.name) ensures round(p).header.date.Some? {
      LineCarriesDate(dates, text, p);
    }
    if Construct(FirstLines(), round, text, rounds) == AsOutcome(m) {
      ParsedCarriesDates(FirstLines(), round, text, rounds);
    }
  }

  lemma ParsedCarriesDates<F>(first: Text -> Result<F>, round: nat -> Round<Header>, text: Text, rounds: nat)
    requires forall p: nat :: round(p).Line? && IsDateName(round(p).header.name) ==> round(p).header.date.Some?
    requires Construct(first, round, text, rounds).Parsed?
    ensures DatesCarried(Construct(first, round, text, rounds).headers)
  {
    ConstructFails(first, round, text, rounds);
    ConstructScan(first, round, text, rounds);
    var headers, stop := ScanPath(round, FirstEndOf(text) + 2, [], rounds);
    assert [] + headers == headers;
    PathCarriesDates(round, FirstEndOf(text) + 2, headers, stop);
  }

  predicate NotModified(m: Message) { m.first.Status? && m.first.status == Known(304) }

  function DateOf(m: Message, name: string): Option<int> {
    var h := FirstHeader(m.headers, name);
    if h.Some? then h.value.date else None
  }

  /** Expires decides, else Last-Modified, else Date, else the present moment. */
  function Expiration(now: int, m: Message): int {
    if DateOf(m, "Expires").Some? then DateOf(m, "Expires").value
    else if DateOf(m, "Last-Modified").Some? then DateOf(m, "Last-Modified").value
    else if DateOf(m, "Date").Some? then DateOf(m, "Date").value
    else now
  }

  // ----- The expiry in terms of the list of headers -----

  /** Header i is the first of that name. */
  ghost predicate FirstNamed(headers: seq<Header>, name: string, i: nat) {
    i < |headers| && headers[i].name == name && forall j :: 0 <= j < i ==> headers[j].name != name
  }

  ghost predicate NoneNamed(headers: seq<Header>, name: string) {
    forall j :: 0 <= j < |headers| ==> headers[j].name != name
  }

  lemma {:induction false} FirstHeaderIs(headers: seq<Header>, name: string, i: nat)
    requires FirstNamed(headers, name, i)
    ensures FirstHeader(headers, name) == Some(headers[i])
  {
    if i > 0 {
      FirstHeaderIs(headers[1..], name, i - 1);
    }
  }

  lemma {:induction false} NoHeaderIs(headers: seq<Header>, name: string)
    requires NoneNamed(headers, name)
    ensures FirstHeader(headers, name) == None
  {
    if headers != [] {
      NoHeaderIs(headers[1..], name);
    }
  }

  lemma {:induction false} FirstOrNone(headers: seq<Header>, name: string) returns (i: nat)
    ensures FirstNamed(headers, name, i) || NoneNamed(headers, name)
  {
    if headers == [] || headers[0].name == name {
      i := 0;
    } else {
      i := FirstOrNone(headers[1..], name);
      assert forall j :: 0 < j < |headers| ==> headers[j] == headers[1..][j - 1];
      i := i + 1;
    }
  }

  /** The date of the first header of that name, if there is one, is t. */
  ghost predicate DatedBy(headers: seq<Header>, name: string, t: int) {
    forall i: nat :: FirstNamed(headers, name, i) ==> headers[i].date == Some(t)
  }

  /** The first Expires decides, else the first Last-Modified, else the first Date, else the present moment. */
  ghost predicate ExpiryIs(now: int, m: Message, t: int) {
    && DatedBy(m.headers, "Expires", t)
    && (NoneNamed(m.headers, "Expires") ==>
          && DatedBy(m.headers, "Last-Modified", t)
          && (NoneNamed(m.headers, "Last-Modified") ==>
                DatedBy(m.headers, "Date", t) && (NoneNamed(m.headers, "Date") ==> t == now)))
  }

  /** What the date under a name comes to. */
  lemma DateOfName(m: Message, name: string, t: int)
    requires DatesCarried(m.headers) && IsDateName(name)
    ensures DateOf(m, name) == None <==> NoneNamed(m.headers, name)
    ensures DatedBy(m.headers, name, t) <==> NoneNamed(m.headers, name) || DateOf(m, name) == Some(t)
  {
    var i := FirstOrNone(m.headers, name);
    if FirstNamed(m.headers, name, i) {
      FirstHeaderIs(m.headers, name, i);
      forall j: nat | FirstNamed(m.headers, name, j) ensures j == i {}
    } else {
      NoHeaderIs(m.headers, name);
    }
  }

  lemma ExpirationIs(now: int, m: Message, t: int)
    requires DatesCarried(m.headers)
    ensures ExpiryIs(now, m, t) <==> t == Expiration(now, m)
  {
    DateOfName(m, "Expires", t);
    DateOfName(m, "Last-Modified", t);
    DateOfName(m, "Date", t);
  }

  // ----- One request -----

  /** How a request was answered; Missing stands for the exception on a lookup that finds nothing. */
  datatype Reply = Cached(response: Message) | Revalidated(response: Message) | Fetched(response: Message) | Missing

  ghost predicate IsOldest(c: Cache, victim: string) {
    victim in c && forall k :: k in c ==> c[victim].lastUsed <= c[k].lastUsed
  }

  /** Room is made when the cache holds ten entries, at the cost of some least recently used one. */
  ghost predicate MakesRoom(c: Cache, c': Cache) {
    if |c| >= CAPACITY then exists victim :: IsOldest(c, victim) && c' == c - {victim} else c' == c
  }

  /** emplace: an entry that is already there stays. */
  function Emplace(c: Cache, uri: string, e: Entry): Cache { if uri in c then c else c[uri := e] }

  function Touch(c: Cache, uri: string, now: int): Cache
    requires uri in c
  {
    c[uri := c[uri].(lastUsed := now)]
  }

  predicate Fresh(c: Cache, uri: string, now: int) { uri in c && now < c[uri].expires }

  /** What handling a request may do; `answer` is what the origin says if it is asked. */
  ghost predicate Handles(c: Cache, uri: string, now: int, answer: Message, c': Cache, reply: Reply) {
    if Fresh(c, uri, now) then reply == Cached(c[uri].response) && c' == Touch(c, uri, now)
    else if NotModified(answer) then
      if uri in c then reply == Revalidated(c[uri].response) && c' == Touch(c, uri, now)
      else reply == Missing && c' == c
    else
      && reply == Fetched(answer)
      && exists room :: MakesRoom(c, room) && c' == Emplace(room, uri, Entry(now, Expiration(now, answer), answer))
  }

  class Proxy {
    var cache: Cache

    constructor ()
      ensures cache == map[]
    {
      cache := map[];
    }

    /** The scan for the entry with the smallest last-used time, in whatever order the map has. */
    method Oldest() returns (oldest: string)
      requires |cache| > 0
      ensures IsOldest(cache, oldest)
    {
      assert cache.Keys != {};
      oldest :| oldest in cache.Keys;
      var todo := cache.Keys;
      while todo != {}
        invariant todo <= cache.Keys && oldest in cache
        invariant forall k :: k in cache && k !in todo ==> cache[oldest].lastUsed <= cache[k].lastUsed
        decreases todo
      {
        var it :| it in todo;
        if cache[it].lastUsed < cache[oldest].lastUsed {
          oldest := it;
        }
        todo := todo - {it};
      }
    }

    method ExpirationOf(now: int, m: Message) returns (t: int)
      requires IsResponse(m)
      ensures t == Expiration(now, m) && ExpiryIs(now, m, t)
    {
      ExpirationIs(now, m, Expiration(now, m));
      t := now;
      var h := GetHeader(m, "Expires");
      if h.Some? {
        t := h.value.date.value;
      } else {
        h := GetHeader(m, "Last-Modified");
        if h.Some? {
          t := h.value.date.value;
        } else {
          h := GetHeader(m, "Date");
          if h.Some? {
            t := h.value.date.value;
          }
        }
      }
    }

    method Handle(uri: string, now: int, answer: Message) returns (reply: Reply)
      requires IsResponse(answer)
      modifies this
      ensures Handles(old(cache), uri, now, answer, cache, reply)
    {
      if uri in cache && now < cache[uri].expires {
        reply := Cached(cache[uri].response);
        cache := cache[uri := cache[uri].(lastUsed := now)];
        return;
      }
      if NotModified(answer) {
        if uri !in cache {
          return Missing;
        }
        reply := Revalidated(cache[uri].response);
        cache := cache[uri := cache[uri].(lastUsed := now)];
        return;
      }
      var expires := ExpirationOf(now, answer);
      reply := Fetched(answer);
      if |cache| >= CAPACITY {
        var oldest := Oldest();
        cache := cache - {oldest};
      }
      assert MakesRoom(old(cache), cache);
      if uri !in cache {
        cache := cache[uri := Entry(now, expires, answer)];
      }
    }
  }

  // ----- Whole runs, one request at a time -----

  datatype Visit = Visit(uri: string, now: int, answer: Message, reply: Reply, after: Cache)

  function Before(visits: seq<Visit>, i: nat): Cache
    requires i <= |visits|
  {
    if i == 0 then map[] else visits[i - 1].after
  }

  ghost predicate VisitOk(visits: seq<Visit>, i: nat)
    requires i < |visits|
  {
    var v := visits[i];
    IsResponse(v.answer) && Handles(Before(visits, i), v.uri, v.now, v.answer, v.after, v.reply)
  }

  ghost predicate IsRun(visits: seq<Visit>) { forall i: nat :: i < |visits| ==> VisitOk(visits, i) }

  /** The origin says "not modified" only when it was asked conditionally, that is about an entry in the cache. */
  ghost predicate HonestOrigin(visits: seq<Visit>) {
    forall i :: 0 <= i < |visits| && NotModified(visits[i].answer) ==> visits[i].uri in Before(visits, i)
  }

  /** The entry holds what the origin answered to visit j, stored when that visit was handled. */
  ghost predicate StoredAt(visits: seq<Visit>, j: nat, uri: string, e: Entry) {
    && j < |visits|
    && visits[j].uri == uri && visits[j].reply == Fetched(visits[j].answer)
    && e.response == visits[j].answer && e.expires == Expiration(visits[j].now, visits[j].answer)
  }

  ghost predicate Stored(visits: seq<Visit>, uri: string, e: Entry) { exists j: nat :: StoredAt(visits, j, uri, e) }

  ghost predicate Faithful(visits: seq<Visit>, c: Cache) {
    |c| <= CAPACITY && forall u :: u in c ==> Stored(visits, u, c[u])
  }

  lemma StoredLater(visits: seq<Visit>, v: Visit, uri: string, e: Entry)
    requires Stored(visits, uri, e)
    ensures Stored(visits + [v], uri, e)
  {
    var j: nat :| StoredAt(visits, j, uri, e);
    assert (visits + [v])[j] == visits[j];
    assert StoredAt(visits + [v], j, uri, e);
  }

  lemma FaithfulLater(visits: seq<Visit>, v: Visit, c: Cache)
    requires Faithful(visits, c)
    ensures Faithful(visits + [v], c)
  {
    forall u | u in c ensures Stored(visits + [v], u, c[u]) {
      StoredLater(visits, v, u, c[u]);
    }
  }

  lemma TouchKeepsFaithful(visits: seq<Visit>, c: Cache, uri: string, now: int)
    requires Faithful(visits, c) && uri in c
    ensures Faithful(visits, Touch(c, uri, now))
  {
    assert Touch(c, uri, now).Keys == c.Keys;
    var j: nat :| StoredAt(visits, j, uri, c[uri]);
    assert StoredAt(visits, j, uri, c[uri].(lastUsed := now));
  }

  lemma RoomKeepsFaithful(visits: seq<Visit>, c: Cache, room: Cache)
    requires Faithful(visits, c) && MakesRoom(c, room)
    ensures Faithful(visits, room) && |room| < CAPACITY
  {
    if |c| >= CAPACITY {
      var victim :| IsOldest(c, victim) && room == c - {victim};
      assert room.Keys == c.Keys - {victim};
    }
  }

  lemma EmplaceKeepsFaithful(visits: seq<Visit>, c: Cache, uri: string, e: Entry)
    requires Faithful(visits, c) && |c| < CAPACITY && Stored(visits, uri, e)
    ensures Faithful(visits, Emplace(c, uri, e))
  {
    assert Emplace(c, uri, e).Keys == c.Keys + {uri};
  }

  lemma FetchKeepsFaithful(visits: seq<Visit>, c: Cache, v: Visit, room: Cache)
    requires Faithful(visits, c) && MakesRoom(c, room) && v.reply == Fetched(v.answer)
    ensures Faithful(visits + [v], Emplace(room, v.uri, Entry(v.now, Expiration(v.now, v.answer), v.answer)))
  {
    var e := Entry(v.now, Expiration(v.now, v.answer), v.answer);
    RoomKeepsFaithful(visits, c, room);
    FaithfulLater(visits, v, room);
    assert StoredAt(visits + [v], |visits|, v.uri, e);
    EmplaceKeepsFaithful(visits + [v], room, v.uri, e);
  }

  lemma HandleKeepsFaithful(visits: seq<Visit>, c: Cache, v: Visit)
    requires Faithful(visits, c) && Handles(c, v.uri, v.now, v.answer, v.after, v.reply)
    ensures Faithful(visits + [v], v.after)
  {
    FaithfulLater(visits, v, c);
    if !Fresh(c, v.uri, v.now) && !NotModified(v.answer) {
      var room :| MakesRoom(c, room)
               && v.after == Emplace(room, v.uri, Entry(v.now, Expiration(v.now, v.answer), v.answer));
      FetchKeepsFaithful(visits, c, v, room);
    } else if v.uri in c {
      TouchKeepsFaithful(visits + [v], c, v.uri, v.now);
    }
  }

  lemma VisitKeepsFaithful(visits: seq<Visit>, n: nat)
    requires n < |visits| && VisitOk(visits, n) && Faithful(visits[..n], Before(visits, n))
    ensures Faithful(visits[..n + 1], Before(visits, n + 1))
  {
    HandleKeepsFaithful(visits[..n], Before(visits, n), visits[n]);
    TakeOneMore(visits, n);
  }

  /** After every visit the cache holds at most ten entries, each an answer of the origin with its own expiry. */
  lemma {:induction false} CacheStaysFaithful(visits: seq<Visit>, n: nat)
    requires IsRun(visits) && n <= |visits|
    ensures Faithful(visits[..n], Before(visits, n))
  {
    if n > 0 {
      CacheStaysFaithful(visits, n - 1);
      VisitKeepsFaithful(visits, n - 1);
    }
  }

  /** The reply to visit i is what the origin answered to visit j, and still fresh if the origin was not asked again. */
  ghost predicate AnsweredBy(visits: seq<Visit>, i: nat, j: nat) {
    && j <= i < |visits|
    && visits[i].reply != Missing
    && visits[j].uri == visits[i].uri && visits[j].reply == Fetched(visits[j].answer)
    && visits[i].reply.response == visits[j].answer
    && (visits[i].reply.Cached? ==> visits[i].now < Expiration(visits[j].now, visits[j].answer))
    && (visits[i].reply.Fetched? <==> i == j)
  }

  /** A reply out of the cache was stored at some earlier visit. */
  lemma ReplyFromCache(visits: seq<Visit>, i: nat)
    requires IsRun(visits) && i < |visits| && visits[i].uri in Before(visits, i)
    requires visits[i].reply.Cached? || visits[i].reply.Revalidated?
    ensures exists j: nat :: AnsweredBy(visits, i, j)
  {
    assert VisitOk(visits, i);
    CacheStaysFaithful(visits, i);
    var e := Before(visits, i)[visits[i].uri];
    assert Stored(visits[..i], visits[i].uri, e);
    var j: nat :| StoredAt(visits[..i], j, visits[i].uri, e);
    assert visits[..i][j] == visits[j];
    assert AnsweredBy(visits, i, j);
  }

  /**
   In every run with an honest origin no lookup fails, every reply is an answer
   the origin gave for that URI at this or an earlier visit, and one that was given
   without asking the origin was given before the expiry of that very answer.
   */
  lemma RepliesComeFromOrigin(visits: seq<Visit>, i: nat)
    requires IsRun(visits) && HonestOrigin(visits) && i < |visits|
    ensures exists j: nat :: AnsweredBy(visits, i, j)
  {
    assert VisitOk(visits, i);
    if visits[i].reply.Fetched? {
      assert AnsweredBy(visits, i, i);
    } else {
      ReplyFromCache(visits, i);
    }
  }

  // ----- What emplace leaves behind -----

  /** The entry that a fetched answer would make. */
  function EntryFor(now: int, answer: Message): Entry { Entry(now, Expiration(now, answer), answer) }

  /** The request is answered by the origin with a new response. */
  predicate Fetches(c: Cache, uri: string, now: int, answer: Message) { !Fresh(c, uri, now) && !NotModified(answer) }

  /** The entry may have to make room. */
  ghost predicate Evictable(c: Cache, u: string) { |c| >= CAPACITY && IsOldest(c, u) }

  ghost predicate SameAnswer(e: Entry, f: Entry) { e.response == f.response && e.expires == f.expires }

  lemma FetchOutcome(c: Cache, uri: string, now: int, answer: Message, c': Cache, reply: Reply) returns (room: Cache)
    requires Fetches(c, uri, now, answer) && Handles(c, uri, now, answer, c', reply)
    ensures MakesRoom(c, room) && c' == Emplace(room, uri, EntryFor(now, answer))
  {
    room :| MakesRoom(c, room) && c' == Emplace(room, uri, Entry(now, Expiration(now, answer), answer));
  }

  lemma FetchHappens(c: Cache, uri: string, now: int, answer: Message, room: Cache)
    requires Fetches(c, uri, now, answer) && MakesRoom(c, room)
    ensures Handles(c, uri, now, answer, Emplace(room, uri, EntryFor(now, answer)), Fetched(answer))
  {
  }

  /** An entry that cannot be evicted stays as it was, up to its last-used time. */
  lemma RoomKeepsOthers(c: Cache, room: Cache, u: string)
    requires MakesRoom(c, room) && u in c && !Evictable(c, u)
    ensures u in room && room[u] == c[u]
  {
  }

  /** Some least recently used entry, if the cache is full, can be the one to go. */
  lemma RoomWithout(c: Cache, victim: string)
    requires Evictable(c, victim)
    ensures MakesRoom(c, c - {victim})
  {
  }

  /** Every way of handling the request leaves u in the cache with its response and expiry. */
  ghost predicate Survives(c: Cache, uri: string, now: int, answer: Message, u: string)
    requires u in c
  {
    forall c', reply :: Handles(c, uri, now, answer, c', reply) ==> u in c' && SameAnswer(c'[u], c[u])
  }

  /**
   An entry keeps its response and expiry through a request exactly when the
   origin sends nothing new, or the entry is not up for eviction, or the answer that
   takes its place is the same again. That the origin's answer is newer is no reason.
   */
  lemma EntriesAreNeverUpdated(c: Cache, uri: string, now: int, answer: Message, u: string)
    requires u in c
    ensures Survives(c, uri, now, answer, u) <==>
            || !Fetches(c, uri, now, answer)
            || !Evictable(c, u)
            || (u == uri && SameAnswer(EntryFor(now, answer), c[u]))
  {
    if Fetches(c, uri, now, answer) && Evictable(c, u) {
      EvictedEntry(c, uri, now, answer, u);
    } else {
      forall c', reply | Handles(c, uri, now, answer, c', reply) ensures u in c' && SameAnswer(c'[u], c[u]) {
        KeptThrough(c, uri, now, answer, c', reply, u);
      }
    }
  }

  lemma KeptThrough(c: Cache, uri: string, now: int, answer: Message, c': Cache, reply: Reply, u: string)
    requires Handles(c, uri, now, answer, c', reply) && u in c
    requires !Fetches(c, uri, now, answer) || !Evictable(c, u)
    ensures u in c' && SameAnswer(c'[u], c[u])
  {
    if Fetches(c, uri, now, answer) {
      var room := FetchOutcome(c, uri, now, answer, c', reply);
      RoomKeepsOthers(c, room, u);
    }
  }

  lemma EvictedEntry(c: Cache, uri: string, now: int, answer: Message, u: string)
    requires u in c && Fetches(c, uri, now, answer) && Evictable(c, u)
    ensures Survives(c, uri, now, answer, u) <==> u == uri && SameAnswer(EntryFor(now, answer), c[u])
  {
    var e, room := EntryFor(now, answer), c - {u};
    RoomWithout(c, u);
    FetchHappens(c, uri, now, answer, room);
    if u == uri && SameAnswer(e, c[u]) {
      forall c', reply | Handles(c, uri, now, answer, c', reply) ensures u in c' && SameAnswer(c'[u], c[u]) {
        SameAgain(c, uri, now, answer, c', reply);
      }
    }
  }

  lemma SameAgain(c: Cache, uri: string, now: int, answer: Message, c': Cache, reply: Reply)
    requires uri in c && Fetches(c, uri, now, answer) && SameAnswer(EntryFor(now, answer), c[uri])
    requires Handles(c, uri, now, answer, c', reply)
    ensures uri in c' && SameAnswer(c'[uri], c[uri])
  {
    var room := FetchOutcome(c, uri, now, answer, c', reply);
  }

  /** Every way of handling the request ends with the fetched answer in the cache. */
  ghost predicate AlwaysStored(c: Cache, uri: string, now: int, answer: Message) {
    forall c', reply :: Handles(c, uri, now, answer, c', reply) ==> uri in c' && c'[uri] == EntryFor(now, answer)
  }

  /**
   A fetched answer becomes the cached entry exactly when the URI had no entry, or
   had this very one, or its entry is the only one that can make room. In
   particular a stale entry in a cache that is not full is not replaced.
   */
  lemma FetchedBecomesEntry(c: Cache, uri: string, now: int, answer: Message)
    requires Fetches(c, uri, now, answer)
    ensures AlwaysStored(c, uri, now, answer) <==>
            || uri !in c
            || c[uri] == EntryFor(now, answer)
            || (|c| >= CAPACITY && forall v :: IsOldest(c, v) ==> v == uri)
  {
    if uri !in c || c[uri] == EntryFor(now, answer) || (|c| >= CAPACITY && forall v :: IsOldest(c, v) ==> v == uri) {
      forall c', reply | Handles(c, uri, now, answer, c', reply)
        ensures uri in c' && c'[uri] == EntryFor(now, answer)
      { var room := FetchOutcome(c, uri, now, answer, c', reply); }
    } else {
      NotReplaced(c, uri, now, answer);
    }
  }

  lemma NotReplaced(c: Cache, uri: string, now: int, answer: Message)
    requires Fetches(c, uri, now, answer) && uri in c && c[uri] != EntryFor(now, answer)
    requires |c| < CAPACITY || exists v :: IsOldest(c, v) && v != uri
    ensures !AlwaysStored(c, uri, now, answer)
  {
    var room := c;
    if |c| >= CAPACITY {
      var v :| IsOldest(c, v) && v != uri;
      RoomWithout(c, v);
      room := c - {v};
    }
    FetchHappens(c, uri, now, answer, room);
    assert Emplace(room, uri, EntryFor(now, answer))[uri] == c[uri];
  }

  /** Entry u is not up for eviction at any of the visits from i on, up to k. */
  ghost predicate Kept(visits: seq<Visit>, u: string, i: nat, k: nat) {
    i <= k <= |visits| && forall n :: i <= n < k ==> !Evictable(Before(visits, n), u)
  }

  lemma {:induction false} KeptEntry(visits: seq<Visit>, u: string, i: nat, k: nat)
    requires IsRun(visits) && Kept(visits, u, i, k) && u in Before(visits, i)
    ensures u in Before(visits, k) && SameAnswer(Before(visits, k)[u], Before(visits, i)[u])
    decreases k
  {
    if i < k {
      KeptEntry(visits, u, i, k - 1);
      var v := visits[k - 1];
      assert VisitOk(visits, k - 1);
      KeptThrough(Before(visits, k - 1), v.uri, v.now, v.answer, v.after, v.reply, u);
    }
  }

  /**
   A stale entry is never replaced: as long as it is not up for eviction, every later
   request for it goes to the origin, even right after a fresh answer was fetched, and
   a 304 then brings back the old response and not the one fetched last.
   */
  lemma StaleStaysStale(visits: seq<Visit>, i: nat, k: nat)
    requires IsRun(visits) && i <= k < |visits| && Kept(visits, visits[i].uri, i, k)
    requires visits[k].uri == visits[i].uri && visits[i].now <= visits[k].now
    requires visits[i].uri in Before(visits, i) && !Fresh(Before(visits, i), visits[i].uri, visits[i].now)
    ensures visits[k].reply == if NotModified(visits[k].answer)
                               then Revalidated(Before(visits, i)[visits[i].uri].response)
                               else Fetched(visits[k].answer)
  {
    assert VisitOk(visits, k);
    KeptEntry(visits, visits[i].uri, i, k);
  }

  // ----- A run in which that happens -----

  function Plain(code: int, body: string): Message {
    Message(Status(Version(1, 0), Known(code), None), [], Some(body))
  }

  /** A page without dates is fetched, fetched again with new content, and then said not to have changed. */
  function StaleRun(uri: string, first: string, second: string): seq<Visit> {
    var before, later, same := Plain(200, first), Plain(200, second), Plain(304, "");
    [Visit(uri, 0, before, Fetched(before), map[uri := Entry(0, 0, before)]),
     Visit(uri, 1, later, Fetched(later), map[uri := Entry(0, 0, before)]),
     Visit(uri, 2, same, Revalidated(before), map[uri := Entry(2, 0, before)])]
  }

  lemma PlainExpires(now: int, code: int, body: string)
    ensures IsResponse(Plain(code, body)) && Expiration(now, Plain(code, body)) == now
    ensures NotModified(Plain(code, body)) <==> code == 304
  {
  }

  lemma FirstFetch(uri: string, answer: Message)
    requires !NotModified(answer) && Expiration(0, answer) == 0
    ensures Handles(map[], uri, 0, answer, map[uri := Entry(0, 0, answer)], Fetched(answer))
  {
    assert MakesRoom(map[], map[]);
    assert Emplace(map[], uri, EntryFor(0, answer)) == map[uri := Entry(0, 0, answer)];
    FetchHappens(map[], uri, 0, answer, map[]);
  }

  lemma SecondFetch(c: Cache, uri: string, answer: Message)
    requires uri in c && |c| == 1 && c[uri].expires == 0 && !NotModified(answer)
    ensures Handles(c, uri, 1, answer, c, Fetched(answer))
  {
    assert MakesRoom(c, c);
    FetchHappens(c, uri, 1, answer, c);
  }

  /** The origin is honest, its last answer was `second`, and the client is given `first`. */
  lemma StaleRunHappens(uri: string, first: string, second: string)
    ensures var visits := StaleRun(uri, first, second);
      && IsRun(visits) && HonestOrigin(visits)
      && visits[1].reply == Fetched(Plain(200, second)) && visits[2].reply == Revalidated(Plain(200, first))
  {
    var visits := StaleRun(uri, first, second);
    var page, c := Plain(200, first), map[uri := Entry(0, 0, Plain(200, first))];
    PlainExpires(0, 200, first);
    PlainExpires(1, 200, second);
    PlainExpires(2, 304, "");
    FirstFetch(uri, page);
    SecondFetch(c, uri, Plain(200, second));
    assert VisitOk(visits, 0);
    assert VisitOk(visits, 1);
    ThirdVisit(uri, page, Plain(304, ""));
    assert VisitOk(visits, 2);
  }

  lemma ThirdVisit(uri: string, page: Message, answer: Message)
    requires NotModified(answer)
    ensures Handles(map[uri := Entry(0, 0, page)], uri, 2, answer, map[uri := Entry(2, 0, page)], Revalidated(page))
  {
    var c := map[uri := Entry(0, 0, page)];
    assert Touch(c, uri, 2) == map[uri := Entry(2, 0, page)];
  }
}
