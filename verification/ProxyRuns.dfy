/** What the cache is good for over whole runs: what it serves, and what it throws out. */
module ProxyRuns {
  import opened HttpMessage
  import opened ProxyCache

  // ----- The size of the cache -----

  lemma RoomSize(c: Cache, room: Cache)
    requires |c| <= 10 && MakesRoom(c, room)
    ensures |room| == (if |c| == 10 then 9 else |c|) && room.Keys <= c.Keys
  {
    if |c| == 10 {
      var victim :| IsOldest(c, victim) && room == c - {victim};
      assert room.Keys == c.Keys - {victim};
    }
  }

  lemma EmplaceSize(c: Cache, uri: string, e: Entry)
    ensures |Emplace(c, uri, e)| == if uri in c then |c| else |c| + 1
  {
    assert Emplace(c, uri, e).Keys == c.Keys + {uri};
  }

  lemma HandleSize(c: Cache, uri: string, now: int, answer: Message, c': Cache, reply: Reply)
    requires |c| <= 10 && Handles(c, uri, now, answer, c', reply)
    ensures |c'| <= 10
    ensures !reply.Fetched? ==> |c'| == |c|
    ensures reply.Fetched? && uri !in c ==> |c'| == if |c| == 10 then 10 else |c| + 1
    ensures reply.Fetched? && uri in c ==> if |c| == 10 then 9 <= |c'| else |c'| == |c|
  {
    if Fetches(c, uri, now, answer) {
      var room := FetchOutcome(c, uri, now, answer, c', reply);
      RoomSize(c, room);
      EmplaceSize(room, uri, EntryFor(now, answer));
    } else if uri in c {
      assert Touch(c, uri, now).Keys == c.Keys;
    }
  }

  /**
   The cache grows by every page fetched for the first time until it holds ten, and never holds
   more; fetching a page anew that is already in a full cache can leave it with nine.
   */
  lemma {:induction false} SizeOverRuns(visits: seq<Visit>, n: nat)
    requires IsRun(visits) && n <= |visits|
    ensures |Before(visits, n)| <= 10
    ensures n < |visits| && visits[n].reply.Fetched? && visits[n].uri !in Before(visits, n) ==>
              |Before(visits, n + 1)| == if |Before(visits, n)| == 10 then 10 else |Before(visits, n)| + 1
  {
    if n > 0 {
      SizeOverRuns(visits, n - 1);
      SizeStep(visits, n - 1);
    }
    if n < |visits| {
      SizeStep(visits, n);
    }
  }

  lemma SizeStep(visits: seq<Visit>, n: nat)
    requires IsRun(visits) && n < |visits| && |Before(visits, n)| <= 10
    ensures var c, c', v := Before(visits, n), Before(visits, n + 1), visits[n];
      && |c'| <= 10
      && (v.reply.Fetched? && v.uri !in c ==> |c'| == if |c| == 10 then 10 else |c| + 1)
  {
    assert VisitOk(visits, n);
    var v := visits[n];
    HandleSize(Before(visits, n), v.uri, v.now, v.answer, v.after, v.reply);
  }

  // ----- What is served from the cache -----

  /** A page fetched for the first time is in the cache with the expiry that its headers give. */
  lemma FirstFetchStored(visits: seq<Visit>, j: nat, t: int)
    requires IsRun(visits) && j < |visits| && visits[j].reply.Fetched? && visits[j].uri !in Before(visits, j)
    requires ExpiryIs(visits[j].now, visits[j].answer, t)
    ensures visits[j].uri in visits[j].after
    ensures visits[j].after[visits[j].uri] == Entry(visits[j].now, t, visits[j].answer)
  {
    var v, c := visits[j], Before(visits, j);
    assert VisitOk(visits, j);
    ExpirationIs(v.now, v.answer, t);
    var room := FetchOutcome(c, v.uri, v.now, v.answer, v.after, v.reply);
    assert v.uri !in room;
  }

  /** As long as it is not up for eviction and has not expired, it is served without asking the origin. */
  lemma FreshIsServed(visits: seq<Visit>, j: nat, i: nat, t: int)
    requires IsRun(visits) && j < i < |visits| && visits[j].reply.Fetched? && visits[j].uri !in Before(visits, j)
    requires Kept(visits, visits[j].uri, j + 1, i) && visits[i].uri == visits[j].uri
    requires ExpiryIs(visits[j].now, visits[j].answer, t)
    ensures if visits[i].now < t then visits[i].reply == Cached(visits[j].answer) else !visits[i].reply.Cached?
  {
    FirstFetchStored(visits, j, t);
    KeptEntry(visits, visits[j].uri, j + 1, i);
    assert VisitOk(visits, i);
  }

  // ----- What is thrown out -----

  ghost predicate ClockRuns(visits: seq<Visit>) {
    forall i, j :: 0 <= i < j < |visits| ==> visits[i].now <= visits[j].now
  }

  /** The visit used the entry: a hit, a revalidation, or the fetch that stored it. */
  ghost predicate Uses(visits: seq<Visit>, i: nat)
    requires i < |visits|
  {
    var v := visits[i];
    v.reply.Cached? || v.reply.Revalidated? || (v.reply.Fetched? && v.uri !in Before(visits, i))
  }

  /** Every use renews the entry's last-used time. */
  lemma UseRenews(visits: seq<Visit>, i: nat)
    requires IsRun(visits) && i < |visits| && Uses(visits, i)
    ensures visits[i].uri in visits[i].after && visits[i].after[visits[i].uri].lastUsed == visits[i].now
  {
    assert VisitOk(visits, i);
    if visits[i].reply.Fetched? && visits[i].uri !in Before(visits, i) {
      ExpirationIs(visits[i].now, visits[i].answer, Expiration(visits[i].now, visits[i].answer));
      FirstFetchStored(visits, i, Expiration(visits[i].now, visits[i].answer));
    }
  }

  /** Some entry was used longer ago than t. */
  ghost predicate HasOlder(c: Cache, t: int) { exists v :: v in c && c[v].lastUsed < t }

  lemma StaysUsed(c: Cache, uri: string, now: int, answer: Message, c': Cache, reply: Reply, u: string, t: int)
    requires Handles(c, uri, now, answer, c', reply) && u in c && c[u].lastUsed >= t && now >= t
    requires |c| < 10 || HasOlder(c, t)
    ensures u in c' && c'[u].lastUsed >= t && SameAnswer(c'[u], c[u])
  {
    assert !Evictable(c, u) by {
      if HasOlder(c, t) {
        var v :| v in c && c[v].lastUsed < t;
      }
    }
    KeptThrough(c, uri, now, answer, c', reply, u);
    if Fetches(c, uri, now, answer) {
      var room := FetchOutcome(c, uri, now, answer, c', reply);
      RoomKeepsOthers(c, room, u);
    }
  }

  /** An entry that has just been used is not thrown out while an older one is there or the cache is not full. */
  lemma {:induction false} JustUsedStays(visits: seq<Visit>, i: nat, k: nat)
    requires IsRun(visits) && ClockRuns(visits) && i < k <= |visits| && Uses(visits, i)
    requires forall n: nat :: i < n < k ==> |Before(visits, n)| < 10 || HasOlder(Before(visits, n), visits[i].now)
    ensures var u := visits[i].uri;
      && u in Before(visits, k) && Before(visits, k)[u].lastUsed >= visits[i].now
      && u in visits[i].after && SameAnswer(Before(visits, k)[u], visits[i].after[u])
    decreases k
  {
    UseRenews(visits, i);
    if i + 1 < k {
      JustUsedStays(visits, i, k - 1);
      var v := visits[k - 1];
      assert VisitOk(visits, k - 1);
      StaysUsed(Before(visits, k - 1), v.uri, v.now, v.answer, v.after, v.reply, visits[i].uri, visits[i].now);
    }
  }

  /** Of a full cache an entry used least recently goes when a page is fetched for the first time, and only that one. */
  lemma OneOldestGoes(visits: seq<Visit>, n: nat) returns (victim: string)
    requires IsRun(visits) && n < |visits| && |Before(visits, n)| == 10
    requires visits[n].reply.Fetched? && visits[n].uri !in Before(visits, n)
    ensures var c := Before(visits, n);
      && victim in c && (forall u :: u in c ==> c[victim].lastUsed <= c[u].lastUsed)
      && Before(visits, n + 1).Keys == c.Keys - {victim} + {visits[n].uri}
      && forall u :: u in c && u != victim ==> Before(visits, n + 1)[u] == c[u]
  {
    var c, v := Before(visits, n), visits[n];
    assert VisitOk(visits, n);
    var room := FetchOutcome(c, v.uri, v.now, v.answer, v.after, v.reply);
    victim :| IsOldest(c, victim) && room == c - {victim};
  }
}
