/** The server's answers alone decide what an enumeration requests, sees and offers, and whether it fails. */
module Determinism {
  import opened SearchPages
  import opened Collecting
  import opened Completeness

  // ---------------------------------------------------------------- sequences that grow

  lemma {:induction false} KeptGrow(a: seq<SearchRecord>, b: seq<SearchRecord>)
    requires a <= b
    ensures |FirstOccurrences(a)| <= |FirstOccurrences(b)|
    decreases |b|
  {
    if a == b {
    } else {
      KeptGrow(a, b[..|b| - 1]);
    }
  }

  /** The cap is reached at one record. */
  lemma CapIsReachedOnce(a: seq<SearchRecord>, b: seq<SearchRecord>, limit: nat)
    requires a <= b && |FirstOccurrences(a)| >= limit && StopsAtCap(b, limit)
    ensures a == b
  {
    KeptGrow(a, b);
    if a != b {
      KeptGrow(a, b[..|b| - 1]);
    }
  }

  /** A record that contradicts a kept one is never offered. */
  lemma ClashIsNotOffered(a: seq<SearchRecord>, r: SearchRecord, b: seq<SearchRecord>)
    requires Clashes(FirstOccurrences(a), r) && a + [r] <= b
    ensures !Agree(b)
  {
    KeptWereOffered(a);
    var known :| known in FirstOccurrences(a) && (known.sourceId == r.sourceId) != (known.url == r.url);
    assert b[|a|] == r && known in a;
    var i :| 0 <= i < |a| && a[i] == known;
    assert b[i] == known;
  }

  lemma {:induction false} RecordsGrow(walk: seq<Visit>, n: nat)
    requires n <= |walk|
    ensures RecordsOf(walk[..n]) <= RecordsOf(walk)
  {
    if n == |walk| {
      assert walk[..n] == walk;
    } else {
      assert walk[..|walk| - 1][..n] == walk[..n];
      RecordsGrow(walk[..|walk| - 1], n);
    }
  }

  lemma {:induction false} WalksGrow(walks: seq<seq<Visit>>, n: nat)
    requires n <= |walks|
    ensures RecordsOfWalks(walks[..n]) <= RecordsOfWalks(walks)
  {
    if n == |walks| {
      assert walks[..n] == walks;
    } else {
      assert walks[..|walks| - 1][..n] == walks[..n];
      WalksGrow(walks[..|walks| - 1], n);
    }
  }

  // ---------------------------------------------------------------- one group

  datatype Ended = Done | Capped | Broken

  /** The walk of one group: how it ended, and everything offered until then. */
  datatype GroupRun = GroupRun(requests: seq<Request>, walk: seq<Visit>, offered: seq<SearchRecord>, ended: Ended)

  /** The run answers requests from number `start` on and continues the records `before`. */
  ghost predicate Runs(respond: seq<Request> -> Reply, start: nat, before: seq<SearchRecord>, limit: nat, r: GroupRun) {
    && GoodWalk(r.walk) && Served(respond, r.requests, start, r.walk) && Agree(r.offered) && start <= |r.requests|
    && match r.ended
       case Done =>
         Finished(r.walk) && r.offered == before + RecordsOf(r.walk) && |FirstOccurrences(r.offered)| < limit
       case Capped =>
         && r.walk != [] && StopsAtCap(r.offered, limit) && |FirstOccurrences(r.offered)| >= limit
         && before + RecordsOf(r.walk[..|r.walk| - 1]) <= r.offered <= before + RecordsOf(r.walk)
         && r.offered != before + RecordsOf(r.walk[..|r.walk| - 1])
       case Broken =>
         && |FirstOccurrences(r.offered)| < limit
         && BreaksOff(respond, r.requests, start, r.walk, before, r.offered, FirstOccurrences(r.offered))
  }

  lemma {:induction false} PagesAgree(respond: seq<Request> -> Reply, start: nat, a: seq<Request>, v: seq<Visit>,
                                      b: seq<Request>, w: seq<Visit>, n: nat)
    requires Served(respond, a, start, v) && Served(respond, b, start, w)
    requires start <= |a| && start <= |b| && a[..start] == b[..start] && n <= |v| && n <= |w|
    ensures v[..n] == w[..n]
    ensures n > 0 ==> start + n - 1 <= |a| && start + n - 1 <= |b| && a[..start + n - 1] == b[..start + n - 1]
  {
    if n == 0 {
    } else {
      PagesAgree(respond, start, a, v, b, w, n - 1);
      assert ServedAt(respond, a, start, v, n - 1) && ServedAt(respond, b, start, w, n - 1);
      if n > 1 {
        assert v[n - 2] == v[..n - 1][n - 2] == w[..n - 1][n - 2] == w[n - 2];
        assert a[..start + n - 1] == a[..start + n - 2] + [a[start + n - 2]];
        assert b[..start + n - 1] == b[..start + n - 2] + [b[start + n - 2]];
      }
      assert v[..n] == v[..n - 1] + [v[n - 1]] && w[..n] == w[..n - 1] + [w[n - 1]];
    }
  }

  lemma PrefixThrough<T>(before: seq<T>, a: seq<T>, b: seq<T>, offered: seq<T>)
    requires a <= b && before + b <= offered
    ensures before + a <= before + b && before + a <= offered
  {
  }

  /** Everything on all pages but the last was offered. */
  lemma EarlierPagesOffered(respond: seq<Request> -> Reply, start: nat, before: seq<SearchRecord>, limit: nat,
                            r: GroupRun)
    requires Runs(respond, start, before, limit, r) && r.walk != []
    ensures before + RecordsOf(r.walk[..|r.walk| - 1]) <= r.offered
    ensures !r.ended.Capped? ==> before + RecordsOf(r.walk) <= r.offered
  {
    RecordsGrow(r.walk, |r.walk| - 1);
    if !r.ended.Capped? {
      assert before + RecordsOf(r.walk) <= r.offered;
      PrefixThrough(before, RecordsOf(r.walk[..|r.walk| - 1]), RecordsOf(r.walk), r.offered);
    }
  }

  /** A run that goes on after page `n` has offered all pages up to it. */
  lemma PagesOffered(respond: seq<Request> -> Reply, start: nat, before: seq<SearchRecord>, limit: nat, r: GroupRun,
                     n: nat)
    requires Runs(respond, start, before, limit, r) && n < |r.walk|
    ensures before + RecordsOf(r.walk[..n]) <= r.offered
  {
    EarlierPagesOffered(respond, start, before, limit, r);
    var init := r.walk[..|r.walk| - 1];
    assert init[..n] == r.walk[..n];
    RecordsGrow(init, n);
    PrefixThrough(before, RecordsOf(r.walk[..n]), RecordsOf(init), r.offered);
  }

  /** Where one walk waits for a page, another one got it. */
  lemma SameNextPage(respond: seq<Request> -> Reply, start: nat, a: seq<Request>, v: seq<Visit>, reply: Reply,
                     b: seq<Request>, w: seq<Visit>)
    requires Awaits(respond, a, start, v, reply) && Served(respond, b, start, w) && |v| < |w|
    requires start <= |b| && a[..start] == b[..start]
    ensures v == w[..|v|] && IsPage(reply, w[|v|])
  {
    var n := |v|;
    PagesAgree(respond, start, a, v, b, w, n);
    assert v[..n] == v;
    assert ServedAt(respond, b, start, w, n);
    if n > 0 {
      assert v[n - 1] == w[..n][n - 1] == w[n - 1];
      assert a == a[..start + n - 1] + [a[start + n - 1]];
      assert b[..start + n] == b[..start + n - 1] + [b[start + n - 1]];
    }
    assert a == b[..start + n];
  }

  lemma PrefixPlus<T>(a: seq<T>, all: seq<T>)
    requires a <= all && |a| < |all|
    ensures a + [all[|a|]] <= all
  {
  }

  lemma BothPrefixes<T>(a: seq<T>, b: seq<T>, all: seq<T>)
    requires a <= all && (b <= all || all <= b) && |a| <= |b|
    ensures a <= b
  {
  }

  lemma OfferedPast(before: seq<SearchRecord>, page: seq<SearchRecord>, a: seq<SearchRecord>, b: seq<SearchRecord>)
    requires before <= a <= before + page && BreaksAt(FirstOccurrences(a), page, |a| - |before|)
    requires |a| < |b| && (before + page <= b || b <= before + page)
    ensures !Agree(b)
  {
    var r := page[|a| - |before|];
    assert (before + page)[|a|] == r;
    PrefixPlus(a, before + page);
    BothPrefixes(a + [r], b, before + page);
    ClashIsNotOffered(a, r, b);
  }

  /** A walk that breaks off at a record of a page: no other one has offered that page, or reached the cap on it. */
  lemma BreaksForAll(before: seq<SearchRecord>, page: seq<SearchRecord>, limit: nat, a: seq<SearchRecord>,
                     b: seq<SearchRecord>)
    requires before <= a <= before + page && BreaksAt(FirstOccurrences(a), page, |a| - |before|)
    requires |FirstOccurrences(a)| < limit
    ensures Agree(b) ==> !(before + page <= b) && !(before <= b <= before + page && |FirstOccurrences(b)| >= limit)
  {
    if before + page <= b {
      OfferedPast(before, page, a, b);
    } else if before <= b <= before + page {
      if |a| < |b| {
        OfferedPast(before, page, a, b);
      } else {
        BothPrefixes(b, a, before + page);
        KeptGrow(b, a);
      }
    }
  }

  lemma OnePageMore(before: seq<SearchRecord>, walk: seq<Visit>, v: Visit)
    ensures before + RecordsOf(walk) + v.page.records == before + RecordsOf(walk + [v])
  {
    RecordsOfNext(walk, v);
    assert before + RecordsOf(walk) + v.page.records == before + (RecordsOf(walk) + v.page.records);
  }

  lemma BreakRefutesPage(before: seq<SearchRecord>, walk: seq<Visit>, v: Visit, limit: nat, a: seq<SearchRecord>,
                         b: seq<SearchRecord>)
    requires before + RecordsOf(walk) <= a <= before + RecordsOf(walk) + v.page.records && |FirstOccurrences(a)| < limit
    requires BreaksAt(FirstOccurrences(a), v.page.records, |a| - |before + RecordsOf(walk)|)
    requires before + RecordsOf(walk + [v]) <= b
             || (before + RecordsOf(walk) <= b <= before + RecordsOf(walk + [v]) && |FirstOccurrences(b)| >= limit)
    ensures !Agree(b)
  {
    OnePageMore(before, walk, v);
    BreaksForAll(before + RecordsOf(walk), v.page.records, limit, a, b);
  }

  lemma FinishedIsLast(v: seq<Visit>, w: seq<Visit>)
    requires GoodWalk(w)
    ensures !(Finished(v) && |v| < |w| && v == w[..|v|])
  {
    if v != [] && |v| < |w| && v == w[..|v|] {
      assert Continues(w[|v| - 1].page);
    }
  }

  lemma PrefixTransitive<T>(a: seq<T>, b: seq<T>, c: seq<T>)
    requires a <= b <= c
    ensures a <= c
  {
  }

  lemma PrefixOf<T>(before: seq<T>, a: seq<T>, b: seq<T>, offered: seq<T>)
    requires a <= b && before + b <= offered <= before + a
    ensures offered == before + b
  {
  }

  /** A run that reached the cap has no more pages to come. */
  lemma CappedIsLast(respond: seq<Request> -> Reply, start: nat, before: seq<SearchRecord>, limit: nat, a: GroupRun,
                     b: GroupRun)
    requires Runs(respond, start, before, limit, a) && Runs(respond, start, before, limit, b)
    ensures !(a.ended.Capped? && |a.walk| < |b.walk| && a.walk == b.walk[..|a.walk|])
  {
    if a.ended.Capped? && |a.walk| < |b.walk| && a.walk == b.walk[..|a.walk|] {
      PagesOffered(respond, start, before, limit, b, |a.walk|);
      PrefixTransitive(a.offered, before + RecordsOf(a.walk), b.offered);
      KeptGrow(a.offered, b.offered);
      if b.ended.Capped? {
        CapIsReachedOnce(a.offered, b.offered, limit);
        var init := b.walk[..|b.walk| - 1];
        assert init[..|a.walk|] == a.walk;
        RecordsGrow(init, |a.walk|);
        PrefixOf(before, RecordsOf(a.walk), RecordsOf(init), a.offered);
      }
    }
  }

  /** The page that one walk waits for passes the checks if another walk went on with it. */
  lemma NextPageIsAccepted(respond: seq<Request> -> Reply, start: nat, a: seq<Request>, v: seq<Visit>, reply: Reply,
                           b: seq<Request>, w: seq<Visit>)
    requires Awaits(respond, a, start, v, reply) && Served(respond, b, start, w) && |v| < |w| && GoodWalk(w)
    requires start <= |b| && a[..start] == b[..start]
    ensures v == w[..|v|] && w[..|v| + 1] == v + [w[|v|]]
    ensures reply.Fetched? && !RefusesPage(v, reply.url, reply.raw) && RecordsIn(reply) == w[|v|].page.records
  {
    SameNextPage(respond, start, a, v, reply, b, w);
    PrefixIsGood(w, |v| + 1);
    assert w[..|v| + 1] == v + [w[|v|]];
    GoodPagePasses(v, w[|v|], reply.raw);
  }

  /** What stopped one walk at a page that another one went on with is a record of that page. */
  lemma StopsOnPage(respond: seq<Request> -> Reply, start: nat, a: seq<Request>, v: seq<Visit>,
                    before: seq<SearchRecord>,
                    offered: seq<SearchRecord>, b: seq<Request>, w: seq<Visit>)
    requires Awaits(respond, a, start, v, respond(a))
             && Stops(respond(a), v, before, offered, FirstOccurrences(offered))
    requires Served(respond, b, start, w) && |v| < |w| && GoodWalk(w) && start <= |b| && a[..start] == b[..start]
    ensures v == w[..|v|] && w[..|v| + 1] == v + [w[|v|]]
    ensures var page := w[|v|].page.records;
            before <= offered <= before + page && BreaksAt(FirstOccurrences(offered), page, |offered| - |before|)
  {
    NextPageIsAccepted(respond, start, a, v, respond(a), b, w);
  }

  lemma LastPageOffered(respond: seq<Request> -> Reply, start: nat, before: seq<SearchRecord>, limit: nat,
                        walk: seq<Visit>, r: GroupRun)
    requires Runs(respond, start, before, limit, r) && |walk| + 1 == |r.walk| && walk == r.walk[..|walk|]
    ensures before + RecordsOf(r.walk) <= r.offered
            || (before + RecordsOf(walk) <= r.offered <= before + RecordsOf(r.walk)
                && |FirstOccurrences(r.offered)| >= limit)
  {
    EarlierPagesOffered(respond, start, before, limit, r);
    assert r.walk[..|r.walk| - 1] == walk;
  }

  /** The page after `walk` was offered in full, unless it reached the cap. */
  lemma NextPageOffered(respond: seq<Request> -> Reply, start: nat, before: seq<SearchRecord>, limit: nat,
                        walk: seq<Visit>, r: GroupRun)
    requires Runs(respond, start, before, limit, r) && |walk| < |r.walk| && walk == r.walk[..|walk|]
    ensures var upTo := before + RecordsOf(r.walk[..|walk| + 1]);
            || upTo <= r.offered
            || (before + RecordsOf(walk) <= r.offered <= upTo && |FirstOccurrences(r.offered)| >= limit)
  {
    if |walk| + 1 < |r.walk| {
      PagesOffered(respond, start, before, limit, r, |walk| + 1);
    } else {
      assert r.walk[..|walk| + 1] == r.walk;
      LastPageOffered(respond, start, before, limit, walk, r);
    }
  }

  /** A run that broke off has no more pages to come. */
  lemma BrokenIsLast(respond: seq<Request> -> Reply, start: nat, before: seq<SearchRecord>, limit: nat, a: GroupRun,
                     b: GroupRun)
    requires Runs(respond, start, before, limit, a) && Runs(respond, start, before, limit, b)
    requires a.requests[..start] == b.requests[..start]
    ensures !(a.ended.Broken? && |a.walk| < |b.walk|)
  {
    if a.ended.Broken? && |a.walk| < |b.walk| {
      StopsOnPage(respond, start, a.requests, a.walk, before + RecordsOf(a.walk), a.offered, b.requests, b.walk);
      NextPageOffered(respond, start, before, limit, a.walk, b);
      BreakRefutesPage(before, a.walk, b.walk[|a.walk|], limit, a.offered, b.offered);
    }
  }

  /** Two runs from the same requests: neither has more pages. */
  lemma NotShorter(respond: seq<Request> -> Reply, start: nat, before: seq<SearchRecord>, limit: nat, a: GroupRun,
                   b: GroupRun)
    requires Runs(respond, start, before, limit, a) && Runs(respond, start, before, limit, b)
    requires a.requests[..start] == b.requests[..start]
    ensures |a.walk| >= |b.walk|
  {
    if |a.walk| < |b.walk| {
      PagesAgree(respond, start, a.requests, a.walk, b.requests, b.walk, |a.walk|);
      assert a.walk[..|a.walk|] == a.walk;
      FinishedIsLast(a.walk, b.walk);
      CappedIsLast(respond, start, before, limit, a, b);
      BrokenIsLast(respond, start, before, limit, a, b);
    }
  }

  // ---------------------------------------------------------------- how the group ends

  /** Two runs over the same pages: one of them cannot reach the cap where the other one goes on. */
  lemma SameCap(respond: seq<Request> -> Reply, start: nat, before: seq<SearchRecord>, limit: nat, a: GroupRun,
                b: GroupRun)
    requires Runs(respond, start, before, limit, a) && Runs(respond, start, before, limit, b) && a.walk == b.walk
    ensures a.ended.Capped? ==> b.ended.Capped?
    ensures a.ended.Capped? && |a.offered| <= |b.offered| ==> a.offered == b.offered
  {
    if a.ended.Capped? {
      EarlierPagesOffered(respond, start, before, limit, b);
      if |a.offered| <= |b.offered| {
        BothPrefixes(a.offered, b.offered, before + RecordsOf(a.walk));
        KeptGrow(a.offered, b.offered);
        if b.ended.Capped? {
          CapIsReachedOnce(a.offered, b.offered, limit);
        }
      }
    }
  }

  /** Two runs over the same pages: both broke off, or neither did. */
  lemma SameBreak(respond: seq<Request> -> Reply, start: nat, before: seq<SearchRecord>, limit: nat, a: GroupRun,
                  b: GroupRun)
    requires Runs(respond, start, before, limit, a) && Runs(respond, start, before, limit, b) && a.walk == b.walk
    ensures a.ended.Broken? ==> !b.ended.Done?
  {
  }

  lemma BreaksAtSamePlace(before: seq<SearchRecord>, page: seq<SearchRecord>, a: seq<SearchRecord>,
                          b: seq<SearchRecord>)
    requires before <= a <= before + page && BreaksAt(FirstOccurrences(a), page, |a| - |before|) && Agree(a)
    requires before <= b <= before + page && BreaksAt(FirstOccurrences(b), page, |b| - |before|) && Agree(b)
    ensures a == b
  {
    if |a| < |b| {
      OfferedPast(before, page, a, b);
    } else if |b| < |a| {
      OfferedPast(before, page, b, a);
    } else {
      BothPrefixes(a, b, before + page);
    }
  }

  lemma AwaitedRequestsAgree(respond: seq<Request> -> Reply, start: nat, walk: seq<Visit>, a: seq<Request>,
                             b: seq<Request>)
    requires Awaits(respond, a, start, walk, respond(a)) && Awaits(respond, b, start, walk, respond(b))
    requires a[..start] == b[..start]
    ensures a == b
  {
    var n := |walk|;
    if n == 0 {
      assert a == a[..start] && b == b[..start];
    } else {
      PagesAgree(respond, start, a, walk, b, walk, n);
      assert a == a[..start + n - 1] + [a[start + n - 1]] && b == b[..start + n - 1] + [b[start + n - 1]];
    }
  }

  lemma FullRequestsAgree(respond: seq<Request> -> Reply, start: nat, walk: seq<Visit>, a: seq<Request>,
                          b: seq<Request>)
    requires Served(respond, a, start, walk) && Served(respond, b, start, walk) && walk != []
    requires |a| + 1 == start + |walk| && |b| + 1 == start + |walk| && a[..start] == b[..start]
    ensures a == b
  {
    PagesAgree(respond, start, a, walk, b, walk, |walk|);
    assert a == a[..|a|] && b == b[..|b|];
  }

  lemma StopsAtSamePlace(reply: Reply, walk: seq<Visit>, before: seq<SearchRecord>, a: seq<SearchRecord>,
                         b: seq<SearchRecord>)
    requires Stops(reply, walk, before, a, FirstOccurrences(a)) && Stops(reply, walk, before, b, FirstOccurrences(b))
    requires Agree(a) && Agree(b)
    ensures a == b
  {
    if reply.Fetched? && !RefusesPage(walk, reply.url, reply.raw) {
      BreaksAtSamePlace(before, RecordsIn(reply), a, b);
    }
  }

  lemma BrokenAgree(respond: seq<Request> -> Reply, start: nat, before: seq<SearchRecord>, limit: nat, a: GroupRun,
                    b: GroupRun)
    requires Runs(respond, start, before, limit, a) && Runs(respond, start, before, limit, b)
    requires a.requests[..start] == b.requests[..start] && a.walk == b.walk && a.ended.Broken? && b.ended.Broken?
    ensures a.requests == b.requests && a.offered == b.offered
  {
    if |a.walk| == MAX_SEARCH_PAGES {
      FullRequestsAgree(respond, start, a.walk, a.requests, b.requests);
    } else {
      AwaitedRequestsAgree(respond, start, a.walk, a.requests, b.requests);
      StopsAtSamePlace(respond(a.requests), a.walk, before + RecordsOf(a.walk), a.offered, b.offered);
    }
  }

  /** What one group requests, shows and offers, and how it ends, follows from the requests and records before it. */
  lemma GroupIsDetermined(respond: seq<Request> -> Reply, start: nat, before: seq<SearchRecord>, limit: nat,
                          a: GroupRun, b: GroupRun)
    requires Runs(respond, start, before, limit, a) && Runs(respond, start, before, limit, b)
    requires a.requests[..start] == b.requests[..start]
    ensures a.walk == b.walk && a.ended == b.ended && a.offered == b.offered
    ensures a.walk != [] ==>
              && start + |a.walk| - 1 <= |a.requests| && start + |a.walk| - 1 <= |b.requests|
              && a.requests[..start + |a.walk| - 1] == b.requests[..start + |a.walk| - 1]
    ensures a.ended.Broken? ==> a.requests == b.requests
  {
    NotShorter(respond, start, before, limit, a, b);
    NotShorter(respond, start, before, limit, b, a);
    PagesAgree(respond, start, a.requests, a.walk, b.requests, b.walk, |a.walk|);
    assert a.walk[..|a.walk|] == a.walk && b.walk[..|a.walk|] == b.walk;
    SameCap(respond, start, before, limit, a, b);
    SameCap(respond, start, before, limit, b, a);
    SameBreak(respond, start, before, limit, a, b);
    SameBreak(respond, start, before, limit, b, a);
    if a.ended.Broken? && b.ended.Broken? {
      BrokenAgree(respond, start, before, limit, a, b);
    }
  }

  // ---------------------------------------------------------------- the whole enumeration

  /** The enumeration of a server: it succeeded or it failed. */
  ghost predicate Outcome(respond: seq<Request> -> Reply, groups: seq<string>, keyword: string, limit: nat,
                          trace: Trace) {
    Enumerated(respond, groups, keyword, limit, trace) || Broke(respond, groups, keyword, limit, trace)
  }

  ghost function EndOfGroup(trace: Trace, limit: nat, g: nat): Ended {
    if g == |trace.walks| then Broken
    else if g + 1 == |trace.walks| && |Kept(trace)| >= limit then Capped
    else Done
  }

  /** The part of the trace that concerns group `g`. */
  ghost function RunOf(trace: Trace, limit: nat, g: nat): GroupRun
    requires g <= |trace.walks|
  {
    if g == |trace.walks| then GroupRun(trace.requests, trace.broken, trace.offered, Broken)
    else GroupRun(trace.requests, trace.walks[g],
                  if EndOfGroup(trace, limit, g).Capped? then trace.offered else RecordsOfWalks(trace.walks[..g + 1]),
                  EndOfGroup(trace, limit, g))
  }

  lemma ProperPrefix<T>(a: seq<T>, b: seq<T>, c: seq<T>, offered: seq<T>)
    requires a <= b && b + c <= offered && offered != b + c
    ensures |offered| > 0 && a <= offered[..|offered| - 1] && a <= offered
  {
  }

  lemma EarlierWalksBelowCap(walks: seq<seq<Visit>>, offered: seq<SearchRecord>, limit: nat, g: nat)
    requires OffersWalks(walks, offered, true) && StopsAtCap(offered, limit) && |FirstOccurrences(offered)| >= limit
    requires g + 1 < |walks|
    ensures RecordsOfWalks(walks[..g + 1]) <= offered && |FirstOccurrences(RecordsOfWalks(walks[..g + 1]))| < limit
    ensures Finished(walks[g])
  {
    var last := |walks| - 1;
    var init := walks[..last];
    var upTo, earlier := RecordsOfWalks(walks[..g + 1]), RecordsOf(walks[last][..|walks[last]| - 1]);
    assert init[..g + 1] == walks[..g + 1] && init[g] == walks[g];
    WalksGrow(init, g + 1);
    ProperPrefix(upTo, RecordsOfWalks(init), earlier, offered);
    KeptGrow(upTo, offered[..|offered| - 1]);
  }

  /** Every walk that is not the one that reached the cap ended below it. */
  lemma BelowCap(respond: seq<Request> -> Reply, groups: seq<string>, keyword: string, limit: nat, trace: Trace, g: nat)
    requires Outcome(respond, groups, keyword, limit, trace) && g < |trace.walks| && EndOfGroup(trace, limit, g).Done?
    ensures RecordsOfWalks(trace.walks[..g + 1]) <= trace.offered
    ensures |FirstOccurrences(RecordsOfWalks(trace.walks[..g + 1]))| < limit && Finished(trace.walks[g])
  {
    var upTo := RecordsOfWalks(trace.walks[..g + 1]);
    if |Kept(trace)| < limit {
      if Enumerated(respond, groups, keyword, limit, trace) {
        AllOffered(trace.walks, trace.offered);
      }
      WalksGrow(trace.walks, g + 1);
      PrefixTransitive(upTo, RecordsOfWalks(trace.walks), trace.offered);
      KeptGrow(upTo, trace.offered);
    } else {
      EarlierWalksBelowCap(trace.walks, trace.offered, limit, g);
    }
  }

  lemma AgreeOnPrefix(a: seq<SearchRecord>, b: seq<SearchRecord>)
    requires a <= b && Agree(b)
    ensures Agree(a)
  {
    forall r | r in a ensures r in b {
      var i :| 0 <= i < |a| && a[i] == r;
      assert b[i] == r;
    }
  }

  /** Group `g` of the trace is a run of its own, begun by the search of that group. */
  ghost predicate GroupAt(respond: seq<Request> -> Reply, groups: seq<string>, keyword: string, limit: nat,
                          trace: Trace, g: nat)
    requires g <= |trace.walks|
  {
    var at := PagesOfWalks(trace.walks[..g]);
    && g < |groups| && at < |trace.requests| && trace.requests[at] == SearchGroup(groups[g], keyword)
    && Runs(respond, at + 1, RecordsOfWalks(trace.walks[..g]), limit, RunOf(trace, limit, g))
  }

  lemma DoneIsRun(respond: seq<Request> -> Reply, at: nat, search: Request, before: seq<SearchRecord>, limit: nat,
                  r: GroupRun)
    requires GroupServed(respond, search, r.requests, at, r.walk) && r.ended.Done? && Finished(r.walk)
    requires r.offered == before + RecordsOf(r.walk) && Agree(r.offered) && |FirstOccurrences(r.offered)| < limit
    ensures Runs(respond, at + 1, before, limit, r)
  {
  }

  lemma DoneRuns(respond: seq<Request> -> Reply, groups: seq<string>, keyword: string, limit: nat, trace: Trace, g: nat)
    requires g < |trace.walks| && g < |groups| && EndOfGroup(trace, limit, g).Done?
    requires GroupServed(respond, SearchGroup(groups[g], keyword), trace.requests, PagesOfWalks(trace.walks[..g]),
                         trace.walks[g])
    requires var offered := RecordsOfWalks(trace.walks[..g + 1]);
             && offered == RecordsOfWalks(trace.walks[..g]) + RecordsOf(trace.walks[g])
             && Agree(offered) && |FirstOccurrences(offered)| < limit && Finished(trace.walks[g])
    ensures GroupAt(respond, groups, keyword, limit, trace, g)
  {
    DoneIsRun(respond, PagesOfWalks(trace.walks[..g]), SearchGroup(groups[g], keyword),
              RecordsOfWalks(trace.walks[..g]), limit, RunOf(trace, limit, g));
  }

  lemma WalkIsServed(respond: seq<Request> -> Reply, groups: seq<string>, keyword: string, limit: nat, trace: Trace,
                     g: nat)
    requires Outcome(respond, groups, keyword, limit, trace) && g < |trace.walks|
    ensures g < |groups|
    ensures GroupServed(respond, SearchGroup(groups[g], keyword), trace.requests, PagesOfWalks(trace.walks[..g]),
                        trace.walks[g])
  {
    assert WalkServed(respond, groups, keyword, trace.requests, trace.walks, g);
  }

  lemma UpToGroup(walks: seq<seq<Visit>>, g: nat, offered: seq<SearchRecord>)
    requires g < |walks| && RecordsOfWalks(walks[..g + 1]) <= offered && Agree(offered)
    ensures RecordsOfWalks(walks[..g + 1]) == RecordsOfWalks(walks[..g]) + RecordsOf(walks[g])
    ensures Agree(RecordsOfWalks(walks[..g + 1]))
  {
    AgreeOnPrefix(RecordsOfWalks(walks[..g + 1]), offered);
    assert walks[..g + 1] == walks[..g] + [walks[g]];
    WalksNext(walks[..g], walks[g]);
  }

  lemma DoneAt(respond: seq<Request> -> Reply, groups: seq<string>, keyword: string, limit: nat, trace: Trace, g: nat)
    requires Outcome(respond, groups, keyword, limit, trace) && g < |trace.walks| && EndOfGroup(trace, limit, g).Done?
    ensures var offered := RecordsOfWalks(trace.walks[..g + 1]);
            && offered == RecordsOfWalks(trace.walks[..g]) + RecordsOf(trace.walks[g])
            && Agree(offered) && |FirstOccurrences(offered)| < limit && Finished(trace.walks[g])
  {
    BelowCap(respond, groups, keyword, limit, trace, g);
    UpToGroup(trace.walks, g, trace.offered);
  }

  lemma DoneGroup(respond: seq<Request> -> Reply, groups: seq<string>, keyword: string, limit: nat, trace: Trace,
                  g: nat)
    requires Outcome(respond, groups, keyword, limit, trace) && g < |trace.walks| && EndOfGroup(trace, limit, g).Done?
    ensures GroupAt(respond, groups, keyword, limit, trace, g)
  {
    WalkIsServed(respond, groups, keyword, limit, trace, g);
    DoneAt(respond, groups, keyword, limit, trace, g);
    DoneRuns(respond, groups, keyword, limit, trace, g);
  }

  lemma CappedRuns(respond: seq<Request> -> Reply, groups: seq<string>, keyword: string, limit: nat, trace: Trace,
                   g: nat)
    requires g < |trace.walks| && g < |groups| && EndOfGroup(trace, limit, g).Capped?
    requires GroupServed(respond, SearchGroup(groups[g], keyword), trace.requests, PagesOfWalks(trace.walks[..g]),
                         trace.walks[g])
    requires OffersWalk(RecordsOfWalks(trace.walks[..g]), trace.walks[g], trace.offered, true)
    requires StopsAtCap(trace.offered, limit) && |Kept(trace)| >= limit && Agree(trace.offered)
    ensures GroupAt(respond, groups, keyword, limit, trace, g)
  {
  }

  lemma CappedAt(respond: seq<Request> -> Reply, groups: seq<string>, keyword: string, limit: nat, trace: Trace, g: nat)
    requires Outcome(respond, groups, keyword, limit, trace) && g < |trace.walks| && EndOfGroup(trace, limit, g).Capped?
    ensures OffersWalk(RecordsOfWalks(trace.walks[..g]), trace.walks[g], trace.offered, true)
    ensures StopsAtCap(trace.offered, limit) && |Kept(trace)| >= limit && Agree(trace.offered)
  {
  }

  lemma CappedGroup(respond: seq<Request> -> Reply, groups: seq<string>, keyword: string, limit: nat, trace: Trace,
                    g: nat)
    requires Outcome(respond, groups, keyword, limit, trace) && g < |trace.walks| && EndOfGroup(trace, limit, g).Capped?
    ensures GroupAt(respond, groups, keyword, limit, trace, g)
  {
    WalkIsServed(respond, groups, keyword, limit, trace, g);
    CappedAt(respond, groups, keyword, limit, trace, g);
    CappedRuns(respond, groups, keyword, limit, trace, g);
  }

  lemma WalkAt(respond: seq<Request> -> Reply, groups: seq<string>, keyword: string, limit: nat, trace: Trace, g: nat)
    requires Outcome(respond, groups, keyword, limit, trace) && g < |trace.walks|
    ensures GroupAt(respond, groups, keyword, limit, trace, g)
  {
    if EndOfGroup(trace, limit, g).Done? {
      DoneGroup(respond, groups, keyword, limit, trace, g);
    } else {
      CappedGroup(respond, groups, keyword, limit, trace, g);
    }
  }

  lemma BrokenServed(respond: seq<Request> -> Reply, requests: seq<Request>, start: nat, walk: seq<Visit>,
                     before: seq<SearchRecord>, offered: seq<SearchRecord>, kept: seq<SearchRecord>)
    requires BreaksOff(respond, requests, start, walk, before, offered, kept)
    ensures GoodWalk(walk) && Served(respond, requests, start, walk)
  {
  }

  lemma BrokenAt(respond: seq<Request> -> Reply, groups: seq<string>, keyword: string, limit: nat, trace: Trace)
    requires Broke(respond, groups, keyword, limit, trace)
    ensures GroupAt(respond, groups, keyword, limit, trace, |trace.walks|)
  {
    assert trace.walks[..|trace.walks|] == trace.walks;
    BrokenServed(respond, trace.requests, PagesOfWalks(trace.walks) + 1, trace.broken, RecordsOfWalks(trace.walks),
                 trace.offered, Kept(trace));
  }

  /** Same requests and records up to request number `at`, same search: same walk, same records, same end. */
  ghost predicate SameSoFar(a: Trace, b: Trace, g: nat)
    requires g <= |a.walks| && g <= |b.walks|
  {
    var at := PagesOfWalks(a.walks[..g]);
    a.walks[..g] == b.walks[..g] && at <= |a.requests| && at <= |b.requests| && a.requests[..at] == b.requests[..at]
  }

  ghost predicate SameRun(at: nat, x: GroupRun, y: GroupRun) {
    && x.walk == y.walk && x.ended == y.ended && x.offered == y.offered
    && (x.ended.Broken? ==> x.requests == y.requests)
    && (x.walk != [] ==>
          at + |x.walk| <= |x.requests| && at + |x.walk| <= |y.requests|
          && x.requests[..at + |x.walk|] == y.requests[..at + |x.walk|])
  }

  lemma OneMoreRequest(a: seq<Request>, b: seq<Request>, at: nat)
    requires at < |a| && at < |b| && a[..at] == b[..at] && a[at] == b[at]
    ensures a[..at + 1] == b[..at + 1]
  {
    assert a[..at + 1] == a[..at] + [a[at]] && b[..at + 1] == b[..at] + [b[at]];
  }

  lemma RunsAgree(respond: seq<Request> -> Reply, at: nat, before: seq<SearchRecord>, limit: nat, x: GroupRun,
                  y: GroupRun)
    requires Runs(respond, at + 1, before, limit, x) && Runs(respond, at + 1, before, limit, y)
    requires x.requests[..at] == y.requests[..at] && x.requests[at] == y.requests[at]
    ensures SameRun(at, x, y)
  {
    OneMoreRequest(x.requests, y.requests, at);
    GroupIsDetermined(respond, at + 1, before, limit, x, y);
  }

  lemma SameGroup(respond: seq<Request> -> Reply, groups: seq<string>, keyword: string, limit: nat, a: Trace,
                  b: Trace, g: nat)
    requires g <= |a.walks| && g <= |b.walks| && SameSoFar(a, b, g)
    requires GroupAt(respond, groups, keyword, limit, a, g) && GroupAt(respond, groups, keyword, limit, b, g)
    ensures SameRun(PagesOfWalks(a.walks[..g]), RunOf(a, limit, g), RunOf(b, limit, g))
  {
    RunsAgree(respond, PagesOfWalks(a.walks[..g]), RecordsOfWalks(a.walks[..g]), limit, RunOf(a, limit, g),
              RunOf(b, limit, g));
  }

  ghost predicate Ran(respond: seq<Request> -> Reply, groups: seq<string>, keyword: string, limit: nat, trace: Trace,
                      g: nat) {
    g < |trace.walks| || (g == |trace.walks| && Broke(respond, groups, keyword, limit, trace))
  }

  lemma GroupRan(respond: seq<Request> -> Reply, groups: seq<string>, keyword: string, limit: nat, trace: Trace, g: nat)
    requires Outcome(respond, groups, keyword, limit, trace) && Ran(respond, groups, keyword, limit, trace, g)
    ensures GroupAt(respond, groups, keyword, limit, trace, g)
  {
    if g < |trace.walks| {
      WalkAt(respond, groups, keyword, limit, trace, g);
    } else {
      BrokenAt(respond, groups, keyword, limit, trace);
    }
  }

  lemma SameAt(respond: seq<Request> -> Reply, groups: seq<string>, keyword: string, limit: nat, a: Trace, b: Trace,
               g: nat)
    requires Outcome(respond, groups, keyword, limit, a) && Outcome(respond, groups, keyword, limit, b)
    requires Ran(respond, groups, keyword, limit, a, g) && Ran(respond, groups, keyword, limit, b, g)
             && SameSoFar(a, b, g)
    ensures SameRun(PagesOfWalks(a.walks[..g]), RunOf(a, limit, g), RunOf(b, limit, g))
  {
    GroupRan(respond, groups, keyword, limit, a, g);
    GroupRan(respond, groups, keyword, limit, b, g);
    SameGroup(respond, groups, keyword, limit, a, b, g);
  }

  lemma WalkIsNotEmpty(respond: seq<Request> -> Reply, groups: seq<string>, keyword: string, limit: nat, trace: Trace,
                       g: nat)
    requires Outcome(respond, groups, keyword, limit, trace) && g < |trace.walks|
    ensures trace.walks[g] != []
  {
    if EndOfGroup(trace, limit, g).Done? {
      DoneAt(respond, groups, keyword, limit, trace, g);
    }
  }

  lemma SameNext(a: Trace, b: Trace, limit: nat, g: nat)
    requires g < |a.walks| && g < |b.walks| && SameSoFar(a, b, g) && a.walks[g] != []
    requires SameRun(PagesOfWalks(a.walks[..g]), RunOf(a, limit, g), RunOf(b, limit, g))
    ensures SameSoFar(a, b, g + 1)
  {
    assert a.walks[..g + 1] == a.walks[..g] + [a.walks[g]] && b.walks[..g + 1] == b.walks[..g] + [b.walks[g]];
    WalksNext(a.walks[..g], a.walks[g]);
  }

  lemma OneMoreWalk(respond: seq<Request> -> Reply, groups: seq<string>, keyword: string, limit: nat, a: Trace,
                    b: Trace, g: nat)
    requires Outcome(respond, groups, keyword, limit, a) && Outcome(respond, groups, keyword, limit, b)
    requires g < |a.walks| && g < |b.walks| && SameSoFar(a, b, g)
    ensures SameSoFar(a, b, g + 1)
  {
    SameAt(respond, groups, keyword, limit, a, b, g);
    WalkIsNotEmpty(respond, groups, keyword, limit, a, g);
    SameNext(a, b, limit, g);
  }

  /** Two enumerations of the same server walk the same pages of every group that both of them walked. */
  lemma {:induction false} WalksAgree(respond: seq<Request> -> Reply, groups: seq<string>, keyword: string, limit: nat,
                                      a: Trace, b: Trace, n: nat)
    requires Outcome(respond, groups, keyword, limit, a) && Outcome(respond, groups, keyword, limit, b)
    requires n <= |a.walks| && n <= |b.walks|
    ensures SameSoFar(a, b, n)
  {
    if n == 0 {
    } else {
      WalksAgree(respond, groups, keyword, limit, a, b, n - 1);
      OneMoreWalk(respond, groups, keyword, limit, a, b, n - 1);
    }
  }

  /** How the last walk, or the one that broke off, ends is how the same walk of another enumeration ends. */
  lemma SameEnd(respond: seq<Request> -> Reply, groups: seq<string>, keyword: string, limit: nat, a: Trace, b: Trace,
                g: nat)
    requires Outcome(respond, groups, keyword, limit, a) && Outcome(respond, groups, keyword, limit, b)
    requires Ran(respond, groups, keyword, limit, a, g) && Ran(respond, groups, keyword, limit, b, g)
    ensures SameRun(PagesOfWalks(a.walks[..g]), RunOf(a, limit, g), RunOf(b, limit, g))
  {
    WalksAgree(respond, groups, keyword, limit, a, b, g);
    SameAt(respond, groups, keyword, limit, a, b, g);
  }

  /** An enumeration that walked fewer groups than there are broke off at the next one, or its last walk reached
      the cap. */
  lemma StopsForAReason(respond: seq<Request> -> Reply, groups: seq<string>, keyword: string, limit: nat, trace: Trace)
    requires limit >= 1 && Outcome(respond, groups, keyword, limit, trace) && |trace.walks| < |groups|
    ensures !Broke(respond, groups, keyword, limit, trace) ==>
              |trace.walks| > 0 && EndOfGroup(trace, limit, |trace.walks| - 1).Capped?
  {
  }

  lemma GroupsAreEnough(respond: seq<Request> -> Reply, groups: seq<string>, keyword: string, limit: nat, trace: Trace)
    requires Outcome(respond, groups, keyword, limit, trace)
    ensures |trace.walks| <= |groups| && (Broke(respond, groups, keyword, limit, trace) ==> |trace.walks| < |groups|)
  {
  }

  lemma BrokenIsBelowCap(respond: seq<Request> -> Reply, groups: seq<string>, keyword: string, limit: nat, trace: Trace)
    ensures Broke(respond, groups, keyword, limit, trace) ==> |Kept(trace)| < limit
  {
  }

  lemma NoMoreWalks(respond: seq<Request> -> Reply, groups: seq<string>, keyword: string, limit: nat, a: Trace,
                    b: Trace)
    requires limit >= 1
    requires Outcome(respond, groups, keyword, limit, a) && Outcome(respond, groups, keyword, limit, b)
    ensures |a.walks| >= |b.walks|
    ensures |a.walks| == |b.walks| && Broke(respond, groups, keyword, limit, a)
            ==> Broke(respond, groups, keyword, limit, b)
  {
    var n := |a.walks|;
    GroupsAreEnough(respond, groups, keyword, limit, a);
    GroupsAreEnough(respond, groups, keyword, limit, b);
    if n < |b.walks| {
      StopsForAReason(respond, groups, keyword, limit, a);
      if Broke(respond, groups, keyword, limit, a) {
        SameEnd(respond, groups, keyword, limit, a, b, n);
      } else {
        SameEnd(respond, groups, keyword, limit, a, b, n - 1);
      }
    } else if n == |b.walks| < |groups| && !Broke(respond, groups, keyword, limit, b) {
      StopsForAReason(respond, groups, keyword, limit, b);
      SameEnd(respond, groups, keyword, limit, a, b, n - 1);
      BrokenIsBelowCap(respond, groups, keyword, limit, a);
    }
  }

  lemma EnumeratedTrace(respond: seq<Request> -> Reply, groups: seq<string>, keyword: string, limit: nat, trace: Trace)
    requires Enumerated(respond, groups, keyword, limit, trace)
    ensures |trace.requests| == PagesOfWalks(trace.walks) && trace.broken == []
    ensures trace.offered == if trace.walks == [] then [] else RunOf(trace, limit, |trace.walks| - 1).offered
  {
    assert trace.walks[..|trace.walks|] == trace.walks;
    if |Kept(trace)| < limit {
      AllOffered(trace.walks, trace.offered);
    }
  }

  /** One server, one outcome: the requests, the pages, the records offered, and whether it failed. */
  lemma EnumerationIsDetermined(respond: seq<Request> -> Reply, groups: seq<string>, keyword: string, limit: nat,
                                a: Trace, b: Trace)
    requires limit >= 1
    requires Outcome(respond, groups, keyword, limit, a) && Outcome(respond, groups, keyword, limit, b)
    ensures a == b
  {
    NoMoreWalks(respond, groups, keyword, limit, a, b);
    NoMoreWalks(respond, groups, keyword, limit, b, a);
    var n := |a.walks|;
    WalksAgree(respond, groups, keyword, limit, a, b, n);
    assert a.walks[..n] == a.walks && b.walks[..n] == b.walks;
    if Broke(respond, groups, keyword, limit, a) {
      SameEnd(respond, groups, keyword, limit, a, b, n);
    } else {
      EnumeratedTrace(respond, groups, keyword, limit, a);
      EnumeratedTrace(respond, groups, keyword, limit, b);
      assert a.requests[..|a.requests|] == a.requests && b.requests[..|b.requests|] == b.requests;
      if n > 0 {
        SameEnd(respond, groups, keyword, limit, a, b, n - 1);
      }
    }
  }

  /** A server on which the enumeration succeeds gives no ground for it to fail. */
  lemma SuccessExcludesFailure(respond: seq<Request> -> Reply, groups: seq<string>, keyword: string, limit: nat,
                               a: Trace)
    requires limit >= 1 && Enumerated(respond, groups, keyword, limit, a)
    ensures forall b :: !Broke(respond, groups, keyword, limit, b)
  {
    forall b ensures !Broke(respond, groups, keyword, limit, b) {
      if Broke(respond, groups, keyword, limit, b) {
        EnumerationIsDetermined(respond, groups, keyword, limit, a, b);
      }
    }
  }
}
