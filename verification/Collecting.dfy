/** The enumeration: every page of every product group, with duplicates dropped. */
module Collecting {
  import opened Wrappers
  import opened SearchPages

  /** The search form of one product group, with the keyword, or a page link. */
  datatype Request = SearchGroup(group: string, keyword: string) | Get(url: string)

  datatype Reply = NoReply | Fetched(url: string, raw: RawPage)

  datatype Collection = Collection(
    records: seq<SearchRecord>,
    pagesVisited: nat,
    expectedGroups: nat,
    processedGroups: nat,
    duplicates: nat,
    enumerationComplete: bool)

  /** The first record of each listing, in the order offered. */
  function FirstOccurrences(offered: seq<SearchRecord>): (kept: seq<SearchRecord>)
    ensures |kept| <= |offered|
  {
    if offered == [] then [] else
    var before, last := FirstOccurrences(offered[..|offered| - 1]), offered[|offered| - 1];
    if exists r | r in before :: r.sourceId == last.sourceId then before else before + [last]
  }

  function IdSet(records: seq<SearchRecord>): set<string> {
    set r | r in records :: r.sourceId
  }

  predicate UniqueUrls(records: seq<SearchRecord>) {
    forall i, j | 0 <= i < j < |records| :: records[i].url != records[j].url
  }

  /** Dropping repeats loses no listing and keeps no listing twice. */
  lemma {:induction false} FirstOccurrencesKeepIds(offered: seq<SearchRecord>)
    ensures IdSet(FirstOccurrences(offered)) == IdSet(offered)
    ensures UniqueIds(FirstOccurrences(offered))
  {
    if offered == [] {
    } else {
      var init, last := offered[..|offered| - 1], offered[|offered| - 1];
      FirstOccurrencesKeepIds(init);
      var before := FirstOccurrences(init);
      assert offered == init + [last];
      assert IdSet(offered) == IdSet(init) + {last.sourceId};
      if exists r | r in before :: r.sourceId == last.sourceId {
        assert last.sourceId in IdSet(before);
      } else {
        assert IdSet(before + [last]) == IdSet(before) + {last.sourceId};
      }
    }
  }

  lemma {:induction false} KeptWereOffered(offered: seq<SearchRecord>)
    ensures forall r | r in FirstOccurrences(offered) :: r in offered
  {
    if offered == [] {
    } else {
      KeptWereOffered(offered[..|offered| - 1]);
    }
  }

  /** One URL to a listing, and one listing to a URL. */
  ghost predicate Agree(offered: seq<SearchRecord>) {
    forall r, s | r in offered && s in offered :: r.sourceId == s.sourceId <==> r.url == s.url
  }

  /** No two kept records share a listing or a URL. */
  lemma KeptUrlsAreUnique(offered: seq<SearchRecord>)
    requires Agree(offered)
    ensures UniqueIds(FirstOccurrences(offered)) && UniqueUrls(FirstOccurrences(offered))
  {
    KeptWereOffered(offered);
    FirstOccurrencesKeepIds(offered);
  }

  lemma FirstOccurrencesNext(offered: seq<SearchRecord>, r: SearchRecord)
    ensures var before := FirstOccurrences(offered);
            FirstOccurrences(offered + [r]) ==
            if exists known | known in before :: known.sourceId == r.sourceId then before else before + [r]
  {
    assert (offered + [r])[..|offered|] == offered;
  }

  /** Nothing is offered after the record that reaches the cap. */
  predicate StopsAtCap(offered: seq<SearchRecord>, limit: nat) {
    && |FirstOccurrences(offered)| <= limit
    && (|FirstOccurrences(offered)| == limit ==> offered != [] && |FirstOccurrences(offered[..|offered| - 1])| < limit)
  }

  lemma OneMore(before: seq<SearchRecord>, page: seq<SearchRecord>, i: nat)
    requires i < |page|
    ensures before + page[..i] + [page[i]] == before + page[..i + 1]
  {
  }

  lemma PrefixOffered(before: seq<SearchRecord>, page: seq<SearchRecord>, n: nat, offered: seq<SearchRecord>)
    requires n <= |page| && offered == before + page[..n]
    ensures before <= offered <= before + page && |offered| == |before| + n
    ensures n == |page| ==> offered == before + page
  {
    assert page[..n] + page[n..] == page;
    assert before + page == before + page[..n] + page[n..];
  }

  /** The record names a known listing under another URL, or a known URL for another listing. */
  predicate Clashes(records: seq<SearchRecord>, r: SearchRecord) {
    exists known | known in records :: (known.sourceId == r.sourceId) != (known.url == r.url)
  }

  /** Every record offered has the URL of the record kept for its listing. */
  ghost predicate Matched(offered: seq<SearchRecord>, kept: map<string, SearchRecord>) {
    forall r | r in offered :: r.sourceId in kept && kept[r.sourceId].url == r.url
  }

  lemma OneMoreMatched(offered: seq<SearchRecord>, kept: map<string, SearchRecord>, r: SearchRecord,
                       after: map<string, SearchRecord>)
    requires Matched(offered, kept) && forall id | id in kept :: id in after && after[id] == kept[id]
    requires r.sourceId in after && after[r.sourceId].url == r.url
    ensures Matched(offered + [r], after)
  {
  }

  /** A record that raises nothing is kept exactly when neither its listing nor its URL was. */
  lemma OneMoreOffered(offered: seq<SearchRecord>, r: SearchRecord, before: seq<SearchRecord>, after: seq<SearchRecord>,
                       added: bool, limit: nat)
    requires before == FirstOccurrences(offered) && |before| < limit && !Clashes(before, r)
    requires added <==> forall known | known in before :: known.sourceId != r.sourceId && known.url != r.url
    requires after == if added then before + [r] else before
    ensures FirstOccurrences(offered + [r]) == after && StopsAtCap(offered + [r], limit)
  {
    FirstOccurrencesNext(offered, r);
    assert (offered + [r])[..|offered + [r]| - 1] == offered;
  }

  /** Record number `n` of the page is the one that raises. */
  predicate BreaksAt(kept: seq<SearchRecord>, page: seq<SearchRecord>, n: int) {
    0 <= n < |page| && Clashes(kept, page[n])
  }

  // ---------------------------------------------------------------- where pages come from

  predicate IsPage(reply: Reply, v: Visit) {
    reply.Fetched? && reply.url == v.url && ParseSearchResults(reply.raw) == Success(v.page)
  }

  function NextUrl(page: ResultsPage): string
    requires Continues(page)
  {
    page.pagination.value.next.value.url
  }

  /** The i-th page answers the request after the first `start + i - 1` ones, which asked for the next
      link of the page before. */
  predicate ServedAt(respond: seq<Request> -> Reply, requests: seq<Request>, start: nat, walk: seq<Visit>, i: nat)
    requires i < |walk|
  {
    && start + i <= |requests|
    && IsPage(respond(requests[..start + i]), walk[i])
    && (i > 0 ==> Continues(walk[i - 1].page) && requests[start + i - 1] == Get(NextUrl(walk[i - 1].page)))
  }

  ghost predicate Served(respond: seq<Request> -> Reply, requests: seq<Request>, start: nat, walk: seq<Visit>) {
    forall i: nat | i < |walk| :: ServedAt(respond, requests, start, walk, i)
  }

  /** All pages so far were served, and `reply` answers the request for the next one. */
  ghost predicate Awaits(respond: seq<Request> -> Reply, requests: seq<Request>, start: nat, walk: seq<Visit>,
                         reply: Reply) {
    && |requests| == start + |walk|
    && respond(requests) == reply
    && Served(respond, requests, start, walk)
    && (walk != [] ==> Continues(walk[|walk| - 1].page)
                       && requests[|requests| - 1] == Get(NextUrl(walk[|walk| - 1].page)))
  }

  lemma ServedNext(respond: seq<Request> -> Reply, requests: seq<Request>, start: nat, walk: seq<Visit>, v: Visit,
                   raw: RawPage)
    requires Awaits(respond, requests, start, walk, Fetched(v.url, raw)) && ParseSearchResults(raw) == Success(v.page)
    ensures Served(respond, requests, start, walk + [v]) && |requests| + 1 == start + |walk + [v]|
  {
    assert requests[..start + |walk|] == requests;
    forall i: nat | i < |walk| + 1 ensures ServedAt(respond, requests, start, walk + [v], i) {
      if i < |walk| {
        assert ServedAt(respond, requests, start, walk, i);
      }
    }
  }

  lemma ServedStays(respond: seq<Request> -> Reply, requests: seq<Request>, more: seq<Request>, start: nat,
                    walk: seq<Visit>)
    requires Served(respond, requests, start, walk) && requests <= more
    ensures Served(respond, more, start, walk)
  {
    forall i: nat | i < |walk| ensures ServedAt(respond, more, start, walk, i) {
      assert ServedAt(respond, requests, start, walk, i);
      assert more[..start + i] == requests[..start + i];
    }
  }

  lemma AwaitsNext(respond: seq<Request> -> Reply, requests: seq<Request>, start: nat, walk: seq<Visit>, next: Request)
    requires Served(respond, requests, start, walk) && |requests| + 1 == start + |walk|
    requires walk != [] && Continues(walk[|walk| - 1].page) && next == Get(NextUrl(walk[|walk| - 1].page))
    ensures Awaits(respond, requests + [next], start, walk, respond(requests + [next]))
  {
    ServedStays(respond, requests, requests + [next], start, walk);
  }

  /** The page number or the record range fails to pass the previous one. */
  predicate FallsBack(p: Pagination, previousPage: Option<nat>, previousEnd: Option<nat>) {
    || (previousPage.Some? && p.currentPage <= previousPage.value)
    || (previousEnd.Some? && p.recordStart <= previousEnd.value)
  }

  /** The walk's own checks refuse this page: too many pages, a URL seen before, a page that breaks the
      parser's contract, a page number or range that does not advance, or a listing seen before. */
  ghost predicate RefusesPage(walk: seq<Visit>, url: string, raw: RawPage) {
    var page := ParseSearchResults(raw);
    || |walk| >= MAX_SEARCH_PAGES
    || (exists v | v in walk :: v.url == url)
    || page.Failure?
    || (walk != [] && Paginated(walk[|walk| - 1]) && page.value.pagination.Some?
        && FallsBack(page.value.pagination.value, Some(Range(walk[|walk| - 1]).currentPage),
                     Some(Range(walk[|walk| - 1]).recordEnd)))
    || (exists r | r in page.value.records :: r.sourceId in IdSet(RecordsOf(walk)))
  }

  /** The records a reply offers, if it is an acceptable page. */
  function RecordsIn(reply: Reply): seq<SearchRecord> {
    if reply.NoReply? then [] else
    var page := ParseSearchResults(reply.raw);
    if page.Success? then page.value.records else []
  }

  /** No reply, a page that the checks refuse, or a page with a record that contradicts a kept one: `offered`
      continues `before` up to that record. */
  ghost predicate Stops(reply: Reply, walk: seq<Visit>, before: seq<SearchRecord>, offered: seq<SearchRecord>,
                        kept: seq<SearchRecord>) {
    if reply.NoReply? || RefusesPage(walk, reply.url, reply.raw) then offered == before
    else
      && before <= offered <= before + RecordsIn(reply)
      && BreaksAt(kept, RecordsIn(reply), |offered| - |before|)
  }

  /** The walk raised after these pages: it has as many pages as are allowed and would go on, or the reply to
      its last request stopped it. Until then it offered everything after `before`. */
  ghost predicate BreaksOff(respond: seq<Request> -> Reply, requests: seq<Request>, start: nat, walk: seq<Visit>,
                            before: seq<SearchRecord>, offered: seq<SearchRecord>, kept: seq<SearchRecord>) {
    && GoodWalk(walk)
    && if |walk| == MAX_SEARCH_PAGES then
         && Continues(walk[|walk| - 1].page)
         && |requests| + 1 == start + |walk| && Served(respond, requests, start, walk)
         && offered == before + RecordsOf(walk)
       else
         && Awaits(respond, requests, start, walk, respond(requests))
         && Stops(respond(requests), walk, before + RecordsOf(walk), offered, kept)
  }

  lemma BreaksOffAt(respond: seq<Request> -> Reply, requests: seq<Request>, start: nat, walk: seq<Visit>,
                    before: seq<SearchRecord>, offered: seq<SearchRecord>, kept: seq<SearchRecord>, reply: Reply)
    requires GoodWalk(walk) && |walk| < MAX_SEARCH_PAGES && Awaits(respond, requests, start, walk, reply)
    requires Stops(reply, walk, before + RecordsOf(walk), offered, kept)
    ensures BreaksOff(respond, requests, start, walk, before, offered, kept)
  {
  }

  lemma RecordStops(reply: Reply, page: ResultsPage, walk: seq<Visit>, before: seq<SearchRecord>,
                    offered: seq<SearchRecord>,
                    kept: seq<SearchRecord>)
    requires reply.Fetched? && !RefusesPage(walk, reply.url, reply.raw)
             && ParseSearchResults(reply.raw) == Success(page)
    requires before <= offered <= before + page.records && BreaksAt(kept, page.records, |offered| - |before|)
    ensures Stops(reply, walk, before, offered, kept)
  {
  }

  /** The pages of the walk were offered one after the other, after `before`: all of them, unless a record of
      the last one reached the cap. */
  ghost predicate OffersWalk(before: seq<SearchRecord>, walk: seq<Visit>, offered: seq<SearchRecord>, capped: bool) {
    && walk != []
    && before + RecordsOf(walk[..|walk| - 1]) <= offered <= before + RecordsOf(walk)
    && (capped ==> offered != before + RecordsOf(walk[..|walk| - 1]))
    && (!capped ==> offered == before + RecordsOf(walk))
  }

  /** The server served the pages of the walk, one request to a page, and they were offered. */
  ghost predicate WalkIs(respond: seq<Request> -> Reply, requests: seq<Request>, start: nat,
                         before: seq<SearchRecord>, walk: seq<Visit>, offered: seq<SearchRecord>, capped: bool) {
    && GoodWalk(walk)
    && |requests| + 1 == start + |walk|
    && Served(respond, requests, start, walk)
    && OffersWalk(before, walk, offered, capped)
  }

  lemma RecordsOfNext(walk: seq<Visit>, next: Visit)
    ensures RecordsOf(walk + [next]) == RecordsOf(walk) + next.page.records
    ensures IdSet(RecordsOf(walk + [next])) == IdSet(RecordsOf(walk)) + IdSet(next.page.records)
  {
    assert (walk + [next])[..|walk|] == walk;
  }

  lemma OffersNext(before: seq<SearchRecord>, walk: seq<Visit>, v: Visit,
                   was: seq<SearchRecord>, offered: seq<SearchRecord>, capped: bool)
    requires was == before + RecordsOf(walk) && was <= offered <= was + v.page.records
    requires if capped then offered != was else offered == was + v.page.records
    ensures OffersWalk(before, walk + [v], offered, capped)
  {
    assert (walk + [v])[..|walk + [v]| - 1] == walk;
    RecordsOfNext(walk, v);
    assert was + v.page.records == before + (RecordsOf(walk) + v.page.records);
  }

  /** What becomes of a walk when the records of an accepted page have been offered. */
  lemma OfferEnds(respond: seq<Request> -> Reply, requests: seq<Request>, asked: nat, reply: Reply, page: ResultsPage,
                  walk: seq<Visit>, before: seq<SearchRecord>, was: seq<SearchRecord>, offered: seq<SearchRecord>,
                  kept: seq<SearchRecord>, stop: Result<bool, ScrapeError>)
    requires GoodWalk(walk) && |walk| < MAX_SEARCH_PAGES && Awaits(respond, requests, asked, walk, reply)
    requires reply.Fetched? && !RefusesPage(walk, reply.url, reply.raw)
             && ParseSearchResults(reply.raw) == Success(page)
    requires GoodWalk(walk + [Visit(reply.url, page)])
    requires was == before + RecordsOf(walk) && was <= offered <= was + page.records
    requires stop.Failure? ==> BreaksAt(kept, page.records, |offered| - |was|)
    requires stop == Success(true) ==> offered != was
    requires stop == Success(false) ==> offered == was + page.records
    ensures stop.Failure? ==> BreaksOff(respond, requests, asked, walk, before, offered, kept)
    ensures stop.Success? ==>
              WalkIs(respond, requests, asked, before, walk + [Visit(reply.url, page)], offered, stop.value)
  {
    if stop.Failure? {
      RecordStops(reply, page, walk, was, offered, kept);
      BreaksOffAt(respond, requests, asked, walk, before, offered, kept, reply);
    } else {
      OffersNext(before, walk, Visit(reply.url, page), was, offered, stop.value);
      ServedNext(respond, requests, asked, walk, Visit(reply.url, page), reply.raw);
    }
  }

  predicate Finished(walk: seq<Visit>) {
    walk != [] && !Continues(walk[|walk| - 1].page)
  }

  lemma {:induction false} IdsOfWalk(walk: seq<Visit>, v: Visit, r: SearchRecord)
    requires v in walk && r in v.page.records
    ensures r.sourceId in IdSet(RecordsOf(walk))
  {
    var init := walk[..|walk| - 1];
    if v in init {
      IdsOfWalk(init, v, r);
    } else {
      assert r in RecordsOf(walk);
    }
  }

  ghost predicate NewListings(v: Visit, next: Visit) {
    forall r, s | r in v.page.records && s in next.page.records :: r.sourceId != s.sourceId
  }

  lemma PageIsNew(walk: seq<Visit>, next: Visit, v: Visit)
    requires v in walk && forall r | r in next.page.records :: r.sourceId !in IdSet(RecordsOf(walk))
    ensures NewListings(v, next)
  {
    forall r, s | r in v.page.records && s in next.page.records ensures r.sourceId != s.sourceId {
      IdsOfWalk(walk, v, r);
    }
  }

  /** Passing the last page's number and range means passing those of every earlier page. */
  lemma LaterPageAdvances(walk: seq<Visit>, next: Visit, i: nat)
    requires GoodWalk(walk) && i < |walk| && walk[i].url != next.url && NewListings(walk[i], next)
    requires Paginated(walk[|walk| - 1])
    requires Paginated(next) ==>
               && Range(walk[|walk| - 1]).currentPage < Range(next).currentPage
               && Range(walk[|walk| - 1]).recordEnd < Range(next).recordStart
    ensures Advances(walk[i], next)
  {
    var last := walk[|walk| - 1];
    assert Range(last).recordStart <= Range(last).recordEnd by {
      assert PageOk(last.page);
    }
    if i < |walk| - 1 {
      assert Advances(walk[i], last);
    }
  }

  /** What the walk's variables know of the pages behind it. */
  ghost predicate WalkState(walk: seq<Visit>, urls: set<string>, ids: set<string>,
                            previousPage: Option<nat>, previousEnd: Option<nat>) {
    && GoodWalk(walk)
    && urls == (set v | v in walk :: v.url)
    && ids == IdSet(RecordsOf(walk))
    && if walk == [] then previousPage.None? && previousEnd.None?
       else && Paginated(walk[|walk| - 1])
            && Range(walk[|walk| - 1]).next.Some?
            && previousPage == Some(Range(walk[|walk| - 1]).currentPage)
            && previousEnd == Some(Range(walk[|walk| - 1]).recordEnd)
  }

  lemma GoodWalkNext(walk: seq<Visit>, next: Visit)
    requires GoodWalk(walk) && |walk| < MAX_SEARCH_PAGES && PageOk(next.page)
    requires walk != [] ==> Paginated(walk[|walk| - 1]) && Range(walk[|walk| - 1]).next.Some?
    requires forall i | 0 <= i < |walk| :: Advances(walk[i], next)
    ensures GoodWalk(walk + [next])
  {
    var all := walk + [next];
    forall i, j | 0 <= i < j < |all| ensures Advances(all[i], all[j]) {
      if j < |walk| {
        assert Advances(walk[i], walk[j]);
      }
    }
  }

  /** A page that passes the checks against the last page and the listings seen so far passes them
      against every earlier page. */
  lemma WalkExtends(walk: seq<Visit>, next: Visit, urls: set<string>, ids: set<string>,
                    previousPage: Option<nat>, previousEnd: Option<nat>)
    requires WalkState(walk, urls, ids, previousPage, previousEnd)
    requires |walk| < MAX_SEARCH_PAGES && PageOk(next.page) && next.url !in urls
    requires forall r | r in next.page.records :: r.sourceId !in ids
    requires Paginated(next) ==> !FallsBack(Range(next), previousPage, previousEnd)
    ensures GoodWalk(walk + [next])
    ensures Paginated(next) && Range(next).next.Some? ==>
              WalkState(walk + [next], urls + {next.url}, ids + IdSet(next.page.records),
                        Some(Range(next).currentPage), Some(Range(next).recordEnd))
  {
    forall i | 0 <= i < |walk| ensures Advances(walk[i], next) {
      assert walk[i].url in urls;
      PageIsNew(walk, next, walk[i]);
      LaterPageAdvances(walk, next, i);
    }
    GoodWalkNext(walk, next);
    RecordsOfNext(walk, next);
  }

  // ---------------------------------------------------------------- all product groups

  /** Everything on every page that any walk fetched. */
  function RecordsOfWalks(walks: seq<seq<Visit>>): seq<SearchRecord> {
    if walks == [] then [] else RecordsOfWalks(walks[..|walks| - 1]) + RecordsOf(walks[|walks| - 1])
  }

  function PagesOfWalks(walks: seq<seq<Visit>>): nat {
    if walks == [] then 0 else PagesOfWalks(walks[..|walks| - 1]) + |walks[|walks| - 1]|
  }

  lemma WalksNext(walks: seq<seq<Visit>>, walk: seq<Visit>)
    ensures RecordsOfWalks(walks + [walk]) == RecordsOfWalks(walks) + RecordsOf(walk)
    ensures PagesOfWalks(walks + [walk]) == PagesOfWalks(walks) + |walk|
  {
    assert (walks + [walk])[..|walks|] == walks;
  }

  /** What an enumeration saw: its requests, the pages of its walks, those of the walk that broke off, if
      one did, and the records offered. */
  datatype Trace = Trace(
    requests: seq<Request>,
    walks: seq<seq<Visit>>,
    broken: seq<Visit>,
    offered: seq<SearchRecord>)

  const UNTRACED := Trace([], [], [], [])

  /** The records that were kept. */
  function Kept(trace: Trace): seq<SearchRecord> {
    FirstOccurrences(trace.offered)
  }

  /** The walk answers the request number `at`, which is the search of the group. */
  ghost predicate GroupServed(respond: seq<Request> -> Reply, search: Request, requests: seq<Request>, at: nat,
                              walk: seq<Visit>) {
    && GoodWalk(walk)
    && at < |requests| && requests[at] == search
    && Served(respond, requests, at + 1, walk)
  }

  /** Walk number `g` began with the search of group `g`, right after the requests of the walks before it. */
  ghost predicate WalkServed(respond: seq<Request> -> Reply, groups: seq<string>, keyword: string,
                             requests: seq<Request>, walks: seq<seq<Visit>>, g: nat)
    requires g < |walks| <= |groups|
  {
    GroupServed(respond, SearchGroup(groups[g], keyword), requests, PagesOfWalks(walks[..g]), walks[g])
  }

  ghost predicate AllServed(respond: seq<Request> -> Reply, groups: seq<string>, keyword: string,
                            requests: seq<Request>, walks: seq<seq<Visit>>) {
    && |walks| <= |groups|
    && forall g | 0 <= g < |walks| :: WalkServed(respond, groups, keyword, requests, walks, g)
  }

  ghost predicate AllFinished(walks: seq<seq<Visit>>) {
    forall g | 0 <= g < |walks| :: Finished(walks[g])
  }

  lemma AllServedStays(respond: seq<Request> -> Reply, groups: seq<string>, keyword: string,
                       requests: seq<Request>, more: seq<Request>, walks: seq<seq<Visit>>)
    requires AllServed(respond, groups, keyword, requests, walks) && requests <= more
    ensures AllServed(respond, groups, keyword, more, walks)
  {
    forall g | 0 <= g < |walks| ensures WalkServed(respond, groups, keyword, more, walks, g) {
      assert WalkServed(respond, groups, keyword, requests, walks, g);
      ServedStays(respond, requests, more, PagesOfWalks(walks[..g]) + 1, walks[g]);
    }
  }

  lemma AllServedNext(respond: seq<Request> -> Reply, groups: seq<string>, keyword: string,
                      requests: seq<Request>, walks: seq<seq<Visit>>, walk: seq<Visit>)
    requires AllServed(respond, groups, keyword, requests, walks) && |walks| < |groups|
    requires GroupServed(respond, SearchGroup(groups[|walks|], keyword), requests, PagesOfWalks(walks), walk)
    ensures AllServed(respond, groups, keyword, requests, walks + [walk])
  {
    var all := walks + [walk];
    forall g | 0 <= g < |all| ensures WalkServed(respond, groups, keyword, requests, all, g) {
      assert all[..g] == walks[..g];
      if g < |walks| {
        assert WalkServed(respond, groups, keyword, requests, walks, g);
      } else {
        assert walks[..g] == walks;
      }
    }
  }

  /** The walks were offered one after the other, each to its end, unless the last one reached the cap. */
  ghost predicate OffersWalks(walks: seq<seq<Visit>>, offered: seq<SearchRecord>, capped: bool) {
    if walks == [] then offered == [] && !capped
    else
      var last := |walks| - 1;
      && AllFinished(walks[..last])
      && OffersWalk(RecordsOfWalks(walks[..last]), walks[last], offered, capped)
      && (!capped ==> Finished(walks[last]))
  }

  /** The first groups were walked in order, one request to a page; if the cap was not reached, to the end. */
  ghost predicate Walked(respond: seq<Request> -> Reply, groups: seq<string>, keyword: string, limit: nat,
                         trace: Trace) {
    && AllServed(respond, groups, keyword, trace.requests, trace.walks)
    && |trace.requests| == PagesOfWalks(trace.walks)
    && trace.broken == []
    && OffersWalks(trace.walks, trace.offered, |Kept(trace)| >= limit)
  }

  /** What a successful enumeration saw. It stops short of a group only at the cap, and below the cap it has
      offered every record of every page up to pages that name no further one. */
  ghost predicate Enumerated(respond: seq<Request> -> Reply, groups: seq<string>, keyword: string, limit: nat,
                             trace: Trace) {
    && Walked(respond, groups, keyword, limit, trace)
    && StopsAtCap(trace.offered, limit) && Agree(trace.offered)
    && (|Kept(trace)| < limit ==> |trace.walks| == |groups|)
  }

  /** What a failed enumeration saw: all groups before the failing one were walked to the end below the cap;
      then came the search of that group, and its walk broke off. */
  ghost predicate Broke(respond: seq<Request> -> Reply, groups: seq<string>, keyword: string, limit: nat,
                        trace: Trace) {
    var g, at := |trace.walks|, PagesOfWalks(trace.walks);
    && AllServed(respond, groups, keyword, trace.requests, trace.walks) && AllFinished(trace.walks)
    && g < |groups| && at < |trace.requests| && trace.requests[at] == SearchGroup(groups[g], keyword)
    && |Kept(trace)| < limit && Agree(trace.offered)
    && BreaksOff(respond, trace.requests, at + 1, trace.broken, RecordsOfWalks(trace.walks), trace.offered, Kept(trace))
  }

  lemma AllOffered(walks: seq<seq<Visit>>, offered: seq<SearchRecord>)
    requires OffersWalks(walks, offered, false)
    ensures offered == RecordsOfWalks(walks) && AllFinished(walks)
  {
    forall g | 0 <= g < |walks| ensures Finished(walks[g]) {
      assert g < |walks| - 1 ==> walks[..|walks| - 1][g] == walks[g];
    }
  }

  lemma OffersWalksNext(walks: seq<seq<Visit>>, walk: seq<Visit>, before: seq<SearchRecord>,
                        offered: seq<SearchRecord>, capped: bool)
    requires AllFinished(walks) && before == RecordsOfWalks(walks)
    requires OffersWalk(before, walk, offered, capped) && (!capped ==> Finished(walk))
    ensures OffersWalks(walks + [walk], offered, capped)
  {
    assert (walks + [walk])[..|walks + [walk]| - 1] == walks;
  }

  lemma SearchWasSent(before: seq<Request>, start: seq<Request>, requests: seq<Request>, search: Request)
    requires start == before + [search] <= requests
    ensures before <= requests && |before| < |requests| && requests[|before|] == search && |start| == |before| + 1
  {
  }

  lemma WalkFails(respond: seq<Request> -> Reply, groups: seq<string>, keyword: string, limit: nat, trace: Trace,
                  next: Trace,
                  start: seq<Request>)
    requires Walked(respond, groups, keyword, limit, trace) && |Kept(trace)| < limit && |trace.walks| < |groups|
    requires start == trace.requests + [SearchGroup(groups[|trace.walks|], keyword)] <= next.requests
    requires next.walks == trace.walks && |Kept(next)| < limit
    requires BreaksOff(respond, next.requests, |start|, next.broken, trace.offered, next.offered, Kept(next))
    requires Agree(next.offered)
    ensures Broke(respond, groups, keyword, limit, next)
  {
    AllOffered(trace.walks, trace.offered);
    SearchWasSent(trace.requests, start, next.requests, start[|start| - 1]);
    AllServedStays(respond, groups, keyword, trace.requests, next.requests, trace.walks);
  }

  lemma SearchStops(respond: seq<Request> -> Reply, requests: seq<Request>, offered: seq<SearchRecord>,
                    kept: seq<SearchRecord>)
    requires respond(requests).NoReply?
    ensures BreaksOff(respond, requests, |requests|, [], offered, offered, kept)
  {
    assert offered + RecordsOf([]) == offered;
    BreaksOffAt(respond, requests, |requests|, [], offered, offered, kept, NoReply);
  }

  lemma WalkSucceeds(respond: seq<Request> -> Reply, groups: seq<string>, keyword: string, limit: nat, trace: Trace,
                     next: Trace,
                     walk: seq<Visit>, start: seq<Request>)
    requires Walked(respond, groups, keyword, limit, trace) && |Kept(trace)| < limit && |trace.walks| < |groups|
    requires start == trace.requests + [SearchGroup(groups[|trace.walks|], keyword)] <= next.requests
    requires WalkIs(respond, next.requests, |start|, trace.offered, walk, next.offered, |Kept(next)| >= limit)
    requires |Kept(next)| < limit ==> Finished(walk)
    requires next.walks == trace.walks + [walk] && next.broken == []
    ensures Walked(respond, groups, keyword, limit, next)
    ensures PagesOfWalks(next.walks) == PagesOfWalks(trace.walks) + |walk|
  {
    AllOffered(trace.walks, trace.offered);
    SearchWasSent(trace.requests, start, next.requests, start[|start| - 1]);
    AllServedStays(respond, groups, keyword, trace.requests, next.requests, trace.walks);
    AllServedNext(respond, groups, keyword, next.requests, trace.walks, walk);
    WalksNext(trace.walks, walk);
    OffersWalksNext(trace.walks, walk, trace.offered, next.offered, |Kept(next)| >= limit);
  }

  lemma WalkEnds(respond: seq<Request> -> Reply, groups: seq<string>, keyword: string, limit: nat, trace: Trace,
                 next: Trace,
                 walk: seq<Visit>, start: seq<Request>, failed: bool)
    requires Walked(respond, groups, keyword, limit, trace) && |Kept(trace)| < limit && |trace.walks| < |groups|
    requires start == trace.requests + [SearchGroup(groups[|trace.walks|], keyword)] <= next.requests
    requires next == if failed then Trace(next.requests, trace.walks, walk, next.offered)
                     else Trace(next.requests, trace.walks + [walk], [], next.offered)
    requires failed ==>
               && |Kept(next)| < limit
               && BreaksOff(respond, next.requests, |start|, walk, trace.offered, next.offered, Kept(next))
    requires !failed ==>
               && WalkIs(respond, next.requests, |start|, trace.offered, walk, next.offered, |Kept(next)| >= limit)
               && (|Kept(next)| < limit ==> Finished(walk))
    requires Agree(next.offered)
    ensures failed ==> Broke(respond, groups, keyword, limit, next)
    ensures !failed ==>
              && Walked(respond, groups, keyword, limit, next)
              && PagesOfWalks(next.walks) == PagesOfWalks(trace.walks) + |walk|
  {
    if failed {
      WalkFails(respond, groups, keyword, limit, trace, next, start);
    } else {
      WalkSucceeds(respond, groups, keyword, limit, trace, next, walk, start);
    }
  }

  // ---------------------------------------------------------------- the collector

  class Collector {
    /** Any server: each reply may depend on every request so far. */
    const respond: seq<Request> -> Reply
    const limit: nat

    var requests: seq<Request>
    var records: seq<SearchRecord>
    var bySourceId: map<string, SearchRecord>
    var byUrl: map<string, SearchRecord>
    var duplicates: nat
    ghost var offered: seq<SearchRecord>

    /** The list and its two dictionaries hold the same records, one entry each. */
    ghost predicate Indexed()
      reads this`records, this`bySourceId, this`byUrl
    {
      && (forall r | r in records :: r.sourceId in bySourceId && bySourceId[r.sourceId] == r)
      && (forall r | r in records :: r.url in byUrl && byUrl[r.url] == r)
      && (forall id | id in bySourceId :: bySourceId[id] in records && bySourceId[id].sourceId == id)
      && (forall url | url in byUrl :: byUrl[url] in records && byUrl[url].url == url)
    }

    ghost predicate Valid()
      reads this`records, this`bySourceId, this`byUrl, this`duplicates, this`offered
    {
      && Indexed()
      && Matched(offered, bySourceId)
      && records == FirstOccurrences(offered)
      && |records| + duplicates == |offered|
      && StopsAtCap(offered, limit)
    }

    constructor (respond: seq<Request> -> Reply, limit: nat)
      requires limit >= 1
      ensures Valid() && this.limit == limit && this.respond == respond
      ensures offered == [] && requests == []
    {
      this.respond, this.limit := respond, limit;
      requests, records, bySourceId, byUrl, duplicates := [], [], map[], map[], 0;
      offered := [];
    }

    /** The dictionaries hold the one URL of every listing and the one listing of every URL. */
    lemma OfferedAgree()
      requires Valid()
      ensures Agree(offered)
    {
      forall r, s | r in offered && s in offered ensures r.sourceId == s.sourceId <==> r.url == s.url {
        var a, b := bySourceId[r.sourceId], bySourceId[s.sourceId];
        assert byUrl[a.url] == a && byUrl[b.url] == b;
      }
    }

    method Send(request: Request) returns (reply: Reply)
      modifies this`requests
      ensures requests == old(requests) + [request]
      ensures reply == respond(requests)
    {
      requests := requests + [request];
      reply := respond(requests);
    }

    /** Two lookups that do not raise hit both dictionaries or neither. */
    method AddUniqueSearchRecord(r: SearchRecord) returns (added: Result<bool, ScrapeError>)
      requires Indexed()
      modifies this`records, this`bySourceId, this`byUrl
      ensures Indexed()
      ensures added.Failure? <==> Clashes(old(records), r)
      ensures added == Success(true) <==>
                forall known | known in old(records) :: known.sourceId != r.sourceId && known.url != r.url
      ensures records == if added == Success(true) then old(records) + [r] else old(records)
      ensures added.Success? ==> r.sourceId in bySourceId && bySourceId[r.sourceId].url == r.url
      ensures forall id | id in old(bySourceId) :: id in bySourceId && bySourceId[id] == old(bySourceId)[id]
    {
      if r.sourceId in bySourceId && bySourceId[r.sourceId].url != r.url {
        return Failure(ContractError);
      }
      if r.url in byUrl && byUrl[r.url].sourceId != r.sourceId {
        return Failure(ContractError);
      }
      if r.sourceId in bySourceId || r.url in byUrl {
        return Success(false);
      }
      records := records + [r];
      bySourceId := bySourceId[r.sourceId := r];
      byUrl := byUrl[r.url := r];
      return Success(true);
    }

    /** The callback of the page walk: whether the cap is reached. */
    method AddSearchRecord(r: SearchRecord) returns (stop: Result<bool, ScrapeError>)
      requires Valid() && |records| < limit
      modifies this`records, this`bySourceId, this`byUrl, this`duplicates, this`offered
      ensures stop.Failure? <==> Clashes(old(records), r)
      ensures Valid()
      ensures stop.Failure? ==> records == old(records) && offered == old(offered)
      ensures stop.Success? ==> offered == old(offered) + [r] && stop.value == (|records| >= limit)
    {
      var added := AddUniqueSearchRecord(r);
      if added.Failure? {
        return Failure(added.error);
      }
      OneMoreOffered(offered, r, old(records), records, added.value, limit);
      OneMoreMatched(offered, old(bySourceId), r, bySourceId);
      offered := offered + [r];
      if !added.value {
        duplicates := duplicates + 1;
      }
      return Success(|records| >= limit);
    }

    /** One turn of the loop over a page. */
    method OfferNth(page: seq<SearchRecord>, i: nat, ghost before: seq<SearchRecord>) returns (stop: Result<bool,
                    ScrapeError>)
      requires Valid() && |records| < limit && i < |page| && offered == before + page[..i]
      modifies this`records, this`bySourceId, this`byUrl, this`duplicates, this`offered
      ensures Valid()
      ensures stop.Failure? ==> |records| < limit && Clashes(records, page[i]) && offered == before + page[..i]
      ensures stop.Success? ==> offered == before + page[..i + 1]
      ensures stop.Success? ==> if stop.value then |records| == limit else |records| < limit
    {
      stop := AddSearchRecord(page[i]);
      OneMore(before, page, i);
    }

    /** Offers the records of one page, stopping at the cap. */
    method OfferPage(page: ResultsPage) returns (stop: Result<bool, ScrapeError>)
      requires Valid() && |records| < limit
      modifies this`records, this`bySourceId, this`byUrl, this`duplicates, this`offered
      ensures Valid() && old(offered) <= offered <= old(offered) + page.records
      ensures stop.Success? ==> (stop.value <==> |records| == limit)
      ensures stop == Success(false) ==> offered == old(offered) + page.records
      ensures stop == Success(true) ==> offered != old(offered)
      ensures stop.Failure? ==> |records| < limit && BreaksAt(records, page.records, |offered| - |old(offered)|)
    {
      for i := 0 to |page.records|
        invariant Valid() && |records| < limit
        invariant offered == old(offered) + page.records[..i]
      {
        stop := OfferNth(page.records, i, old(offered));
        if stop.Failure? || stop.value {
          PrefixOffered(old(offered), page.records, if stop.Failure? then i else i + 1, offered);
          return;
        }
      }
      PrefixOffered(old(offered), page.records, |page.records|, offered);
      return Success(false);
    }

    /** The checks one page must pass before its records are offered. */
    method AcceptPage(url: string, raw: RawPage, tracker: SearchPageTracker, pagesSeen: nat, visitedUrls: set<string>,
                      previousPage: Option<nat>, previousEnd: Option<nat>, ghost walk: seq<Visit>)
      returns (page: Result<ResultsPage, ScrapeError>)
      requires tracker.Valid() && pagesSeen == |walk|
      requires WalkState(walk, visitedUrls, tracker.sourceIds, previousPage, previousEnd)
      modifies tracker
      ensures page.Failure? <==> RefusesPage(walk, url, raw)
      ensures page.Success? ==> page == ParseSearchResults(raw)
      ensures page.Success? ==>
                tracker.Valid() && |walk| < MAX_SEARCH_PAGES && GoodWalk(walk + [Visit(url, page.value)])
      ensures page.Success? && Continues(page.value) ==>
                var p := page.value.pagination.value;
                WalkState(walk + [Visit(url, page.value)], visitedUrls + {url}, tracker.sourceIds,
                          Some(p.currentPage), Some(p.recordEnd))
    {
      if pagesSeen >= MAX_SEARCH_PAGES || url in visitedUrls {
        return Failure(ContractError);
      }
      ParserIsExact(raw);
      page := ParseSearchResults(raw);
      if page.Failure? {
        return;
      }
      var pagination := page.value.pagination;
      if pagination.Some? && FallsBack(pagination.value, previousPage, previousEnd) {
        return Failure(ContractError);
      }
      ghost var seenIds := tracker.sourceIds;
      var accepted := tracker.Add(page.value);
      if !accepted {
        return Failure(ContractError);
      }
      WalkExtends(walk, Visit(url, page.value), visitedUrls, seenIds, previousPage, previousEnd);
    }

    /** Offers the records of a page that passed the checks; tells whether the cap is reached. */
    method OfferAccepted(page: ResultsPage, ghost reply: Reply, ghost walk: seq<Visit>, ghost before: seq<SearchRecord>,
                         ghost asked: nat)
      returns (stop: Result<bool, ScrapeError>)
      requires Valid() && |records| < limit && GoodWalk(walk) && |walk| < MAX_SEARCH_PAGES
      requires offered == before + RecordsOf(walk)
      requires Awaits(respond, requests, asked, walk, reply)
      requires reply.Fetched? && !RefusesPage(walk, reply.url, reply.raw)
               && ParseSearchResults(reply.raw) == Success(page)
      requires GoodWalk(walk + [Visit(reply.url, page)])
      modifies this`records, this`bySourceId, this`byUrl, this`duplicates, this`offered
      ensures Valid()
      ensures stop.Failure? ==> |records| < limit && BreaksOff(respond, requests, asked, walk, before, offered, records)
      ensures stop.Success? ==>
                && (stop.value <==> |records| == limit)
                && WalkIs(respond, requests, asked, before, walk + [Visit(reply.url, page)], offered, stop.value)
    {
      ghost var was := offered;
      stop := OfferPage(page);
      OfferEnds(respond, requests, asked, reply, page, walk, before, was, offered, records, stop);
    }

    /** Accepts one page and offers its records; tells whether the cap is reached. */
    method VisitPage(url: string, raw: RawPage, tracker: SearchPageTracker, pagesSeen: nat, visitedUrls: set<string>,
                     previousPage: Option<nat>, previousEnd: Option<nat>,
                     ghost walk: seq<Visit>, ghost before: seq<SearchRecord>, ghost asked: nat)
      returns (page: Result<ResultsPage, ScrapeError>, stop: bool)
      requires Valid() && |records| < limit && tracker.Valid() && pagesSeen == |walk| < MAX_SEARCH_PAGES
      requires WalkState(walk, visitedUrls, tracker.sourceIds, previousPage, previousEnd)
      requires offered == before + RecordsOf(walk)
      requires Awaits(respond, requests, asked, walk, Fetched(url, raw))
      modifies this`records, this`bySourceId, this`byUrl, this`duplicates, this`offered, tracker
      ensures Valid()
      ensures page.Failure? ==> |records| < limit && BreaksOff(respond, requests, asked, walk, before, offered, records)
      ensures page.Success? ==>
                && tracker.Valid() && (stop <==> |records| == limit)
                && WalkIs(respond, requests, asked, before, walk + [Visit(url, page.value)], offered, stop)
      ensures page.Success? && Continues(page.value) ==>
                var p := page.value.pagination.value;
                WalkState(walk + [Visit(url, page.value)], visitedUrls + {url}, tracker.sourceIds,
                          Some(p.currentPage), Some(p.recordEnd))
    {
      stop := false;
      page := AcceptPage(url, raw, tracker, pagesSeen, visitedUrls, previousPage, previousEnd, walk);
      if page.Failure? {
        BreaksOffAt(respond, requests, asked, walk, before, offered, records, Fetched(url, raw));
        return;
      }
      var offer := OfferAccepted(page.value, Fetched(url, raw), walk, before, asked);
      if offer.Failure? {
        return Failure(offer.error), false;
      }
      stop := offer.value;
    }

    /** Asks for the page after the last one, unless that would be one page too many. */
    method FetchNext(page: ResultsPage, pagesSeen: nat, ghost walk: seq<Visit>, ghost before: seq<SearchRecord>,
                     ghost asked: nat)
      returns (reply: Result<Reply, ScrapeError>)
      requires walk != [] && walk[|walk| - 1].page == page && Continues(page) && pagesSeen == |walk|
      requires WalkIs(respond, requests, asked, before, walk, offered, false)
      modifies this`requests
      ensures old(requests) <= requests && offered == before + RecordsOf(walk)
      ensures reply.Failure? ==> BreaksOff(respond, requests, asked, walk, before, offered, records)
      ensures reply.Success? ==>
                reply.value.Fetched? && |walk| < MAX_SEARCH_PAGES && Awaits(respond, requests, asked, walk, reply.value)
    {
      if pagesSeen >= MAX_SEARCH_PAGES {
        return Failure(ContractError);
      }
      AwaitsNext(respond, requests, asked, walk, Get(NextUrl(page)));
      var answer := Send(Get(NextUrl(page)));
      if answer.NoReply? {
        BreaksOffAt(respond, requests, asked, walk, before, offered, records, answer);
        return Failure(Unavailable);
      }
      return Success(answer);
    }

    /** The walk so far, and the reply that holds its next page. */
    ghost predicate Walking(tracker: SearchPageTracker, url: string, raw: RawPage, pagesSeen: nat,
                            visitedUrls: set<string>,
                            previousPage: Option<nat>, previousEnd: Option<nat>,
                            walk: seq<Visit>, before: seq<SearchRecord>, asked: nat)
      reads this, tracker
    {
      && Valid() && |records| < limit && tracker.Valid()
      && WalkState(walk, visitedUrls, tracker.sourceIds, previousPage, previousEnd)
      && pagesSeen == |walk| < MAX_SEARCH_PAGES
      && offered == before + RecordsOf(walk)
      && Awaits(respond, requests, asked, walk, Fetched(url, raw))
    }

    /** One turn of the walk: visits a page and asks for the next one, unless there is none or the cap is reached. */
    method TurnPage(url: string, raw: RawPage, tracker: SearchPageTracker, pagesSeen: nat, visitedUrls: set<string>,
                    previousPage: Option<nat>, previousEnd: Option<nat>,
                    ghost before: seq<SearchRecord>, ghost asked: nat, ghost walk: seq<Visit>)
      returns (page: Result<ResultsPage, ScrapeError>, next: Option<Reply>, ghost extended: seq<Visit>)
      requires Walking(tracker, url, raw, pagesSeen, visitedUrls, previousPage, previousEnd, walk, before, asked)
      modifies this, tracker
      ensures Valid() && old(requests) <= requests
      ensures page.Failure? ==>
                |records| < limit && BreaksOff(respond, requests, asked, extended, before, offered, records)
      ensures page.Success? && next.None? ==>
                && |extended| == pagesSeen + 1 && (|records| < limit ==> Finished(extended))
                && WalkIs(respond, requests, asked, before, extended, offered, |records| == limit)
      ensures page.Success? && next.Some? ==>
                && next.value.Fetched? && Continues(page.value)
                && Walking(tracker, next.value.url, next.value.raw, pagesSeen + 1, visitedUrls + {url},
                           Some(page.value.pagination.value.currentPage), Some(page.value.pagination.value.recordEnd),
                           extended, before, asked)
    {
      next, extended := None, walk;
      var stop;
      page, stop := VisitPage(url, raw, tracker, pagesSeen, visitedUrls, previousPage, previousEnd, walk, before,
                              asked);
      if page.Failure? {
        return;
      }
      extended := walk + [Visit(url, page.value)];
      if stop || !Continues(page.value) {
        return;
      }
      var reply := FetchNext(page.value, pagesSeen + 1, extended, before, asked);
      if reply.Failure? {
        page := Failure(reply.error);
      } else {
        next := Some(reply.value);
      }
    }

    /** Follows next-page links from a group's first page, which answers the last request. */
    method CollectFromPage(first: string, content: RawPage)
      returns (pages: Result<nat, ScrapeError>, ghost walk: seq<Visit>)
      requires Valid() && |records| < limit && respond(requests) == Fetched(first, content)
      modifies this
      ensures old(requests) <= requests
      ensures Valid()
      ensures pages.Failure? ==>
                |records| < limit && BreaksOff(respond, requests, |old(requests)|, walk, old(offered), offered, records)
      ensures pages.Success? ==>
                && pages.value == |walk| && (|records| < limit ==> Finished(walk))
                && WalkIs(respond, requests, |old(requests)|, old(offered), walk, offered, |records| == limit)
    {
      walk := [];
      assert RecordsOf(walk) == [] && IdSet([]) == {};
      var tracker := new SearchPageTracker();
      var url, raw := first, content;
      var visitedUrls: set<string> := {};
      var pagesSeen := 0;
      var previousPage: Option<nat> := None;
      var previousEnd: Option<nat> := None;
      while true
        invariant fresh(tracker) && old(requests) <= requests
        invariant Walking(tracker, url, raw, pagesSeen, visitedUrls, previousPage, previousEnd, walk, old(offered),
                          |old(requests)|)
        decreases MAX_SEARCH_PAGES - pagesSeen
      {
        var page, next, extended := TurnPage(url, raw, tracker, pagesSeen, visitedUrls, previousPage, previousEnd,
                                             old(offered), |old(requests)|, walk);
        walk := extended;
        if page.Failure? {
          pages := Failure(page.error);
          break;
        }
        pagesSeen := pagesSeen + 1;
        if next.None? {
          pages := Success(pagesSeen);
          break;
        }
        visitedUrls := visitedUrls + {url};
        previousPage := Some(page.value.pagination.value.currentPage);
        previousEnd := Some(page.value.pagination.value.recordEnd);
        url, raw := next.value.url, next.value.raw;
      }
    }

    /** Sends one search and walks its pages. */
    method WalkGroup(search: Request) returns (pages: Result<nat, ScrapeError>, ghost walk: seq<Visit>)
      requires Valid() && |records| < limit
      modifies this
      ensures Valid() && Agree(offered) && old(requests) + [search] <= requests
      ensures pages.Failure? ==>
                && |records| < limit
                && BreaksOff(respond, requests, |old(requests)| + 1, walk, old(offered), offered, records)
      ensures pages.Success? ==>
                && pages.value == |walk| && (|records| < limit ==> Finished(walk))
                && WalkIs(respond, requests, |old(requests)| + 1, old(offered), walk, offered, |records| == limit)
    {
      var reply := Send(search);
      if reply.NoReply? {
        walk := [];
        SearchStops(respond, requests, offered, records);
        pages := Failure(Unavailable);
      } else {
        pages, walk := CollectFromPage(reply.url, reply.raw);
      }
      OfferedAgree();
    }

    /** Walks one product group: one more walk for the trace, or the one that broke off. */
    method CollectGroup(groups: seq<string>, keyword: string, g: nat, ghost trace: Trace)
      returns (pages: Result<nat, ScrapeError>, ghost next: Trace)
      requires Valid() && |records| < limit && g < |groups| && g == |trace.walks|
      requires Walked(respond, groups, keyword, limit, trace)
      requires trace.requests == requests && trace.offered == offered
      modifies this
      ensures Valid() && next.requests == requests && next.offered == offered
      ensures pages.Failure? ==> Broke(respond, groups, keyword, limit, next)
      ensures pages.Success? ==>
                && Walked(respond, groups, keyword, limit, next)
                && |next.walks| == g + 1 && pages.value <= MAX_SEARCH_PAGES
                && PagesOfWalks(next.walks) == PagesOfWalks(trace.walks) + pages.value
    {
      ghost var start := requests + [SearchGroup(groups[g], keyword)];
      var walked, walk := WalkGroup(SearchGroup(groups[g], keyword));
      pages := walked;
      next := if pages.Failure? then Trace(requests, trace.walks, walk, offered)
              else Trace(requests, trace.walks + [walk], [], offered);
      WalkEnds(respond, groups, keyword, limit, trace, next, walk, start, pages.Failure?);
    }
  }

  /** The collection agrees with what was seen. Conservation: what was offered is what was kept plus what was
      counted as duplicate. It is complete exactly when every group was walked strictly below the cap. */
  ghost predicate Collects(c: Collection, groups: seq<string>, limit: nat, trace: Trace) {
    && c.expectedGroups == |groups| && c.processedGroups == |trace.walks|
    && c.pagesVisited == PagesOfWalks(trace.walks) <= MAX_SEARCH_PAGES * |groups|
    && c.records == Kept(trace) && |c.records| + c.duplicates == |trace.offered|
    && (c.enumerationComplete <==> |trace.walks| == |groups| && |Kept(trace)| < limit)
  }

  /** Enumerates the product groups in order until the cap is reached. */
  method CollectSearchRecords(respond: seq<Request> -> Reply, limit: nat, groups: seq<string>, keyword: string)
    returns (result: Result<Collection, ScrapeError>, ghost trace: Trace)
    requires limit >= 1
    ensures result.Failure? ==> Broke(respond, groups, keyword, limit, trace)
    ensures result.Success? ==>
              Enumerated(respond, groups, keyword, limit, trace) && Collects(result.value, groups, limit, trace)
    ensures result.Success? ==> UniqueIds(result.value.records) && UniqueUrls(result.value.records)
  {
    trace := UNTRACED;
    var collector := new Collector(respond, limit);
    var pagesVisited, processed, truncated := 0, 0, false;
    for g := 0 to |groups|
      invariant collector.Valid() && fresh(collector) && collector.limit == limit && collector.respond == respond
      invariant Walked(respond, groups, keyword, limit, trace)
      invariant trace.requests == collector.requests && trace.offered == collector.offered
      invariant processed == g == |trace.walks|
      invariant pagesVisited == PagesOfWalks(trace.walks) <= MAX_SEARCH_PAGES * g
      invariant truncated <==> |collector.records| >= limit
    {
      if |collector.records| >= limit {
        truncated := true;
        break;
      }
      var pages, next := collector.CollectGroup(groups, keyword, g, trace);
      trace := next;
      if pages.Failure? {
        return Failure(pages.error), trace;
      }
      pagesVisited := pagesVisited + pages.value;
      processed := processed + 1;
      if |collector.records| >= limit {
        truncated := true;
      }
    }
    collector.OfferedAgree();
    KeptUrlsAreUnique(collector.offered);
    return Success(Collection(collector.records[..Min(limit, |collector.records|)], pagesVisited, |groups|, processed,
                              collector.duplicates, !truncated && processed == |groups|)), trace;
  }
}
