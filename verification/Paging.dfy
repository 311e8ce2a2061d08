/** A site that cuts its results into pages: a true server over which every walk closes. */
module Paging {
  import opened Wrappers
  import opened SearchPages
  import opened Collecting
  import opened Completeness
  import opened Sites

  /** How many page links were followed since the last search. */
  function LinksSince(requests: seq<Request>): nat {
    if requests == [] || requests[|requests| - 1].SearchGroup? then 0 else LinksSince(requests[..|requests| - 1]) + 1
  }

  /** How many records come before page number `n`, counted from 0. */
  function Before(size: nat, n: nat): nat {
    if n == 0 then 0 else Before(size, n - 1) + size
  }

  function PageName(n: nat): string {
    seq(n, _ => 'p')
  }

  /** Page number `n`: the next `size` records, as far as there are any. */
  function PageAt(listed: seq<SearchRecord>, size: nat, n: nat): RawPage {
    var start := Before(size, n);
    if |listed| <= start then if n == 0 then EmptyResults else NotAResultsPage else
    var end := Min(start + size, |listed|);
    Rows(listed[start..end],
         Some(Pagination(n + 1, start + 1, end, |listed|,
                         if end == |listed| then None else Some(NextLink(PageName(n + 1), Some(n + 2))))), true)
  }

  function Pager(site: Site, size: nat): seq<Request> -> Reply {
    (requests: seq<Request>) =>
      var search, n := SearchOf(requests), LinksSince(requests);
      if search.None? then NoReply
      else Fetched(PageName(n), PageAt(site.Results(search.value.group, search.value.keyword), size, n))
  }

  /** A page with a range names the records after those of the pages before it, and is full if a page follows. */
  lemma PageAtIsTrue(listed: seq<SearchRecord>, size: nat, n: nat, page: ResultsPage)
    requires ParseSearchResults(PageAt(listed, size, n)) == Success(page)
    ensures TruePage(listed, page) && (n == 0 ==> TrueFirstPage(listed, page))
    ensures page.pagination.Some? ==> page.pagination.value.recordStart == Before(size, n) + 1
    ensures page.pagination.None? ==> n == 0
    ensures Continues(page) ==> page.pagination.value.recordEnd == Before(size, n) + size
  {
    ParserIsExact(PageAt(listed, size, n));
  }

  lemma PagerIsTrue(site: Site, size: nat)
    ensures TrueServer(Pager(site, size), site)
  {
    forall requests ensures AnswersTruly(site, requests, Pager(site, size)(requests)) {
      var search, reply := SearchOf(requests), Pager(site, size)(requests);
      if search.Some? && ParseSearchResults(reply.raw).Success? {
        PageAtIsTrue(site.Results(search.value.group, search.value.keyword), size, LinksSince(requests),
                     ParseSearchResults(reply.raw).value);
      }
    }
  }

  lemma {:induction false} LinksCount(requests: seq<Request>, at: nat, n: nat)
    requires at + n < |requests| && requests[at].SearchGroup?
    requires forall j | at < j <= at + n :: requests[j].Get?
    ensures LinksSince(requests[..at + n + 1]) == n
  {
    if n == 0 {
    } else {
      LinksCount(requests, at, n - 1);
      assert requests[..at + n + 1][..at + n] == requests[..at + n];
    }
  }

  lemma PagerAnswers(site: Site, size: nat, requests: seq<Request>, search: Request, n: nat)
    requires SearchOf(requests) == Some(search) && LinksSince(requests) == n
    ensures Pager(site, size)(requests) ==
              Fetched(PageName(n), PageAt(site.Results(search.group, search.keyword), size, n))
  {
  }

  /** Page `i` of a walk is page `i` of the results. */
  lemma PagerServes(site: Site, size: nat, group: string, keyword: string, requests: seq<Request>, at: nat,
                    walk: seq<Visit>, i: nat)
    requires GroupServed(Pager(site, size), SearchGroup(group, keyword), requests, at, walk) && i < |walk|
    ensures ParseSearchResults(PageAt(site.Results(group, keyword), size, i)) == Success(walk[i].page)
  {
    LinksFollow(Pager(site, size), requests, at, walk, i);
    SearchStays(requests, at, i);
    LinksCount(requests, at, i);
    PagerAnswers(site, size, requests[..at + i + 1], SearchGroup(group, keyword), i);
    assert ServedAt(Pager(site, size), requests, at + 1, walk, i);
  }

  /** Every walk over such a site closes: its ranges adjoin. */
  lemma PagedWalkCloses(site: Site, size: nat, group: string, keyword: string, requests: seq<Request>, at: nat,
                        walk: seq<Visit>)
    requires GroupServed(Pager(site, size), SearchGroup(group, keyword), requests, at, walk) && walk != []
    ensures Closes(walk)
  {
    var listed := site.Results(group, keyword);
    forall i: nat | i < |walk| && Paginated(walk[i]) ensures Range(walk[i]).recordStart == EndOf(walk[..i]) + 1 {
      PagerServes(site, size, group, keyword, requests, at, walk, i);
      PageAtIsTrue(listed, size, i, walk[i].page);
      if i > 0 {
        PagerServes(site, size, group, keyword, requests, at, walk, i - 1);
        PageAtIsTrue(listed, size, i - 1, walk[i - 1].page);
        assert Continues(walk[i - 1].page);
        assert walk[..i][|walk[..i]| - 1] == walk[i - 1];
      }
    }
    var last := |walk| - 1;
    PagerServes(site, size, group, keyword, requests, at, walk, last);
    PageAtIsTrue(listed, size, last, walk[last].page);
  }

  // ---------------------------------------------------------------- every such site can be enumerated

  function PageOf(listed: seq<SearchRecord>, size: nat, n: nat): ResultsPage
    requires Before(size, n) < |listed|
  {
    ResultsPage(PageAt(listed, size, n).records, PageAt(listed, size, n).pagination)
  }

  /** The first `count` pages. */
  function PagedWalk(listed: seq<SearchRecord>, size: nat, count: nat): (walk: seq<Visit>)
    requires forall n | 0 <= n < count :: Before(size, n) < |listed|
    ensures |walk| == count && forall n: nat | n < count :: walk[n] == Visit(PageName(n), PageOf(listed, size, n))
  {
    seq(count, n requires 0 <= n < count => Visit(PageName(n), PageOf(listed, size, n)))
  }

  lemma {:induction false} PagesAreInOrder(size: nat, i: nat, j: nat)
    requires i < j
    ensures Before(size, i) + size <= Before(size, j)
  {
    if j == i + 1 {
    } else {
      PagesAreInOrder(size, i, j - 1);
    }
  }

  lemma PageIsOk(listed: seq<SearchRecord>, size: nat, n: nat)
    requires UniqueIds(listed) && 0 < size && Before(size, n) < |listed|
    ensures ParseSearchResults(PageAt(listed, size, n)) == Success(PageOf(listed, size, n))
    ensures PageOk(PageOf(listed, size, n))
    ensures Continues(PageOf(listed, size, n)) <==> Before(size, n + 1) < |listed|
  {
    ParserIsExact(PageAt(listed, size, n));
  }

  lemma SlicesDiffer(listed: seq<SearchRecord>, a: seq<SearchRecord>, b: seq<SearchRecord>, i: nat, j: nat)
    requires UniqueIds(listed) && i + |a| <= j && j + |b| <= |listed|
    requires a == listed[i..i + |a|] && b == listed[j..j + |b|]
    ensures forall r, s | r in a && s in b :: r.sourceId != s.sourceId
  {
    forall r, s | r in a && s in b ensures r.sourceId != s.sourceId {
      var p: nat :| p < |a| && a[p] == r;
      var q: nat :| q < |b| && b[q] == s;
      assert listed[i + p] == r && listed[j + q] == s;
    }
  }

  lemma NamesDiffer(i: nat, j: nat)
    requires i != j
    ensures PageName(i) != PageName(j)
  {
    assert |PageName(i)| == i && |PageName(j)| == j;
  }

  /** What page number `n` holds. */
  lemma PageHolds(listed: seq<SearchRecord>, size: nat, n: nat)
    requires 0 < size && Before(size, n) < |listed|
    ensures var page, start := PageOf(listed, size, n), Before(size, n);
            && 1 <= |page.records| <= size && start + |page.records| <= |listed|
            && page.records == listed[start..start + |page.records|]
            && page.pagination.Some? && page.pagination.value.currentPage == n + 1
            && page.pagination.value.recordStart == start + 1
            && page.pagination.value.recordEnd == start + |page.records|
  {
  }

  lemma LaterPageAdvancesBy(listed: seq<SearchRecord>, size: nat, i: nat, j: nat)
    requires UniqueIds(listed) && 0 < size && i < j && Before(size, i) < |listed| && Before(size, j) < |listed|
    ensures Advances(Visit(PageName(i), PageOf(listed, size, i)), Visit(PageName(j), PageOf(listed, size, j)))
  {
    PagesAreInOrder(size, i, j);
    NamesDiffer(i, j);
    PageHolds(listed, size, i);
    PageHolds(listed, size, j);
    SlicesDiffer(listed, PageOf(listed, size, i).records, PageOf(listed, size, j).records, Before(size, i),
                 Before(size, j));
  }

  lemma {:induction false} PagedRecords(listed: seq<SearchRecord>, size: nat, count: nat)
    requires forall n: nat | n < count :: Before(size, n) < |listed|
    ensures RecordsOf(PagedWalk(listed, size, count)) == listed[..Min(Before(size, count), |listed|)]
  {
    if count == 0 {
    } else {
      PagedRecords(listed, size, count - 1);
      var walk := PagedWalk(listed, size, count);
      assert walk[..count - 1] == PagedWalk(listed, size, count - 1);
      }
  }

  lemma PagedWalkIsGood(listed: seq<SearchRecord>, size: nat, count: nat)
    requires UniqueIds(listed) && 0 < size && count <= MAX_SEARCH_PAGES
    requires forall n: nat | n < count :: Before(size, n) < |listed|
    ensures GoodWalk(PagedWalk(listed, size, count))
  {
    var walk := PagedWalk(listed, size, count);
    forall i: nat | i < count ensures PageOk(walk[i].page) && (i < count - 1 ==> Continues(walk[i].page)) {
      PageIsOk(listed, size, i);
    }
    forall i: nat, j: nat | i < j < count ensures Advances(walk[i], walk[j]) {
      LaterPageAdvancesBy(listed, size, i, j);
    }
  }

  function PagesNeeded(n: nat, size: nat): (count: nat)
    requires 0 < size && 0 < n
    ensures 0 < count && Before(size, count - 1) < n <= Before(size, count)
  {
    if n <= size then 1 else
    var count := PagesNeeded(n - size, size);
    count + 1
  }

  lemma EarlierPagesExist(n: nat, size: nat, count: nat)
    requires 0 < count && Before(size, count - 1) < n
    ensures forall i: nat | i < count :: Before(size, i) < n
    ensures forall i: nat | n <= Before(size, i) :: count <= i
  {
    forall i: nat | i < count ensures Before(size, i) < n {
      if i < count - 1 {
        PagesAreInOrder(size, i, count - 1);
      }
    }
  }

  /** The pages of the results, up to the last one. */
  function WholeWalk(listed: seq<SearchRecord>, size: nat): seq<Visit>
    requires 0 < size
  {
    if listed == [] then [Visit(PageName(0), ResultsPage([], None))] else
    var count := PagesNeeded(|listed|, size);
    EarlierPagesExist(|listed|, size, count);
    PagedWalk(listed, size, count)
  }

  /** The walk shows these pages, in order. */
  ghost predicate ShowsPages(listed: seq<SearchRecord>, size: nat, walk: seq<Visit>) {
    forall i: nat | i < |walk| ::
      && walk[i].url == PageName(i) && ParseSearchResults(PageAt(listed, size, i)) == Success(walk[i].page)
      && (i < |walk| - 1 ==> Continues(walk[i].page))
  }

  lemma PagedWalkShowsPages(listed: seq<SearchRecord>, size: nat, count: nat)
    requires UniqueIds(listed) && 0 < size && 0 < count && Before(size, count - 1) < |listed| <= Before(size, count)
    requires forall n: nat | n < count :: Before(size, n) < |listed|
    ensures ShowsPages(listed, size, PagedWalk(listed, size, count)) && Finished(PagedWalk(listed, size, count))
  {
    forall i: nat | i < count
      ensures ParseSearchResults(PageAt(listed, size, i)) == Success(PageOf(listed, size, i))
      ensures Continues(PageOf(listed, size, i)) <==> i < count - 1
    {
      PageIsOk(listed, size, i);
    }
  }

  lemma WholeWalkIsGood(listed: seq<SearchRecord>, size: nat)
    requires UniqueIds(listed) && 0 < size && |listed| <= Before(size, MAX_SEARCH_PAGES)
    ensures var walk := WholeWalk(listed, size);
            GoodWalk(walk) && Finished(walk) && RecordsOf(walk) == listed && ShowsPages(listed, size, walk)
  {
    if listed == [] {
      var walk := WholeWalk(listed, size);
      RecordsOfNext([], walk[0]);
      assert [] + [walk[0]] == walk;
    } else {
      var count := PagesNeeded(|listed|, size);
      EarlierPagesExist(|listed|, size, count);
      PagedWalkIsGood(listed, size, count);
      PagedRecords(listed, size, count);
      PagedWalkShowsPages(listed, size, count);
    }
  }

  lemma PagesAreServed(site: Site, size: nat, search: Request, requests: seq<Request>, at: nat, walk: seq<Visit>,
                       i: nat)
    requires search.SearchGroup? && i < |walk| && |requests| == at + |walk| && requests[at] == search
    requires forall j | at < j < |requests| :: requests[j].Get?
    requires ShowsPages(site.Results(search.group, search.keyword), size, walk)
    ensures IsPage(Pager(site, size)(requests[..at + 1 + i]), walk[i])
  {
    SearchStays(requests, at, i);
    LinksCount(requests, at, i);
    assert at + i + 1 == at + 1 + i;
    PagerAnswers(site, size, requests[..at + 1 + i], search, i);
  }

  ghost predicate AnswersWalk(respond: seq<Request> -> Reply, requests: seq<Request>, start: nat, walk: seq<Visit>) {
    && |requests| + 1 == start + |walk|
    && forall i: nat | i < |walk| :: IsPage(respond(requests[..start + i]), walk[i])
  }

  /** The server answers the last requests, those of the walk, with its pages. */
  lemma AnsweredWalkIsServed(respond: seq<Request> -> Reply, requests: seq<Request>, at: nat, start: nat,
                             search: Request, walk: seq<Visit>)
    requires GoodWalk(walk) && walk != [] && forall i | 0 <= i < |walk| - 1 :: Continues(walk[i].page)
    requires start == at + 1 <= |requests| && requests[at..] == RequestsOf(search, walk)
    requires AnswersWalk(respond, requests, start, walk)
    ensures GroupServed(respond, search, requests, at, walk)
  {
    forall i: nat | i < |walk| ensures ServedAt(respond, requests, start, walk, i) {
      assert requests[at + i] == RequestsOf(search, walk)[i];
    }
    assert requests[at] == RequestsOf(search, walk)[0];
  }

  lemma LastRequests(requests: seq<Request>, at: nat, search: Request, walk: seq<Visit>)
    requires walk != [] && forall i | 0 <= i < |walk| - 1 :: Continues(walk[i].page)
    requires at <= |requests| && requests[at..] == RequestsOf(search, walk)
    ensures |requests| == at + |walk| && requests[at] == search && forall j | at < j < |requests| :: requests[j].Get?
  {
    forall j | at <= j < |requests| ensures requests[j] == RequestsOf(search, walk)[j - at] {
    }
  }

  lemma AllPagesAreServed(site: Site, size: nat, search: Request, requests: seq<Request>, at: nat, start: nat,
                          walk: seq<Visit>, respond: seq<Request> -> Reply)
    requires search.SearchGroup? && walk != [] && |requests| == at + |walk| && requests[at] == search
    requires start == at + 1
    requires forall j | at < j < |requests| :: requests[j].Get?
    requires ShowsPages(site.Results(search.group, search.keyword), size, walk) && respond == Pager(site, size)
    ensures AnswersWalk(respond, requests, start, walk)
  {
    forall i: nat | i < |walk| ensures IsPage(respond(requests[..start + i]), walk[i]) {
      PagesAreServed(site, size, search, requests, at, walk, i);
    }
  }

  lemma WholeWalkIsServed(site: Site, size: nat, requests: seq<Request>, at: nat, search: Request, walk: seq<Visit>,
                          respond: seq<Request> -> Reply)
    requires search.SearchGroup? && GoodWalk(walk) && walk != []
    requires ShowsPages(site.Results(search.group, search.keyword), size, walk) && respond == Pager(site, size)
    requires forall i | 0 <= i < |walk| - 1 :: Continues(walk[i].page)
    requires at <= |requests| && requests[at..] == RequestsOf(search, walk)
    ensures GroupServed(respond, search, requests, at, walk)
  {
    LastRequests(requests, at, search, walk);
    AllPagesAreServed(site, size, search, requests, at, at + 1, walk, respond);
    AnsweredWalkIsServed(respond, requests, at, at + 1, search, walk);
  }

  /** What the searches of the groups show, one after the other. */
  function ResultsOfAll(site: Site, groups: seq<string>, keyword: string): seq<SearchRecord> {
    if groups == [] then []
    else ResultsOfAll(site, groups[..|groups| - 1], keyword) + site.Results(groups[|groups| - 1], keyword)
  }

  /** The walks over some groups can all be finished, one after the other. */
  ghost predicate WalkedThrough(site: Site, size: nat, groups: seq<string>, keyword: string, n: nat,
                                requests: seq<Request>, walks: seq<seq<Visit>>)
    requires n <= |groups|
  {
    && |walks| == n && AllFinished(walks) && |requests| == PagesOfWalks(walks)
    && AllServed(Pager(site, size), groups, keyword, requests, walks)
    && RecordsOfWalks(walks) == ResultsOfAll(site, groups[..n], keyword)
  }

  lemma OneMoreGroup(site: Site, size: nat, groups: seq<string>, keyword: string, n: nat,
                     requests: seq<Request>, walks: seq<seq<Visit>>)
    returns (more: seq<Request>, walk: seq<Visit>)
    requires site.Valid() && 0 < size && n < |groups|
    requires |site.Results(groups[n], keyword)| <= Before(size, MAX_SEARCH_PAGES)
    requires WalkedThrough(site, size, groups, keyword, n, requests, walks)
    ensures WalkedThrough(site, size, groups, keyword, n + 1, more, walks + [walk])
  {
    var search := SearchGroup(groups[n], keyword);
    walk := WholeWalk(site.Results(groups[n], keyword), size);
    ResultsAreFound(site, groups[n], keyword);
    WholeWalkIsGood(site.Results(groups[n], keyword), size);
    forall i | 0 <= i < |walk| - 1 ensures Continues(walk[i].page) {
    }
    more := requests + RequestsOf(search, walk);
    assert more[|requests|..] == RequestsOf(search, walk);
    WholeWalkIsServed(site, size, more, |requests|, search, walk, Pager(site, size));
    AllServedStays(Pager(site, size), groups, keyword, requests, more, walks);
    AllServedNext(Pager(site, size), groups, keyword, more, walks, walk);
    WalksNext(walks, walk);
    assert groups[..n + 1][..n] == groups[..n];
  }

  lemma {:induction false} GroupsAreWalked(site: Site, size: nat, groups: seq<string>, keyword: string, n: nat)
    returns (requests: seq<Request>, walks: seq<seq<Visit>>)
    requires site.Valid() && 0 < size && n <= |groups|
    requires forall g | 0 <= g < |groups| :: |site.Results(groups[g], keyword)| <= Before(size, MAX_SEARCH_PAGES)
    ensures WalkedThrough(site, size, groups, keyword, n, requests, walks)
  {
    if n == 0 {
      requests, walks := [], [];
    } else {
      var earlier, before := GroupsAreWalked(site, size, groups, keyword, n - 1);
      var more, walk := OneMoreGroup(site, size, groups, keyword, n - 1, earlier, before);
      requests, walks := more, before + [walk];
    }
  }

  lemma FinishedWalksAreOffered(walks: seq<seq<Visit>>)
    requires AllFinished(walks)
    ensures OffersWalks(walks, RecordsOfWalks(walks), false)
  {
    if walks != [] {
      var walk := walks[|walks| - 1];
      assert Finished(walk);
      RecordsOfNext(walk[..|walk| - 1], walk[|walk| - 1]);
      assert walk[..|walk| - 1] + [walk[|walk| - 1]] == walk;
    }
  }

  /** Whatever the page size and the groups: results of at most 100 pages to a group, below the cap and with one
      URL to a listing, are enumerated completely, and the first record of every listing is kept. */
  lemma PagedSiteIsEnumerated(site: Site, size: nat, groups: seq<string>, keyword: string, limit: nat)
    returns (trace: Trace)
    requires site.Valid() && 0 < size
    requires forall g | 0 <= g < |groups| :: |site.Results(groups[g], keyword)| <= Before(size, 100)
    requires var all := ResultsOfAll(site, groups, keyword); |FirstOccurrences(all)| < limit && Agree(all)
    ensures Enumerated(Pager(site, size), groups, keyword, limit, trace) && |trace.walks| == |groups|
    ensures trace.offered == ResultsOfAll(site, groups, keyword)
    ensures Kept(trace) == FirstOccurrences(ResultsOfAll(site, groups, keyword))
  {
    var requests, walks := GroupsAreWalked(site, size, groups, keyword, |groups|);
    assert groups[..|groups|] == groups;
    FinishedWalksAreOffered(walks);
    trace := Trace(requests, walks, [], RecordsOfWalks(walks));
  }
}
