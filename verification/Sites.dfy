/** Sites whose pages tell the truth, and what a walk over such pages shows. */
module Sites {
  import opened Wrappers
  import opened SearchPages
  import opened Collecting
  import opened Completeness

  /** What the site lists under each product group, and which records a keyword finds. */
  datatype Site = Site(listings: string -> seq<SearchRecord>, finds: (string, SearchRecord) -> bool)
  {
    /** A group lists a listing once, and the empty keyword finds everything. */
    ghost predicate Valid() {
      (forall group :: UniqueIds(listings(group))) && forall r :: finds("", r)
    }

    /** What a search shows, in the order of the site. */
    function Results(group: string, keyword: string): seq<SearchRecord> {
      Found(this, keyword, listings(group))
    }
  }

  function Found(site: Site, keyword: string, listed: seq<SearchRecord>): seq<SearchRecord> {
    if listed == [] then [] else
    var last := listed[|listed| - 1];
    Found(site, keyword, listed[..|listed| - 1]) + if site.finds(keyword, last) then [last] else []
  }

  lemma {:induction false} FoundIsFiltered(site: Site, keyword: string, listed: seq<SearchRecord>)
    ensures forall r :: r in Found(site, keyword, listed) <==> r in listed && site.finds(keyword, r)
    ensures UniqueIds(listed) ==> UniqueIds(Found(site, keyword, listed))
  {
    if listed == [] {
    } else {
      var init, last := listed[..|listed| - 1], listed[|listed| - 1];
      FoundIsFiltered(site, keyword, init);
      assert listed == init + [last];
      if UniqueIds(listed) {
        forall r | r in Found(site, keyword, init) ensures r.sourceId != last.sourceId {
          var i :| 0 <= i < |init| && init[i] == r;
          assert listed[i] == r;
        }
      }
    }
  }

  /** A search shows an item exactly when the group lists it under a record that the keyword finds. */
  lemma ResultsAreFound(site: Site, group: string, keyword: string)
    ensures IdSet(site.Results(group, keyword)) ==
              set r | r in site.listings(group) && site.finds(keyword, r) :: r.sourceId
    ensures site.Valid() ==> UniqueIds(site.Results(group, keyword))
    ensures site.Valid() ==> IdSet(site.Results(group, "")) == IdSet(site.listings(group))
  {
    FoundIsFiltered(site, keyword, site.listings(group));
    FoundIsFiltered(site, "", site.listings(group));
  }

  // ---------------------------------------------------------------- true pages

  /** A page with a range holds these records of the list and announces its length; a page without a range
      holds some records of the list. */
  ghost predicate TruePage(listed: seq<SearchRecord>, page: ResultsPage) {
    if page.pagination.Some? then
      var p := page.pagination.value;
      && 1 <= p.recordStart <= p.recordEnd <= |listed| == p.totalRecords
      && page.records == listed[p.recordStart - 1..p.recordEnd]
    else forall r | r in page.records :: r in listed
  }

  /** A first page without a range holds the whole list. */
  ghost predicate TrueFirstPage(listed: seq<SearchRecord>, page: ResultsPage) {
    TruePage(listed, page) && (page.pagination.None? ==> IdSet(page.records) == IdSet(listed))
  }

  ghost predicate TrueWalk(listed: seq<SearchRecord>, walk: seq<Visit>) {
    && walk != [] && TrueFirstPage(listed, walk[0].page)
    && forall i | 0 <= i < |walk| :: TruePage(listed, walk[i].page)
  }

  lemma {:induction false} IdSetSize(records: seq<SearchRecord>)
    requires UniqueIds(records)
    ensures |IdSet(records)| == |records|
  {
    if records == [] {
      assert IdSet(records) == {};
    } else {
      var init, last := records[..|records| - 1], records[|records| - 1];
      IdSetSize(init);
      assert records == init + [last];
      assert last.sourceId !in IdSet(init);
      assert IdSet(records) == IdSet(init) + {last.sourceId};
    }
  }

  lemma SubsetIsAllIff(a: set<string>, b: set<string>)
    requires a <= b
    ensures a == b <==> |a| == |b|
  {
    assert b == a + (b - a);
    assert |b| == |a| + |b - a|;
  }

  lemma {:induction false} WalkShowsListed(listed: seq<SearchRecord>, walk: seq<Visit>)
    requires forall i | 0 <= i < |walk| :: TruePage(listed, walk[i].page)
    ensures IdSet(RecordsOf(walk)) <= IdSet(listed)
  {
    if walk == [] {
    } else {
      var init, last := walk[..|walk| - 1], walk[|walk| - 1];
      WalkShowsListed(listed, init);
      RecordsOfNext(init, last);
      assert init + [last] == walk && TruePage(listed, last.page);
      assert forall r | r in last.page.records :: r in listed;
    }
  }

  lemma {:induction false} AnnouncesTruly(listed: seq<SearchRecord>, walk: seq<Visit>)
    requires forall i | 0 <= i < |walk| :: TruePage(listed, walk[i].page)
    ensures Announced(walk).Some? ==> Announced(walk).value == |listed|
  {
    if walk == [] {
    } else {
      assert TruePage(listed, walk[|walk| - 1].page);
      AnnouncesTruly(listed, walk[..|walk| - 1]);
    }
  }

  lemma LonePage(walk: seq<Visit>)
    requires GoodWalk(walk) && Finished(walk) && Announced(walk).None?
    ensures |walk| == 1 && !Paginated(walk[0]) && RecordsOf(walk) == walk[0].page.records
  {
    WalkYield(walk);
    assert walk == [] + [walk[0]];
    RecordsOfNext([], walk[0]);
  }

  /** A finished walk over true pages shows every listing exactly when it closes. */
  lemma WalkShowsAllIffItCloses(listed: seq<SearchRecord>, walk: seq<Visit>)
    requires UniqueIds(listed) && GoodWalk(walk) && Finished(walk) && TrueWalk(listed, walk)
    ensures IdSet(RecordsOf(walk)) <= IdSet(listed)
    ensures IdSet(RecordsOf(walk)) == IdSet(listed) <==> Closes(walk)
  {
    WalkShowsListed(listed, walk);
    AnnouncesTruly(listed, walk);
    FinishedWalkIsWholeIffItCloses(walk);
    if Announced(walk).Some? {
      WalkListsOnce(walk);
      IdSetSize(RecordsOf(walk));
      IdSetSize(listed);
      SubsetIsAllIff(IdSet(RecordsOf(walk)), IdSet(listed));
    } else {
      LonePage(walk);
    }
  }

  // ---------------------------------------------------------------- which listings a walk shows

  /** Some page has the position in its range, or shows the listing without a range. */
  ghost predicate Covers(listed: seq<SearchRecord>, walk: seq<Visit>, p: nat)
    requires p < |listed|
  {
    exists i | 0 <= i < |walk| ::
      if Paginated(walk[i]) then Range(walk[i]).recordStart <= p + 1 <= Range(walk[i]).recordEnd
      else listed[p].sourceId in IdSet(walk[i].page.records)
  }

  lemma {:induction false} PageOfListing(walk: seq<Visit>, sourceId: string)
    ensures sourceId in IdSet(RecordsOf(walk))
            <==> exists i | 0 <= i < |walk| :: sourceId in IdSet(walk[i].page.records)
  {
    if walk == [] {
    } else {
      var init, last := walk[..|walk| - 1], walk[|walk| - 1];
      PageOfListing(init, sourceId);
      RecordsOfNext(init, last);
      assert init + [last] == walk;
      assert sourceId in IdSet(RecordsOf(walk))
             <==> sourceId in IdSet(RecordsOf(init)) || sourceId in IdSet(last.page.records);
      if i :| 0 <= i < |init| && sourceId in IdSet(init[i].page.records) {
        assert walk[i] == init[i];
      }
      if i :| 0 <= i < |walk| && sourceId in IdSet(walk[i].page.records) {
        assert i < |init| ==> init[i] == walk[i];
      }
    }
  }

  lemma RangeShows(listed: seq<SearchRecord>, v: Visit, p: nat)
    requires UniqueIds(listed) && p < |listed| && TruePage(listed, v.page) && Paginated(v)
    ensures listed[p].sourceId in IdSet(v.page.records) <==> Range(v).recordStart <= p + 1 <= Range(v).recordEnd
  {
    var start, end := Range(v).recordStart - 1, Range(v).recordEnd;
    if start <= p < end {
      assert v.page.records[p - start] == listed[p];
    }
    if listed[p].sourceId in IdSet(v.page.records) {
      var q :| 0 <= q < |v.page.records| && v.page.records[q].sourceId == listed[p].sourceId;
      assert listed[start + q].sourceId == listed[p].sourceId;
    }
  }

  /** A walk over true pages shows exactly the listings that it covers. */
  lemma WalkShowsWhatItCovers(listed: seq<SearchRecord>, walk: seq<Visit>, p: nat)
    requires UniqueIds(listed) && p < |listed| && TrueWalk(listed, walk)
    ensures listed[p].sourceId in IdSet(RecordsOf(walk)) <==> Covers(listed, walk, p)
  {
    PageOfListing(walk, listed[p].sourceId);
    forall i | 0 <= i < |walk| && Paginated(walk[i])
      ensures listed[p].sourceId in IdSet(walk[i].page.records)
              <==> Range(walk[i]).recordStart <= p + 1 <= Range(walk[i]).recordEnd
    {
      assert TruePage(listed, walk[i].page);
      RangeShows(listed, walk[i], p);
    }
  }

  /** The walk covers the item's position in the list. */
  ghost predicate ShownBy(listed: seq<SearchRecord>, walk: seq<Visit>, sourceId: string) {
    exists p: nat | p < |listed| && listed[p].sourceId == sourceId :: Covers(listed, walk, p)
  }

  /** Without any condition on the walk: it shows an item exactly when it covers its position. */
  lemma WalkShowsIff(listed: seq<SearchRecord>, walk: seq<Visit>, sourceId: string)
    requires UniqueIds(listed) && GoodWalk(walk) && Finished(walk) && TrueWalk(listed, walk)
    ensures sourceId in IdSet(RecordsOf(walk)) <==> ShownBy(listed, walk, sourceId)
  {
    WalkShowsAllIffItCloses(listed, walk);
    forall p: nat | p < |listed| && listed[p].sourceId == sourceId
      ensures Covers(listed, walk, p) <==> sourceId in IdSet(RecordsOf(walk))
    {
      WalkShowsWhatItCovers(listed, walk, p);
    }
    if sourceId in IdSet(RecordsOf(walk)) {
      assert sourceId in IdSet(listed);
      var p: nat :| p < |listed| && listed[p].sourceId == sourceId;
    }
  }

  // ---------------------------------------------------------------- true servers

  /** The last search before, or at, the end of the requests. */
  function SearchOf(requests: seq<Request>): (search: Option<Request>)
    ensures search.Some? ==> search.value.SearchGroup?
  {
    if requests == [] then None
    else if requests[|requests| - 1].SearchGroup? then Some(requests[|requests| - 1])
    else SearchOf(requests[..|requests| - 1])
  }

  ghost predicate AnswersTruly(site: Site, requests: seq<Request>, reply: Reply) {
    var search := SearchOf(requests);
    search.Some? && reply.Fetched? && ParseSearchResults(reply.raw).Success? ==>
      var listed := site.Results(search.value.group, search.value.keyword);
      var page := ParseSearchResults(reply.raw).value;
      TruePage(listed, page) && (requests[|requests| - 1].SearchGroup? ==> TrueFirstPage(listed, page))
  }

  /** Whatever was requested before: an acceptable page belongs to the last search and tells the truth about it. */
  ghost predicate TrueServer(respond: seq<Request> -> Reply, site: Site) {
    forall requests :: AnswersTruly(site, requests, respond(requests))
  }

  lemma {:induction false} SearchStays(requests: seq<Request>, at: nat, n: nat)
    requires at + n < |requests| && requests[at].SearchGroup?
    requires forall j | at < j <= at + n :: requests[j].Get?
    ensures SearchOf(requests[..at + n + 1]) == Some(requests[at])
  {
    if n == 0 {
    } else {
      SearchStays(requests, at, n - 1);
      assert requests[..at + n + 1][..at + n] == requests[..at + n];
    }
  }

  /** After the search, a walk only follows links. */
  lemma LinksFollow(respond: seq<Request> -> Reply, requests: seq<Request>, at: nat, walk: seq<Visit>, i: nat)
    requires Served(respond, requests, at + 1, walk) && i < |walk|
    ensures at + i < |requests| && forall j | at < j <= at + i :: requests[j].Get?
  {
    assert ServedAt(respond, requests, at + 1, walk, i);
    forall j | at < j <= at + i ensures requests[j].Get? {
      assert ServedAt(respond, requests, at + 1, walk, j - at);
    }
  }

  /** Every walk over a true server shows true pages of its own search. */
  lemma WalkIsTrue(respond: seq<Request> -> Reply, site: Site, group: string, keyword: string, requests: seq<Request>,
                   at: nat, walk: seq<Visit>)
    requires TrueServer(respond, site) && walk != []
    requires GroupServed(respond, SearchGroup(group, keyword), requests, at, walk)
    ensures TrueWalk(site.Results(group, keyword), walk)
  {
    var listed := site.Results(group, keyword);
    forall i: nat | i < |walk|
      ensures TruePage(listed, walk[i].page) && (i == 0 ==> TrueFirstPage(listed, walk[i].page))
    {
      LinksFollow(respond, requests, at, walk, i);
      assert ServedAt(respond, requests, at + 1, walk, i);
      SearchStays(requests, at, i);
      assert AnswersTruly(site, requests[..at + i + 1], respond(requests[..at + i + 1]));
      assert requests[..at + 1][at] == requests[at];
    }
  }
}
