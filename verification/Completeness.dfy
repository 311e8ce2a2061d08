/** When a complete enumeration delivers everything that the site announces. */
module Completeness {
  import opened Wrappers
  import opened Records
  import opened SearchPages
  import opened Collecting

  // ---------------------------------------------------------------- every good walk can happen

  lemma {:induction false} NewOnEveryPage(walk: seq<Visit>, v: Visit)
    requires forall i | 0 <= i < |walk| :: NewListings(walk[i], v)
    ensures forall r | r in v.page.records :: r.sourceId !in IdSet(RecordsOf(walk))
  {
    if walk == [] {
      assert IdSet(RecordsOf(walk)) == {};
    } else {
      var init, last := walk[..|walk| - 1], walk[|walk| - 1];
      NewOnEveryPage(init, v);
      RecordsOfNext(init, last);
      assert init + [last] == walk && NewListings(last, v);
    }
  }

  /** The checks refuse no page of a good walk. */
  lemma GoodPagePasses(walk: seq<Visit>, v: Visit, raw: RawPage)
    requires GoodWalk(walk + [v]) && ParseSearchResults(raw) == Success(v.page)
    ensures !RefusesPage(walk, v.url, raw)
  {
    var all := walk + [v];
    assert all[|walk|] == v;
    forall i | 0 <= i < |walk| ensures Advances(walk[i], v) && NewListings(walk[i], v) {
      assert Advances(all[i], all[|walk|]);
    }
    NewOnEveryPage(walk, v);
  }

  /** The requests of a walk: the search, then the next link of each page. */
  function RequestsOf(search: Request, walk: seq<Visit>): (requests: seq<Request>)
    requires forall i | 0 <= i < |walk| - 1 :: Continues(walk[i].page)
    ensures |requests| == |walk|
  {
    seq(|walk|, i requires 0 <= i < |walk| => if i == 0 then search else Get(NextUrl(walk[i - 1].page)))
  }

  /** A server that answers the n-th request with page n. */
  function Answering(walk: seq<Visit>, raws: seq<RawPage>): seq<Request> -> Reply {
    (requests: seq<Request>) =>
      var n := |requests|;
      if 1 <= n <= |walk| && n <= |raws| then Fetched(walk[n - 1].url, raws[n - 1]) else NoReply
  }

  ghost predicate Parses(raws: seq<RawPage>, walk: seq<Visit>) {
    |raws| == |walk| && forall i | 0 <= i < |walk| :: ParseSearchResults(raws[i]) == Success(walk[i].page)
  }

  lemma {:induction false} NothingDropped(offered: seq<SearchRecord>)
    requires UniqueIds(offered)
    ensures FirstOccurrences(offered) == offered
  {
    if offered == [] {
    } else {
      var init := offered[..|offered| - 1];
      NothingDropped(init);
      assert offered == init + [offered[|offered| - 1]];
    }
  }

  /** A good walk lists nothing twice. */
  lemma {:induction false} WalkListsOnce(walk: seq<Visit>)
    requires GoodWalk(walk)
    ensures UniqueIds(RecordsOf(walk))
  {
    if walk == [] {
    } else {
      var init, last := walk[..|walk| - 1], walk[|walk| - 1];
      LastPage(walk);
      WalkListsOnce(init);
      forall i | 0 <= i < |init| ensures NewListings(init[i], last) {
        assert Advances(walk[i], walk[|init|]);
      }
      NewOnEveryPage(init, last);
    }
  }

  lemma OneWalkOffered(walk: seq<Visit>)
    requires Finished(walk)
    ensures OffersWalks([walk], RecordsOf(walk), false) && PagesOfWalks([walk]) == |walk|
  {
    WalksNext([], walk);
    assert [] + [walk] == [walk];
    RecordsOfNext(walk[..|walk| - 1], walk[|walk| - 1]);
    OffersWalksNext([], walk, [], RecordsOf(walk), false);
  }

  /** A finished walk of fewer listings than the cap that a server serves is the whole of a complete enumeration. */
  lemma OneGroupIsEnumerated(respond: seq<Request> -> Reply, group: string, keyword: string, limit: nat,
                             walk: seq<Visit>)
    returns (trace: Trace)
    requires Finished(walk) && forall i | 0 <= i < |walk| - 1 :: Continues(walk[i].page)
    requires GroupServed(respond, SearchGroup(group, keyword), RequestsOf(SearchGroup(group, keyword), walk), 0, walk)
    requires |RecordsOf(walk)| < limit && Agree(RecordsOf(walk))
    ensures trace == Trace(RequestsOf(SearchGroup(group, keyword), walk), [walk], [], RecordsOf(walk))
    ensures Enumerated(respond, [group], keyword, limit, trace) && Kept(trace) == RecordsOf(walk)
  {
    trace := Trace(RequestsOf(SearchGroup(group, keyword), walk), [walk], [], RecordsOf(walk));
    WalkListsOnce(walk);
    NothingDropped(RecordsOf(walk));
    OneWalkOffered(walk);
    assert trace.walks[..0] == [];
    assert WalkServed(respond, [group], keyword, trace.requests, trace.walks, 0);
  }

  lemma AnswersServe(search: Request, walk: seq<Visit>, raws: seq<RawPage>)
    requires GoodWalk(walk) && Finished(walk) && Parses(raws, walk)
    requires forall i | 0 <= i < |walk| - 1 :: Continues(walk[i].page)
    ensures GroupServed(Answering(walk, raws), search, RequestsOf(search, walk), 0, walk)
  {
    forall i: nat | i < |walk| ensures ServedAt(Answering(walk, raws), RequestsOf(search, walk), 1, walk, i) {
    }
  }

  /** Every finished good walk of fewer listings than the cap is the whole of a complete enumeration, for some
      server. */
  lemma FinishedWalkHappens(group: string, keyword: string, limit: nat, walk: seq<Visit>,
                            raws: seq<RawPage>) returns (trace: Trace)
    requires GoodWalk(walk) && Finished(walk) && Parses(raws, walk)
    requires |RecordsOf(walk)| < limit && Agree(RecordsOf(walk))
    ensures Enumerated(Answering(walk, raws), [group], keyword, limit, trace)
    ensures trace.walks == [walk] && trace.offered == RecordsOf(walk) && |Kept(trace)| < limit
  {
    forall i | 0 <= i < |walk| - 1 ensures Continues(walk[i].page) {
    }
    AnswersServe(SearchGroup(group, keyword), walk, raws);
    trace := OneGroupIsEnumerated(Answering(walk, raws), group, keyword, limit, walk);
  }

  // ---------------------------------------------------------------- what a complete run delivers

  /** What the walk's last range announces; a walk without ranges announces what it shows. */
  function Expected(walk: seq<Visit>): nat {
    if Announced(walk).Some? then Announced(walk).value else |RecordsOf(walk)|
  }

  /** The positions the walk lost: skipped by its ranges, or left after the last one and not made up for. */
  function Lost(walk: seq<Visit>): int
    requires walk != []
  {
    if Announced(walk).Some? then Gaps(walk) + Announced(walk).value - EndOf(walk) - Unranged(walk) else 0
  }

  lemma WalkLoses(walk: seq<Visit>)
    requires GoodWalk(walk) && Finished(walk)
    ensures |RecordsOf(walk)| + Lost(walk) == Expected(walk)
    ensures Whole(walk) <==> Lost(walk) == 0
    ensures Whole(walk) <==> Closes(walk)
  {
    WalkYield(walk);
    FinishedWalkIsWholeIffItCloses(walk);
  }

  function ExpectedOf(walks: seq<seq<Visit>>): nat {
    if walks == [] then 0 else ExpectedOf(walks[..|walks| - 1]) + Expected(walks[|walks| - 1])
  }

  function LostBy(walks: seq<seq<Visit>>): int
    requires forall g | 0 <= g < |walks| :: walks[g] != []
  {
    if walks == [] then 0 else LostBy(walks[..|walks| - 1]) + Lost(walks[|walks| - 1])
  }

  lemma {:induction false} WalksLose(walks: seq<seq<Visit>>)
    requires AllFinished(walks) && forall g | 0 <= g < |walks| :: GoodWalk(walks[g])
    ensures |RecordsOfWalks(walks)| + LostBy(walks) == ExpectedOf(walks)
  {
    if walks == [] {
    } else {
      WalksLose(walks[..|walks| - 1]);
      WalkLoses(walks[|walks| - 1]);
    }
  }

  /** A complete enumeration. The records it returns, the duplicates it counted and the positions its walks
      lost add up to what the product groups announced; every group delivers what it announced exactly when
      every walk closes. */
  lemma CompleteRunIsWholeIffWalksClose(respond: seq<Request> -> Reply, groups: seq<string>, keyword: string,
                                        limit: nat, trace: Trace, c: Collection)
    requires Enumerated(respond, groups, keyword, limit, trace)
    requires Collects(c, groups, limit, trace) && c.enumerationComplete
    ensures AllFinished(trace.walks) && trace.offered == RecordsOfWalks(trace.walks)
    ensures |c.records| + c.duplicates + LostBy(trace.walks) == ExpectedOf(trace.walks)
    ensures (forall g | 0 <= g < |groups| :: Whole(trace.walks[g]))
            <==> (forall g | 0 <= g < |groups| :: Closes(trace.walks[g]))
  {
    AllOffered(trace.walks, trace.offered);
    forall g | 0 <= g < |groups| ensures GoodWalk(trace.walks[g])
           && (Whole(trace.walks[g]) <==> Closes(trace.walks[g])) {
      assert WalkServed(respond, groups, keyword, trace.requests, trace.walks, g);
      assert Finished(trace.walks[g]);
      WalkLoses(trace.walks[g]);
    }
    WalksLose(trace.walks);
  }

  // ---------------------------------------------------------------- two walks that do not close

  function Listing(id: string): SearchRecord {
    SearchRecord(id, CanonicalUrl(id), "", None, None, None, None, None, Open)
  }

  const FIRST_OF_THREE := Pagination(1, 1, 1, 3, Some(NextLink("2", Some(2))))
  const THIRD_OF_THREE := Pagination(3, 3, 3, 3, None)

  /** The first page is followed by one that starts at the third record. */
  const SKIPPING_WALK: seq<Visit> := [
    Visit("1", ResultsPage([Listing("A1")], Some(FIRST_OF_THREE))),
    Visit("2", ResultsPage([Listing("A3")], Some(THIRD_OF_THREE)))]

  const SKIPPING_PAGES: seq<RawPage> := [
    Rows([Listing("A1")], Some(FIRST_OF_THREE), true), Rows([Listing("A3")], Some(THIRD_OF_THREE), true)]

  /** The first page is followed by the empty-results page. */
  const CUT_WALK: seq<Visit> := [
    Visit("1", ResultsPage([Listing("A1")], Some(FIRST_OF_THREE))),
    Visit("2", ResultsPage([], None))]

  const CUT_PAGES: seq<RawPage> := [Rows([Listing("A1")], Some(FIRST_OF_THREE), true), EmptyResults]

  lemma RecordsOfTwo(first: Visit, second: Visit)
    ensures RecordsOf([first, second]) == first.page.records + second.page.records
  {
    RecordsOfNext([], first);
    assert [] + [first] == [first];
    RecordsOfNext([first], second);
    assert [first] + [second] == [first, second];
  }

  lemma TwoPages(first: Visit, second: Visit)
    requires PageOk(first.page) && PageOk(second.page) && Continues(first.page) && Advances(first, second)
    ensures GoodWalk([first, second])
    ensures RecordsOf([first, second]) == first.page.records + second.page.records
  {
    RecordsOfTwo(first, second);
    assert [] + [first] == [first];
    GoodWalkNext([], first);
    assert [first] + [second] == [first, second];
    GoodWalkNext([first], second);
  }

  lemma PagesPass(walk: seq<Visit>, raws: seq<RawPage>)
    requires |walk| == 2 && GoodWalk(walk) && Parses(raws, walk)
    ensures !RefusesPage([], walk[0].url, raws[0]) && !RefusesPage(walk[..1], walk[1].url, raws[1])
  {
    PrefixIsGood(walk, 1);
    assert walk[..1] + [walk[1]] == walk && [] + [walk[0]] == walk[..1];
    GoodPagePasses(walk[..1], walk[1], raws[1]);
    GoodPagePasses([], walk[0], raws[0]);
  }

  /** A walk may finish, pass every check and still miss a record, or all that its first page promised. */
  lemma WalkMaySkip()
    ensures GoodWalk(SKIPPING_WALK) && Finished(SKIPPING_WALK) && Parses(SKIPPING_PAGES, SKIPPING_WALK)
    ensures !RefusesPage([], "1", SKIPPING_PAGES[0]) && !RefusesPage(SKIPPING_WALK[..1], "2", SKIPPING_PAGES[1])
    ensures RecordsOf(SKIPPING_WALK) == [Listing("A1"), Listing("A3")] && Announced(SKIPPING_WALK) == Some(3)
  {
    assert "A1"[1] != "A3"[1] && "1"[0] != "2"[0];
    TwoPages(SKIPPING_WALK[0], SKIPPING_WALK[1]);
    PagesPass(SKIPPING_WALK, SKIPPING_PAGES);
  }

  lemma WalkMayBeCut()
    ensures GoodWalk(CUT_WALK) && Finished(CUT_WALK) && Parses(CUT_PAGES, CUT_WALK)
    ensures !RefusesPage([], "1", CUT_PAGES[0]) && !RefusesPage(CUT_WALK[..1], "2", CUT_PAGES[1])
    ensures RecordsOf(CUT_WALK) == [Listing("A1")] && Announced(CUT_WALK) == Some(3)
  {
    assert "1"[0] != "2"[0];
    TwoPages(CUT_WALK[0], CUT_WALK[1]);
    PagesPass(CUT_WALK, CUT_PAGES);
    assert CUT_WALK[..1][|CUT_WALK[..1]| - 1] == CUT_WALK[0];
  }

  /** A skipping walk, or a cut one, may be the whole of an enumeration that counts as complete. */
  lemma SkippingRunIsComplete() returns (trace: Trace)
    ensures Enumerated(Answering(SKIPPING_WALK, SKIPPING_PAGES), ["G"], "", 20, trace)
    ensures trace.walks == [SKIPPING_WALK] && |Kept(trace)| < 20 && !Whole(SKIPPING_WALK)
  {
    WalkMaySkip();
    assert "A1"[1] != "A3"[1];
    CanonicalUrlIsInjective("A1", "A3");
    trace := FinishedWalkHappens("G", "", 20, SKIPPING_WALK, SKIPPING_PAGES);
  }

  lemma CutRunIsComplete() returns (trace: Trace)
    ensures Enumerated(Answering(CUT_WALK, CUT_PAGES), ["G"], "", 20, trace)
    ensures trace.walks == [CUT_WALK] && |Kept(trace)| < 20 && !Whole(CUT_WALK)
  {
    WalkMayBeCut();
    trace := FinishedWalkHappens("G", "", 20, CUT_WALK, CUT_PAGES);
  }
}
