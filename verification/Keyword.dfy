/** Search keywords, skipped pages and the inventory: which listed items a complete run ages. */
module Keyword {
  import opened Wrappers
  import opened Records
  import opened Store
  import opened Integrity
  import opened History
  import opened Calls
  import opened SearchPages
  import opened Collecting
  import opened Completeness
  import opened Sites
  import opened Paging
  import opened ScrapeCommand

  /** Some group lists the item. */
  ghost predicate Offers(site: Site, groups: seq<string>, sourceId: string) {
    exists g | 0 <= g < |groups| :: sourceId in IdSet(site.listings(groups[g]))
  }

  /** The keyword finds the item in some group. */
  ghost predicate Reaches(site: Site, groups: seq<string>, keyword: string, sourceId: string) {
    exists g | 0 <= g < |groups| :: sourceId in IdSet(site.Results(groups[g], keyword))
  }

  /** The keyword finds the item in some group, at a position that the group's walk covers. */
  ghost predicate Covered(site: Site, groups: seq<string>, keyword: string, walks: seq<seq<Visit>>, sourceId: string) {
    |walks| == |groups| && exists g | 0 <= g < |groups| :: ShownBy(site.Results(groups[g], keyword), walks[g], sourceId)
  }

  /** The pages of every walk show exactly what the keyword finds in its group. */
  ghost predicate Delivers(site: Site, groups: seq<string>, keyword: string, walks: seq<seq<Visit>>) {
    && |walks| == |groups|
    && forall g | 0 <= g < |groups| :: IdSet(RecordsOf(walks[g])) == IdSet(site.Results(groups[g], keyword))
  }

  lemma {:induction false} IdsComeFromWalks(walks: seq<seq<Visit>>, sourceId: string)
    ensures sourceId in IdSet(RecordsOfWalks(walks))
            <==> exists g | 0 <= g < |walks| :: sourceId in IdSet(RecordsOf(walks[g]))
  {
    if walks == [] {
    } else {
      var init, last := walks[..|walks| - 1], walks[|walks| - 1];
      IdsComeFromWalks(init, sourceId);
      assert init + [last] == walks && RecordsOfWalks(walks) == RecordsOfWalks(init) + RecordsOf(last);
      assert IdSet(RecordsOfWalks(walks)) == IdSet(RecordsOfWalks(init)) + IdSet(RecordsOf(last));
      if g :| 0 <= g < |init| && sourceId in IdSet(RecordsOf(init[g])) {
        assert walks[g] == init[g];
      }
      if g :| 0 <= g < |walks| && sourceId in IdSet(RecordsOf(walks[g])) {
        assert g < |init| ==> init[g] == walks[g];
      }
    }
  }

  lemma ListedIsReached(site: Site, groups: seq<string>, keyword: string, trace: Trace, sourceId: string)
    requires Delivers(site, groups, keyword, trace.walks)
    ensures sourceId in Listed(trace) <==> Reaches(site, groups, keyword, sourceId)
  {
    IdsComeFromWalks(trace.walks, sourceId);
    if g :| 0 <= g < |groups| && sourceId in IdSet(site.Results(groups[g], keyword)) {
      assert sourceId in IdSet(RecordsOf(trace.walks[g]));
    }
    if g :| 0 <= g < |groups| && sourceId in IdSet(RecordsOf(trace.walks[g])) {
      assert sourceId in IdSet(site.Results(groups[g], keyword));
    }
  }

  /** The run refreshed every open item that the site lists. */
  ghost predicate KeepsListed(site: Site, groups: seq<string>, before: seq<Item>, after: seq<Item>, at: Time)
    requires |before| <= |after|
  {
    forall i | 0 <= i < |before| && after[i].status.Open? && Offers(site, groups, after[i].sourceId) ::
      after[i].freshness == Refreshed(before[i].freshness, at)
  }

  /** The keyword finds every open item that the site lists. */
  ghost predicate FindsListed(site: Site, groups: seq<string>, keyword: string, before: seq<Item>, after: seq<Item>)
    requires |before| <= |after|
  {
    forall i | 0 <= i < |before| && after[i].status.Open? && Offers(site, groups, after[i].sourceId) ::
      Reaches(site, groups, keyword, after[i].sourceId)
  }

  /** An ageing run whose pages show what the keyword finds: it refreshes every open item that the site lists
      exactly when the keyword finds every one of them. */
  lemma NoListedItemIsAgedIff(site: Site, groups: seq<string>, keyword: string, trace: Trace,
                              before: seq<Item>, after: seq<Item>, at: Time)
    requires Delivers(site, groups, keyword, trace.walks)
    requires AgedRightly(before, after, true, Listed(trace), at)
    ensures KeepsListed(site, groups, before, after, at) <==> FindsListed(site, groups, keyword, before, after)
  {
    forall i | 0 <= i < |before| && after[i].status.Open?
      ensures after[i].freshness == Refreshed(before[i].freshness, at)
              <==> Reaches(site, groups, keyword, after[i].sourceId)
    {
      ListedIsReached(site, groups, keyword, trace, after[i].sourceId);
    }
  }

  // ---------------------------------------------------------------- any site that tells the truth

  /** Every walk of an enumeration that ended below the cap. */
  lemma WalkOfGroup(respond: seq<Request> -> Reply, site: Site, groups: seq<string>, keyword: string, limit: nat,
                    trace: Trace, g: nat)
    requires TrueServer(respond, site) && site.Valid()
    requires Enumerated(respond, groups, keyword, limit, trace) && |Kept(trace)| < limit && g < |groups|
    ensures GoodWalk(trace.walks[g]) && Collecting.Finished(trace.walks[g])
    ensures var results := site.Results(groups[g], keyword);
            UniqueIds(results) && TrueWalk(results, trace.walks[g])
  {
    AllOffered(trace.walks, trace.offered);
    assert WalkServed(respond, groups, keyword, trace.requests, trace.walks, g);
    assert Collecting.Finished(trace.walks[g]);
    ResultsAreFound(site, groups[g], keyword);
    WalkIsTrue(respond, site, groups[g], keyword, trace.requests, PagesOfWalks(trace.walks[..g]), trace.walks[g]);
  }

  /** Whoever enumerates such a site below the cap gets everything that the keyword finds exactly when every
      walk closes, and never anything else. */
  lemma DeliversIffWalksClose(respond: seq<Request> -> Reply, site: Site, groups: seq<string>, keyword: string,
                              limit: nat, trace: Trace)
    requires TrueServer(respond, site) && site.Valid()
    requires Enumerated(respond, groups, keyword, limit, trace) && |Kept(trace)| < limit
    ensures AllFinished(trace.walks)
    ensures Delivers(site, groups, keyword, trace.walks) <==> forall g | 0 <= g < |groups| :: Closes(trace.walks[g])
    ensures forall sourceId | sourceId in Listed(trace) :: Reaches(site, groups, keyword, sourceId)
  {
    AllOffered(trace.walks, trace.offered);
    forall g | 0 <= g < |groups|
      ensures IdSet(RecordsOf(trace.walks[g])) <= IdSet(site.Results(groups[g], keyword))
      ensures IdSet(RecordsOf(trace.walks[g])) == IdSet(site.Results(groups[g], keyword)) <==> Closes(trace.walks[g])
    {
      WalkOfGroup(respond, site, groups, keyword, limit, trace, g);
      WalkShowsAllIffItCloses(site.Results(groups[g], keyword), trace.walks[g]);
    }
    forall sourceId | sourceId in Listed(trace) ensures Reaches(site, groups, keyword, sourceId) {
      IdsComeFromWalks(trace.walks, sourceId);
      var g :| 0 <= g < |groups| && sourceId in IdSet(RecordsOf(trace.walks[g]));
      assert sourceId in IdSet(site.Results(groups[g], keyword));
    }
  }

  /** Without any condition on the walks: an item is on some page exactly when a walk covers its position. */
  lemma ListedIffCovered(respond: seq<Request> -> Reply, site: Site, groups: seq<string>, keyword: string,
                         limit: nat, trace: Trace, sourceId: string)
    requires TrueServer(respond, site) && site.Valid()
    requires Enumerated(respond, groups, keyword, limit, trace) && |Kept(trace)| < limit
    ensures sourceId in Listed(trace) <==> Covered(site, groups, keyword, trace.walks, sourceId)
  {
    AllOffered(trace.walks, trace.offered);
    IdsComeFromWalks(trace.walks, sourceId);
    forall g | 0 <= g < |groups|
      ensures sourceId in IdSet(RecordsOf(trace.walks[g]))
              <==> ShownBy(site.Results(groups[g], keyword), trace.walks[g], sourceId)
    {
      WalkOfGroup(respond, site, groups, keyword, limit, trace, g);
      WalkShowsIff(site.Results(groups[g], keyword), trace.walks[g], sourceId);
    }
  }

  /** A complete run over a site that tells the truth refreshes an open item exactly when a walk covers it,
      and counts it absent otherwise. If every walk closes, it refreshes every open item that the site lists
      exactly when the keyword finds every one of them. */
  lemma CompleteRunAgesNothingListedIff(site: Site, groups: seq<string>, keyword: string, k: Keying, t: Tables,
                                        run: RunId, world: World, limit: nat, trace: Trace, at: Time)
    requires TrueServer(world.respond, site) && site.Valid()
    requires k.Injective() && Consistent(k, t) && run in t.runs
    requires Enumerated(world.respond, groups, keyword, limit, trace)
             && CompleteRun(k, t, run, world, |groups|, limit, trace)
    ensures AllFinished(trace.walks)
    ensures var after := LeftBy(k, t, run, world, |groups|, limit, trace, at).items;
            && |t.items| <= |after|
            && (forall i | 0 <= i < |t.items| && after[i].status.Open? ::
                  after[i].freshness == if Covered(site, groups, keyword, trace.walks, after[i].sourceId)
                                        then Refreshed(t.items[i].freshness, at) else Aged(t.items[i].freshness, at))
            && ((forall g | 0 <= g < |groups| :: Closes(trace.walks[g])) ==>
                  (KeepsListed(site, groups, t.items, after, at)
                   <==> FindsListed(site, groups, keyword, t.items, after)))
  {
    var after := LeftBy(k, t, run, world, |groups|, limit, trace, at).items;
    RunOutcome(groups, keyword, k, t, run, world, limit, trace, at);
    DeliversIffWalksClose(world.respond, site, groups, keyword, limit, trace);
    forall i | 0 <= i < |t.items|
      ensures after[i].sourceId in Listed(trace) <==> Covered(site, groups, keyword, trace.walks, after[i].sourceId)
    {
      ListedIffCovered(world.respond, site, groups, keyword, limit, trace, after[i].sourceId);
    }
    if Delivers(site, groups, keyword, trace.walks) {
      NoListedItemIsAgedIff(site, groups, keyword, trace, t.items, after, at);
    }
  }

  /** Without a keyword, and over walks that close, it refreshes every open item that the site lists. */
  lemma EmptyKeywordAgesNothingListed(site: Site, groups: seq<string>, k: Keying, t: Tables, run: RunId, world: World,
                                      limit: nat, trace: Trace, at: Time)
    requires TrueServer(world.respond, site) && site.Valid()
    requires k.Injective() && Consistent(k, t) && run in t.runs
    requires Enumerated(world.respond, groups, "", limit, trace)
             && CompleteRun(k, t, run, world, |groups|, limit, trace)
    requires forall g | 0 <= g < |groups| :: trace.walks[g] != [] && Closes(trace.walks[g])
    ensures var after := LeftBy(k, t, run, world, |groups|, limit, trace, at).items;
            |t.items| <= |after| && KeepsListed(site, groups, t.items, after, at)
  {
    var after := LeftBy(k, t, run, world, |groups|, limit, trace, at).items;
    CompleteRunAgesNothingListedIff(site, groups, "", k, t, run, world, limit, trace, at);
    forall i | 0 <= i < |t.items| && Offers(site, groups, after[i].sourceId)
      ensures Reaches(site, groups, "", after[i].sourceId)
    {
      var g :| 0 <= g < |groups| && after[i].sourceId in IdSet(site.listings(groups[g]));
      ResultsAreFound(site, groups[g], "");
      assert after[i].sourceId in IdSet(site.Results(groups[g], ""));
    }
  }

  /** Over a site that cuts its results into pages every walk closes. */
  lemma PagedRunAgesNothingListedIff(site: Site, size: nat, groups: seq<string>, keyword: string, k: Keying, t: Tables,
                                     run: RunId, world: World, limit: nat, trace: Trace, at: Time)
    requires world.respond == Pager(site, size) && site.Valid()
    requires k.Injective() && Consistent(k, t) && run in t.runs
    requires Enumerated(world.respond, groups, keyword, limit, trace)
             && CompleteRun(k, t, run, world, |groups|, limit, trace)
    ensures var after := LeftBy(k, t, run, world, |groups|, limit, trace, at).items;
            && |t.items| <= |after|
            && (KeepsListed(site, groups, t.items, after, at) <==> FindsListed(site, groups, keyword, t.items, after))
  {
    PagerIsTrue(site, size);
    CompleteRunAgesNothingListedIff(site, groups, keyword, k, t, run, world, limit, trace, at);
    forall g | 0 <= g < |groups| ensures Closes(trace.walks[g]) {
      assert Collecting.Finished(trace.walks[g]);
      assert WalkServed(world.respond, groups, keyword, trace.requests, trace.walks, g);
      PagedWalkCloses(site, size, groups[g], keyword, trace.requests, PagesOfWalks(trace.walks[..g]), trace.walks[g]);
    }
  }

  // ---------------------------------------------------------------- a site that skips a listing

  const THREE := [Listing("A1"), Listing("A2"), Listing("A3")]

  function ThreeSite(): Site {
    Site(_ => THREE, (_, _) => true)
  }

  lemma {:induction false} AllFound(site: Site, keyword: string, listed: seq<SearchRecord>)
    requires forall r :: site.finds(keyword, r)
    ensures Found(site, keyword, listed) == listed
  {
    if listed == [] {
    } else {
      AllFound(site, keyword, listed[..|listed| - 1]);
    }
  }

  /** The site of three listings that shows the first and the third tells the truth about both. */
  lemma SkippingServerIsTrue()
    ensures ThreeSite().Valid() && TrueServer(Answering(SKIPPING_WALK, SKIPPING_PAGES), ThreeSite())
  {
    assert "A1"[1] != "A2"[1] && "A1"[1] != "A3"[1] && "A2"[1] != "A3"[1];
    var respond := Answering(SKIPPING_WALK, SKIPPING_PAGES);
    forall requests ensures AnswersTruly(ThreeSite(), requests, respond(requests)) {
      var search := SearchOf(requests);
      if search.Some? {
        AllFound(ThreeSite(), search.value.keyword, THREE);
        assert THREE[0..1] == [Listing("A1")] && THREE[2..3] == [Listing("A3")];
      }
    }
  }

  lemma SecondIsListed()
    ensures Offers(ThreeSite(), ["G"], "A2") && Reaches(ThreeSite(), ["G"], "", "A2")
  {
    AllFound(ThreeSite(), "", THREE);
    assert THREE[1].sourceId == "A2";
    assert ["G"][0] == "G" && "A2" in IdSet(ThreeSite().listings("G"));
    assert "A2" in IdSet(ThreeSite().Results("G", ""));
  }

  lemma SecondIsSkipped()
    ensures "A2" !in IdSet(RecordsOf(SKIPPING_WALK))
  {
    WalkMaySkip();
    assert "A1"[1] != "A2"[1] && "A2"[1] != "A3"[1];
  }

  /** A complete enumeration of that site, without a keyword, that misses what the site lists second. */
  lemma SkippingRunMissesListed() returns (trace: Trace)
    ensures Enumerated(Answering(SKIPPING_WALK, SKIPPING_PAGES), ["G"], "", 20, trace)
    ensures |trace.walks| == 1 && |Kept(trace)| < 20
    ensures ThreeSite().Valid() && TrueServer(Answering(SKIPPING_WALK, SKIPPING_PAGES), ThreeSite())
    ensures Offers(ThreeSite(), ["G"], "A2") && Reaches(ThreeSite(), ["G"], "", "A2") && "A2" !in Listed(trace)
  {
    trace := SkippingRunIsComplete();
    SkippingServerIsTrue();
    SecondIsListed();
    SecondIsSkipped();
    IdsComeFromWalks(trace.walks, "A2");
  }

  // ---------------------------------------------------------------- a keyword run that ages a listed item

  const DESK_LISTING := SearchRecord("A1", CanonicalUrl("1"), "", Some("Desk"), None, None, None, None, Open)

  /** One group with one desk; a keyword finds the listings whose title it is. */
  function DeskSite(): Site {
    Site(_ => [DESK_LISTING], (keyword, r: SearchRecord) => keyword == "" || r.title == Some(keyword))
  }

  function DeskShop(): seq<Request> -> Reply {
    Pager(DeskSite(), 50)
  }

  function DeskWorld(): World {
    World(DeskShop(), (n: nat) => Failure(Unavailable), (n: nat) => 0, (text: string) => Location(text, None, Exact))
  }

  const LAMP_WALK: seq<Visit> := [Visit(PageName(0), ResultsPage([], None))]
  const LAMP_TRACE := Trace([SearchGroup("G", "Lamp")], [LAMP_WALK], [], [])

  lemma LampFindsNothing()
    ensures DeskShop()([SearchGroup("G", "Lamp")]) == Fetched(PageName(0), EmptyResults)
    ensures Offers(DeskSite(), ["G"], "A1")
  {
    var site := DeskSite();
    assert site.listings("G") == [DESK_LISTING] && [DESK_LISTING][..0] == [];
    assert "Lamp"[0] != "Desk"[0];
    assert Found(site, "Lamp", [DESK_LISTING]) == [];
    assert ["G"][0] == "G" && [DESK_LISTING][0].sourceId == "A1";
    assert "A1" in IdSet(site.listings("G"));
  }

  lemma LampIsServed()
    ensures GroupServed(DeskShop(), SearchGroup("G", "Lamp"), [SearchGroup("G", "Lamp")], 0, LAMP_WALK)
    ensures RequestsOf(SearchGroup("G", "Lamp"), LAMP_WALK) == [SearchGroup("G", "Lamp")]
    ensures RecordsOf(LAMP_WALK) == []
  {
    LampFindsNothing();
    var search := SearchGroup("G", "Lamp");
    assert [search][..1] == [search];
    assert ServedAt(DeskShop(), [search], 1, LAMP_WALK, 0);
    assert LAMP_WALK[..0] == [];
  }

  lemma LampRunIsComplete()
    ensures Enumerated(DeskShop(), ["G"], "Lamp", 20, LAMP_TRACE) && Kept(LAMP_TRACE) == []
  {
    LampIsServed();
    var trace := OneGroupIsEnumerated(DeskShop(), "G", "Lamp", 20, LAMP_WALK);
  }

  const DESK_SEEN: seq<Event> := STARTED + [Offered(0, Desk(Open, 1))] + [Started(1, true, 2)]

  lemma DeskSeen(k: Keying)
    requires k.Injective()
    ensures var t := After(k, DESK_SEEN);
            && Consistent(k, t) && 1 in t.runs && |t.items| == 1
            && t.items[0].sourceId == "A1" && t.items[0].status == Open && t.items[0].freshness == NEVER_RECONCILED
  {
    AfterStarted(k);
    SamplesDiffer(k, Open, Open, 1, 1);
    var id := OfferIsAccepted(k, STARTED, 0, Desk(Open, 1));
    AfterOneMore(k, STARTED + [Offered(0, Desk(Open, 1))], Started(1, true, 2));
    ReachableIsConsistent(k, DESK_SEEN);
  }

  /** The search for lamps succeeds and is complete, and the desk that the site lists is counted absent. */
  lemma KeywordRunAgesListedItem(k: Keying)
    requires k.Injective()
    ensures Enumerated(DeskWorld().respond, ["G"], "Lamp", 20, LAMP_TRACE)
    ensures Offers(DeskSite(), ["G"], "A1")
    ensures var after := LeftBy(k, After(k, DESK_SEEN), 1, DeskWorld(), 1, 20, LAMP_TRACE, 3);
            && 1 in after.runs && after.runs[1].status == Succeeded && Ages(Succeeded, after.runs[1].coverage)
            && |after.items| == 1 && after.items[0].sourceId == "A1"
               && after.items[0].freshness == Aged(NEVER_RECONCILED, 3)
  {
    DeskSeen(k);
    LampFindsNothing();
    LampRunIsComplete();
    assert Details(DeskWorld(), Kept(LAMP_TRACE)) == [];
    assert DetailIds([]) == [];
  }
}
