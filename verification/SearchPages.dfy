/** Search-results pages as the parser accepts them, and the walk over the pages of one group. */
module SearchPages {
  import opened Wrappers
  import opened Records

  datatype SearchRecord = SearchRecord(
    sourceId: string,
    url: string,
    requestUrl: string,
    title: Option<string>,
    locationRaw: Option<string>,
    currentBid: Option<nat>,
    closingAt: Option<Time>,
    statusRaw: Option<string>,
    status: Status)

  /** A link to the following page; its page number is read from its query string. */
  datatype NextLink = NextLink(url: string, pageNumber: Option<nat>)

  datatype Pagination = Pagination(
    currentPage: nat,
    recordStart: nat,
    recordEnd: nat,
    totalRecords: nat,
    next: Option<NextLink>)

  datatype ResultsPage = ResultsPage(records: seq<SearchRecord>, pagination: Option<Pagination>)

  /** What a response contains before the contract checks. */
  datatype RawPage =
    | NotAResultsPage
    | EmptyResults
    | Rows(records: seq<SearchRecord>, pagination: Option<Pagination>, hasPageLinks: bool)

  datatype ScrapeError = ContractError | Unavailable | ValueError | BatchFailure | Unexpected

  function Ids(records: seq<SearchRecord>): (ids: seq<string>)
    ensures |ids| == |records|
    ensures forall i | 0 <= i < |records| :: ids[i] == records[i].sourceId
  {
    seq(|records|, i requires 0 <= i < |records| => records[i].sourceId)
  }

  predicate UniqueIds(records: seq<SearchRecord>) {
    forall i, j | 0 <= i < j < |records| :: records[i].sourceId != records[j].sourceId
  }

  /** The checks on a page's record range and next link, in the parser's order. */
  predicate ValidPagination(p: Pagination, recordCount: nat) {
    if p.currentPage < 1 || p.recordStart < 1 || p.recordEnd < 1 || p.totalRecords < 1 then false
    else if p.recordStart > p.recordEnd then false
    else if p.recordEnd > p.totalRecords then false
    else if p.currentPage == 1 && p.recordStart != 1 then false
    else if recordCount != p.recordEnd - p.recordStart + 1 then false
    else if p.recordEnd == p.totalRecords then p.next.None?
    else if p.next.None? then false
    else if p.next.value.pageNumber.None? then false
    else p.next.value.pageNumber.value > p.currentPage
  }

  function ParseSearchResults(raw: RawPage): Result<ResultsPage, ScrapeError> {
    match raw
    case NotAResultsPage => Failure(ContractError)
    case EmptyResults => Success(ResultsPage([], None))
    case Rows(records, pagination, hasPageLinks) =>
      if records == [] || !UniqueIds(records) then Failure(ContractError)
      else if pagination.None? then
        if hasPageLinks then Failure(ContractError) else Success(ResultsPage(records, None))
      else if !ValidPagination(pagination.value, |records|) then Failure(ContractError)
      else Success(ResultsPage(records, pagination))
  }

  /** What an accepted page promises: distinct listings, a range that fits its records and its total and
      starts at record 1 on page 1, and a link to a later page exactly when records remain. */
  ghost predicate PageOk(page: ResultsPage) {
    && UniqueIds(page.records)
    && (page.pagination.Some? ==>
          var p := page.pagination.value;
          && 1 <= p.recordStart <= p.recordEnd <= p.totalRecords
          && 1 <= p.currentPage && (p.currentPage == 1 ==> p.recordStart == 1)
          && |page.records| == p.recordEnd - p.recordStart + 1
          && (p.next.None? <==> p.recordEnd == p.totalRecords)
          && (p.next.Some? ==> p.next.value.pageNumber.Some? && p.next.value.pageNumber.value > p.currentPage))
  }

  /** The parser accepts exactly the pages that keep these promises; an empty-results page keeps them. */
  lemma ParserIsExact(raw: RawPage)
    ensures raw.Rows? ==>
              (ParseSearchResults(raw) == Success(ResultsPage(raw.records, raw.pagination)) <==>
                 && raw.records != [] && PageOk(ResultsPage(raw.records, raw.pagination))
                 && (raw.hasPageLinks ==> raw.pagination.Some?))
    ensures raw.Rows? && ParseSearchResults(raw).Success? ==>
              ParseSearchResults(raw).value == ResultsPage(raw.records, raw.pagination)
    ensures raw.EmptyResults? ==> ParseSearchResults(raw) == Success(ResultsPage([], None))
    ensures raw.NotAResultsPage? ==> ParseSearchResults(raw).Failure?
    ensures ParseSearchResults(raw).Success? ==> PageOk(ParseSearchResults(raw).value)
  {
  }

  /** The page names a page to follow. */
  predicate Continues(page: ResultsPage) {
    page.pagination.Some? && page.pagination.value.next.Some?
  }

  /** Refuses a page that was seen before, or that repeats a listing of an earlier page. */
  class SearchPageTracker {
    var fingerprints: set<seq<string>>
    var sourceIds: set<string>

    ghost predicate Valid()
      reads this
    {
      forall f | f in fingerprints :: f != [] && f[0] in sourceIds
    }

    constructor ()
      ensures Valid() && sourceIds == {}
    {
      fingerprints, sourceIds := {}, {};
    }

    /** The fingerprint test adds nothing: a page is accepted exactly when its listings are all new. */
    method Add(page: ResultsPage) returns (accepted: bool)
      requires Valid()
      modifies this
      ensures Valid()
      ensures accepted <==> forall r | r in page.records :: r.sourceId !in old(sourceIds)
      ensures accepted ==> sourceIds == old(sourceIds) + set r | r in page.records :: r.sourceId
      ensures !accepted ==> sourceIds == old(sourceIds)
    {
      var ids := Ids(page.records);
      var listed := set r | r in page.records :: r.sourceId;
      if ids == [] {
        assert listed == {};
        return true;
      }
      assert ids[0] == page.records[0].sourceId;
      if ids in fingerprints {
        return false;
      }
      if exists r | r in page.records :: r.sourceId in sourceIds {
        return false;
      }
      fingerprints := fingerprints + {ids};
      sourceIds := sourceIds + listed;
      return true;
    }
  }

  // ---------------------------------------------------------------- the walk over one group

  const MAX_SEARCH_PAGES := 100

  datatype Visit = Visit(url: string, page: ResultsPage)

  predicate Paginated(v: Visit) {
    v.page.pagination.Some?
  }

  ghost predicate Advances(a: Visit, b: Visit) {
    && a.url != b.url
    && (forall r, s | r in a.page.records && s in b.page.records :: r.sourceId != s.sourceId)
    && (Paginated(a) && Paginated(b) ==>
          && a.page.pagination.value.currentPage < b.page.pagination.value.currentPage
          && a.page.pagination.value.recordEnd < b.page.pagination.value.recordStart)
  }

  /** What the walk over one group's pages accepts, for any server. */
  ghost predicate GoodWalk(visits: seq<Visit>) {
    && |visits| <= MAX_SEARCH_PAGES
    && (forall i {:trigger PageOk(visits[i].page)} | 0 <= i < |visits| :: PageOk(visits[i].page))
    && (forall i {:trigger Continues(visits[i].page)} | 0 <= i < |visits| - 1 :: Continues(visits[i].page))
    && (forall i, j {:trigger Advances(visits[i], visits[j])} | 0 <= i < j < |visits| :: Advances(visits[i], visits[j]))
  }

  /** A walk has at most 100 pages. */
  lemma WalkIsBounded(visits: seq<Visit>)
    requires GoodWalk(visits)
    ensures |visits| <= 100
  {
  }

  function RecordsOf(visits: seq<Visit>): seq<SearchRecord> {
    if visits == [] then [] else RecordsOf(visits[..|visits| - 1]) + visits[|visits| - 1].page.records
  }

  function Range(v: Visit): Pagination
    requires Paginated(v)
  {
    v.page.pagination.value
  }

  // ---------------------------------------------------------------- what a walk delivers

  /** The last position that a range names. */
  function EndOf(visits: seq<Visit>): nat {
    if visits == [] then 0 else
    var last := visits[|visits| - 1];
    if Paginated(last) then Range(last).recordEnd else EndOf(visits[..|visits| - 1])
  }

  /** The total on the last page that carries a range. */
  function Announced(visits: seq<Visit>): Option<nat> {
    if visits == [] then None else
    var last := visits[|visits| - 1];
    if Paginated(last) then Some(Range(last).totalRecords) else Announced(visits[..|visits| - 1])
  }

  /** The number of positions that the ranges skip. */
  function Gaps(visits: seq<Visit>): int {
    if visits == [] then 0 else
    var init, last := visits[..|visits| - 1], visits[|visits| - 1];
    if Paginated(last) then Gaps(init) + Range(last).recordStart - 1 - EndOf(init) else Gaps(init)
  }

  /** The ranges start at record 1 and leave no gap. */
  predicate Contiguous(visits: seq<Visit>) {
    forall i | 0 <= i < |visits| && Paginated(visits[i]) :: Range(visits[i]).recordStart == EndOf(visits[..i]) + 1
  }

  lemma ContiguousNext(init: seq<Visit>, last: Visit)
    ensures Contiguous(init + [last]) <==>
              Contiguous(init) && (Paginated(last) ==> Range(last).recordStart == EndOf(init) + 1)
  {
    var all := init + [last];
    assert all[|init|] == last && all[..|init|] == init;
    assert forall i | 0 <= i < |init| :: all[i] == init[i] && all[..i] == init[..i];
  }

  /** The listings on a last page that carries no range. */
  function Unranged(visits: seq<Visit>): nat
    requires visits != []
  {
    if Paginated(visits[|visits| - 1]) then 0 else |visits[|visits| - 1].page.records|
  }

  lemma PrefixIsGood(visits: seq<Visit>, n: nat)
    requires GoodWalk(visits) && n <= |visits|
    ensures GoodWalk(visits[..n])
  {
  }

  /** What the last page adds to the walk before it. */
  lemma LastPage(visits: seq<Visit>)
    requires GoodWalk(visits) && visits != []
    ensures var init, last := visits[..|visits| - 1], visits[|visits| - 1];
            && PageOk(last.page) && GoodWalk(init)
            && (init != [] ==> Continues(init[|init| - 1].page) && PageOk(init[|init| - 1].page))
            && (init != [] && Paginated(last) ==> EndOf(init) < Range(last).recordStart)
  {
    var init, last := visits[..|visits| - 1], visits[|visits| - 1];
    assert PageOk(last.page);
    if init != [] {
      assert init[|init| - 1] == visits[|init| - 1];
      assert PageOk(visits[|init| - 1].page) && Continues(visits[|init| - 1].page)
             && Advances(visits[|init| - 1], last);
    }
    PrefixIsGood(visits, |visits| - 1);
  }

  /** Every listing has its position, except on a page without a range: what a walk yields and what its
      ranges skip add up to the last position named and the listings that have none. */
  lemma {:induction false} WalkYield(visits: seq<Visit>)
    requires GoodWalk(visits) && visits != []
    ensures |RecordsOf(visits)| + Gaps(visits) == EndOf(visits) + Unranged(visits)
    ensures Gaps(visits) >= 0 && (Gaps(visits) == 0 <==> Contiguous(visits))
    ensures Announced(visits).Some? ==> EndOf(visits) <= Announced(visits).value
    ensures Announced(visits).Some? && EndOf(visits) == Announced(visits).value ==> Paginated(visits[|visits| - 1])
    ensures |visits| > 1 ==> Announced(visits).Some?
  {
    var init, last := visits[..|visits| - 1], visits[|visits| - 1];
    assert visits == init + [last];
    ContiguousNext(init, last);
    LastPage(visits);
    if init == [] {
      assert Contiguous(init);
    } else {
      WalkYield(init);
    }
  }

  /** The walk delivers as many listings as its last range announces, if it has one. */
  predicate Whole(visits: seq<Visit>) {
    Announced(visits).Some? ==> |RecordsOf(visits)| == Announced(visits).value
  }

  /** What the walk would have to check: that the ranges adjoin, or that a last page without a range
      makes up for everything before it. */
  predicate Closes(visits: seq<Visit>)
    requires visits != []
  {
    if Paginated(visits[|visits| - 1]) then Contiguous(visits)
    else Announced(visits).Some? ==>
           |visits[|visits| - 1].page.records| == Announced(visits).value - EndOf(visits) + Gaps(visits)
  }

  /** A finished walk delivers the announced total exactly when it closes: the walk checks that ranges
      advance, not that they adjoin, and takes any page without a range for the last one. */
  lemma FinishedWalkIsWholeIffItCloses(visits: seq<Visit>)
    requires GoodWalk(visits) && visits != [] && !Continues(visits[|visits| - 1].page)
    ensures Whole(visits) <==> Closes(visits)
  {
    WalkYield(visits);
    assert PageOk(visits[|visits| - 1].page);
  }

  /** The empty-results page after a next link always loses listings. */
  lemma EmptyLastPageIsNeverWhole(visits: seq<Visit>)
    requires GoodWalk(visits) && |visits| > 1 && visits[|visits| - 1].page == ResultsPage([], None)
    ensures Announced(visits).Some? && |RecordsOf(visits)| < Announced(visits).value
  {
    WalkYield(visits);
  }
}
