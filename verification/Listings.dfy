/** The read side: the current listing of every item, filtered, ordered and paged. */
module Listings {
  import opened Wrappers
  import opened Records
  import opened Store
  import opened Integrity
  import opened History
  import opened Ordering
  import Like

  // ---------------------------------------------------------------- choosing the current observation

  /** An observation of the item's current hash, joined with its run. */
  predicate Candidate(t: Tables, id: nat, key: ObservationKey)
    requires id < |t.items|
  {
    && key in t.observations
    && key.item == id
    && key.hash == t.items[id].observationHash
    && t.observations[key].run in t.runs
  }

  function Bit(b: bool): int {
    if b then 1 else 0
  }

  /** The ranking columns, all descending. (The query ends with the row's UUID, which `RankingIsTotal`
      shows is never reached.) */
  function Rank(t: Tables, id: nat, key: ObservationKey): seq<int>
    requires id < |t.items| && Candidate(t, id, key)
  {
    var it, run := t.items[id], t.runs[t.observations[key].run];
    [Bit(key.observedAt == it.lastSeenAt),
     Bit(key.observedAt <= it.lastSeenAt),
     key.observedAt,
     run.startedAt,
     run.createdAt,
     t.observations[key].createdAt]
  }

  /** The candidate of rank one. */
  predicate Selected(t: Tables, id: nat, key: ObservationKey)
    requires id < |t.items|
  {
    && Candidate(t, id, key)
    && forall other | other in t.observations && Candidate(t, id, other) ::
         !LexLess(Rank(t, id, key), Rank(t, id, other))
  }

  datatype Row = Row(item: Item, observedAt: Time, snapshot: Snapshot)

  /** The rows of the current-listing query. */
  ghost function CurrentRows(t: Tables): set<Row> {
    set key | key in t.observations && key.item < |t.items| && Selected(t, key.item, key) ::
      Row(t.items[key.item], key.observedAt, t.observations[key].snapshot)
  }

  lemma LexDecidedByThird(a: seq<int>, b: seq<int>)
    requires |a| == |b| >= 3 && a[1] == b[1]
    ensures a[0] < b[0] ==> LexLess(a, b) && !LexLess(b, a)
    ensures a[0] == b[0] && a[2] < b[2] ==> LexLess(a, b) && !LexLess(b, a)
  {
    assert a[1..][1..] == a[2..] && b[1..][1..] == b[2..];
    assert a[0] == b[0] && a[2] < b[2] ==> LexLess(a[2..], b[2..]) && LexLess(a[1..], b[1..]);
    LexTrichotomy(a, b);
  }

  /** No stored observation is later than its item was last seen, so the ranking is the order of
      observation times, and two candidates never tie. */
  lemma RankingIsTotal(k: Keying, t: Tables, id: nat, a: ObservationKey, b: ObservationKey)
    requires Consistent(k, t) && id < |t.items| && Candidate(t, id, a) && Candidate(t, id, b)
    ensures LexLess(Rank(t, id, a), Rank(t, id, b)) <==> a.observedAt < b.observedAt
    ensures a.observedAt == b.observedAt ==> a == b
  {
    assert ObservationOk(k, t, a) && ObservationOk(k, t, b);
    LexDecidedByThird(Rank(t, id, a), Rank(t, id, b));
    LexDecidedByThird(Rank(t, id, b), Rank(t, id, a));
    LexTrichotomy(Rank(t, id, a), Rank(t, id, a));
  }

  lemma {:induction false} NewestExists(keys: set<ObservationKey>) returns (newest: ObservationKey)
    requires keys != {}
    ensures newest in keys && forall key | key in keys :: key.observedAt <= newest.observedAt
  {
    newest :| newest in keys;
    var rest := keys - {newest};
    if rest == {} {
      assert keys == {newest};
    } else {
      var best := NewestExists(rest);
      if best.observedAt > newest.observedAt {
        newest := best;
      }
      assert keys == rest + {newest} || best == newest;
    }
  }

  /** Every item has exactly one selected observation: the newest one of its current hash. */
  lemma OneIsSelected(k: Keying, t: Tables, id: nat) returns (key: ObservationKey)
    requires Consistent(k, t) && id < |t.items|
    ensures Selected(t, id, key)
    ensures forall other | other in t.observations && Candidate(t, id, other) :: other.observedAt <= key.observedAt
    ensures forall other | Selected(t, id, other) :: other == key
  {
    assert Recorded(t, id);
    var carrier :| Carries(t, id, carrier);
    assert ObservationOk(k, t, carrier);
    var candidates := set c | c in t.observations && Candidate(t, id, c);
    assert carrier in candidates;
    key := NewestExists(candidates);
    forall other | other in t.observations && Candidate(t, id, other)
      ensures !LexLess(Rank(t, id, key), Rank(t, id, other))
      ensures Selected(t, id, other) ==> other == key
    {
      assert other in candidates;
      RankingIsTotal(k, t, id, key, other);
      RankingIsTotal(k, t, id, other, key);
    }
  }

  /** Every observation of the current hash carries the current snapshot. */
  lemma CandidatesAgree(k: Keying, t: Tables, id: nat, key: ObservationKey, r: Record)
    requires Consistent(k, t) && k.Injective() && id < |t.items| && Candidate(t, id, key)
    requires t.items[id].observationHash == k.observationHash(r.snapshot)
    ensures t.observations[key].snapshot == r.snapshot
  {
    assert ObservationOk(k, t, key);
  }

  /** The current-listing row `row` of `t` comes from observation `key`. */
  ghost predicate ComesFrom(t: Tables, row: Row, key: ObservationKey) {
    && key in t.observations
    && key.item < |t.items|
    && Selected(t, key.item, key)
    && row == Row(t.items[key.item], key.observedAt, t.observations[key].snapshot)
  }

  lemma OriginOf(t: Tables, row: Row) returns (key: ObservationKey)
    requires row in CurrentRows(t)
    ensures ComesFrom(t, row, key)
  {
    key :| key in t.observations && key.item < |t.items| && Selected(t, key.item, key)
           && row == Row(t.items[key.item], key.observedAt, t.observations[key].snapshot);
  }

  /** The API shows every item of a consistent store exactly once. */
  lemma EveryItemIsListedOnce(k: Keying, t: Tables, id: nat) returns (row: Row)
    requires Consistent(k, t) && id < |t.items|
    ensures row in CurrentRows(t) && row.item == t.items[id]
    ensures forall other | other in CurrentRows(t) && other.item.sourceId == row.item.sourceId :: other == row
  {
    var key := OneIsSelected(k, t, id);
    row := Row(t.items[id], key.observedAt, t.observations[key].snapshot);
    forall other | other in CurrentRows(t) && other.item.sourceId == row.item.sourceId ensures other == row {
      var origin := OriginOf(t, other);
      assert origin.item == id;
    }
  }

  /** The row shows the content and the snapshot of the last applied record of `rs`. */
  ghost predicate ShowsRow(k: Keying, row: Row, rs: seq<Record>) {
    && row.observedAt <= row.item.lastSeenAt
    && row.snapshot.status == row.item.status
    && exists a: nat :: LastApplied(rs, a) && ShowsContent(k, row.item, rs[a]) && row.snapshot == rs[a].snapshot
  }

  lemma RowShowsLastApplied(k: Keying, t: Tables, row: Row, key: ObservationKey, rs: seq<Record>)
    requires Consistent(k, t) && k.Injective() && ComesFrom(t, row, key) && Reflects(k, row.item, rs)
    ensures ShowsRow(k, row, rs)
  {
    var a: nat :| LastApplied(rs, a) && ShowsContent(k, row.item, rs[a]);
    CandidatesAgree(k, t, key.item, key, rs[a]);
    assert ObservationOk(k, t, key);
  }

  lemma RowsShowLastApplied(k: Keying, t: Tables, row: Row, past: string -> seq<Record>)
    requires Consistent(k, t) && k.Injective() && row in CurrentRows(t) && ItemsReflect(k, t.items, past)
    ensures ShowsRow(k, row, past(row.item.sourceId))
  {
    var key := OriginOf(t, row);
    RowShowsLastApplied(k, t, row, key, past(row.item.sourceId));
  }

  /** Whatever calls led there, the row of an item shows the last record the write side applied: bids, closing
      time, status and all. */
  lemma ListingShowsLastApplied(k: Keying, log: seq<Event>, id: nat) returns (row: Row)
    requires k.Injective() && id < |After(k, log).items|
    ensures row in CurrentRows(After(k, log)) && row.item == After(k, log).items[id]
    ensures forall other | other in CurrentRows(After(k, log)) && other.item.sourceId == row.item.sourceId ::
              other == row
    ensures ShowsRow(k, row, Accepted(k, log, row.item.sourceId))
  {
    ReachableIsConsistent(k, log);
    row := EveryItemIsListedOnce(k, After(k, log), id);
    RowsReflectHistory(k, log);
    RowsShowLastApplied(k, After(k, log), row, sourceId => Accepted(k, log, sourceId));
  }

  // ---------------------------------------------------------------- views

  datatype View = ActiveView | EndedView | AllView

  datatype Availability = Available | ScheduledClosingPassed | EndedClosed | EndedWithdrawn | Unavailable

  predicate ClosingPassed(row: Row, now: Time) {
    row.snapshot.closingAt.Some? && row.snapshot.closingAt.value <= now
  }

  predicate InView(row: Row, view: View, now: Time) {
    var open := row.item.status.Open?;
    match view
    case ActiveView =>
      row.item.freshness.inventory.Current? && open
      && (row.snapshot.closingAt.None? || row.snapshot.closingAt.value > now)
    case EndedView => row.item.status.Closed? || row.item.status.Withdrawn? || (open && ClosingPassed(row, now))
    case AllView => true
  }

  function AvailabilityOf(row: Row, now: Time): Availability {
    if row.item.status.Closed? then EndedClosed
    else if row.item.status.Withdrawn? then EndedWithdrawn
    else if row.item.status.Open? && ClosingPassed(row, now) then ScheduledClosingPassed
    else if row.item.status.Open? && row.snapshot.closingAt.Some? && row.snapshot.closingAt.value > now then Available
    else Unavailable
  }

  /** No listing is both active and ended; what is in neither view is of unknown status, or is open,
      not yet past its closing time, and missed by the latest complete run that counted it. */
  lemma ViewsAreDisjoint(row: Row, now: Time)
    ensures !(InView(row, ActiveView, now) && InView(row, EndedView, now))
    ensures !InView(row, ActiveView, now) && !InView(row, EndedView, now) <==>
              row.item.status.Unknown?
              || (row.item.status.Open? && !ClosingPassed(row, now) && !row.item.freshness.inventory.Current?)
    ensures InView(row, EndedView, now) <==>
              AvailabilityOf(row, now) in {EndedClosed, EndedWithdrawn, ScheduledClosingPassed}
  {
  }

  /** What each availability says of the row. */
  lemma AvailabilityIsExact(row: Row, now: Time)
    ensures var status, closing, found := row.item.status, row.snapshot.closingAt, AvailabilityOf(row, now);
            && (found == EndedClosed <==> status == Closed)
            && (found == EndedWithdrawn <==> status == Withdrawn)
            && (found == ScheduledClosingPassed <==> status == Open && closing.Some? && closing.value <= now)
            && (found == Available <==> status == Open && closing.Some? && now < closing.value)
            && (found == Unavailable <==> status == Unknown || (status == Open && closing.None?))
  {
  }

  // ---------------------------------------------------------------- filters

  datatype Filters = Filters(
    keyword: Option<string>,
    location: Option<string>,
    category: Option<string>,
    minimumPrice: Option<nat>,
    maximumPrice: Option<nat>,
    closingAfter: Option<Time>,
    closingBefore: Option<Time>,
    view: View)

  /** How the database folds case and orders source IDs, and how a filter text is normalised. */
  datatype Texts = Texts(
    fold: char -> string,
    collates: (string, string) -> bool,
    normalize: string -> Option<string>)
  {
    /** Any collation: a strict total order of the texts. */
    ghost predicate Valid() {
      && (forall a :: !collates(a, a))
      && (forall a, b :: a == b || collates(a, b) || collates(b, a))
      && (forall a, b, c {:trigger collates(a, b), collates(b, c)} :: collates(a, b) && collates(b, c) ==>
           collates(a, c))
    }

    /** A blank filter is no filter. */
    function Normalized(filter: Option<string>): Option<string> {
      if filter.None? then None else normalize(filter.value)
    }
  }

  predicate KeywordMatches(fold: char -> string, it: Item, keyword: string) {
    var pattern := Like.LikePattern(keyword);
    || Like.IMatches(fold, pattern, it.metadata.title)
    || (it.metadata.description.Some? && Like.IMatches(fold, pattern, it.metadata.description.value))
  }

  predicate LocationMatches(fold: char -> string, it: Item, location: string) {
    || (it.metadata.locationCanonical.Some? && Like.Folded(fold, it.metadata.locationCanonical.value) == location)
    || (it.metadata.locationCanonical.None? && it.metadata.locationRaw.Some?
        && Like.Folded(fold, it.metadata.locationRaw.value) == location)
  }

  predicate CategoryMatches(fold: char -> string, it: Item, category: string) {
    var known := Coalesce(it.metadata.categoryCanonical, it.metadata.categoryRaw);
    known.Some? && Like.Folded(fold, known.value) == category
  }

  /** The WHERE clause; a comparison with NULL is not true. */
  predicate Admits(texts: Texts, f: Filters, row: Row, now: Time) {
    var keyword, location, category := texts.Normalized(f.keyword), texts.Normalized(f.location),
        texts.Normalized(f.category);
    && InView(row, f.view, now)
    && (keyword.Some? ==> KeywordMatches(texts.fold, row.item, keyword.value))
    && (location.Some? ==> LocationMatches(texts.fold, row.item, location.value))
    && (category.Some? ==> CategoryMatches(texts.fold, row.item, category.value))
    && (f.minimumPrice.Some? ==> row.snapshot.currentBid.Some? && row.snapshot.currentBid.value >= f.minimumPrice.value)
    && (f.maximumPrice.Some? ==> row.snapshot.currentBid.Some? && row.snapshot.currentBid.value <= f.maximumPrice.value)
    && (f.closingAfter.Some? ==> row.snapshot.closingAt.Some? && row.snapshot.closingAt.value >= f.closingAfter.value)
    && (f.closingBefore.Some? ==> row.snapshot.closingAt.Some? && row.snapshot.closingAt.value <= f.closingBefore.value)
  }

  ghost function AdmittedRows(texts: Texts, t: Tables, f: Filters, now: Time): set<Row> {
    set row | row in CurrentRows(t) && Admits(texts, f, row, now)
  }

  /** The text contains the value, whatever the case of either. */
  predicate Mentions(fold: char -> string, s: string, value: string) {
    Like.Contains(Like.Folded(fold, s), Like.Folded(fold, value))
  }

  /** What each filter admits, in terms of the row alone: a keyword in the title or the description; a location
      that is the canonical one, or the raw one if there is none; a category likewise; and bounds on the bid and
      the closing time, which a row without one never meets. A filter that is not set admits every row. */
  lemma FiltersAreExact(texts: Texts, t: Tables, f: Filters, now: Time, row: Row)
    requires Like.KeepsMeta(texts.fold) && row in CurrentRows(t)
    ensures var it, s := row.item, row.snapshot;
            var keyword := if f.keyword.Some? then texts.normalize(f.keyword.value) else None;
            var location := if f.location.Some? then texts.normalize(f.location.value) else None;
            var category := if f.category.Some? then texts.normalize(f.category.value) else None;
            row in AdmittedRows(texts, t, f, now) <==>
              && (f.view == ActiveView ==>
                    && it.status == Open && it.freshness.inventory == Current
                    && (s.closingAt.Some? ==> now < s.closingAt.value))
              && (f.view == EndedView ==>
                    || it.status == Closed || it.status == Withdrawn
                    || (it.status == Open && s.closingAt.Some? && s.closingAt.value <= now))
              && (keyword.Some? ==>
                    || Mentions(texts.fold, it.metadata.title, keyword.value)
                    || (it.metadata.description.Some?
                        && Mentions(texts.fold, it.metadata.description.value, keyword.value)))
              && (location.Some? ==>
                    var place := if it.metadata.locationCanonical.Some? then it.metadata.locationCanonical
                                 else it.metadata.locationRaw;
                    place.Some? && Like.Folded(texts.fold, place.value) == location.value)
              && (category.Some? ==>
                    var known := if it.metadata.categoryCanonical.Some? then it.metadata.categoryCanonical
                                 else it.metadata.categoryRaw;
                    known.Some? && Like.Folded(texts.fold, known.value) == category.value)
              && (f.minimumPrice.Some? ==> s.currentBid.Some? && f.minimumPrice.value <= s.currentBid.value)
              && (f.maximumPrice.Some? ==> s.currentBid.Some? && s.currentBid.value <= f.maximumPrice.value)
              && (f.closingAfter.Some? ==> s.closingAt.Some? && f.closingAfter.value <= s.closingAt.value)
              && (f.closingBefore.Some? ==> s.closingAt.Some? && s.closingAt.value <= f.closingBefore.value)
  {
    var keyword := texts.Normalized(f.keyword);
    if keyword.Some? {
      Like.KeywordFindsSubstrings(texts.fold, keyword.value, row.item.metadata.title);
      if row.item.metadata.description.Some? {
        Like.KeywordFindsSubstrings(texts.fold, keyword.value, row.item.metadata.description.value);
      }
    }
  }

  // ---------------------------------------------------------------- order

  datatype Sort = ClosingSoon | ClosingLatest | PriceLow | PriceHigh | NewestSeen | MostBids

  function SortValue(sort: Sort, row: Row): Option<int> {
    match sort
    case ClosingSoon => row.snapshot.closingAt
    case ClosingLatest => row.snapshot.closingAt
    case PriceLow => row.snapshot.currentBid
    case PriceHigh => row.snapshot.currentBid
    case NewestSeen => Some(row.item.lastSeenAt)
    case MostBids => row.snapshot.bidCount
  }

  predicate Ascending(sort: Sort) {
    sort.ClosingSoon? || sort.PriceLow?
  }

  /** ORDER BY value, nulls last, then source ID ascending. */
  predicate Before(texts: Texts, sort: Sort, a: Row, b: Row) {
    var x, y := SortValue(sort, a), SortValue(sort, b);
    if x == y then texts.collates(a.item.sourceId, b.item.sourceId)
    else if x.None? then false
    else if y.None? then true
    else if Ascending(sort) then x.value < y.value
    else x.value > y.value
  }

  function SortedBy(texts: Texts, sort: Sort): (Row, Row) -> bool {
    (a, b) => Before(texts, sort, a, b)
  }

  function Codes(s: string): (codes: seq<int>)
    ensures |codes| == |s|
    ensures forall i | 0 <= i < |s| :: codes[i] == s[i] as int
  {
    seq(|s|, i requires 0 <= i < |s| => s[i] as int)
  }

  /** Code points give one such order. */
  lemma CodePointsCollate(fold: char -> string, normalize: string -> Option<string>)
    ensures Texts(fold, (a, b) => LexLess(Codes(a), Codes(b)), normalize).Valid()
  {
    forall a, b ensures !LexLess(Codes(a), Codes(a))
           && (a == b || LexLess(Codes(a), Codes(b)) || LexLess(Codes(b), Codes(a))) {
      LexTrichotomy(Codes(a), Codes(a));
      LexTrichotomy(Codes(a), Codes(b));
      if Codes(a) == Codes(b) {
        assert forall i | 0 <= i < |a| :: Codes(a)[i] == Codes(b)[i];
      }
    }
    forall a, b, c | LexLess(Codes(a), Codes(b)) && LexLess(Codes(b), Codes(c)) ensures LexLess(Codes(a), Codes(c)) {
      LexTransitive(Codes(a), Codes(b), Codes(c));
    }
  }

  /** Each of the six orders is strict and total on rows of distinct listings. */
  lemma SortIsTotal(texts: Texts, sort: Sort, rows: set<Row>)
    requires texts.Valid() && forall a, b | a in rows && b in rows && a.item.sourceId == b.item.sourceId :: a == b
    ensures OrdersTotally(SortedBy(texts, sort), rows)
  {
    forall a, b | a in rows && b in rows
      ensures !Before(texts, sort, a, a)
      ensures a != b ==> Before(texts, sort, a, b) || Before(texts, sort, b, a)
    {
    }
    forall a, b, c | a in rows && b in rows && c in rows && Before(texts, sort, a, b) && Before(texts, sort, b, c)
      ensures Before(texts, sort, a, c)
    {
    }
  }

  /** The column runs upwards along the rows, and rows without a value come last. */
  ghost predicate Rises(ordered: seq<Row>, column: Row -> Option<int>) {
    forall i, j | 0 <= i < j < |ordered| ::
      column(ordered[j]).Some? ==> column(ordered[i]).Some? && column(ordered[i]).value <= column(ordered[j]).value
  }

  ghost predicate Falls(ordered: seq<Row>, column: Row -> Option<int>) {
    forall i, j | 0 <= i < j < |ordered| ::
      column(ordered[j]).Some? ==> column(ordered[i]).Some? && column(ordered[i]).value >= column(ordered[j]).value
  }

  /** Rows with the same value are in the order of their source IDs. */
  ghost predicate TiesByListing(texts: Texts, ordered: seq<Row>, column: Row -> Option<int>) {
    forall i, j | 0 <= i < j < |ordered| && column(ordered[i]) == column(ordered[j]) ::
      texts.collates(ordered[i].item.sourceId, ordered[j].item.sourceId)
  }

  /** How the six orders run along the ordered rows. */
  lemma OrdersRun(texts: Texts, sort: Sort, rows: set<Row>, ordered: seq<Row>)
    requires Arranges(SortedBy(texts, sort), rows, ordered)
    ensures sort == ClosingSoon || sort == ClosingLatest ==>
              var closing := (row: Row) => row.snapshot.closingAt;
              && (if sort == ClosingSoon then Rises(ordered, closing) else Falls(ordered, closing))
              && TiesByListing(texts, ordered, closing)
    ensures sort == PriceLow || sort == PriceHigh ==>
              var bid := (row: Row) => row.snapshot.currentBid;
              && (if sort == PriceLow then Rises(ordered, bid) else Falls(ordered, bid))
              && TiesByListing(texts, ordered, bid)
    ensures sort == NewestSeen ==>
              var seen := (row: Row) => Some(row.item.lastSeenAt);
              Falls(ordered, seen) && TiesByListing(texts, ordered, seen)
    ensures sort == MostBids ==>
              var bids := (row: Row) => row.snapshot.bidCount;
              Falls(ordered, bids) && TiesByListing(texts, ordered, bids)
  {
    forall i, j | 0 <= i < j < |ordered| ensures Before(texts, sort, ordered[i], ordered[j]) {
      assert SortedBy(texts, sort)(ordered[i], ordered[j]);
    }
  }

  lemma RowsOfOneListingAgree(k: Keying, t: Tables, a: Row, b: Row)
    requires Consistent(k, t) && a in CurrentRows(t) && b in CurrentRows(t)
    requires a.item.sourceId == b.item.sourceId
    ensures a == b
  {
    var key := OriginOf(t, a);
    var row := EveryItemIsListedOnce(k, t, key.item);
  }

  // ---------------------------------------------------------------- pages

  /** For a fixed store, filter, order and request time: there is one ordered list of the admitted rows,
      each in it once; the reported pages put together are that list, and later pages are empty. */
  lemma PagesListEveryMatchOnce(k: Keying, t: Tables, texts: Texts, f: Filters, now: Time, sort: Sort,
                                pageSize: nat) returns (ordered: seq<Row>)
    requires Consistent(k, t) && texts.Valid() && pageSize >= 1
    ensures var rows := AdmittedRows(texts, t, f, now);
            && Arranges(SortedBy(texts, sort), rows, ordered)
            && (forall other | Arranges(SortedBy(texts, sort), rows, other) :: other == ordered)
            && |ordered| == |rows|
            && FirstPages(ordered, TotalPages(|rows|, pageSize), pageSize) == ordered
            && forall page | page >= 1 :: PageOf(ordered, page, pageSize) == [] <==> page > TotalPages(|rows|, pageSize)
  {
    var rows := AdmittedRows(texts, t, f, now);
    forall a, b | a in rows && b in rows && a.item.sourceId == b.item.sourceId ensures a == b {
      RowsOfOneListingAgree(k, t, a, b);
    }
    SortIsTotal(texts, sort, rows);
    var less := SortedBy(texts, sort);
    ordered := Arrangement(less, rows);
    forall other | Arranges(less, rows, other) ensures other == ordered {
      ArrangementIsUnique(less, rows, other, ordered);
    }
    forall page | page >= 1
      ensures PageOf(ordered, page, pageSize) == [] <==> page > TotalPages(|rows|, pageSize)
    {
      PagesPartition(ordered, pageSize, page);
    }
    PagesPartition(ordered, pageSize, 1);
  }
}
