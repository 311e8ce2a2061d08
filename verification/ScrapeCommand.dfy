/** The persisted scrape command, from enumeration to the finished run. */
module ScrapeCommand {
  import opened Wrappers
  import opened Records
  import opened Urls
  import opened Store
  import opened Integrity
  import opened Replay
  import opened Repository
  import opened SearchPages
  import opened Collecting
  import Absence
  import History

  /** What a detail page says. */
  datatype Detail = Detail(
    sourceId: string,
    title: string,
    description: Option<string>,
    categoryRaw: Option<string>,
    locationRaw: Option<string>,
    pickupDetails: Option<string>,
    currentBid: Option<nat>,
    minimumBid: Option<nat>,
    bidCount: Option<nat>,
    closingAt: Option<Time>,
    statusRaw: Option<string>,
    status: Status,
    imageUrls: seq<string>)

  /** A detail page reconciled with its search result. */
  datatype DetailRecord = DetailRecord(url: string, detail: Detail)

  datatype Location = Location(canonical: string, qualifier: Option<string>, status: LocationStatus)

  /** What the command meets outside: search and detail pages, the clock, and the location tables. */
  datatype World = World(
    respond: seq<Request> -> Reply,
    detailOf: nat -> Result<Detail, ScrapeError>,
    clock: nat -> Time,
    normalize: string -> Location)

  // ---------------------------------------------------------------- details

  /** Prefers an explicit terminal state of the search row, then a known state of the detail page. */
  function ReconciledStatus(s: SearchRecord, d: Detail): (Option<string>, Status) {
    if Terminal(s.status) then (s.statusRaw, s.status)
    else if !d.status.Unknown? then (d.statusRaw, d.status)
    else (s.statusRaw, s.status)
  }

  function ReconcileSearchResult(s: SearchRecord, d: Detail): Result<DetailRecord, ScrapeError> {
    if s.sourceId != d.sourceId then Failure(ContractError) else
    var (statusRaw, status) := ReconciledStatus(s, d);
    Success(DetailRecord(s.url, d.(
      locationRaw := if d.locationRaw.Some? && d.locationRaw.value != "" then d.locationRaw else s.locationRaw,
      currentBid := Coalesce(d.currentBid, s.currentBid),
      closingAt := Coalesce(d.closingAt, s.closingAt),
      statusRaw := statusRaw,
      status := status)))
  }

  /** Fails exactly on another source ID. A terminal search row gives its own status; otherwise a known status of
      the detail page is taken, and the search row's if there is none. Bid, closing time and location are those
      of the detail page, if it has them, and the URL is that of the search row. */
  lemma ReconciliationIsExact(s: SearchRecord, d: Detail)
    ensures s.sourceId != d.sourceId <==> ReconcileSearchResult(s, d).Failure?
    ensures s.sourceId != d.sourceId ==> ReconcileSearchResult(s, d) == Failure(ContractError)
    ensures s.sourceId == d.sourceId ==>
              var made := ReconcileSearchResult(s, d).value;
              var r := made.detail;
              && made.url == s.url
              && (s.status == Closed || s.status == Withdrawn ==> r.status == s.status && r.statusRaw == s.statusRaw)
              && (s.status == Open || s.status == Unknown ==>
                    if d.status == Unknown then r.status == s.status && r.statusRaw == s.statusRaw
                    else r.status == d.status && r.statusRaw == d.statusRaw)
              && (d.currentBid.Some? ==> r.currentBid == d.currentBid)
              && (d.currentBid.None? ==> r.currentBid == s.currentBid)
              && (d.closingAt.Some? ==> r.closingAt == d.closingAt)
              && (d.closingAt.None? ==> r.closingAt == s.closingAt)
              && (d.locationRaw.Some? && d.locationRaw.value != "" ==> r.locationRaw == d.locationRaw)
              && (d.locationRaw.None? || d.locationRaw.value == "" ==> r.locationRaw == s.locationRaw)
              && r == d.(status := r.status, statusRaw := r.statusRaw, currentBid := r.currentBid,
                         closingAt := r.closingAt, locationRaw := r.locationRaw)
  {
  }

  function DetailFor(world: World, s: SearchRecord, i: nat): Result<DetailRecord, ScrapeError> {
    var page := world.detailOf(i);
    if page.Failure? then Failure(page.error) else ReconcileSearchResult(s, page.value)
  }

  /** The listings whose detail page was fetched and agreed, in order. */
  function Details(world: World, search: seq<SearchRecord>): seq<DetailRecord> {
    if search == [] then [] else
    var last := |search| - 1;
    var detail := DetailFor(world, search[last], last);
    Details(world, search[..last]) + if detail.Success? then [detail.value] else []
  }

  function DetailIds(records: seq<DetailRecord>): seq<string> {
    seq(|records|, i requires 0 <= i < |records| => records[i].detail.sourceId)
  }

  predicate DistinctDetails(records: seq<DetailRecord>) {
    forall i, j | 0 <= i < j < |records| ::
      records[i].detail.sourceId != records[j].detail.sourceId && records[i].url != records[j].url
  }

  ghost predicate ComesFrom(search: seq<SearchRecord>, d: DetailRecord) {
    exists i | 0 <= i < |search| :: search[i].sourceId == d.detail.sourceId && search[i].url == d.url
  }

  lemma {:induction false} DetailsComeFromSearch(world: World, search: seq<SearchRecord>)
    ensures forall d | d in Details(world, search) :: ComesFrom(search, d)
    ensures |Details(world, search)| <= |search|
  {
    if search == [] {
    } else {
      var init, last := search[..|search| - 1], search[|search| - 1];
      DetailsComeFromSearch(world, init);
      forall d | d in Details(world, search) ensures ComesFrom(search, d) {
        if d in Details(world, init) {
          var i :| 0 <= i < |init| && init[i].sourceId == d.detail.sourceId && init[i].url == d.url;
          assert search[i] == init[i];
        } else {
          assert search[|init|] == last;
        }
      }
    }
  }

  /** None is lost exactly when every detail page was fetched and has the source ID of its search row. */
  lemma {:induction false} AllDetailsExactlyWhen(world: World, search: seq<SearchRecord>)
    ensures |Details(world, search)| == |search| <==>
              forall j: nat | j < |search| ::
                world.detailOf(j).Success? && world.detailOf(j).value.sourceId == search[j].sourceId
  {
    if search == [] {
    } else {
      var init, last := search[..|search| - 1], |search| - 1;
      AllDetailsExactlyWhen(world, init);
      DetailsComeFromSearch(world, init);
      assert DetailFor(world, search[last], last).Success? <==>
               world.detailOf(last).Success? && world.detailOf(last).value.sourceId == search[last].sourceId;
    }
  }

  /** Which detail a search result became. */
  lemma {:induction false} DetailOfResult(world: World, search: seq<SearchRecord>, j: nat) returns (i: nat)
    requires j < |search| && DetailFor(world, search[j], j).Success?
    ensures i <= j && i < |Details(world, search)| && Details(world, search)[i] == DetailFor(world, search[j], j).value
  {
    var last := |search| - 1;
    if j == last {
      DetailsComeFromSearch(world, search[..last]);
      i := |Details(world, search[..last])|;
    } else {
      i := DetailOfResult(world, search[..last], j);
    }
  }

  /** Details keep the identities of the search results: none repeats. */
  lemma {:induction false} DetailsAreDistinct(world: World, search: seq<SearchRecord>)
    requires UniqueIds(search) && UniqueUrls(search)
    ensures DistinctDetails(Details(world, search))
  {
    if search == [] {
    } else {
      var init, last := search[..|search| - 1], search[|search| - 1];
      DetailsAreDistinct(world, init);
      DetailsComeFromSearch(world, init);
      forall d | d in Details(world, init)
        ensures d.detail.sourceId != last.sourceId && d.url != last.url
      {
        var i :| 0 <= i < |init| && init[i].sourceId == d.detail.sourceId && init[i].url == d.url;
        assert search[i] == init[i];
      }
    }
  }

  /** If none failed, all are there, in order. */
  lemma {:induction false} FullDetailsKeepOrder(world: World, search: seq<SearchRecord>)
    requires |Details(world, search)| == |search|
    ensures DetailIds(Details(world, search)) == Ids(search)
  {
    if search == [] {
    } else {
      var init, last := search[..|search| - 1], search[|search| - 1];
      DetailsComeFromSearch(world, init);
      FullDetailsKeepOrder(world, init);
      assert Ids(search) == Ids(init) + [last.sourceId];
      assert DetailIds(Details(world, search)) == DetailIds(Details(world, init)) + [last.sourceId];
    }
  }

  method FetchDetails(world: World, search: seq<SearchRecord>) returns (records: seq<DetailRecord>, failures: nat)
    ensures records == Details(world, search)
    ensures |records| + failures == |search|
  {
    records, failures := [], 0;
    for i := 0 to |search|
      invariant records == Details(world, search[..i]) && |records| + failures == i
    {
      assert search[..i + 1][..i] == search[..i];
      var detail := DetailFor(world, search[i], i);
      if detail.Success? {
        records := records + [detail.value];
      } else {
        failures := failures + 1;
      }
    }
    assert search[..|search|] == search;
  }

  // ---------------------------------------------------------------- persistence

  /** The detail that a record was made of. */
  function DetailIn(r: Record): Detail {
    var m, s := r.metadata, r.snapshot;
    Detail(r.sourceId, m.title, m.description, m.categoryRaw, m.locationRaw, m.pickupDetails, s.currentBid,
           s.minimumBid, s.bidCount, s.closingAt, r.statusRaw, s.status, m.imageUrls)
  }

  /** Every field of the detail survives; what is not in it is the normalised location, or nothing. */
  function ConvertReconciledRecord(k: Keying, world: World, r: DetailRecord,
                                   observedAt: Time): (result: Result<Record, ScrapeError>)
    ensures result.Success? <==>
              && ExtractQuoted(r.url).Some? && r.detail.sourceId != "" && r.detail.title != ""
              && forall image | image in r.detail.imageUrls :: k.publicUrl(image) == Some(image)
    ensures result.Success? ==>
              var record := result.value;
              && ValidRecord(k, record) && DetailIn(record) == r.detail
              && record.url == r.url && record.observedAt == observedAt
              && record.metadata.categoryCanonical.None? && record.snapshot.startingBid.None?
              && (if r.detail.locationRaw.None? then
                    record.metadata.locationCanonical.None? && record.metadata.locationQualifier.None?
                    && record.metadata.locationStatus.None?
                  else
                    record.metadata.locationCanonical.Some? && record.metadata.locationStatus.Some?
                    && Location(record.metadata.locationCanonical.value, record.metadata.locationQualifier,
                                record.metadata.locationStatus.value) == world.normalize(r.detail.locationRaw.value))
    ensures result.Failure? ==> result.error == ValueError
  {
    var disId := ExtractQuoted(r.url);
    if disId.None? then Failure(ValueError) else
    var d := r.detail;
    var place := if d.locationRaw.Some? then Some(world.normalize(d.locationRaw.value)) else None;
    var record := Record(
      d.sourceId, disId.value, r.url,
      Metadata(d.title, d.description, d.categoryRaw, None, d.locationRaw,
               if place.Some? then Some(place.value.canonical) else None,
               if place.Some? then place.value.qualifier else None,
               if place.Some? then Some(place.value.status) else None,
               d.pickupDetails, d.imageUrls),
      Snapshot(d.currentBid, d.minimumBid, None, d.bidCount, d.closingAt, d.status),
      d.statusRaw, observedAt);
    assert record.url == CanonicalUrl(record.disId);
    if ValidRecord(k, record) then Success(record) else Failure(ValueError)
  }

  /** Nothing but new rows and content: no existing row changed its freshness. */
  ghost predicate KeepsFreshness(before: Tables, after: Tables) {
    && |before.items| <= |after.items|
    && (forall i | 0 <= i < |before.items| ::
          && after.items[i].sourceId == before.items[i].sourceId
          && after.items[i].freshness == before.items[i].freshness)
    && (forall i | |before.items| <= i < |after.items| :: after.items[i].freshness == NEVER_RECONCILED)
  }

  lemma KnownStays(before: Tables, after: Tables, sourceId: string)
    requires KeepsFreshness(before, after) && Known(before.items, sourceId)
    ensures Known(after.items, sourceId)
  {
    var i: nat :| i < |before.items| && before.items[i].sourceId == sourceId;
    assert after.items[i].sourceId == sourceId;
  }

  lemma PersistStep(k: Keying, t: Tables, run: RunId, r: Record)
    requires Consistent(k, t) && k.Injective() && Persist(k, t, run, r).Success?
    ensures var after := Persist(k, t, run, r).value.0;
            Consistent(k, after) && KeepsFreshness(t, after) && Known(after.items, r.sourceId) && after.runs == t.runs
  {
    var after := Persist(k, t, run, r).value.0;
    var id := PersistHasEffect(k, t, run, r);
    EffectKeepsConsistent(k, t, run, r, id, after);
    EffectKeepsRows(k, t, run, r, id, after);
    ResolveIsExact(k, t, r);
    assert after.items[id].sourceId == r.sourceId;
    forall i | 0 <= i < |after.items|
      ensures after.items[i].freshness == if i < |t.items| then t.items[i].freshness else NEVER_RECONCILED
    {
      Absence.PersistKeepsFreshness(k, t, run, r, i);
    }
  }

  lemma KeepsFreshnessTransitive(a: Tables, b: Tables, c: Tables)
    requires KeepsFreshness(a, b) && KeepsFreshness(b, c)
    ensures KeepsFreshness(a, c)
  {
  }

  /** The record cannot be converted, or its public identity belongs to another listing. */
  ghost predicate Aborts(k: Keying, world: World, record: DetailRecord, observedAt: Time, items: seq<Item>) {
    var converted := ConvertReconciledRecord(k, world, record, observedAt);
    converted.Failure? || OwnedByAnother(items, converted.value)
  }

  function AbortError(k: Keying, world: World, record: DetailRecord, observedAt: Time): ScrapeError {
    if ConvertReconciledRecord(k, world, record, observedAt).Failure? then ValueError else BatchFailure
  }

  /** The tables after one record of the batch. */
  function StoredOne(k: Keying, t: Tables, run: RunId, world: World, record: DetailRecord, observedAt: Time): Tables {
    var converted := ConvertReconciledRecord(k, world, record, observedAt);
    if converted.Failure? then t else
    var outcome := Persist(k, t, run, converted.value);
    if outcome.Success? then outcome.value.0 else t
  }

  /** A batch: its tables, how many records it got past, and why it stopped, if it did. */
  datatype Batch = Batch(tables: Tables, passed: nat, aborted: Option<ScrapeError>)

  /** The batch after `n` turns, each record observed when its turn came. */
  ghost function Stored(k: Keying, t: Tables, run: RunId, world: World, records: seq<DetailRecord>, n: nat): Batch
    requires n <= |records|
    decreases n, 2
  {
    if n == 0 then Batch(t, 0, None) else StoredNext(k, t, run, world, records, n)
  }

  /** A batch that was aborted takes no more turns. */
  ghost function StoredNext(k: Keying, t: Tables, run: RunId, world: World, records: seq<DetailRecord>, n: nat): Batch
    requires 0 < n <= |records|
    decreases n, 1
  {
    var before := Stored(k, t, run, world, records, n - 1);
    if before.aborted.Some? then before else StoredTurn(k, t, run, world, records, n)
  }

  ghost function StoredTurn(k: Keying, t: Tables, run: RunId, world: World, records: seq<DetailRecord>, n: nat): Batch
    requires 0 < n <= |records|
    decreases n, 0
  {
    var before, record, at := Stored(k, t, run, world, records, n - 1), records[n - 1], world.clock(n - 1);
    if Aborts(k, world, record, at, before.tables.items) then before.(aborted := Some(AbortError(k, world, record, at)))
    else Batch(StoredOne(k, before.tables, run, world, record, at), before.passed + 1, None)
  }

  lemma StoredIs(k: Keying, t: Tables, run: RunId, world: World, records: seq<DetailRecord>, n: nat)
    requires 0 < n <= |records|
    ensures var before := Stored(k, t, run, world, records, n - 1);
            Stored(k, t, run, world, records, n) ==
              if before.aborted.Some? then before else StoredTurn(k, t, run, world, records, n)
  {
    assert Stored(k, t, run, world, records, n) == StoredNext(k, t, run, world, records, n);
  }

  lemma TurnIs(k: Keying, t: Tables, run: RunId, world: World, records: seq<DetailRecord>, n: nat)
    requires 0 < n <= |records|
    ensures var before, turn := Stored(k, t, run, world, records, n - 1), StoredTurn(k, t, run, world, records, n);
            if Aborts(k, world, records[n - 1], world.clock(n - 1), before.tables.items) then
              turn == before.(aborted := Some(AbortError(k, world, records[n - 1], world.clock(n - 1))))
            else turn.passed == before.passed + 1 && turn.aborted.None?
  {
  }

  /** A batch that was not aborted got past every record; another one stopped at the record that aborts it. */
  lemma {:induction false} StoredStopsRight(k: Keying, t: Tables, run: RunId, world: World,
                                            records: seq<DetailRecord>, n: nat)
    requires n <= |records|
    ensures var batch := Stored(k, t, run, world, records, n);
            if batch.aborted.None? then batch.passed == n
            else
              && batch.passed < n
              && Aborts(k, world, records[batch.passed], world.clock(batch.passed), batch.tables.items)
              && batch.aborted == Some(AbortError(k, world, records[batch.passed], world.clock(batch.passed)))
  {
    if n == 0 {
    } else {
      StoredStopsRight(k, t, run, world, records, n - 1);
      StoredIs(k, t, run, world, records, n);
      TurnIs(k, t, run, world, records, n);
    }
  }

  lemma {:induction false} StoredStays(k: Keying, t: Tables, run: RunId, world: World, records: seq<DetailRecord>,
                                       m: nat, n: nat)
    requires m <= n <= |records| && Stored(k, t, run, world, records, m).aborted.Some?
    ensures Stored(k, t, run, world, records, n) == Stored(k, t, run, world, records, m)
  {
    if m == n {
    } else {
      StoredStays(k, t, run, world, records, m, n - 1);
      StoredIs(k, t, run, world, records, n);
    }
  }

  /** What the turn of record `i` makes of the batch: its last one, or one more. */
  lemma TurnTaken(k: Keying, t: Tables, run: RunId, world: World, records: seq<DetailRecord>, i: nat, before: Tables)
    requires i < |records| && Stored(k, t, run, world, records, i) == Batch(before, i, None)
    ensures if Aborts(k, world, records[i], world.clock(i), before.items) then
              Stored(k, t, run, world, records, |records|) ==
                Batch(before, i, Some(AbortError(k, world, records[i], world.clock(i))))
            else
              Stored(k, t, run, world, records, i + 1) ==
                Batch(StoredOne(k, before, run, world, records[i], world.clock(i)), i + 1, None)
  {
    StoredIs(k, t, run, world, records, i + 1);
    if Aborts(k, world, records[i], world.clock(i), before.items) {
      StoredStays(k, t, run, world, records, i + 1, |records|);
    }
  }

  datatype Outcome = Saved(result: PersistResult) | Refused | Aborted(error: ScrapeError)

  /** An identity conflict, or a record that cannot be converted, aborts the batch; any other refusal is
      a failure of this record alone. */
  method PersistOne(repository: AuctionRepository, run: RunId, world: World, record: DetailRecord, observedAt: Time)
    returns (outcome: Outcome)
    requires repository.k.Injective() && Consistent(repository.k, repository.Contents())
    modifies repository
    ensures outcome.Saved? ==> Known(repository.items, record.detail.sourceId)
    ensures !outcome.Saved? ==> repository.Contents() == old(repository.Contents())
    ensures outcome.Aborted? <==> Aborts(repository.k, world, record, observedAt, old(repository.items))
    ensures outcome.Aborted? ==> outcome.error == AbortError(repository.k, world, record, observedAt)
    ensures run in repository.runs ==> !outcome.Refused?
    ensures repository.Contents() == StoredOne(repository.k, old(repository.Contents()), run, world, record, observedAt)
  {
    var converted := ConvertReconciledRecord(repository.k, world, record, observedAt);
    if converted.Failure? {
      return Aborted(ValueError);
    }
    ghost var before := repository.Contents();
    RefusedExactlyWhen(repository.k, before, run, converted.value);
    var result := repository.PersistReconciledRecord(run, converted.value);
    if result.Success? {
      PersistStep(repository.k, before, run, converted.value);
      return Saved(result.value);
    }
    return match result.error
      case IdentityConflict => Aborted(BatchFailure)
      case MultipleRows => Aborted(Unexpected)
      case _ => Refused;
  }

  ghost predicate AllKnown(items: seq<Item>, records: seq<DetailRecord>) {
    forall i | 0 <= i < |records| :: Known(items, records[i].detail.sourceId)
  }

  lemma AllKnownNext(before: Tables, after: Tables, records: seq<DetailRecord>, i: nat)
    requires KeepsFreshness(before, after) && i < |records|
    requires AllKnown(before.items, records[..i]) && Known(after.items, records[i].detail.sourceId)
    ensures AllKnown(after.items, records[..i + 1])
  {
    forall j | 0 <= j < i ensures Known(after.items, records[j].detail.sourceId) {
      assert records[..i][j] == records[j];
      KnownStays(before, after, records[j].detail.sourceId);
    }
  }

  lemma StoredOneKeeps(k: Keying, t: Tables, run: RunId, world: World, record: DetailRecord, observedAt: Time)
    requires k.Injective() && Consistent(k, t)
    ensures var after := StoredOne(k, t, run, world, record, observedAt);
            Consistent(k, after) && KeepsFreshness(t, after) && after.runs == t.runs
  {
    var converted := ConvertReconciledRecord(k, world, record, observedAt);
    if converted.Success? && Persist(k, t, run, converted.value).Success? {
      PersistStep(k, t, run, converted.value);
    }
  }

  /** A batch keeps the invariant and the freshness of every item, and adds no run. */
  lemma {:induction false} StoredKeeps(k: Keying, t: Tables, run: RunId, world: World, records: seq<DetailRecord>,
                                       n: nat)
    requires k.Injective() && Consistent(k, t) && n <= |records|
    ensures var after := Stored(k, t, run, world, records, n).tables;
            Consistent(k, after) && KeepsFreshness(t, after) && after.runs == t.runs
  {
    if n == 0 {
    } else {
      StoredKeeps(k, t, run, world, records, n - 1);
      StoredIs(k, t, run, world, records, n);
      var before := Stored(k, t, run, world, records, n - 1).tables;
      StoredOneKeeps(k, before, run, world, records[n - 1], world.clock(n - 1));
      KeepsFreshnessTransitive(t, before, StoredTurn(k, t, run, world, records, n).tables);
    }
  }

  /** One turn of the batch loop. */
  method PersistNth(repository: AuctionRepository, run: RunId, world: World, records: seq<DetailRecord>, i: nat,
                    ghost start: Tables) returns (outcome: Outcome)
    requires repository.k.Injective() && Consistent(repository.k, start) && i < |records|
    requires Stored(repository.k, start, run, world, records, i) == Batch(repository.Contents(), i, None)
    modifies repository
    ensures outcome.Aborted? ==>
              Stored(repository.k, start, run, world, records, |records|) ==
                Batch(repository.Contents(), i, Some(outcome.error))
    ensures !outcome.Aborted? ==>
              Stored(repository.k, start, run, world, records, i + 1) == Batch(repository.Contents(), i + 1, None)
    ensures outcome.Saved? && AllKnown(old(repository.items), records[..i]) ==>
              AllKnown(repository.items, records[..i + 1])
    ensures run in start.runs ==> !outcome.Refused?
  {
    StoredKeeps(repository.k, start, run, world, records, i);
    ghost var before := repository.Contents();
    outcome := PersistOne(repository, run, world, records[i], world.clock(i));
    StoredOneKeeps(repository.k, before, run, world, records[i], world.clock(i));
    if outcome.Saved? && AllKnown(before.items, records[..i]) {
      AllKnownNext(before, repository.Contents(), records, i);
    }
    TurnTaken(repository.k, start, run, world, records, i, before);
  }

  /** Persists the batch in order; nothing happens from the record on that aborts it. */
  method PersistRecords(repository: AuctionRepository, run: RunId, world: World, records: seq<DetailRecord>)
    returns (results: seq<PersistResult>, failures: nat, aborted: Option<ScrapeError>)
    requires repository.k.Injective() && Consistent(repository.k, repository.Contents())
    modifies repository
    ensures var batch := Stored(repository.k, old(repository.Contents()), run, world, records, |records|);
            && repository.Contents() == batch.tables && aborted == batch.aborted
            && |results| + failures == (if aborted == Some(BatchFailure) then batch.passed + 1 else batch.passed)
            && (run in old(repository.runs) ==> |results| == batch.passed)
    ensures aborted.None? && failures == 0 ==> AllKnown(repository.items, records)
    ensures Consistent(repository.k, repository.Contents())
    ensures KeepsFreshness(old(repository.Contents()), repository.Contents()) && repository.runs == old(repository.runs)
  {
    results, failures, aborted := [], 0, None;
    ghost var start := repository.Contents();
    StoredKeeps(repository.k, start, run, world, records, |records|);
    for i := 0 to |records|
      invariant Stored(repository.k, start, run, world, records, i) == Batch(repository.Contents(), i, None)
      invariant |results| + failures == i
      invariant run in start.runs ==> failures == 0
      invariant failures == 0 ==> AllKnown(repository.items, records[..i])
    {
      var outcome := PersistNth(repository, run, world, records, i, start);
      if outcome.Aborted? {
        aborted := Some(outcome.error);
        if outcome.error == BatchFailure {
          failures := failures + 1;
        }
        return;
      }
      if outcome.Saved? {
        results := results + [outcome.result];
      } else {
        failures := failures + 1;
      }
    }
    assert records[..|records|] == records;
  }

  lemma LastTurn(k: Keying, t: Tables, run: RunId, world: World, records: seq<DetailRecord>, n: nat)
    requires 0 < n <= |records| && Stored(k, t, run, world, records, n).aborted.None?
    ensures var before := Stored(k, t, run, world, records, n - 1);
            && !Aborts(k, world, records[n - 1], world.clock(n - 1), before.tables.items)
            && Stored(k, t, run, world, records, n).tables ==
                 StoredOne(k, before.tables, run, world, records[n - 1], world.clock(n - 1))
  {
    StoredIs(k, t, run, world, records, n);
  }

  lemma NotAbortedBefore(k: Keying, t: Tables, run: RunId, world: World, records: seq<DetailRecord>, n: nat)
    requires 0 < n <= |records| && Stored(k, t, run, world, records, n).aborted.None?
    ensures Stored(k, t, run, world, records, n - 1).aborted.None?
  {
    StoredIs(k, t, run, world, records, n);
  }

  lemma StoredOneKnows(k: Keying, t: Tables, run: RunId, world: World, record: DetailRecord, observedAt: Time)
    requires k.Injective() && Consistent(k, t) && run in t.runs && !Aborts(k, world, record, observedAt, t.items)
    ensures var after := StoredOne(k, t, run, world, record, observedAt);
            KeepsFreshness(t, after) && Known(after.items, record.detail.sourceId)
  {
    var converted := ConvertReconciledRecord(k, world, record, observedAt).value;
    RefusedExactlyWhen(k, t, run, converted);
    PersistStep(k, t, run, converted);
  }

  lemma LastTurnKnows(k: Keying, t: Tables, run: RunId, world: World, records: seq<DetailRecord>, n: nat)
    requires 0 < n <= |records| && Stored(k, t, run, world, records, n).aborted.None?
    requires var before := Stored(k, t, run, world, records, n - 1).tables;
             k.Injective() && Consistent(k, before) && run in before.runs && AllKnown(before.items, records[..n - 1])
    ensures AllKnown(Stored(k, t, run, world, records, n).tables.items, records[..n])
  {
    var before, after := Stored(k, t, run, world, records, n - 1).tables, Stored(k, t, run, world, records, n).tables;
    LastTurn(k, t, run, world, records, n);
    StoredOneKnows(k, before, run, world, records[n - 1], world.clock(n - 1));
    AllKnownNext(before, after, records, n - 1);
  }

  /** In a batch that was not aborted, every record of an existing run has its row. */
  lemma {:induction false} StoredKnowsAll(k: Keying, t: Tables, run: RunId, world: World, records: seq<DetailRecord>,
                                          n: nat)
    requires k.Injective() && Consistent(k, t) && run in t.runs && n <= |records|
    requires Stored(k, t, run, world, records, n).aborted.None?
    ensures AllKnown(Stored(k, t, run, world, records, n).tables.items, records[..n])
  {
    if n == 0 {
    } else {
      NotAbortedBefore(k, t, run, world, records, n);
      StoredKnowsAll(k, t, run, world, records, n - 1);
      StoredKeeps(k, t, run, world, records, n - 1);
      LastTurnKnows(k, t, run, world, records, n);
    }
  }

  // ---------------------------------------------------------------- the command

  /** What the enumeration counts, followed by how many details and rows came of it. */
  function Reported(groups: nat, limit: nat, trace: Trace, detailed: nat, persisted: nat, failures: nat): Coverage {
    var kept := |Kept(trace)|;
    Coverage(groups, |trace.walks|, kept, |trace.offered| - kept, kept, detailed, persisted, failures,
             |trace.walks| == groups && kept < limit)
  }

  function CoverageOf(c: Collection, detailed: nat, persisted: nat, failures: nat): Coverage {
    Coverage(c.expectedGroups, c.processedGroups, |c.records|, c.duplicates, |c.records|, detailed, persisted, failures,
             c.enumerationComplete)
  }

  /** The tables a run leaves that began with tables `t` and enumerated what `trace` shows: its records are
      persisted up to one that aborts the batch, which fails the run; otherwise the run succeeds exactly when
      no detail page was lost, and reports the listings it persisted. */
  ghost function LeftBy(k: Keying, t: Tables, run: RunId, world: World, groups: nat, limit: nat, trace: Trace,
                        at: Time): Tables {
    var records := Details(world, Kept(trace));
    var batch := Stored(k, t, run, world, records, |records|);
    match batch.aborted
    case Some(error) =>
      var (persisted, failures) := if error == BatchFailure then (batch.passed, 1) else (0, 0);
      Finish(batch.tables, run, Failed, Reported(groups, limit, trace, |records|, persisted, failures), [], at)
    case None =>
      Finish(batch.tables, run, if |records| == |Kept(trace)| then Succeeded else Partial,
             Reported(groups, limit, trace, |records|, |records|, 0), DetailIds(records), at)
  }

  lemma LeftByIs(k: Keying, t: Tables, run: RunId, world: World, groups: seq<string>, limit: nat, trace: Trace,
                 c: Collection, at: Time)
    requires Collects(c, groups, limit, trace)
    ensures var records := Details(world, c.records);
            var batch := Stored(k, t, run, world, records, |records|);
            LeftBy(k, t, run, world, |groups|, limit, trace, at) ==
            match batch.aborted
            case Some(error) =>
              Finish(batch.tables, run, Failed,
                     if error == BatchFailure then CoverageOf(c, |records|, batch.passed, 1)
                     else CoverageOf(c, |records|, 0, 0),
                     [], at)
            case None =>
              Finish(batch.tables, run, if |records| == |c.records| then Succeeded else Partial,
                     CoverageOf(c, |records|, |records|, 0), DetailIds(records), at)
  {
  }

  /** The duplicate checks on a batch. */
  predicate ValidBatch(records: seq<DetailRecord>) {
    DistinctDetails(records)
  }

  /** What a finished run did to the items that were there before it, given everything its pages listed. */
  ghost predicate AgedRightly(before: seq<Item>, after: seq<Item>, aging: bool, listed: set<string>, at: Time) {
    && |before| <= |after|
    && forall i | 0 <= i < |before| ::
         var was, now := before[i].freshness, after[i].freshness;
         && after[i].sourceId == before[i].sourceId
         && (!aging || !after[i].status.Open? ==> now == was)
         && (aging && after[i].status.Open? ==>
               now == if after[i].sourceId in listed then Refreshed(was, at) else Aged(was, at))
  }

  function Listed(trace: Trace): set<string> {
    IdSet(RecordsOfWalks(trace.walks))
  }

  /** The run ages exactly when its enumeration walked every product group below the cap and every record
      got its detail page and its row. */
  ghost predicate CompleteRun(k: Keying, t: Tables, run: RunId, world: World, groups: nat, limit: nat, trace: Trace) {
    var records := Details(world, Kept(trace));
    && |trace.walks| == groups && |Kept(trace)| < limit
    && |records| == |Kept(trace)|
    && Stored(k, t, run, world, records, |records|).aborted.None?
  }

  /** What an ageing run guarantees: it reports each listing of every page of every walk once, fewer than
      the cap, and each has a row. */
  ghost predicate Exhaustive(limit: nat, trace: Trace, ids: seq<string>, items: seq<Item>) {
    && |ids| < limit
    && (forall i, j | 0 <= i < j < |ids| :: ids[i] != ids[j])
    && (forall id :: id in ids <==> id in Listed(trace))
    && forall id | id in Listed(trace) :: Known(items, id)
  }

  lemma KnownAfterFinish(t: Tables, run: RunId, status: RunStatus, coverage: Coverage, ids: seq<string>, at: Time,
                         id: string)
    requires status != Running && Known(t.items, id)
    ensures Known(Finish(t, run, status, coverage, ids, at).items, id)
  {
    var i: nat :| i < |t.items| && t.items[i].sourceId == id;
    assert Finish(t, run, status, coverage, ids, at).items[i].sourceId == id;
  }

  lemma ListedAreKnown(t: Tables, run: RunId, status: RunStatus, coverage: Coverage, records: seq<DetailRecord>,
                       at: Time,
                       listed: set<string>)
    requires status != Running && AllKnown(t.items, records)
    requires forall id :: id in DetailIds(records) <==> id in listed
    ensures forall id | id in listed :: Known(Finish(t, run, status, coverage, DetailIds(records), at).items, id)
  {
    forall id | id in listed ensures Known(Finish(t, run, status, coverage, DetailIds(records), at).items, id) {
      var i :| 0 <= i < |records| && DetailIds(records)[i] == id;
      KnownAfterFinish(t, run, status, coverage, DetailIds(records), at, id);
    }
  }

  lemma FinishAgesRightly(before: Tables, t: Tables, run: RunId, status: RunStatus, coverage: Coverage,
                          ids: seq<string>, at: Time, listed: set<string>)
    requires status != Running && KeepsFreshness(before, t)
    requires Ages(status, coverage) ==> forall id :: id in ids <==> id in listed
    ensures AgedRightly(before.items, Finish(t, run, status, coverage, ids, at).items, Ages(status, coverage), listed,
                        at)
  {
  }

  lemma FinishedTables(k: Keying, t: Tables, stored: Tables, run: RunId, coverage: Coverage, status: RunStatus,
                       records: seq<DetailRecord>, at: Time, listed: set<string>)
    requires Consistent(k, stored) && KeepsFreshness(t, stored) && AllKnown(stored.items, records) && status != Running
    requires Ages(status, coverage) ==> forall id :: id in DetailIds(records) <==> id in listed
    ensures var after := Finish(stored, run, status, coverage, DetailIds(records), at);
            && Consistent(k, after)
            && (Ages(status, coverage) ==> forall id | id in listed :: Known(after.items, id))
            && AgedRightly(t.items, after.items, Ages(status, coverage), listed, at)
  {
    FinishKeepsConsistent(k, stored, run, status, coverage, DetailIds(records), at);
    FinishAgesRightly(t, stored, run, status, coverage, DetailIds(records), at, listed);
    if Ages(status, coverage) {
      ListedAreKnown(stored, run, status, coverage, records, at, listed);
    }
  }

  lemma IdsAreIdSet(records: seq<SearchRecord>)
    ensures forall id :: id in Ids(records) <==> id in IdSet(records)
  {
    forall id ensures id in Ids(records) <==> id in IdSet(records) {
      if id in IdSet(records) {
        var i :| 0 <= i < |records| && records[i].sourceId == id;
        assert Ids(records)[i] == id;
      }
    }
  }

  /** When every detail succeeded and the enumeration offered every page, the reported IDs are the listed ones. */
  lemma IdsAreListed(world: World, search: seq<SearchRecord>, offered: seq<SearchRecord>, walks: seq<seq<Visit>>)
    requires search == FirstOccurrences(offered) && offered == RecordsOfWalks(walks)
    requires |Details(world, search)| == |search|
    ensures var ids := DetailIds(Details(world, search));
            && (forall i, j | 0 <= i < j < |ids| :: ids[i] != ids[j])
            && (forall id :: id in ids <==> id in IdSet(RecordsOfWalks(walks)))
            && |ids| == |search|
  {
    FirstOccurrencesKeepIds(offered);
    FullDetailsKeepOrder(world, search);
    IdsAreIdSet(search);
  }

  /** The part after a batch that nothing aborted. */
  lemma FinishedOutcome(groups: seq<string>, keyword: string, k: Keying, t: Tables, run: RunId, world: World,
                        limit: nat, trace: Trace, at: Time)
    requires k.Injective() && Consistent(k, t) && run in t.runs
    requires Enumerated(world.respond, groups, keyword, limit, trace)
    requires var records := Details(world, Kept(trace)); Stored(k, t, run, world, records, |records|).aborted.None?
    ensures var after, records := LeftBy(k, t, run, world, |groups|, limit, trace, at), Details(world, Kept(trace));
            && Consistent(k, after) && run in after.runs
            && (Ages(after.runs[run].status, after.runs[run].coverage)
                <==> CompleteRun(k, t, run, world, |groups|, limit, trace))
            && (CompleteRun(k, t, run, world, |groups|, limit, trace) ==>
                 Exhaustive(limit, trace, DetailIds(records), after.items))
            && AgedRightly(t.items, after.items, CompleteRun(k, t, run, world, |groups|, limit, trace), Listed(trace),
                           at)
  {
    var records := Details(world, Kept(trace));
    var stored := Stored(k, t, run, world, records, |records|).tables;
    StoredKeeps(k, t, run, world, records, |records|);
    StoredKnowsAll(k, t, run, world, records, |records|);
    assert records[..|records|] == records;
    if |trace.walks| == |groups| && |Kept(trace)| < limit && |records| == |Kept(trace)| {
      AllOffered(trace.walks, trace.offered);
      IdsAreListed(world, Kept(trace), trace.offered, trace.walks);
    }
    FinishedTables(k, t, stored, run, Reported(|groups|, limit, trace, |records|, |records|, 0),
                   if |records| == |Kept(trace)| then Succeeded else Partial, records, at, Listed(trace));
  }

  /** What a run that began with tables `t` comes to after a successful enumeration: it fails exactly when
      a record aborts the batch, and else succeeds exactly when no detail page was lost. It ages the
      inventory exactly when it is complete. Then it is exhaustive, and the items it counts as absent are
      exactly the open ones that no page listed. Any other run leaves every freshness alone. */
  lemma RunOutcome(groups: seq<string>, keyword: string, k: Keying, t: Tables, run: RunId, world: World, limit: nat,
                   trace: Trace, at: Time)
    requires k.Injective() && Consistent(k, t) && run in t.runs
    requires Enumerated(world.respond, groups, keyword, limit, trace)
    ensures var after, records := LeftBy(k, t, run, world, |groups|, limit, trace, at), Details(world, Kept(trace));
            && Consistent(k, after) && run in after.runs && after.runs[run].finishedAt == Some(at)
            && var row := after.runs[run];
            && (row.status == Failed <==> Stored(k, t, run, world, records, |records|).aborted.Some?)
            && (row.status == Succeeded <==> row.status != Failed && |records| == |Kept(trace)|)
            && (row.status == Partial <==> row.status != Failed && |records| != |Kept(trace)|)
            && (Ages(row.status, row.coverage) <==> CompleteRun(k, t, run, world, |groups|, limit, trace))
            && (Ages(row.status, row.coverage) ==> Exhaustive(limit, trace, DetailIds(records), after.items))
            && AgedRightly(t.items, after.items, Ages(row.status, row.coverage), Listed(trace), at)
  {
    var records := Details(world, Kept(trace));
    var batch := Stored(k, t, run, world, records, |records|);
    StoredKeeps(k, t, run, world, records, |records|);
    DetailsComeFromSearch(world, Kept(trace));
    if batch.aborted.Some? {
      var (persisted, failures) := if batch.aborted.value == BatchFailure then (batch.passed, 1) else (0, 0);
      var coverage := Reported(|groups|, limit, trace, |records|, persisted, failures);
      FinishKeepsConsistent(k, batch.tables, run, Failed, coverage, [], at);
      FinishAgesRightly(t, batch.tables, run, Failed, coverage, [], at, Listed(trace));
    } else {
      FinishedOutcome(groups, keyword, k, t, run, world, limit, trace, at);
    }
  }

  // ---------------------------------------------------------------- the repository calls of a run

  /** Some log of repository calls on an empty database leads to these tables. */
  ghost predicate Reachable(k: Keying, t: Tables) {
    exists log: seq<History.Event> :: t == History.After(k, log)
  }

  /** The calls of the first `n` turns of a batch; a record that cannot be converted makes none. */
  function OffersOf(k: Keying, run: RunId, world: World, records: seq<DetailRecord>, n: nat): seq<History.Event>
    requires n <= |records|
  {
    if n == 0 then [] else
    var converted := ConvertReconciledRecord(k, world, records[n - 1], world.clock(n - 1));
    OffersOf(k, run, world, records, n - 1) + if converted.Success? then [History.Offered(run, converted.value)] else []
  }

  lemma StoredOneIsCall(k: Keying, log: seq<History.Event>, run: RunId, world: World, record: DetailRecord,
                        observedAt: Time)
    ensures var converted := ConvertReconciledRecord(k, world, record, observedAt);
            StoredOne(k, History.After(k, log), run, world, record, observedAt) ==
            History.After(k, log + if converted.Success? then [History.Offered(run, converted.value)] else [])
  {
    var converted := ConvertReconciledRecord(k, world, record, observedAt);
    if converted.Success? {
      History.AfterOneMore(k, log, History.Offered(run, converted.value));
    } else {
      assert log + [] == log;
    }
  }

  lemma OneMoreOffer(k: Keying, log: seq<History.Event>, run: RunId, world: World, records: seq<DetailRecord>, n: nat)
    requires 0 < n <= |records|
    ensures var converted := ConvertReconciledRecord(k, world, records[n - 1], world.clock(n - 1));
            log + OffersOf(k, run, world, records, n) ==
            log + OffersOf(k, run, world, records, n - 1)
              + if converted.Success? then [History.Offered(run, converted.value)] else []
  {
  }

  lemma TurnIsCall(k: Keying, log: seq<History.Event>, run: RunId, world: World, records: seq<DetailRecord>, n: nat,
                   before: Tables)
    requires 0 < n <= |records| && before == History.After(k, log + OffersOf(k, run, world, records, n - 1))
    ensures StoredOne(k, before, run, world, records[n - 1], world.clock(n - 1)) ==
              History.After(k, log + OffersOf(k, run, world, records, n))
  {
    StoredOneIsCall(k, log + OffersOf(k, run, world, records, n - 1), run, world, records[n - 1], world.clock(n - 1));
    OneMoreOffer(k, log, run, world, records, n);
  }

  lemma AbortKeeps(k: Keying, t: Tables, run: RunId, world: World, records: seq<DetailRecord>, n: nat)
    requires 0 < n <= |records| && Stored(k, t, run, world, records, n).aborted.Some?
    ensures var before, batch := Stored(k, t, run, world, records, n - 1), Stored(k, t, run, world, records, n);
            batch.tables == before.tables && batch.passed == before.passed
  {
    StoredIs(k, t, run, world, records, n);
  }

  /** Record `i` takes the tables to the next in line. */
  ghost predicate LinesUp(k: Keying, run: RunId, world: World, records: seq<DetailRecord>, line: nat -> Tables, i: nat)
    requires i < |records|
  {
    StoredOne(k, line(i), run, world, records[i], world.clock(i)) == line(i + 1)
  }

  lemma PassedAll(k: Keying, t: Tables, run: RunId, world: World, records: seq<DetailRecord>, n: nat)
    requires n <= |records| && Stored(k, t, run, world, records, n).aborted.None?
    ensures Stored(k, t, run, world, records, n).passed == n
  {
    StoredStopsRight(k, t, run, world, records, n);
  }

  lemma StepsAlong(k: Keying, t: Tables, run: RunId, world: World, records: seq<DetailRecord>, n: nat,
                   line: nat -> Tables)
    requires 0 < n <= |records| && LinesUp(k, run, world, records, line, n - 1)
    requires var before := Stored(k, t, run, world, records, n - 1);
             before.passed <= n - 1 && before.tables == line(before.passed)
    ensures var batch := Stored(k, t, run, world, records, n); batch.passed <= n && batch.tables == line(batch.passed)
  {
    if Stored(k, t, run, world, records, n).aborted.Some? {
      AbortKeeps(k, t, run, world, records, n);
    } else {
      NotAbortedBefore(k, t, run, world, records, n);
      PassedAll(k, t, run, world, records, n);
      PassedAll(k, t, run, world, records, n - 1);
      LastTurn(k, t, run, world, records, n);
    }
  }

  lemma {:induction false} StoredFollows(k: Keying, t: Tables, run: RunId, world: World, records: seq<DetailRecord>,
                                         n: nat, line: nat -> Tables)
    requires n <= |records| && t == line(0) && forall i: nat | i < |records| :: LinesUp(k, run, world, records, line, i)
    ensures var batch := Stored(k, t, run, world, records, n); batch.passed <= n && batch.tables == line(batch.passed)
  {
    if n == 0 {
    } else {
      StoredFollows(k, t, run, world, records, n - 1, line);
      StepsAlong(k, t, run, world, records, n, line);
    }
  }

  lemma LineFollows(k: Keying, log: seq<History.Event>, run: RunId, world: World, records: seq<DetailRecord>, i: nat,
                    line: nat -> Tables)
    requires i < |records| && line(i) == History.After(k, log + OffersOf(k, run, world, records, i))
    requires line(i + 1) == History.After(k, log + OffersOf(k, run, world, records, i + 1))
    ensures LinesUp(k, run, world, records, line, i)
  {
    TurnIsCall(k, log, run, world, records, i + 1, line(i));
  }

  lemma StoredFollowsLog(k: Keying, log: seq<History.Event>, t: Tables, run: RunId, world: World,
                         records: seq<DetailRecord>, n: nat, line: nat -> Tables)
    requires n <= |records| && t == line(0)
    requires forall i: nat | i <= |records| :: line(i) == History.After(k, log + OffersOf(k, run, world, records, i))
    ensures var batch := Stored(k, t, run, world, records, n); batch.passed <= n && batch.tables == line(batch.passed)
  {
    forall i: nat | i < |records| ensures LinesUp(k, run, world, records, line, i) {
      LineFollows(k, log, run, world, records, i, line);
    }
    StoredFollows(k, t, run, world, records, n, line);
  }

  /** The tables of a batch are those after one call for each record that it got past. */
  lemma StoredIsLogged(k: Keying, log: seq<History.Event>, run: RunId, world: World, records: seq<DetailRecord>, n: nat)
    requires n <= |records|
    ensures var batch := Stored(k, History.After(k, log), run, world, records, n);
            batch.passed <= n && batch.tables == History.After(k, log + OffersOf(k, run, world, records, batch.passed))
  {
    var line := (i: nat) => History.After(k, log + if i <= |records| then OffersOf(k, run, world, records, i) else []);
    assert log + [] == log;
    StoredFollowsLog(k, log, History.After(k, log), run, world, records, n, line);
  }

  /** The calls of a run after its start: one for each record that its batch got past, and the finish. */
  lemma LeftByIsLogged(k: Keying, log: seq<History.Event>, run: RunId, world: World, groups: nat, limit: nat,
                       trace: Trace, at: Time) returns (finish: History.Event)
    ensures finish.Finished? && finish.run == run && finish.at == at && finish.status != Running
    ensures var records := Details(world, Kept(trace));
            var batch := Stored(k, History.After(k, log), run, world, records, |records|);
            && batch.passed <= |records|
            && (finish.status == Failed <==> batch.aborted.Some?)
            && finish.ids == (if batch.aborted.Some? then [] else DetailIds(records))
            && LeftBy(k, History.After(k, log), run, world, groups, limit, trace, at) ==
                 History.After(k, log + OffersOf(k, run, world, records, batch.passed) + [finish])
  {
    var records := Details(world, Kept(trace));
    var batch := Stored(k, History.After(k, log), run, world, records, |records|);
    StoredIsLogged(k, log, run, world, records, |records|);
    finish := match batch.aborted
      case Some(error) =>
        var (persisted, failures) := if error == BatchFailure then (batch.passed, 1) else (0, 0);
        History.Finished(run, Failed, Reported(groups, limit, trace, |records|, persisted, failures), [], at)
      case None =>
        History.Finished(run, if |records| == |Kept(trace)| then Succeeded else Partial,
                         Reported(groups, limit, trace, |records|, |records|, 0), DetailIds(records), at);
    History.AfterOneMore(k, log + OffersOf(k, run, world, records, batch.passed), finish);
  }

  lemma StartIsReachable(k: Keying, log: seq<History.Event>, t: Tables, run: RunId, scheduled: bool, at: Time)
    requires t == History.After(k, log) && run !in t.runs
    ensures Start(t, run, scheduled, at) == History.After(k, log + [History.Started(run, scheduled, at)])
  {
    History.AfterOneMore(k, log, History.Started(run, scheduled, at));
  }

  lemma FailureIsReachable(k: Keying, t: Tables, run: RunId, coverage: Coverage, at: Time)
    requires Reachable(k, t)
    ensures Reachable(k, Finish(t, run, Failed, coverage, [], at))
  {
    var log :| t == History.After(k, log);
    History.AfterOneMore(k, log, History.Finished(run, Failed, coverage, [], at));
  }

  lemma LeftByIsReachable(k: Keying, t: Tables, run: RunId, world: World, groups: nat, limit: nat, trace: Trace,
                          at: Time)
    requires Reachable(k, t)
    ensures Reachable(k, LeftBy(k, t, run, world, groups, limit, trace, at))
  {
    var log :| t == History.After(k, log);
    var finish := LeftByIsLogged(k, log, run, world, groups, limit, trace, at);
  }

  /** Whatever holds after every log of calls holds of the tables that a run leaves. */
  lemma RunIsReachable(k: Keying, t: Tables, run: RunId, scheduled: bool, startedAt: Time, world: World, groups: nat,
                       limit: nat, trace: Trace, at: Time)
    requires run !in t.runs
    ensures var started := Start(t, run, scheduled, startedAt);
            Reachable(k, t) ==>
              && Reachable(k, Finish(started, run, Failed, NO_COVERAGE, [], at))
              && Reachable(k, LeftBy(k, started, run, world, groups, limit, trace, at))
  {
    if log :| t == History.After(k, log) {
      StartIsReachable(k, log, t, run, scheduled, startedAt);
      FailureIsReachable(k, Start(t, run, scheduled, startedAt), run, NO_COVERAGE, at);
      LeftByIsReachable(k, Start(t, run, scheduled, startedAt), run, world, groups, limit, trace, at);
    }
  }

  /** A failed run is recorded and never ages anything. */
  method FailRun(repository: AuctionRepository, run: RunId, coverage: Coverage, finishedAt: Time) returns (exit: nat)
    requires run in repository.runs && Consistent(repository.k, repository.Contents())
    modifies repository
    ensures exit == 1 && run in repository.runs
    ensures repository.runs[run].status == Failed && repository.runs[run].finishedAt == Some(finishedAt)
    ensures Consistent(repository.k, repository.Contents()) && repository.items == old(repository.items)
    ensures repository.Contents() == Finish(old(repository.Contents()), run, Failed, coverage, [], finishedAt)
  {
    FinishKeepsConsistent(repository.k, repository.Contents(), run, Failed, coverage, [], finishedAt);
    var finished := repository.FinishScrapeRun(run, Failed, coverage, [], finishedAt);
    return 1;
  }

  /** The batch checks never fail on what the enumeration and the detail loop deliver. */
  lemma CollectedIsValidBatch(world: World, search: seq<SearchRecord>, offered: seq<SearchRecord>)
    requires search == FirstOccurrences(offered) && Agree(offered)
    ensures ValidBatch(Details(world, search))
  {
    FirstOccurrencesKeepIds(offered);
    KeptUrlsAreUnique(offered);
    DetailsAreDistinct(world, search);
  }

  /** The command after a successful enumeration. */
  method SaveAndFinish(repository: AuctionRepository, world: World, groups: seq<string>, limit: nat, run: RunId,
                       c: Collection, ghost trace: Trace, finishedAt: Time)
    returns (exit: nat)
    requires run in repository.runs && Collects(c, groups, limit, trace) && Agree(trace.offered)
    requires repository.k.Injective() && Consistent(repository.k, repository.Contents())
    modifies repository
    ensures repository.Contents() ==
              LeftBy(repository.k, old(repository.Contents()), run, world, |groups|, limit, trace, finishedAt)
    ensures run in repository.runs
    ensures exit == match repository.runs[run].status case Succeeded => 0 case Partial => 2 case _ => 1
  {
    var records, detailFailures := FetchDetails(world, c.records);
    CollectedIsValidBatch(world, c.records, trace.offered);
    if !ValidBatch(records) {
      assert false;
    }
    StoredStopsRight(repository.k, repository.Contents(), run, world, records, |records|);
    LeftByIs(repository.k, repository.Contents(), run, world, groups, limit, trace, c, finishedAt);
    var results, persistenceFailures, aborted := PersistRecords(repository, run, world, records);
    var coverage := CoverageOf(c, |records|, |results|, persistenceFailures);
    if aborted.Some? {
      if aborted.value != BatchFailure {
        coverage := CoverageOf(c, |records|, 0, 0);
      }
      exit := FailRun(repository, run, coverage, finishedAt);
      return;
    }
    var failures := detailFailures + persistenceFailures;
    var finished := repository.FinishScrapeRun(run, if failures > 0 then Partial else Succeeded, coverage,
                                               DetailIds(records), finishedAt);
    exit := if failures > 0 then 2 else 0;
  }

  /** `scrape --persist`: enumerate, fetch details, persist, finish the run. Exit code 0 is success, 1 a
      failed run, 2 a run with failed listings.

      If the search form cannot be prepared or the enumeration breaks off, nothing changes but the run's own
      row. Otherwise the enumeration is as `Enumerated` says, and the run comes to what `RunOutcome` says. */
  method Scrape(repository: AuctionRepository, world: World, groups: Option<seq<string>>, keyword: string, limit: nat,
                run: RunId, scheduled: bool, startedAt: Time, finishedAt: Time)
    returns (exit: nat, ghost trace: Trace)
    requires limit >= 1 && run !in repository.runs
    requires repository.k.Injective() && Consistent(repository.k, repository.Contents())
    modifies repository
    ensures Consistent(repository.k, repository.Contents())
    ensures run in repository.runs && repository.runs[run].finishedAt == Some(finishedAt)
    ensures exit == match repository.runs[run].status case Succeeded => 0 case Partial => 2 case _ => 1
    ensures Reachable(repository.k, old(repository.Contents())) ==> Reachable(repository.k, repository.Contents())
    ensures var started := Start(old(repository.Contents()), run, scheduled, startedAt);
            if groups.None? || Broke(world.respond, groups.value, keyword, limit, trace) then
              repository.Contents() == Finish(started, run, Failed, NO_COVERAGE, [], finishedAt)
            else
              && Enumerated(world.respond, groups.value, keyword, limit, trace)
              && repository.Contents() == LeftBy(repository.k, started, run, world, |groups.value|, limit, trace,
                                                 finishedAt)
    ensures var started := Start(old(repository.Contents()), run, scheduled, startedAt);
            var aging := Ages(repository.runs[run].status, repository.runs[run].coverage);
            && (aging <==> groups.Some? && !Broke(world.respond, groups.value, keyword, limit, trace)
                           && CompleteRun(repository.k, started, run, world, |groups.value|, limit, trace))
            && (aging ==> Exhaustive(limit, trace, DetailIds(Details(world, Kept(trace))), repository.items))
            && AgedRightly(old(repository.items), repository.items, aging, Listed(trace), finishedAt)
  {
    trace := UNTRACED;
    ghost var before := repository.Contents();
    StartKeepsConsistent(repository.k, repository.Contents(), run, scheduled, startedAt);
    repository.StartScrapeRun(run, scheduled, startedAt);
    if groups.None? {
      RunIsReachable(repository.k, before, run, scheduled, startedAt, world, 0, limit, trace, finishedAt);
      exit := FailRun(repository, run, NO_COVERAGE, finishedAt);
      return;
    }
    var collected, seen := CollectSearchRecords(world.respond, limit, groups.value, keyword);
    trace := seen;
    RunIsReachable(repository.k, before, run, scheduled, startedAt, world, |groups.value|, limit, trace, finishedAt);
    if collected.Failure? {
      exit := FailRun(repository, run, NO_COVERAGE, finishedAt);
      return;
    }
    RunOutcome(groups.value, keyword, repository.k, repository.Contents(), run, world, limit, trace, finishedAt);
    exit := SaveAndFinish(repository, world, groups.value, limit, run, collected.value, trace, finishedAt);
  }
}
