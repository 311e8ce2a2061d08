/** From the pages of a run to what readers see of them: the current listing after a scrape. */
module Publication {
  import opened Wrappers
  import opened Records
  import opened Store
  import opened Integrity
  import opened Replay
  import opened Listings
  import opened SearchPages
  import opened Collecting
  import opened ScrapeCommand

  /** The store has seen the listing later than the record, or holds it closed against the record. */
  ghost predicate Overtaken(items: seq<Item>, r: Record) {
    exists i | 0 <= i < |items| :: items[i].sourceId == r.sourceId && (IsStale(items[i], r) || IsHeld(items[i], r))
  }

  lemma NotRefused(k: Keying, t: Tables, run: RunId, world: World, record: DetailRecord, observedAt: Time)
    requires Consistent(k, t) && run in t.runs && !Aborts(k, world, record, observedAt, t.items)
    ensures var converted := ConvertReconciledRecord(k, world, record, observedAt);
            converted.Success? && Persist(k, t, run, converted.value).Success?
  {
    RefusedExactlyWhen(k, t, run, ConvertReconciledRecord(k, world, record, observedAt).value);
  }

  /** The tables on which the last turn of a batch that was not aborted began. */
  lemma BeforeTurn(k: Keying, log: seq<History.Event>, run: RunId, world: World, records: seq<DetailRecord>, n: nat,
                   t: Tables) returns (before: Tables)
    requires k.Injective() && t == History.After(k, log) && Consistent(k, t) && run in t.runs && 0 < n <= |records|
    requires Stored(k, t, run, world, records, n).aborted.None?
    ensures before == History.After(k, log + OffersOf(k, run, world, records, n - 1))
    ensures Consistent(k, before) && run in before.runs
    ensures !Aborts(k, world, records[n - 1], world.clock(n - 1), before.items)
  {
    before := Stored(k, t, run, world, records, n - 1).tables;
    NotAbortedBefore(k, t, run, world, records, n);
    PassedAll(k, t, run, world, records, n - 1);
    StoredIsLogged(k, log, run, world, records, n - 1);
    StoredKeeps(k, t, run, world, records, n - 1);
    LastTurn(k, t, run, world, records, n);
  }

  /** The last turn of a batch that was not aborted is a call that succeeds. */
  lemma TurnIsAccepted(k: Keying, log: seq<History.Event>, run: RunId, world: World, records: seq<DetailRecord>, n: nat)
    requires k.Injective() && run in History.After(k, log).runs && 0 < n <= |records|
    requires Stored(k, History.After(k, log), run, world, records, n).aborted.None?
    ensures var converted := ConvertReconciledRecord(k, world, records[n - 1], world.clock(n - 1));
            && converted.Success?
            && Persist(k, History.After(k, log + OffersOf(k, run, world, records, n - 1)), run,
                       converted.value).Success?
  {
    History.ReachableIsConsistent(k, log);
    var before := BeforeTurn(k, log, run, world, records, n, History.After(k, log));
    NotRefused(k, before, run, world, records[n - 1], world.clock(n - 1));
  }

  lemma AcceptedOfTurn(k: Keying, log: seq<History.Event>, run: RunId, world: World, records: seq<DetailRecord>, n: nat,
                       sourceId: string)
    requires k.Injective() && run in History.After(k, log).runs && 0 < n <= |records|
    requires Stored(k, History.After(k, log), run, world, records, n).aborted.None?
    ensures var converted := ConvertReconciledRecord(k, world, records[n - 1], world.clock(n - 1));
            && converted.Success? && converted.value.sourceId == records[n - 1].detail.sourceId
            && History.Accepted(k, log + OffersOf(k, run, world, records, n), sourceId) ==
                 History.Accepted(k, log + OffersOf(k, run, world, records, n - 1), sourceId)
                   + if sourceId == records[n - 1].detail.sourceId then [converted.value] else []
  {
    TurnIsAccepted(k, log, run, world, records, n);
    var r := ConvertReconciledRecord(k, world, records[n - 1], world.clock(n - 1)).value;
    assert DetailIn(r).sourceId == r.sourceId;
    History.AcceptedNext(k, log + OffersOf(k, run, world, records, n - 1), run, r);
    OneMoreOffer(k, log, run, world, records, n);
  }

  lemma {:induction false} OneAddition(past: nat -> seq<Record>, n: nat, i: nat, r: Record)
    requires forall m: nat | m < n :: past(m + 1) == past(m) + if m == i then [r] else []
    ensures past(n) == past(0) + if i < n then [r] else []
  {
    if n == 0 {
    } else {
      OneAddition(past, n - 1, i, r);
      assert past(n - 1 + 1) == past(n - 1) + if n - 1 == i then [r] else [];
    }
  }

  lemma NotAborted(k: Keying, t: Tables, run: RunId, world: World, records: seq<DetailRecord>, m: nat, n: nat)
    requires m <= n <= |records| && Stored(k, t, run, world, records, n).aborted.None?
    ensures Stored(k, t, run, world, records, m).aborted.None?
  {
    if Stored(k, t, run, world, records, m).aborted.Some? {
      StoredStays(k, t, run, world, records, m, n);
    }
  }

  lemma TurnAdds(k: Keying, log: seq<History.Event>, run: RunId, world: World, records: seq<DetailRecord>, m: nat,
                 i: nat,
                 r: Record)
    requires k.Injective() && run in History.After(k, log).runs && m < |records| && i < |records|
    requires DistinctDetails(records) && ConvertReconciledRecord(k, world, records[i], world.clock(i)) == Success(r)
    requires Stored(k, History.After(k, log), run, world, records, |records|).aborted.None?
    ensures var sourceId := records[i].detail.sourceId;
            History.Accepted(k, log + OffersOf(k, run, world, records, m + 1), sourceId) ==
            History.Accepted(k, log + OffersOf(k, run, world, records, m), sourceId) + if m == i then [r] else []
  {
    NotAborted(k, History.After(k, log), run, world, records, m + 1, |records|);
    AcceptedOfTurn(k, log, run, world, records, m + 1, records[i].detail.sourceId);
  }

  /** A batch that was not aborted adds to the past of each listing just its own record. */
  lemma {:induction false} AcceptedOfBatch(k: Keying, log: seq<History.Event>, run: RunId, world: World,
                                           records: seq<DetailRecord>, i: nat, r: Record, past: nat -> seq<Record>)
    requires k.Injective() && run in History.After(k, log).runs && i < |records|
    requires DistinctDetails(records) && ConvertReconciledRecord(k, world, records[i], world.clock(i)) == Success(r)
    requires Stored(k, History.After(k, log), run, world, records, |records|).aborted.None?
    requires forall n: nat | n <= |records| ::
               past(n) == History.Accepted(k, log + OffersOf(k, run, world, records, n), records[i].detail.sourceId)
    ensures past(|records|) == past(0) + [r]
  {
    forall m: nat | m < |records| ensures past(m + 1) == past(m) + if m == i then [r] else [] {
      TurnAdds(k, log, run, world, records, m, i, r);
    }
    OneAddition(past, |records|, i, r);
  }

  lemma RunConverts(k: Keying, log: seq<History.Event>, run: RunId, world: World, records: seq<DetailRecord>, i: nat)
    returns (r: Record)
    requires k.Injective() && run in History.After(k, log).runs && i < |records|
    requires Stored(k, History.After(k, log), run, world, records, |records|).aborted.None?
    ensures ConvertReconciledRecord(k, world, records[i], world.clock(i)) == Success(r)
    ensures r.sourceId == records[i].detail.sourceId
  {
    NotAborted(k, History.After(k, log), run, world, records, i + 1, |records|);
    AcceptedOfTurn(k, log, run, world, records, i + 1, records[i].detail.sourceId);
    r := ConvertReconciledRecord(k, world, records[i], world.clock(i)).value;
  }

  lemma RunAdds(k: Keying, log: seq<History.Event>, run: RunId, world: World, records: seq<DetailRecord>, i: nat,
                r: Record)
    requires k.Injective() && run in History.After(k, log).runs && i < |records| && DistinctDetails(records)
    requires Stored(k, History.After(k, log), run, world, records, |records|).aborted.None?
    requires ConvertReconciledRecord(k, world, records[i], world.clock(i)) == Success(r)
    ensures History.Accepted(k, log + OffersOf(k, run, world, records, |records|), records[i].detail.sourceId) ==
              History.Accepted(k, log, records[i].detail.sourceId) + [r]
  {
    var past := (n: nat) =>
      if n <= |records| then
        History.Accepted(k, log + OffersOf(k, run, world, records, n), records[i].detail.sourceId)
      else [];
    AcceptedOfBatch(k, log, run, world, records, i, r, past);
    assert log + [] == log;
  }

  /** One more record: shown, unless it is stale or held; then the listing shows what it showed of the past. */
  lemma ShownOfPast(k: Keying, row: Row, rs: seq<Record>, r: Record)
    requires ShowsRow(k, row, rs + [r])
    ensures History.AppliedAt(rs + [r], |rs|) ==> History.ShowsContent(k, row.item, r) && row.snapshot == r.snapshot
    ensures !History.AppliedAt(rs + [r], |rs|) ==> ShowsRow(k, row, rs)
  {
    var all := rs + [r];
    var a: nat :| History.LastApplied(all, a) && History.ShowsContent(k, row.item, all[a])
        && row.snapshot == all[a].snapshot;
    if !History.AppliedAt(all, |rs|) {
      forall i: nat | i < |rs| ensures History.AppliedAt(all, i) == History.AppliedAt(rs, i) {
        History.VerdictsAreFinal(rs, r, i);
      }
      assert History.LastApplied(rs, a) && all[a] == rs[a];
    }
  }

  lemma PastDecides(k: Keying, log: seq<History.Event>, r: Record)
    requires k.Injective()
    ensures var rs := History.Accepted(k, log, r.sourceId);
            History.AppliedAt(rs + [r], |rs|) <==> !Overtaken(History.After(k, log).items, r)
  {
    var rs, items := History.Accepted(k, log, r.sourceId), History.After(k, log).items;
    History.RowsReflectHistory(k, log);
    forall i | 0 <= i < |items| && items[i].sourceId == r.sourceId
      ensures History.AppliedAt(rs + [r], |rs|) <==> !IsStale(items[i], r) && !IsHeld(items[i], r)
    {
      History.RowDecides(k, items[i], rs, r);
    }
    if rs != [] {
      assert Known(items, r.sourceId);
    }
  }

  lemma RowOfListing(k: Keying, log: seq<History.Event>, finish: History.Event, sourceId: string) returns (row: Row)
    requires k.Injective() && finish.Finished? && History.Accepted(k, log, sourceId) != []
    ensures var t := History.After(k, log + [finish]);
            && row in CurrentRows(t) && row.item.sourceId == sourceId
            && (forall other | other in CurrentRows(t) && other.item.sourceId == sourceId :: other == row)
            && ShowsRow(k, row, History.Accepted(k, log, sourceId))
  {
    var all := log + [finish];
    assert all[..|all| - 1] == log;
    assert History.Accepted(k, all, sourceId) == History.Accepted(k, log, sourceId);
    History.RowsReflectHistory(k, all);
    var items := History.After(k, all).items;
    assert Known(items, sourceId);
    var id: nat :| id < |items| && items[id].sourceId == sourceId;
    row := ListingShowsLastApplied(k, all, id);
  }

  /** After a run that persisted its batch, the current listing has one row for each of its records: it shows the
      record, unless the store had seen the listing later or holds it closed; then it shows the past. */
  lemma RunIsShown(k: Keying, log: seq<History.Event>, run: RunId, groups: seq<string>, keyword: string, world: World,
                   limit: nat, trace: Trace, at: Time, i: nat) returns (row: Row)
    requires k.Injective() && run in History.After(k, log).runs
    requires Enumerated(world.respond, groups, keyword, limit, trace)
    requires var records := Details(world, Kept(trace));
             i < |records| && Stored(k, History.After(k, log), run, world, records, |records|).aborted.None?
    ensures var t := History.After(k, log);
            var after := LeftBy(k, t, run, world, |groups|, limit, trace, at);
            var detail := Details(world, Kept(trace))[i];
            var converted := ConvertReconciledRecord(k, world, detail, world.clock(i));
            && converted.Success?
            && row in CurrentRows(after) && row.item.sourceId == detail.detail.sourceId
            && (forall other | other in CurrentRows(after) && other.item.sourceId == row.item.sourceId :: other == row)
            && (if Overtaken(t.items, converted.value) then
                  ShowsRow(k, row, History.Accepted(k, log, converted.value.sourceId))
                else History.ShowsContent(k, row.item, converted.value) && row.snapshot == converted.value.snapshot)
  {
    var records := Details(world, Kept(trace));
    var sourceId := records[i].detail.sourceId;
    CollectedIsValidBatch(world, Kept(trace), trace.offered);
    var r := RunConverts(k, log, run, world, records, i);
    RunAdds(k, log, run, world, records, i, r);
    PassedAll(k, History.After(k, log), run, world, records, |records|);
    var finish := LeftByIsLogged(k, log, run, world, |groups|, limit, trace, at);
    row := RowOfListing(k, log + OffersOf(k, run, world, records, |records|), finish, sourceId);
    ShownOfPast(k, row, History.Accepted(k, log, sourceId), r);
    PastDecides(k, log, r);
  }

  /** After a complete run this holds of every listing on its pages. */
  lemma CompleteRunIsShown(k: Keying, log: seq<History.Event>, run: RunId, groups: seq<string>, keyword: string,
                           world: World, limit: nat, trace: Trace, at: Time, sourceId: string)
    returns (i: nat, row: Row)
    requires k.Injective() && run in History.After(k, log).runs
    requires Enumerated(world.respond, groups, keyword, limit, trace)
    requires CompleteRun(k, History.After(k, log), run, world, |groups|, limit, trace) && sourceId in Listed(trace)
    ensures i < |Details(world, Kept(trace))|
    ensures var t := History.After(k, log);
            var after := LeftBy(k, t, run, world, |groups|, limit, trace, at);
            var converted := ConvertReconciledRecord(k, world, Details(world, Kept(trace))[i], world.clock(i));
            && converted.Success? && converted.value.sourceId == row.item.sourceId == sourceId
            && row in CurrentRows(after)
            && (forall other | other in CurrentRows(after) && other.item.sourceId == sourceId :: other == row)
            && (if Overtaken(t.items, converted.value) then ShowsRow(k, row, History.Accepted(k, log, sourceId))
                else History.ShowsContent(k, row.item, converted.value) && row.snapshot == converted.value.snapshot)
  {
    var records := Details(world, Kept(trace));
    AllOffered(trace.walks, trace.offered);
    IdsAreListed(world, Kept(trace), trace.offered, trace.walks);
    assert sourceId in DetailIds(records);
    i :| 0 <= i < |records| && DetailIds(records)[i] == sourceId;
    row := RunIsShown(k, log, run, groups, keyword, world, limit, trace, at, i);
  }

  /** What readers see of a search row and its detail page. */
  ghost predicate AgreesWithPages(row: Row, s: SearchRecord, d: Detail) {
    && row.item.metadata.title == d.title && row.item.metadata.description == d.description
    && row.item.metadata.categoryRaw == d.categoryRaw && row.item.metadata.pickupDetails == d.pickupDetails
    && row.item.metadata.imageUrls == d.imageUrls
    && row.snapshot.minimumBid == d.minimumBid && row.snapshot.bidCount == d.bidCount
    && row.snapshot.currentBid == (if d.currentBid.Some? then d.currentBid else s.currentBid)
    && row.snapshot.closingAt == (if d.closingAt.Some? then d.closingAt else s.closingAt)
    && (s.status == Closed || s.status == Withdrawn ==> row.item.status == s.status)
    && (s.status == Open || s.status == Unknown ==>
          row.item.status == if d.status == Unknown then s.status else d.status)
    && row.snapshot.status == row.item.status
  }

  /** The store saw the listing later than the record was observed. */
  ghost predicate SeenLater(items: seq<Item>, sourceId: string, at: Time) {
    exists i | 0 <= i < |items| :: items[i].sourceId == sourceId && at < items[i].lastSeenAt
  }

  /** The store holds the listing closed or withdrawn. */
  ghost predicate HoldsClosed(items: seq<Item>, sourceId: string) {
    exists i | 0 <= i < |items| ::
      items[i].sourceId == sourceId && (items[i].status == Closed || items[i].status == Withdrawn)
  }

  lemma ShownAsReconciled(k: Keying, world: World, s: SearchRecord, d: Detail, detail: DetailRecord, at: Time, row: Row)
    requires ReconcileSearchResult(s, d) == Success(detail)
    requires var converted := ConvertReconciledRecord(k, world, detail, at);
             && converted.Success? && History.ShowsContent(k, row.item, converted.value)
             && row.snapshot == converted.value.snapshot
    ensures AgreesWithPages(row, s, d)
  {
    ReconciliationIsExact(s, d);
    var r := ConvertReconciledRecord(k, world, detail, at).value;
    assert DetailIn(r) == detail.detail;
  }

  lemma OvertakenIs(items: seq<Item>, r: Record)
    ensures Overtaken(items, r) ==>
              || SeenLater(items, r.sourceId, r.observedAt)
              || (HoldsClosed(items, r.sourceId) && (r.snapshot.status == Open || r.snapshot.status == Unknown))
    ensures SeenLater(items, r.sourceId, r.observedAt) ==> Overtaken(items, r)
  {
    if i :| 0 <= i < |items| && items[i].sourceId == r.sourceId && (IsStale(items[i], r) || IsHeld(items[i], r)) {
      assert items[i].sourceId == r.sourceId;
    }
    if i :| 0 <= i < |items| && items[i].sourceId == r.sourceId && r.observedAt < items[i].lastSeenAt {
      assert IsStale(items[i], r);
    }
  }

  /** After a run that persisted its batch, readers see of every kept search row whose detail page was fetched what
      the two pages say, unless the store had seen the listing later, or holds it closed and the pages do not
      close it. In particular a closed or withdrawn search row is shown so, unless the store had seen it later. */
  lemma PagesAreShown(k: Keying, log: seq<History.Event>, run: RunId, groups: seq<string>, keyword: string,
                      world: World,
                      limit: nat, trace: Trace, at: Time, j: nat) returns (i: nat, row: Row)
    requires k.Injective() && run in History.After(k, log).runs
    requires Enumerated(world.respond, groups, keyword, limit, trace) && j < |Kept(trace)|
    requires world.detailOf(j).Success? && world.detailOf(j).value.sourceId == Kept(trace)[j].sourceId
    requires var records := Details(world, Kept(trace));
             Stored(k, History.After(k, log), run, world, records, |records|).aborted.None?
    ensures var s, d, items := Kept(trace)[j], world.detailOf(j).value, History.After(k, log).items;
            var after := LeftBy(k, History.After(k, log), run, world, |groups|, limit, trace, at);
            && i <= j && row in CurrentRows(after) && row.item.sourceId == s.sourceId
            && (forall other | other in CurrentRows(after) && other.item.sourceId == s.sourceId :: other == row)
            && (|| SeenLater(items, s.sourceId, world.clock(i)) || HoldsClosed(items, s.sourceId)
                || AgreesWithPages(row, s, d))
            && (s.status == Closed || s.status == Withdrawn ==>
                  SeenLater(items, s.sourceId, world.clock(i)) || AgreesWithPages(row, s, d))
  {
    var s, d, records := Kept(trace)[j], world.detailOf(j).value, Details(world, Kept(trace));
    ReconciliationIsExact(s, d);
    i := DetailOfResult(world, Kept(trace), j);
    row := RunIsShown(k, log, run, groups, keyword, world, limit, trace, at, i);
    var r := ConvertReconciledRecord(k, world, records[i], world.clock(i)).value;
    assert DetailIn(r) == records[i].detail;
    OvertakenIs(History.After(k, log).items, r);
    if !Overtaken(History.After(k, log).items, r) {
      ShownAsReconciled(k, world, s, d, records[i], world.clock(i), row);
    }
  }
}
