/** The write side: a class whose methods insert and update rows step by step. */
module Repository {
  import opened Wrappers
  import opened Records
  import opened Store

  class AuctionRepository {
    const k: Keying
    var items: seq<Item>
    var observations: Observations
    var aliases: map<string, LocationAlias>
    var runs: map<RunId, ScrapeRun>

    ghost function Contents(): Tables
      reads this
    {
      Tables(items, observations, aliases, runs)
    }

    constructor (k: Keying)
      ensures this.k == k && Contents() == EMPTY
    {
      this.k := k;
      items, observations, aliases, runs := [], map[], map[], map[];
    }

    /** A run ID is a new UUID. */
    method StartScrapeRun(run: RunId, scheduled: bool, startedAt: Time)
      requires run !in runs
      modifies this`runs
      ensures Contents() == Start(old(Contents()), run, scheduled, startedAt)
    {
      runs := runs[run := ScrapeRun(scheduled, startedAt, startedAt, None, Running, Pending, NO_COVERAGE)];
    }

    /** Two updates, one after the other: the listed open rows, then the other open rows. */
    method ReconcileCompleteInventory(ids: seq<string>, completedAt: Time)
      modifies this`items
      ensures items == Reconciled(old(items), ids, completedAt)
    {
      var before := items;
      items := seq(|before|, i requires 0 <= i < |before| =>
        if before[i].status.Open? && before[i].sourceId in ids then
          before[i].(freshness := Freshness(Some(completedAt), 0, Current, None, None))
        else before[i]);
      var refreshed := items;
      items := seq(|refreshed|, i requires 0 <= i < |refreshed| =>
        if refreshed[i].status.Open? && refreshed[i].sourceId !in ids then
          refreshed[i].(freshness := Aged(refreshed[i].freshness, completedAt))
        else refreshed[i]);
    }

    /** Refuses a running status; otherwise writes the run row and, for a complete success, ages the inventory. */
    method FinishScrapeRun(run: RunId, status: RunStatus, coverage: Coverage, ids: seq<string>, finishedAt: Time)
      returns (finished: bool)
      modifies this`runs, this`items
      ensures finished <==> status != Running
      ensures Contents() == if status == Running then old(Contents())
                            else Finish(old(Contents()), run, status, coverage, ids, finishedAt)
    {
      if status == Running {
        return false;
      }
      if run in runs {
        runs := runs[run := runs[run].(finishedAt := Some(finishedAt), status := status,
                                       completion := coverage.CompletionStatus(), coverage := coverage)];
      }
      if status == Succeeded && coverage.CompletionStatus() == Complete {
        ReconcileCompleteInventory(ids, finishedAt);
      }
      return true;
    }

    method InsertObservation(id: nat, run: RunId, r: Record) returns (inserted: Result<bool, PersistError>)
      modifies this`observations
      ensures match Store.InsertObservation(k, old(Contents()), id, run, r)
              case Success((after, isNew)) => inserted == Success(isNew) && observations == after
              case Failure(e) => inserted == Failure(e) && observations == old(observations)
    {
      var key := KeyOf(k, id, r);
      if key in observations {
        return Success(false);
      }
      if run !in runs {
        return Failure(IntegrityViolation);
      }
      observations := observations[key := Observation(run, r.snapshot, r.observedAt)];
      return Success(true);
    }

    method RecordLocationAlias(r: Record)
      modifies this`aliases
      ensures aliases == RecordAlias(k, old(aliases), r)
    {
      if r.metadata.locationRaw.None? || r.metadata.locationCanonical.None? {
        return;
      }
      var raw, canonical, at := r.metadata.locationRaw.value, r.metadata.locationCanonical.value, r.observedAt;
      var known := r.metadata.locationStatus != Some(Unrecognised);
      var key := k.aliasKey(raw);
      if key in aliases {
        aliases := aliases[key := aliases[key].(canonical := canonical, qualifier := r.metadata.locationQualifier,
                                                known := known, lastSeenAt := at, updatedAt := at)];
      } else {
        aliases := aliases[key := LocationAlias(raw, canonical, r.metadata.locationQualifier, known, at, at, at, at)];
      }
    }

    method InsertItem(run: RunId, r: Record) returns (result: Result<PersistResult, PersistError>)
      modifies this`items, this`observations, this`aliases
      ensures match PersistNew(k, old(Contents()), run, r)
              case Success((after, flags)) => result == Success(flags) && Contents() == after
              case Failure(e) => result == Failure(e)
    {
      var id := |items|;
      var row := NewItem(k, r);
      if Duplicates(items, id, row) {
        return Failure(IntegrityViolation);
      }
      items := items + [row];
      var inserted := InsertObservation(id, run, r);
      if inserted.Failure? {
        return Failure(inserted.error);
      }
      RecordLocationAlias(r);
      return Success(PersistResult(true, false, inserted.value));
    }

    method RecordNonterminalHistoryAfterClosure(id: nat, run: RunId, r: Record)
      returns (inserted: Result<bool, PersistError>)
      modifies this`observations
      ensures LatestHashIs(old(observations), id, k.observationHash(r.snapshot)) ==>
                inserted == Success(false) && observations == old(observations)
      ensures !LatestHashIs(old(observations), id, k.observationHash(r.snapshot)) ==>
                match Store.InsertObservation(k, old(Contents()), id, run, r)
                case Success((after, isNew)) => inserted == Success(isNew) && observations == after
                case Failure(e) => inserted == Failure(e) && observations == old(observations)
    {
      if LatestHashIs(observations, id, k.observationHash(r.snapshot)) {
        return Success(false);
      }
      inserted := InsertObservation(id, run, r);
    }

    /** A closed item stays closed: the record adds history and may move the public document. */
    method HoldItem(id: nat, run: RunId, r: Record) returns (result: Result<PersistResult, PersistError>)
      requires id < |items|
      modifies this`items, this`observations
      ensures match PersistHeld(k, old(Contents()), id, run, r)
              case Success((after, flags)) => result == Success(flags) && Contents() == after
              case Failure(e) => result == Failure(e)
    {
      var identityChanged := items[id].disId != r.disId || items[id].url != r.url;
      var inserted := RecordNonterminalHistoryAfterClosure(id, run, r);
      if inserted.Failure? {
        return Failure(inserted.error);
      }
      var row := items[id].(disId := r.disId,
                            url := r.url,
                            lastSeenAt := r.observedAt,
                            lastChangedAt := if identityChanged then r.observedAt else items[id].lastChangedAt,
                            updatedAt := r.observedAt);
      if Duplicates(items, id, row) {
        return Failure(IntegrityViolation);
      }
      items := items[id := row];
      return Success(PersistResult(false, identityChanged, inserted.value));
    }

    method UpdateItem(id: nat, run: RunId, r: Record) returns (result: Result<PersistResult, PersistError>)
      requires id < |items|
      modifies this`items, this`observations, this`aliases
      ensures match PersistUpdate(k, old(Contents()), id, run, r)
              case Success((after, flags)) => result == Success(flags) && Contents() == after
              case Failure(e) => result == Failure(e)
    {
      var existing := items[id];
      var observationChanged := existing.observationHash != k.observationHash(r.snapshot);
      var changed := Changed(k, existing, r);
      var row := UpdatedItem(k, existing, r);
      if Duplicates(items, id, row) {
        return Failure(IntegrityViolation);
      }
      items := items[id := row];
      var inserted := Success(false);
      if observationChanged {
        inserted := InsertObservation(id, run, r);
        if inserted.Failure? {
          return Failure(inserted.error);
        }
      }
      RecordLocationAlias(r);
      return Success(PersistResult(false, changed, inserted.value));
    }

    method PersistRecord(run: RunId, r: Record) returns (result: Result<PersistResult, PersistError>)
      requires ValidRecord(k, r)
      modifies this
      ensures match Persist(k, old(Contents()), run, r)
              case Success((after, flags)) => result == Success(flags) && Contents() == after
              case Failure(e) => result == Failure(e)
    {
      var existing := SelectBySource(items, r.sourceId);
      if existing.Failure? {
        return Failure(existing.error);
      }
      var conflicting := SelectByIdentity(items, r.disId, r.url);
      if conflicting.Failure? {
        return Failure(conflicting.error);
      }
      if conflicting.value.Some? && items[conflicting.value.value].sourceId != r.sourceId {
        return Failure(IdentityConflict);
      }
      if existing.value.None? {
        result := InsertItem(run, r);
        return;
      }
      var id := existing.value.value;
      if r.observedAt < items[id].lastSeenAt {
        var inserted := InsertObservation(id, run, r);
        return if inserted.Failure? then Failure(inserted.error)
               else Success(PersistResult(false, false, inserted.value));
      }
      if Terminal(items[id].status) && !Terminal(r.snapshot.status) {
        result := HoldItem(id, run, r);
        return;
      }
      result := UpdateItem(id, run, r);
    }

    /** One transaction: a refused record leaves the tables as they were. */
    method PersistReconciledRecord(run: RunId, r: Record) returns (result: Result<PersistResult, PersistError>)
      modifies this
      ensures match Persist(k, old(Contents()), run, r)
              case Success((after, flags)) => result == Success(flags) && Contents() == after
              case Failure(e) => result == Failure(e) && Contents() == old(Contents())
    {
      if !ValidRecord(k, r) {
        return Failure(ValidationFailed);
      }
      var savedItems, savedObservations, savedAliases, savedRuns := items, observations, aliases, runs;
      result := PersistRecord(run, r);
      if result.Failure? {
        items, observations, aliases, runs := savedItems, savedObservations, savedAliases, savedRuns;
      }
    }
  }
}
