/** What every repository step keeps: unique identities, a consistent history, ordered times. */
module Integrity {
  import opened Wrappers
  import opened Records
  import opened Store

  // ---------------------------------------------------------------- the invariant

  ghost predicate IdentitiesDistinct(items: seq<Item>) {
    forall i, j | 0 <= i < j < |items| ::
      && items[i].sourceId != items[j].sourceId
      && items[i].disId != items[j].disId
      && items[i].url != items[j].url
  }

  /** Closure, and the order of an item's times. */
  ghost predicate ItemOk(it: Item) {
    && it.url == CanonicalUrl(it.disId)
    && it.createdAt == it.firstSeenAt <= it.lastChangedAt <= it.lastSeenAt == it.updatedAt
    && (it.closedAt.Some? <==> Terminal(it.status))
    && (it.closedAt.Some? ==> it.firstSeenAt <= it.closedAt.value <= it.lastChangedAt)
  }

  ghost predicate ItemsOk(items: seq<Item>) {
    forall i | 0 <= i < |items| :: ItemOk(items[i])
  }

  ghost predicate RowsOk(items: seq<Item>) {
    IdentitiesDistinct(items) && ItemsOk(items)
  }

  ghost predicate MetadataHashed(k: Keying, items: seq<Item>) {
    forall i | 0 <= i < |items| :: items[i].metadataHash == k.metadataHash(items[i].metadata)
  }

  ghost predicate ObservationOk(k: Keying, t: Tables, key: ObservationKey)
    requires key in t.observations
  {
    && key.item < |t.items|
    && key.observedAt <= t.items[key.item].lastSeenAt
    && key.hash == k.observationHash(t.observations[key].snapshot)
    && t.observations[key].createdAt == key.observedAt
    && t.observations[key].run in t.runs
  }

  ghost predicate HistoryOk(k: Keying, t: Tables) {
    forall key | key in t.observations :: ObservationOk(k, t, key)
  }

  /** The observation `key` carries the current hash, and the status, of item `id`. */
  ghost predicate Carries(t: Tables, id: nat, key: ObservationKey)
    requires id < |t.items|
  {
    && key in t.observations
    && key.item == id
    && key.hash == t.items[id].observationHash
    && t.observations[key].snapshot.status == t.items[id].status
  }

  ghost predicate Recorded(t: Tables, id: nat)
    requires id < |t.items|
  {
    exists key :: Carries(t, id, key)
  }

  ghost predicate CurrentRecorded(t: Tables) {
    forall id | 0 <= id < |t.items| :: Recorded(t, id)
  }

  ghost predicate Consistent(k: Keying, t: Tables) {
    && RowsOk(t.items)
    && MetadataHashed(k, t.items)
    && HistoryOk(k, t)
    && CurrentRecorded(t)
  }

  // ---------------------------------------------------------------- the lookups

  /** The identity of the record belongs to an item with another source ID. */
  ghost predicate OwnedByAnother(items: seq<Item>, r: Record) {
    exists i | 0 <= i < |items| ::
      items[i].sourceId != r.sourceId && (items[i].disId == r.disId || items[i].url == r.url)
  }

  ghost predicate Known(items: seq<Item>, sourceId: string) {
    exists i | 0 <= i < |items| :: items[i].sourceId == sourceId
  }

  /** Neither lookup ever meets two rows, and they fail exactly on an invalid record or a taken identity. */
  lemma ResolveIsExact(k: Keying, t: Tables, r: Record)
    requires RowsOk(t.items)
    ensures Resolve(k, t, r).Failure? <==> !ValidRecord(k, r) || OwnedByAnother(t.items, r)
    ensures Resolve(k, t, r).Failure? ==>
              Resolve(k, t, r).error == if ValidRecord(k, r) then IdentityConflict else ValidationFailed
    ensures Resolve(k, t, r).Success? ==> (Resolve(k, t, r).value.Some? <==> Known(t.items, r.sourceId))
    ensures Resolve(k, t, r).Success? && Resolve(k, t, r).value.Some? ==>
              && Resolve(k, t, r).value.value < |t.items|
              && t.items[Resolve(k, t, r).value.value].sourceId == r.sourceId
  {
    if ValidRecord(k, r) {
      forall i | 0 <= i < |t.items|
        ensures t.items[i].url == r.url <==> t.items[i].disId == r.disId
      {
        assert ItemOk(t.items[i]);
        CanonicalUrlIsInjective(t.items[i].disId, r.disId);
      }
    }
  }

  lemma SelectBySourceFinds(t: Tables, id: nat)
    requires IdentitiesDistinct(t.items) && id < |t.items|
    ensures SelectBySource(t.items, t.items[id].sourceId) == Success(Some(id))
  {
  }

  // ---------------------------------------------------------------- uniqueness of writes

  /** A write that `Resolve` let through never breaks a unique constraint. */
  lemma AcceptedIdentityIsFree(k: Keying, t: Tables, r: Record, id: nat, row: Item)
    requires RowsOk(t.items)
    requires row.sourceId == r.sourceId && row.disId == r.disId && row.url == r.url
    requires Resolve(k, t, r) == Success(if id < |t.items| then Some(id) else None)
    ensures !Duplicates(t.items, id, row)
    ensures id < |t.items| ==> IdentitiesDistinct(t.items[id := row])
    ensures id == |t.items| ==> IdentitiesDistinct(t.items + [row])
  {
    ResolveIsExact(k, t, r);
    assert !OwnedByAnother(t.items, r);
  }

  // ---------------------------------------------------------------- steps keep the invariant

  lemma NewItemOk(k: Keying, r: Record)
    requires ValidRecord(k, r)
    ensures ItemOk(NewItem(k, r))
  {
  }

  /** Closure is absorbing, `closedAt` is written once, and the times stay ordered. */
  lemma ItemAfterOk(k: Keying, it: Item, r: Record)
    requires ItemOk(it) && ValidRecord(k, r)
    ensures ItemOk(ItemAfter(k, it, r))
    ensures ItemAfter(k, it, r).lastSeenAt == if r.observedAt < it.lastSeenAt then it.lastSeenAt else r.observedAt
    ensures Terminal(it.status) ==> Terminal(ItemAfter(k, it, r).status)
    ensures it.closedAt.Some? ==> ItemAfter(k, it, r).closedAt == it.closedAt
    ensures ItemAfter(k, it, r).firstSeenAt == it.firstSeenAt
    ensures ItemAfter(k, it, r).freshness == it.freshness
  {
  }

  /** Rows that keep hash and status stay recorded while history only grows. */
  lemma StillRecorded(t: Tables, after: Tables, id: nat)
    requires id < |t.items| && id < |after.items| && Recorded(t, id)
    requires after.items[id].observationHash == t.items[id].observationHash
    requires after.items[id].status == t.items[id].status
    requires forall key | key in t.observations ::
               key in after.observations && after.observations[key] == t.observations[key]
    ensures Recorded(after, id)
  {
    var key :| Carries(t, id, key);
    assert Carries(after, id, key);
  }

  /** The record brings its item a hash that is not the current one. */
  ghost predicate NewSnapshot(k: Keying, t: Tables, id: nat, r: Record) {
    id < |t.items| ==>
      && !IsStale(t.items[id], r)
      && !IsHeld(t.items[id], r)
      && t.items[id].observationHash != k.observationHash(r.snapshot)
  }

  /** What an accepted record may change: the row at `id`, which it creates or turns into its successor,
      and its own observation under that row. */
  ghost predicate Effect(k: Keying, t: Tables, run: RunId, r: Record, id: nat, after: Tables) {
    && Resolve(k, t, r) == Success(if id < |t.items| then Some(id) else None)
    && id <= |t.items|
    && after.items == (if id < |t.items| then t.items[id := ItemAfter(k, t.items[id], r)]
                       else t.items + [NewItem(k, r)])
    && after.runs == t.runs
    && (|| after.observations == t.observations
        || (run in t.runs && KeyOf(k, id, r) !in t.observations
            && after.observations == t.observations[KeyOf(k, id, r) := Observation(run, r.snapshot, r.observedAt)]))
    && (NewSnapshot(k, t, id, r) ==> KeyOf(k, id, r) in after.observations)
  }

  lemma StaleHasEffect(k: Keying, t: Tables, run: RunId, r: Record, id: nat)
    requires id < |t.items| && Resolve(k, t, r) == Success(Some(id))
    ensures IsStale(t.items[id], r) && PersistStale(k, t, id, run, r).Success? ==>
              Effect(k, t, run, r, id, PersistStale(k, t, id, run, r).value.0)
  {
    assert t.items[id := t.items[id]] == t.items;
  }

  lemma HeldHasEffect(k: Keying, t: Tables, run: RunId, r: Record, id: nat)
    requires id < |t.items| && Resolve(k, t, r) == Success(Some(id))
    ensures !IsStale(t.items[id], r) && IsHeld(t.items[id], r) && PersistHeld(k, t, id, run, r).Success? ==>
              Effect(k, t, run, r, id, PersistHeld(k, t, id, run, r).value.0)
  {
  }

  lemma UpdateHasEffect(k: Keying, t: Tables, run: RunId, r: Record, id: nat)
    requires id < |t.items| && Resolve(k, t, r) == Success(Some(id))
    ensures !IsStale(t.items[id], r) && !IsHeld(t.items[id], r) && PersistUpdate(k, t, id, run, r).Success? ==>
              Effect(k, t, run, r, id, PersistUpdate(k, t, id, run, r).value.0)
  {
  }

  lemma PersistHasEffect(k: Keying, t: Tables, run: RunId, r: Record) returns (id: nat)
    requires Persist(k, t, run, r).Success?
    ensures Effect(k, t, run, r, id, Persist(k, t, run, r).value.0)
  {
    var found := Resolve(k, t, r).value;
    id := if found.Some? then found.value else |t.items|;
    if id < |t.items| {
      StaleHasEffect(k, t, run, r, id);
      HeldHasEffect(k, t, run, r, id);
      UpdateHasEffect(k, t, run, r, id);
    }
  }

  lemma EffectKeepsRows(k: Keying, t: Tables, run: RunId, r: Record, id: nat, after: Tables)
    requires RowsOk(t.items) && Effect(k, t, run, r, id, after)
    ensures RowsOk(after.items)
    ensures id < |after.items| && after.items[id].sourceId == r.sourceId
    ensures r.observedAt <= after.items[id].lastSeenAt
    ensures forall i | 0 <= i < |t.items| :: after.items[i].lastSeenAt >= t.items[i].lastSeenAt
  {
    ResolveIsExact(k, t, r);
    AcceptedIdentityIsFree(k, t, r, id, if id < |t.items| then UpdatedItem(k, t.items[id], r) else NewItem(k, r));
    NewItemOk(k, r);
    if id < |t.items| {
      ItemAfterOk(k, t.items[id], r);
      if IsStale(t.items[id], r) {
        assert after.items == t.items;
      } else {
        AcceptedIdentityIsFree(k, t, r, id, ItemAfter(k, t.items[id], r));
      }
    }
  }

  lemma EffectKeepsHistory(k: Keying, t: Tables, run: RunId, r: Record, id: nat, after: Tables)
    requires HistoryOk(k, t) && Effect(k, t, run, r, id, after)
    requires id < |after.items| && r.observedAt <= after.items[id].lastSeenAt
    requires forall i | 0 <= i < |t.items| :: after.items[i].lastSeenAt >= t.items[i].lastSeenAt
    ensures HistoryOk(k, after)
    ensures forall key | key in t.observations ::
              key in after.observations && after.observations[key] == t.observations[key]
  {
    forall key | key in after.observations ensures ObservationOk(k, after, key) {
      if key in t.observations {
        assert ObservationOk(k, t, key);
      }
    }
  }

  /** The row a record is written to stays, or becomes, recorded: `after` is what the call left. */
  lemma CurrentIsRecorded(k: Keying, t: Tables, after: Tables, r: Record, id: nat)
    requires Consistent(k, t) && k.Injective() && HistoryOk(k, after)
    requires id <= |t.items| && id < |after.items|
    requires after.items[id] == if id < |t.items| then ItemAfter(k, t.items[id], r) else NewItem(k, r)
    requires forall key | key in t.observations ::
               key in after.observations && after.observations[key] == t.observations[key]
    requires NewSnapshot(k, t, id, r) ==> KeyOf(k, id, r) in after.observations
    ensures Recorded(after, id)
  {
    if id < |t.items| && (IsStale(t.items[id], r) || IsHeld(t.items[id], r)) {
      StillRecorded(t, after, id);
    } else if id < |t.items| && t.items[id].observationHash == k.observationHash(r.snapshot) {
      assert Recorded(t, id);
      var key :| Carries(t, id, key);
      assert ObservationOk(k, t, key);
      assert t.observations[key].snapshot == r.snapshot;
      assert Carries(after, id, key);
    } else {
      var key := KeyOf(k, id, r);
      assert ObservationOk(k, after, key);
      assert Carries(after, id, key);
    }
  }

  lemma EffectKeepsConsistent(k: Keying, t: Tables, run: RunId, r: Record, id: nat, after: Tables)
    requires Consistent(k, t) && k.Injective() && Effect(k, t, run, r, id, after)
    ensures Consistent(k, after)
  {
    EffectKeepsRows(k, t, run, r, id, after);
    EffectKeepsHistory(k, t, run, r, id, after);
    forall i | 0 <= i < |after.items| ensures Recorded(after, i) {
      if i != id {
        StillRecorded(t, after, i);
      } else {
        CurrentIsRecorded(k, t, after, r, id);
      }
    }
  }

  /** Persisting keeps the whole invariant; it needs distinct snapshots to have distinct hashes. */
  lemma PersistKeepsConsistent(k: Keying, t: Tables, run: RunId, r: Record)
    requires Consistent(k, t) && k.Injective() && Persist(k, t, run, r).Success?
    ensures Consistent(k, Persist(k, t, run, r).value.0)
  {
    var id := PersistHasEffect(k, t, run, r);
    EffectKeepsConsistent(k, t, run, r, id, Persist(k, t, run, r).value.0);
  }

  /** The invariant reads neither the freshness columns nor anything of a run but its existence. */
  lemma FreshnessIsFree(k: Keying, t: Tables, items: seq<Item>, runs: map<RunId, ScrapeRun>)
    requires Consistent(k, t) && |items| == |t.items| && t.runs.Keys <= runs.Keys
    requires forall i | 0 <= i < |items| :: items[i] == t.items[i].(freshness := items[i].freshness)
    ensures Consistent(k, t.(items := items, runs := runs))
  {
    var after := t.(items := items, runs := runs);
    forall i | 0 <= i < |items| ensures ItemOk(items[i]) && Recorded(after, i) {
      assert ItemOk(t.items[i]);
      StillRecorded(t, after, i);
    }
    forall key | key in after.observations ensures ObservationOk(k, after, key) {
      assert ObservationOk(k, t, key);
    }
  }

  lemma FinishKeepsConsistent(k: Keying, t: Tables, run: RunId, status: RunStatus, coverage: Coverage,
                              ids: seq<string>, at: Time)
    requires Consistent(k, t) && status != Running
    ensures Consistent(k, Finish(t, run, status, coverage, ids, at))
  {
    var after := Finish(t, run, status, coverage, ids, at);
    FreshnessIsFree(k, t, after.items, after.runs);
    assert after == t.(items := after.items, runs := after.runs);
  }

  lemma StartKeepsConsistent(k: Keying, t: Tables, run: RunId, scheduled: bool, at: Time)
    requires Consistent(k, t)
    ensures Consistent(k, Start(t, run, scheduled, at))
  {
    var after := Start(t, run, scheduled, at);
    FreshnessIsFree(k, t, t.items, after.runs);
    assert after == t.(items := t.items, runs := after.runs);
  }
}
