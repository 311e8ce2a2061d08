/** The observation history against the records behind it: nothing lost, nothing made up. */
module Retention {
  import opened Wrappers
  import opened Records
  import opened Store
  import opened Integrity
  import opened History

  predicate HoldsAt(observations: Observations, id: nat, r: Record, key: ObservationKey) {
    && key in observations
    && key.item == id
    && observations[key].snapshot == r.snapshot
    && key.observedAt <= r.observedAt
  }

  /** The history of item `id` holds the snapshot of `r`, observed no later than `r`. */
  ghost predicate Holds(observations: Observations, id: nat, r: Record) {
    exists key :: HoldsAt(observations, id, r, key)
  }

  /** The observation is of an accepted record: its time and its snapshot. */
  ghost predicate IsOf(key: ObservationKey, o: Observation, rs: seq<Record>) {
    exists i | 0 <= i < |rs| :: rs[i].observedAt == key.observedAt && rs[i].snapshot == o.snapshot
  }

  ghost predicate LosesNothing(t: Tables, past: string -> seq<Record>) {
    forall id, j | 0 <= id < |t.items| && 0 <= j < |past(t.items[id].sourceId)| ::
      Holds(t.observations, id, past(t.items[id].sourceId)[j])
  }

  ghost predicate InventsNothing(t: Tables, past: string -> seq<Record>) {
    forall key | key in t.observations ::
      key.item < |t.items| && IsOf(key, t.observations[key], past(t.items[key.item].sourceId))
  }

  /** Two-way agreement of the history with the past of every listing. */
  ghost predicate Retains(t: Tables, past: string -> seq<Record>) {
    LosesNothing(t, past) && InventsNothing(t, past)
  }

  lemma OwnKeyHolds(k: Keying, t: Tables, id: nat, r: Record)
    requires HistoryOk(k, t) && k.Injective() && KeyOf(k, id, r) in t.observations
    ensures Holds(t.observations, id, r)
  {
    assert ObservationOk(k, t, KeyOf(k, id, r));
    assert HoldsAt(t.observations, id, r, KeyOf(k, id, r));
  }

  /** A record that adds no row of its own finds its snapshot already there: as the newest history of a
      closed item, or as the current snapshot. */
  lemma OlderKeyHolds(k: Keying, t: Tables, run: RunId, r: Record, id: nat)
    requires Consistent(k, t) && k.Injective() && Persist(k, t, run, r).Success?
    requires id < |t.items| && Resolve(k, t, r) == Success(Some(id))
    requires KeyOf(k, id, r) !in Persist(k, t, run, r).value.0.observations
    ensures Holds(t.observations, id, r)
  {
    var hash := k.observationHash(r.snapshot);
    assert !IsStale(t.items[id], r);
    var key: ObservationKey;
    if IsHeld(t.items[id], r) {
      assert LatestHashIs(t.observations, id, hash);
      key :| key in t.observations && key.item == id && key.hash == hash;
    } else {
      assert t.items[id].observationHash == hash;
      assert Recorded(t, id);
      key :| Carries(t, id, key);
    }
    assert ObservationOk(k, t, key);
    assert HoldsAt(t.observations, id, r, key);
  }

  /** Whichever branch a record takes, its snapshot is in the history afterwards. */
  lemma RecordIsKept(k: Keying, t: Tables, run: RunId, r: Record, id: nat)
    requires Consistent(k, t) && k.Injective() && Persist(k, t, run, r).Success?
    requires Effect(k, t, run, r, id, Persist(k, t, run, r).value.0)
    ensures Holds(Persist(k, t, run, r).value.0.observations, id, r)
  {
    var after := Persist(k, t, run, r).value.0;
    EffectKeepsConsistent(k, t, run, r, id, after);
    if KeyOf(k, id, r) in after.observations {
      OwnKeyHolds(k, after, id, r);
    } else {
      assert id < |t.items| && !NewSnapshot(k, t, id, r) && after.observations == t.observations;
      OlderKeyHolds(k, t, run, r, id);
    }
  }

  /** At most one new row, for the record's listing, and at most one new observation, of the record. */
  ghost predicate Grows(t: Tables, after: Tables, r: Record, id: nat) {
    && |t.items| <= |after.items| <= |t.items| + 1
    && (|after.items| > |t.items| ==> id == |t.items|)
    && id < |after.items| && after.items[id].sourceId == r.sourceId
    && (forall i | 0 <= i < |t.items| :: after.items[i].sourceId == t.items[i].sourceId)
    && (forall key | key in t.observations ::
          key in after.observations && after.observations[key] == t.observations[key])
    && (forall key | key in after.observations && key !in t.observations ::
          key.item == id && key.observedAt == r.observedAt && after.observations[key].snapshot == r.snapshot)
  }

  lemma EffectGrows(k: Keying, t: Tables, run: RunId, r: Record, id: nat, after: Tables)
    requires RowsOk(t.items) && Effect(k, t, run, r, id, after)
    ensures Grows(t, after, r, id) && RowsOk(after.items)
  {
    EffectKeepsRows(k, t, run, r, id, after);
    ResolveIsExact(k, t, r);
  }

  ghost predicate PastGrows(past: string -> seq<Record>, next: string -> seq<Record>, r: Record) {
    forall s :: next(s) == if s == r.sourceId then past(s) + [r] else past(s)
  }

  lemma StillHolds(t: Tables, after: Tables, id: nat, r: Record)
    requires Holds(t.observations, id, r)
    requires forall key | key in t.observations ::
               key in after.observations && after.observations[key] == t.observations[key]
    ensures Holds(after.observations, id, r)
  {
    var key :| HoldsAt(t.observations, id, r, key);
    assert HoldsAt(after.observations, id, r, key);
  }

  lemma LosesNothingNext(t: Tables, after: Tables, r: Record, id: nat, past: string -> seq<Record>,
                         next: string -> seq<Record>)
    requires LosesNothing(t, past) && Grows(t, after, r, id) && PastGrows(past, next, r)
    requires Holds(after.observations, id, r) && IdentitiesDistinct(after.items)
    requires id == |t.items| ==> past(r.sourceId) == []
    ensures LosesNothing(after, next)
  {
    forall i, j | 0 <= i < |after.items| && 0 <= j < |next(after.items[i].sourceId)|
      ensures Holds(after.observations, i, next(after.items[i].sourceId)[j])
    {
      if j < |past(after.items[i].sourceId)| {
        StillHolds(t, after, i, past(t.items[i].sourceId)[j]);
      } else {
        assert i == id;
      }
    }
  }

  lemma StillOf(key: ObservationKey, o: Observation, rs: seq<Record>, r: Record)
    requires IsOf(key, o, rs)
    ensures IsOf(key, o, rs + [r])
  {
    var i :| 0 <= i < |rs| && rs[i].observedAt == key.observedAt && rs[i].snapshot == o.snapshot;
    assert (rs + [r])[i] == rs[i];
  }

  lemma InventsNothingNext(t: Tables, after: Tables, r: Record, id: nat, past: string -> seq<Record>,
                           next: string -> seq<Record>)
    requires InventsNothing(t, past) && Grows(t, after, r, id) && PastGrows(past, next, r)
    ensures InventsNothing(after, next)
  {
    forall key | key in after.observations
      ensures key.item < |after.items| && IsOf(key, after.observations[key], next(after.items[key.item].sourceId))
    {
      if key in t.observations {
        StillOf(key, t.observations[key], past(t.items[key.item].sourceId), r);
      } else {
        var rs := next(r.sourceId);
        assert rs[|rs| - 1] == r;
      }
    }
  }

  lemma GrowthRetains(t: Tables, after: Tables, r: Record, id: nat, past: string -> seq<Record>,
                      next: string -> seq<Record>)
    requires Retains(t, past) && Grows(t, after, r, id) && PastGrows(past, next, r)
    requires Holds(after.observations, id, r) && IdentitiesDistinct(after.items)
    requires id == |t.items| ==> past(r.sourceId) == []
    ensures Retains(after, next)
  {
    LosesNothingNext(t, after, r, id, past, next);
    InventsNothingNext(t, after, r, id, past, next);
  }

  lemma NoPastBeforeCreation(k: Keying, t: Tables, r: Record, past: string -> seq<Record>)
    requires RowsOk(t.items) && ItemsReflect(k, t.items, past)
    ensures Resolve(k, t, r) == Success(None) ==> past(r.sourceId) == []
  {
    ResolveIsExact(k, t, r);
  }

  lemma PersistRetains(k: Keying, before: seq<Event>, run: RunId, r: Record)
    requires k.Injective() && Consistent(k, After(k, before)) && Persist(k, After(k, before), run, r).Success?
    requires Retains(After(k, before), sourceId => Accepted(k, before, sourceId)) && RowsReflect(k, before)
    ensures Retains(After(k, before + [Offered(run, r)]), sourceId => Accepted(k, before + [Offered(run, r)], sourceId))
  {
    var log := before + [Offered(run, r)];
    AfterOneMore(k, before, Offered(run, r));
    AcceptedNext(k, before, run, r);
    var id := PersistHasEffect(k, After(k, before), run, r);
    RecordIsKept(k, After(k, before), run, r, id);
    NoPastBeforeCreation(k, After(k, before), r, sourceId => Accepted(k, before, sourceId));
    EffectGrows(k, After(k, before), run, r, id, After(k, log));
    GrowthRetains(After(k, before), After(k, log), r, id,
                  sourceId => Accepted(k, before, sourceId), sourceId => Accepted(k, log, sourceId));
  }

  lemma SameRetains(t: Tables, after: Tables, past: string -> seq<Record>, next: string -> seq<Record>)
    requires Retains(t, past) && after.observations == t.observations && |after.items| == |t.items|
    requires forall i | 0 <= i < |t.items| :: after.items[i].sourceId == t.items[i].sourceId
    requires forall s :: next(s) == past(s)
    ensures Retains(after, next)
  {
  }

  lemma StepRetains(k: Keying, t: Tables, e: Event)
    requires e.Offered? ==> Persist(k, t, e.run, e.record).Failure?
    ensures var after := Step(k, t, e);
            && after.observations == t.observations && |after.items| == |t.items|
            && forall i | 0 <= i < |t.items| :: after.items[i].sourceId == t.items[i].sourceId
  {
  }

  /** Calls that persist nothing change neither the history nor the past. */
  lemma OtherStepsRetain(k: Keying, before: seq<Event>, last: Event)
    requires Retains(After(k, before), sourceId => Accepted(k, before, sourceId))
    requires last.Offered? ==> Persist(k, After(k, before), last.run, last.record).Failure?
    ensures Retains(After(k, before + [last]), sourceId => Accepted(k, before + [last], sourceId))
  {
    var log := before + [last];
    assert log[..|log| - 1] == before;
    AfterOneMore(k, before, last);
    StepRetains(k, After(k, before), last);
    SameRetains(After(k, before), After(k, log), sourceId => Accepted(k, before, sourceId),
                sourceId => Accepted(k, log, sourceId));
  }

  /** For every reachable store: each accepted record's snapshot is in its item's history, observed no
      later than the record; each history row is the time and snapshot of an accepted record. */
  lemma {:induction false} HistoryRetainsRecords(k: Keying, log: seq<Event>)
    requires k.Injective()
    ensures Retains(After(k, log), sourceId => Accepted(k, log, sourceId))
  {
    if log == [] {
    } else {
      var before, last := log[..|log| - 1], log[|log| - 1];
      assert log == before + [last];
      HistoryRetainsRecords(k, before);
      ReachableIsConsistent(k, before);
      RowsReflectHistory(k, before);
      if last.Offered? && Persist(k, After(k, before), last.run, last.record).Success? {
        PersistRetains(k, before, last.run, last.record);
      } else {
        OtherStepsRetain(k, before, last);
      }
    }
  }

  // ---------------------------------------------------------------- the newest row

  /** Some row of the item's history has this snapshot, and no row is of a later time. */
  ghost predicate ShowsNewest(observations: Observations, id: nat, snapshot: Snapshot) {
    exists key | key in observations ::
      && key.item == id && observations[key].snapshot == snapshot
      && forall other | other in observations && other.item == id :: other.observedAt <= key.observedAt
  }

  /** The first row of the item's history, latest time first and then greatest hash, has this snapshot. */
  ghost predicate FirstRowShows(observations: Observations, id: nat, snapshot: Snapshot) {
    exists key | key in observations ::
      && key.item == id && observations[key].snapshot == snapshot
      && forall other | other in observations && other.item == id ::
           other.observedAt < key.observedAt || (other.observedAt == key.observedAt && other.hash <= key.hash)
  }

  lemma LatestHashMeans(k: Keying, t: Tables, id: nat, snapshot: Snapshot)
    requires HistoryOk(k, t) && k.Injective()
    ensures LatestHashIs(t.observations, id, k.observationHash(snapshot))
            <==> FirstRowShows(t.observations, id, snapshot)
  {
    forall key | key in t.observations
      ensures key.hash == k.observationHash(t.observations[key].snapshot)
      ensures t.observations[key].createdAt == key.observedAt
    {
      assert ObservationOk(k, t, key);
    }
  }

  lemma OwnKeyIsNewest(k: Keying, t: Tables, id: nat, r: Record)
    requires HistoryOk(k, t) && k.Injective() && KeyOf(k, id, r) in t.observations
    requires forall other | other in t.observations && other.item == id :: other.observedAt <= r.observedAt
    ensures ShowsNewest(t.observations, id, r.snapshot)
  {
    assert ObservationOk(k, t, KeyOf(k, id, r));
    assert t.observations[KeyOf(k, id, r)].snapshot == r.snapshot;
  }

  lemma NothingIsLater(k: Keying, t: Tables, run: RunId, r: Record, id: nat)
    requires Consistent(k, t) && Persist(k, t, run, r).Success? && id < |t.items|
             && t.items[id].lastSeenAt <= r.observedAt
    ensures forall other | other in Persist(k, t, run, r).value.0.observations && other.item == id ::
              other.observedAt <= r.observedAt
  {
    var it := PersistHasEffect(k, t, run, r);
    forall other | other in t.observations && other.item == id ensures other.observedAt <= r.observedAt {
      assert ObservationOk(k, t, other);
    }
  }

  lemma OwnRowIs(k: Keying, t: Tables, id: nat, r: Record)
    requires HistoryOk(k, t) && k.Injective()
    ensures KeyOf(k, id, r) in t.observations <==>
              exists key | key in t.observations ::
                key.item == id && key.observedAt == r.observedAt && t.observations[key].snapshot == r.snapshot
  {
    forall key | key in t.observations ensures key.hash == k.observationHash(t.observations[key].snapshot) {
      assert ObservationOk(k, t, key);
    }
    if KeyOf(k, id, r) in t.observations {
      assert t.observations[KeyOf(k, id, r)].snapshot == r.snapshot;
    }
  }

  lemma HeldAdds(k: Keying, t: Tables, run: RunId, r: Record, id: nat)
    requires Consistent(k, t) && Persist(k, t, run, r).Success?
    requires id < |t.items| && t.items[id].sourceId == r.sourceId && !IsStale(t.items[id], r) && IsHeld(t.items[id], r)
    ensures var (after, result) := Persist(k, t, run, r).value;
            var hash := k.observationHash(r.snapshot);
            && (result.observationCreated <==>
                  KeyOf(k, id, r) !in t.observations && !LatestHashIs(t.observations, id, hash))
            && (if result.observationCreated then KeyOf(k, id, r) in after.observations
                else after.observations == t.observations)
  {
    SelectBySourceFinds(t, id);
    ResolveIsExact(k, t, r);
  }

  /** A record of a closed item that does not close it adds a row exactly when its own row is not there and the
      first row of the history shows something else. Then, or before, the newest time shows its snapshot. */
  lemma ReopeningIsRecorded(k: Keying, t: Tables, run: RunId, r: Record, id: nat)
    requires Consistent(k, t) && k.Injective() && Persist(k, t, run, r).Success?
    requires id < |t.items| && t.items[id].sourceId == r.sourceId && t.items[id].lastSeenAt <= r.observedAt
    requires t.items[id].status == Closed || t.items[id].status == Withdrawn
    requires r.snapshot.status == Open || r.snapshot.status == Unknown
    ensures var (after, result) := Persist(k, t, run, r).value;
            && ShowsNewest(after.observations, id, r.snapshot)
            && (result.observationCreated <==>
                  && !(exists key | key in t.observations ::
                         key.item == id && key.observedAt == r.observedAt && t.observations[key].snapshot == r.snapshot)
                  && !FirstRowShows(t.observations, id, r.snapshot))
  {
    var after := Persist(k, t, run, r).value.0;
    HeldAdds(k, t, run, r, id);
    LatestHashMeans(k, t, id, r.snapshot);
    NothingIsLater(k, t, run, r, id);
    PersistKeepsConsistent(k, t, run, r);
    OwnRowIs(k, t, id, r);
    if KeyOf(k, id, r) in after.observations {
      OwnKeyIsNewest(k, after, id, r);
    }
  }

  lemma AppliedAdds(k: Keying, t: Tables, run: RunId, r: Record, id: nat)
    requires Consistent(k, t) && Persist(k, t, run, r).Success?
    requires id < |t.items| && t.items[id].sourceId == r.sourceId && !IsStale(t.items[id], r) && !IsHeld(t.items[id], r)
    ensures var after := Persist(k, t, run, r).value.0;
            if t.items[id].observationHash == k.observationHash(r.snapshot) then after.observations == t.observations
            else KeyOf(k, id, r) in after.observations
  {
    SelectBySourceFinds(t, id);
    ResolveIsExact(k, t, r);
  }

  /** A record that is neither stale nor held back shows in the newest row of the history exactly when it
      changes the snapshot of its item, or the newest row showed its snapshot before: a listing that is seen open
      and then closed again, as it was, leaves the open row the newest. */
  lemma NewestShowsAppliedExactlyWhen(k: Keying, t: Tables, run: RunId, r: Record, id: nat)
    requires Consistent(k, t) && k.Injective() && Persist(k, t, run, r).Success?
    requires id < |t.items| && t.items[id].sourceId == r.sourceId && t.items[id].lastSeenAt <= r.observedAt
    requires t.items[id].status == Open || t.items[id].status == Unknown
             || r.snapshot.status == Closed || r.snapshot.status == Withdrawn
    ensures ShowsNewest(Persist(k, t, run, r).value.0.observations, id, r.snapshot) <==>
              || t.items[id].observationHash != k.observationHash(r.snapshot)
              || ShowsNewest(t.observations, id, r.snapshot)
  {
    var after := Persist(k, t, run, r).value.0;
    AppliedAdds(k, t, run, r, id);
    NothingIsLater(k, t, run, r, id);
    PersistKeepsConsistent(k, t, run, r);
    if KeyOf(k, id, r) in after.observations && t.items[id].observationHash != k.observationHash(r.snapshot) {
      OwnKeyIsNewest(k, after, id, r);
    }
  }

  lemma HeldStaysInPlace(k: Keying, t: Tables, run: RunId, r: Record, id: nat)
    requires Consistent(k, t) && Persist(k, t, run, r).Success? && id < |t.items| && t.items[id].sourceId == r.sourceId
    ensures var after := Persist(k, t, run, r).value.0; id < |after.items| && after.items[id].sourceId == r.sourceId
  {
    var written := PersistHasEffect(k, t, run, r);
    EffectKeepsRows(k, t, run, r, written, Persist(k, t, run, r).value.0);
  }

  lemma HeldRowIsNewest(k: Keying, t: Tables, run: RunId, r: Record, id: nat, rs: seq<Record>)
    requires Consistent(k, t) && k.Injective() && Persist(k, t, run, r).Success?
    requires id < |t.items| && t.items[id].sourceId == r.sourceId && Reflects(k, t.items[id], rs)
    requires HeldAt(rs + [r], |rs|) && !StaleAt(rs + [r], |rs|)
    ensures var after := Persist(k, t, run, r).value.0;
            id < |after.items| && after.items[id].sourceId == r.sourceId && ShowsNewest(after.observations, id, r.snapshot)
  {
    RowDecides(k, t.items[id], rs, r);
    HeldStaysInPlace(k, t, run, r, id);
    ReopeningIsRecorded(k, t, run, r, id);
  }

  /** Whatever calls led there: a record that the past holds back shows in the newest row of the history. */
  lemma HeldIsNewest(k: Keying, log: seq<Event>, run: RunId, r: Record) returns (id: nat)
    requires k.Injective() && Persist(k, After(k, log), run, r).Success?
    requires var rs := Accepted(k, log, r.sourceId); HeldAt(rs + [r], |rs|) && !StaleAt(rs + [r], |rs|)
    ensures var t := After(k, log + [Offered(run, r)]);
            id < |t.items| && t.items[id].sourceId == r.sourceId && ShowsNewest(t.observations, id, r.snapshot)
  {
    var t, rs := After(k, log), Accepted(k, log, r.sourceId);
    RowsReflectHistory(k, log);
    ReachableIsConsistent(k, log);
    AfterOneMore(k, log, Offered(run, r));
    assert rs != [];
    assert Known(t.items, r.sourceId);
    id :| 0 <= id < |t.items| && t.items[id].sourceId == r.sourceId;
    HeldRowIsNewest(k, t, run, r, id, rs);
  }
}
