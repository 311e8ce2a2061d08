/** When a persist call is refused, what its result flags mean, and replaying it. */
module Replay {
  import opened Wrappers
  import opened Records
  import opened Store
  import opened Integrity

  /** The call would add an observation row that the history does not hold yet. */
  predicate NeedsObservation(k: Keying, t: Tables, r: Record) {
    var existing := SelectBySource(t.items, r.sourceId);
    existing.Success? &&
    match existing.value
    case None => true
    case Some(id) =>
      && KeyOf(k, id, r) !in t.observations
      && if IsStale(t.items[id], r) then true
         else if IsHeld(t.items[id], r) then !LatestHashIs(t.observations, id, k.observationHash(r.snapshot))
         else t.items[id].observationHash != k.observationHash(r.snapshot)
  }

  /** The record is refused exactly when it needs a history row and its run is unknown. */
  ghost predicate NeedsRunOnly(k: Keying, t: Tables, run: RunId, r: Record) {
    if run !in t.runs && NeedsObservation(k, t, r) then Persist(k, t, run, r) == Failure(IntegrityViolation)
    else Persist(k, t, run, r).Success? && Persist(k, t, run, r).value.1.observationCreated == NeedsObservation(k, t, r)
  }

  lemma NewRefusedExactlyWhen(k: Keying, t: Tables, run: RunId, r: Record)
    requires Consistent(k, t) && Resolve(k, t, r) == Success(None)
    ensures NeedsRunOnly(k, t, run, r)
  {
    AcceptedIdentityIsFree(k, t, r, |t.items|, NewItem(k, r));
    forall key | key in t.observations ensures key.item < |t.items| {
      assert ObservationOk(k, t, key);
    }
  }

  lemma KnownRefusedExactlyWhen(k: Keying, t: Tables, run: RunId, r: Record, id: nat)
    requires Consistent(k, t) && Resolve(k, t, r) == Success(Some(id)) && id < |t.items|
             && t.items[id].sourceId == r.sourceId
    ensures NeedsRunOnly(k, t, run, r)
  {
    SelectBySourceFinds(t, id);
    AcceptedIdentityIsFree(k, t, r, id, HeldItem(t.items[id], r));
    AcceptedIdentityIsFree(k, t, r, id, UpdatedItem(k, t.items[id], r));
  }

  /** In a consistent store only an invalid record, a taken identity or an unknown run is refused:
      no lookup meets two rows and no unique constraint fires. */
  lemma RefusedExactlyWhen(k: Keying, t: Tables, run: RunId, r: Record)
    requires Consistent(k, t)
    ensures Persist(k, t, run, r).Failure? <==>
              !ValidRecord(k, r) || OwnedByAnother(t.items, r) || (run !in t.runs && NeedsObservation(k, t, r))
    ensures Persist(k, t, run, r).Failure? ==>
              Persist(k, t, run, r).error ==
              if !ValidRecord(k, r) then ValidationFailed
              else if OwnedByAnother(t.items, r) then IdentityConflict
              else IntegrityViolation
    ensures Persist(k, t, run, r).Success? ==>
              Persist(k, t, run, r).value.1.observationCreated == NeedsObservation(k, t, r)
  {
    ResolveIsExact(k, t, r);
    if Resolve(k, t, r).Success? {
      match Resolve(k, t, r).value
      case None => NewRefusedExactlyWhen(k, t, run, r);
      case Some(id) => KnownRefusedExactlyWhen(k, t, run, r, id);
    }
  }

  /** A record fails validation exactly without a source ID, display ID or title, with a URL that is not the
      canonical one of its display ID, or with an image URL that is not public in the form given. */
  lemma ValidationIsExact(k: Keying, t: Tables, run: RunId, r: Record)
    requires Consistent(k, t)
    ensures Persist(k, t, run, r) == Failure(ValidationFailed) <==>
              || r.sourceId == "" || r.disId == "" || r.metadata.title == ""
              || r.url != "https://www.bcauction.ca/open.dll/showDisplayDocument?disID=" + r.disId
              || exists image | image in r.metadata.imageUrls :: k.publicUrl(image) != Some(image)
  {
    RefusedExactlyWhen(k, t, run, r);
  }

  /** `created` and `updated` say exactly what happened: a row appeared, or a row's identity, metadata,
      snapshot hash or closing changed. Otherwise only the raw status text and the two times moved. */
  lemma FlagsAreExact(k: Keying, t: Tables, run: RunId, r: Record, id: nat)
    requires Consistent(k, t) && k.Injective() && Persist(k, t, run, r).Success?
    requires id < |t.items| && t.items[id].sourceId == r.sourceId
    ensures var (after, result) := Persist(k, t, run, r).value;
            && !result.created
            && (result.updated <==>
                  after.items[id] != t.items[id].(statusRaw := after.items[id].statusRaw,
                                                  lastSeenAt := after.items[id].lastSeenAt,
                                                  updatedAt := after.items[id].updatedAt,
                                                  lastChangedAt := after.items[id].lastChangedAt))
            && (result.updated ==> after.items[id].lastChangedAt == r.observedAt)
            && (!result.updated ==> after.items[id].lastChangedAt == t.items[id].lastChangedAt)
  {
    SelectBySourceFinds(t, id);
    ResolveIsExact(k, t, r);
    if !IsStale(t.items[id], r) && !IsHeld(t.items[id], r)
       && t.items[id].observationHash == k.observationHash(r.snapshot) {
      assert Recorded(t, id);
      var key :| Carries(t, id, key);
      assert ObservationOk(k, t, key);
      assert t.observations[key].snapshot == r.snapshot;
    }
  }

  lemma NewIsCreated(k: Keying, t: Tables, run: RunId, r: Record)
    requires Consistent(k, t) && Resolve(k, t, r) == Success(None) && Persist(k, t, run, r).Success?
    ensures var (after, result) := Persist(k, t, run, r).value;
            result == PersistResult(true, false, true) && |after.items| == |t.items| + 1
  {
    forall key | key in t.observations ensures key.item < |t.items| {
      assert ObservationOk(k, t, key);
    }
  }

  lemma KnownIsNotCreated(k: Keying, t: Tables, run: RunId, r: Record, id: nat)
    requires Resolve(k, t, r) == Success(Some(id)) && id < |t.items| && Persist(k, t, run, r).Success?
    ensures var (after, result) := Persist(k, t, run, r).value; !result.created && |after.items| == |t.items|
  {
  }

  /** A call reports a created item exactly when the listing was new; then nothing was updated and its first
      history row is new. */
  lemma CreatedIsExact(k: Keying, t: Tables, run: RunId, r: Record)
    requires Consistent(k, t) && Persist(k, t, run, r).Success?
    ensures var (after, result) := Persist(k, t, run, r).value;
            && (result.created <==> !Known(t.items, r.sourceId))
            && |after.items| == (if result.created then |t.items| + 1 else |t.items|)
            && (result.created ==> !result.updated && result.observationCreated)
  {
    ResolveIsExact(k, t, r);
    match Resolve(k, t, r).value
    case None => NewIsCreated(k, t, run, r);
    case Some(id) => KnownIsNotCreated(k, t, run, r, id);
  }

  // ---------------------------------------------------------------- replay

  /** The store shows no trace of the record missing: its item is where the record would put it, the
      history holds it or needs nothing, and its alias is in place. */
  predicate Absorbed(k: Keying, t: Tables, id: nat, r: Record)
    requires id < |t.items|
  {
    var it := t.items[id];
    if IsStale(it, r) then
      KeyOf(k, id, r) in t.observations
    else if IsHeld(it, r) then
      && HeldItem(it, r) == it
      && (LatestHashIs(t.observations, id, k.observationHash(r.snapshot)) || KeyOf(k, id, r) in t.observations)
    else
      UpdatedItem(k, it, r) == it && RecordAlias(k, t.aliases, r) == t.aliases
  }

  lemma ReplayResolves(k: Keying, t: Tables, run: RunId, r: Record, id: nat, after: Tables)
    requires RowsOk(t.items) && RowsOk(after.items) && Effect(k, t, run, r, id, after)
    requires id < |after.items| && after.items[id].sourceId == r.sourceId
    ensures Resolve(k, after, r) == Success(Some(id))
  {
    ResolveIsExact(k, t, r);
    SelectBySourceFinds(after, id);
    forall i | 0 <= i < |after.items| && after.items[i].sourceId != r.sourceId
      ensures after.items[i].disId != r.disId && after.items[i].url != r.url
    {
      assert i < |t.items| && after.items[i] == t.items[i];
    }
    ResolveIsExact(k, after, r);
  }

  lemma NewAbsorbs(k: Keying, t: Tables, run: RunId, r: Record)
    ensures PersistNew(k, t, run, r).Success? ==>
              && |PersistNew(k, t, run, r).value.0.items| == |t.items| + 1
              && Absorbed(k, PersistNew(k, t, run, r).value.0, |t.items|, r)
  {
  }

  lemma StaleAbsorbs(k: Keying, t: Tables, run: RunId, r: Record, id: nat)
    requires id < |t.items|
    ensures IsStale(t.items[id], r) && PersistStale(k, t, id, run, r).Success? ==>
              Absorbed(k, PersistStale(k, t, id, run, r).value.0, id, r)
  {
  }

  lemma HeldAbsorbs(k: Keying, t: Tables, run: RunId, r: Record, id: nat)
    requires id < |t.items|
    ensures !IsStale(t.items[id], r) && IsHeld(t.items[id], r) && PersistHeld(k, t, id, run, r).Success? ==>
              Absorbed(k, PersistHeld(k, t, id, run, r).value.0, id, r)
  {
  }

  lemma UpdateAbsorbs(k: Keying, t: Tables, run: RunId, r: Record, id: nat)
    requires id < |t.items|
    ensures !IsStale(t.items[id], r) && !IsHeld(t.items[id], r) && PersistUpdate(k, t, id, run, r).Success? ==>
              Absorbed(k, PersistUpdate(k, t, id, run, r).value.0, id, r)
  {
  }

  lemma FirstCallAbsorbs(k: Keying, t: Tables, run: RunId, r: Record, id: nat)
    requires Persist(k, t, run, r).Success?
    requires Resolve(k, t, r) == Success(if id < |t.items| then Some(id) else None) && id <= |t.items|
    requires id < |Persist(k, t, run, r).value.0.items|
    ensures Absorbed(k, Persist(k, t, run, r).value.0, id, r)
  {
    if id == |t.items| {
      NewAbsorbs(k, t, run, r);
    } else {
      StaleAbsorbs(k, t, run, r, id);
      HeldAbsorbs(k, t, run, r, id);
      UpdateAbsorbs(k, t, run, r, id);
    }
  }

  /** In the branch that keeps a closed item closed, another observation of the same instant may sort
      first; the second call then finds its own row already there. */
  lemma AbsorbedIsNoChange(k: Keying, t: Tables, run: RunId, r: Record, id: nat)
    requires RowsOk(t.items) && id < |t.items| && Absorbed(k, t, id, r)
    requires Resolve(k, t, r) == Success(Some(id))
    ensures Persist(k, t, run, r) == Success((t, PersistResult(false, false, false)))
  {
    assert t.items[id := t.items[id]] == t.items;
    AcceptedIdentityIsFree(k, t, r, id, HeldItem(t.items[id], r));
    AcceptedIdentityIsFree(k, t, r, id, UpdatedItem(k, t.items[id], r));
  }

  /** Persisting a record again right after it succeeded changes no table and reports nothing. */
  lemma ReplayIsIdempotent(k: Keying, t: Tables, run: RunId, r: Record)
    requires RowsOk(t.items)
    requires Persist(k, t, run, r).Success?
    ensures var after := Persist(k, t, run, r).value.0;
            Persist(k, after, run, r) == Success((after, PersistResult(false, false, false)))
  {
    var after := Persist(k, t, run, r).value.0;
    var id := PersistHasEffect(k, t, run, r);
    EffectKeepsRows(k, t, run, r, id, after);
    ReplayResolves(k, t, run, r, id, after);
    FirstCallAbsorbs(k, t, run, r, id);
    AbsorbedIsNoChange(k, after, run, r, id);
  }
}
