/** The four tables, and what one repository call does to them, as functions on values. */
module Store {
  import opened Wrappers
  import opened Records

  type RunId = nat

  // ---------------------------------------------------------------- rows and tables

  datatype Inventory = Current | NotObserved | Stale

  /** The columns that only reconciliation writes. */
  datatype Freshness = Freshness(
    lastCompleteSeenAt: Option<Time>,
    absences: nat,
    inventory: Inventory,
    firstAbsentAt: Option<Time>,
    staleAt: Option<Time>)

  const NEVER_RECONCILED := Freshness(None, 0, Current, None, None)

  const STALE_ABSENCE_THRESHOLD := 3

  datatype Item = Item(
    sourceId: string,
    disId: string,
    url: string,
    metadata: Metadata,
    status: Status,
    statusRaw: Option<string>,
    metadataHash: nat,
    observationHash: nat,
    firstSeenAt: Time,
    lastSeenAt: Time,
    lastChangedAt: Time,
    closedAt: Option<Time>,
    createdAt: Time,
    updatedAt: Time,
    freshness: Freshness)

  /** The columns of the observation table's unique constraint. */
  datatype ObservationKey = ObservationKey(item: nat, observedAt: Time, hash: nat)

  datatype Observation = Observation(run: RunId, snapshot: Snapshot, createdAt: Time)

  datatype LocationAlias = LocationAlias(
    rawValue: string,
    canonical: string,
    qualifier: Option<string>,
    known: bool,
    firstSeenAt: Time,
    lastSeenAt: Time,
    createdAt: Time,
    updatedAt: Time)

  datatype RunStatus = Running | Succeeded | Partial | Failed

  datatype Completion = Pending | Complete | Incomplete

  datatype Coverage = Coverage(
    expectedGroups: nat,
    processedGroups: nat,
    uniqueListings: nat,
    duplicateListings: nat,
    detailAttempted: nat,
    detailSucceeded: nat,
    persistenceSucceeded: nat,
    persistenceFailures: nat,
    enumerationComplete: bool)
  {
    function CompletionStatus(): Completion {
      if && enumerationComplete
         && expectedGroups == processedGroups
         && detailAttempted == uniqueListings
         && detailSucceeded == uniqueListings
         && persistenceSucceeded == uniqueListings
         && persistenceFailures == 0
      then Complete else Incomplete
    }
  }

  const NO_COVERAGE := Coverage(0, 0, 0, 0, 0, 0, 0, 0, false)

  datatype ScrapeRun = ScrapeRun(
    scheduled: bool,
    startedAt: Time,
    createdAt: Time,
    finishedAt: Option<Time>,
    status: RunStatus,
    completion: Completion,
    coverage: Coverage)

  type Observations = map<ObservationKey, Observation>

  /** An item's primary key is its position: rows are appended and never deleted. */
  datatype Tables = Tables(
    items: seq<Item>,
    observations: Observations,
    aliases: map<string, LocationAlias>,
    runs: map<RunId, ScrapeRun>)

  const EMPTY := Tables([], map[], map[], map[])

  datatype PersistResult = PersistResult(created: bool, updated: bool, observationCreated: bool)

  datatype PersistError = ValidationFailed | MultipleRows | IdentityConflict | IntegrityViolation

  // ---------------------------------------------------------------- queries

  /** At most one matching row: its position, nothing, or an error when two rows match. */
  function SelectOne(items: seq<Item>, p: Item -> bool): (r: Result<Option<nat>, PersistError>)
    ensures r.Success? && r.value.Some? ==>
              && r.value.value < |items| && p(items[r.value.value])
              && forall j | 0 <= j < |items| && p(items[j]) :: j == r.value.value
    ensures r.Success? && r.value.None? ==> forall j | 0 <= j < |items| :: !p(items[j])
    ensures r.Failure? ==>
              && r.error == MultipleRows
              && exists i, j :: 0 <= i < j < |items| && p(items[i]) && p(items[j])
  {
    if items == [] then Success(None) else
    var last := |items| - 1;
    var rest := SelectOne(items[..last], p);
    if rest.Failure? then
      rest
    else if !p(items[last]) then
      rest
    else if rest.value.Some? then
      assert p(items[rest.value.value]) && p(items[last]);
      Failure(MultipleRows)
    else
      Success(Some(last))
  }

  function SelectBySource(items: seq<Item>, sourceId: string): Result<Option<nat>, PersistError> {
    SelectOne(items, (it: Item) => it.sourceId == sourceId)
  }

  function SelectByIdentity(items: seq<Item>, disId: string, url: string): Result<Option<nat>, PersistError> {
    SelectOne(items, (it: Item) => it.disId == disId || it.url == url)
  }

  /** Whether row `row` at position `id` would break a unique constraint of the item table. */
  predicate Duplicates(items: seq<Item>, id: nat, row: Item) {
    exists j | 0 <= j < |items| ::
      j != id && (items[j].sourceId == row.sourceId || items[j].disId == row.disId || items[j].url == row.url)
  }

  /** History order of one item: observation time, creation time, hash. */
  predicate Newer(observations: Observations, a: ObservationKey, b: ObservationKey)
    requires a in observations && b in observations
  {
    a.observedAt > b.observedAt
    || (a.observedAt == b.observedAt
        && (observations[a].createdAt > observations[b].createdAt
            || (observations[a].createdAt == observations[b].createdAt && a.hash > b.hash)))
  }

  /** The first row of an item's history, newest first, has the given hash. */
  predicate LatestHashIs(observations: Observations, item: nat, hash: nat) {
    exists k | k in observations ::
      && k.item == item
      && k.hash == hash
      && forall other | other in observations && other.item == item :: !Newer(observations, other, k)
  }

  // ---------------------------------------------------------------- persisting one record

  function NewItem(k: Keying, r: Record): Item {
    Item(r.sourceId, r.disId, r.url, r.metadata, r.snapshot.status, r.statusRaw,
         k.metadataHash(r.metadata), k.observationHash(r.snapshot),
         r.observedAt, r.observedAt, r.observedAt,
         if Terminal(r.snapshot.status) then Some(r.observedAt) else None,
         r.observedAt, r.observedAt, NEVER_RECONCILED)
  }

  predicate IdentityChanged(it: Item, r: Record) {
    it.disId != r.disId || it.url != r.url
  }

  predicate IsStale(it: Item, r: Record) {
    r.observedAt < it.lastSeenAt
  }

  predicate IsHeld(it: Item, r: Record) {
    Terminal(it.status) && !Terminal(r.snapshot.status)
  }

  /** A terminal item that a newer non-terminal record names: only identity and times move. */
  function HeldItem(it: Item, r: Record): Item {
    it.(disId := r.disId,
        url := r.url,
        lastSeenAt := r.observedAt,
        lastChangedAt := if IdentityChanged(it, r) then r.observedAt else it.lastChangedAt,
        updatedAt := r.observedAt)
  }

  function FirstTerminalObservedAt(closedAt: Option<Time>, r: Record): Option<Time> {
    if closedAt.None? && Terminal(r.snapshot.status) then Some(r.observedAt) else closedAt
  }

  predicate Changed(k: Keying, it: Item, r: Record) {
    || IdentityChanged(it, r)
    || it.metadataHash != k.metadataHash(r.metadata)
    || it.observationHash != k.observationHash(r.snapshot)
    || FirstTerminalObservedAt(it.closedAt, r) != it.closedAt
  }

  function UpdatedItem(k: Keying, it: Item, r: Record): Item {
    it.(sourceId := r.sourceId,
        disId := r.disId,
        url := r.url,
        metadata := r.metadata,
        status := r.snapshot.status,
        statusRaw := r.statusRaw,
        metadataHash := k.metadataHash(r.metadata),
        observationHash := k.observationHash(r.snapshot),
        lastSeenAt := r.observedAt,
        lastChangedAt := if Changed(k, it, r) then r.observedAt else it.lastChangedAt,
        closedAt := FirstTerminalObservedAt(it.closedAt, r),
        updatedAt := r.observedAt)
  }

  /** What a record that is accepted does to the item it names. */
  function ItemAfter(k: Keying, it: Item, r: Record): Item {
    if IsStale(it, r) then it
    else if IsHeld(it, r) then HeldItem(it, r)
    else UpdatedItem(k, it, r)
  }

  function KeyOf(k: Keying, id: nat, r: Record): ObservationKey {
    ObservationKey(id, r.observedAt, k.observationHash(r.snapshot))
  }

  /** INSERT ... ON CONFLICT DO NOTHING; only a row that is really inserted needs its run. */
  function InsertObservation(k: Keying, t: Tables, id: nat, run: RunId, r: Record)
    : Result<(Observations, bool), PersistError>
  {
    var key := KeyOf(k, id, r);
    if key in t.observations then Success((t.observations, false))
    else if run !in t.runs then Failure(IntegrityViolation)
    else Success((t.observations[key := Observation(run, r.snapshot, r.observedAt)], true))
  }

  function RecordAlias(k: Keying, aliases: map<string, LocationAlias>, r: Record): map<string, LocationAlias> {
    if r.metadata.locationRaw.None? || r.metadata.locationCanonical.None? then aliases else
    var raw, canonical := r.metadata.locationRaw.value, r.metadata.locationCanonical.value;
    var key := k.aliasKey(raw);
    var known := r.metadata.locationStatus != Some(Unrecognised);
    var at := r.observedAt;
    if key in aliases then
      aliases[key := aliases[key].(canonical := canonical, qualifier := r.metadata.locationQualifier,
                                   known := known, lastSeenAt := at, updatedAt := at)]
    else
      aliases[key := LocationAlias(raw, canonical, r.metadata.locationQualifier, known, at, at, at, at)]
  }

  type Persisted = Result<(Tables, PersistResult), PersistError>

  function PersistNew(k: Keying, t: Tables, run: RunId, r: Record): Persisted {
    var row := NewItem(k, r);
    var id := |t.items|;
    if Duplicates(t.items, id, row) then Failure(IntegrityViolation) else
    match InsertObservation(k, t, id, run, r)
    case Failure(e) => Failure(e)
    case Success((observations, inserted)) =>
      Success((t.(items := t.items + [row],
                  observations := observations,
                  aliases := RecordAlias(k, t.aliases, r)),
               PersistResult(true, false, inserted)))
  }

  function PersistStale(k: Keying, t: Tables, id: nat, run: RunId, r: Record): Persisted {
    match InsertObservation(k, t, id, run, r)
    case Failure(e) => Failure(e)
    case Success((observations, inserted)) =>
      Success((t.(observations := observations), PersistResult(false, false, inserted)))
  }

  function PersistHeld(k: Keying, t: Tables, id: nat, run: RunId, r: Record): Persisted
    requires id < |t.items|
  {
    var history: Result<(Observations, bool), PersistError> :=
      if LatestHashIs(t.observations, id, k.observationHash(r.snapshot)) then Success((t.observations, false))
      else InsertObservation(k, t, id, run, r);
    match history
    case Failure(e) => Failure(e)
    case Success((observations, inserted)) =>
      var row := HeldItem(t.items[id], r);
      if Duplicates(t.items, id, row) then Failure(IntegrityViolation) else
      Success((t.(items := t.items[id := row], observations := observations),
               PersistResult(false, IdentityChanged(t.items[id], r), inserted)))
  }

  function PersistUpdate(k: Keying, t: Tables, id: nat, run: RunId, r: Record): Persisted
    requires id < |t.items|
  {
    var it := t.items[id];
    var row := UpdatedItem(k, it, r);
    if Duplicates(t.items, id, row) then Failure(IntegrityViolation) else
    var history: Result<(Observations, bool), PersistError> :=
      if it.observationHash != k.observationHash(r.snapshot) then InsertObservation(k, t, id, run, r)
      else Success((t.observations, false));
    match history
    case Failure(e) => Failure(e)
    case Success((observations, inserted)) =>
      Success((t.(items := t.items[id := row],
                  observations := observations,
                  aliases := RecordAlias(k, t.aliases, r)),
               PersistResult(false, Changed(k, it, r), inserted)))
  }

  /** The two lookups that precede every write: which item the record names, if any. */
  function Resolve(k: Keying, t: Tables, r: Record): Result<Option<nat>, PersistError> {
    if !ValidRecord(k, r) then Failure(ValidationFailed) else
    var existing := SelectBySource(t.items, r.sourceId);
    if existing.Failure? then existing else
    var owner := SelectByIdentity(t.items, r.disId, r.url);
    if owner.Failure? then owner
    else if owner.value.Some? && t.items[owner.value.value].sourceId != r.sourceId then Failure(IdentityConflict)
    else existing
  }

  /** Persist one record: insert, stale history only, terminal hold, or full update. */
  function Persist(k: Keying, t: Tables, run: RunId, r: Record): Persisted {
    match Resolve(k, t, r)
    case Failure(e) => Failure(e)
    case Success(None) => PersistNew(k, t, run, r)
    case Success(Some(id)) =>
      if IsStale(t.items[id], r) then PersistStale(k, t, id, run, r)
      else if IsHeld(t.items[id], r) then PersistHeld(k, t, id, run, r)
      else PersistUpdate(k, t, id, run, r)
  }

  // ---------------------------------------------------------------- finishing a run

  function Refreshed(f: Freshness, at: Time): Freshness {
    Freshness(Some(at), 0, Current, None, None)
  }

  function Aged(f: Freshness, at: Time): Freshness {
    var next := f.absences + 1;
    Freshness(
      f.lastCompleteSeenAt,
      next,
      if next >= STALE_ABSENCE_THRESHOLD then Stale else NotObserved,
      if f.firstAbsentAt.Some? then f.firstAbsentAt else Some(at),
      if next >= STALE_ABSENCE_THRESHOLD && f.staleAt.None? then Some(at) else f.staleAt)
  }

  function ReconciledItem(it: Item, ids: seq<string>, at: Time): Item {
    if !it.status.Open? then it
    else if it.sourceId in ids then it.(freshness := Refreshed(it.freshness, at))
    else it.(freshness := Aged(it.freshness, at))
  }

  function Reconciled(items: seq<Item>, ids: seq<string>, at: Time): seq<Item> {
    seq(|items|, i requires 0 <= i < |items| => ReconciledItem(items[i], ids, at))
  }

  /** Only a run that succeeded with complete coverage ages the inventory. */
  predicate Ages(status: RunStatus, coverage: Coverage) {
    status == Succeeded && coverage.CompletionStatus() == Complete
  }

  function Finish(t: Tables, run: RunId, status: RunStatus, coverage: Coverage, ids: seq<string>, at: Time): Tables
    requires status != Running
  {
    var runs :=
      if run in t.runs then
        t.runs[run := t.runs[run].(finishedAt := Some(at), status := status,
                                   completion := coverage.CompletionStatus(), coverage := coverage)]
      else t.runs;
    t.(runs := runs, items := if Ages(status, coverage) then Reconciled(t.items, ids, at) else t.items)
  }

  function Start(t: Tables, run: RunId, scheduled: bool, at: Time): Tables {
    t.(runs := t.runs[run := ScrapeRun(scheduled, at, at, None, Running, Pending, NO_COVERAGE)])
  }
}
