/** What a location alias shows of the records that reached it, over every run of the repository. */
module Aliases {
  import opened Wrappers
  import opened Records
  import opened Store
  import opened Integrity
  import opened Replay
  import opened History
  import opened Calls

  /** The record carries a location whose normalised raw text is `key`. */
  predicate Places(k: Keying, r: Record, key: string) {
    && r.metadata.locationRaw.Some? && r.metadata.locationCanonical.Some?
    && k.aliasKey(r.metadata.locationRaw.value) == key
  }

  /** The accepted and applied records of any listing that carry the location, in the order of the calls. */
  function Placed(k: Keying, log: seq<Event>, key: string): seq<Record> {
    if log == [] then [] else
    var before, last := log[..|log| - 1], log[|log| - 1];
    if && last.Offered? && Places(k, last.record, key)
       && Persist(k, After(k, before), last.run, last.record).Success?
       && var rs := Accepted(k, before, last.record.sourceId); AppliedAt(rs + [last.record], |rs|)
    then Placed(k, before, key) + [last.record]
    else Placed(k, before, key)
  }

  /** First text and time from the first record, everything else from the last one. */
  ghost predicate ShowsPlace(k: Keying, row: LocationAlias, rs: seq<Record>, key: string) {
    rs != [] &&
    var first, last := rs[0], rs[|rs| - 1];
    && Places(k, first, key) && Places(k, last, key)
    && row.rawValue == first.metadata.locationRaw.value
    && row.firstSeenAt == row.createdAt == first.observedAt
    && row.canonical == last.metadata.locationCanonical.value
    && row.qualifier == last.metadata.locationQualifier
    && (row.known <==> last.metadata.locationStatus != Some(Unrecognised))
    && row.lastSeenAt == row.updatedAt == last.observedAt
  }

  ghost predicate AliasReflects(k: Keying, aliases: map<string, LocationAlias>, key: string, rs: seq<Record>) {
    && (key in aliases <==> rs != [])
    && (key in aliases ==> ShowsPlace(k, aliases[key], rs, key))
  }

  lemma RecordAliasReflects(k: Keying, aliases: map<string, LocationAlias>, r: Record, key: string, rs: seq<Record>)
    requires AliasReflects(k, aliases, key, rs)
    ensures AliasReflects(k, RecordAlias(k, aliases, r), key, if Places(k, r, key) then rs + [r] else rs)
  {
    assert rs != [] ==> (rs + [r])[0] == rs[0];
  }

  /** Only a record that is written to its row touches the aliases: stale and held ones do not. */
  lemma PersistWritesAlias(k: Keying, t: Tables, run: RunId, r: Record, rs: seq<Record>)
    requires RowsOk(t.items) && Persist(k, t, run, r).Success?
    requires forall i | 0 <= i < |t.items| && t.items[i].sourceId == r.sourceId :: Reflects(k, t.items[i], rs)
    requires !Known(t.items, r.sourceId) ==> rs == []
    ensures Persist(k, t, run, r).value.0.aliases ==
              if AppliedAt(rs + [r], |rs|) then RecordAlias(k, t.aliases, r) else t.aliases
  {
    ResolveIsExact(k, t, r);
    if Resolve(k, t, r).value.Some? {
      RowDecides(k, t.items[Resolve(k, t, r).value.value], rs, r);
    }
  }

  /** Any log: an alias exists exactly for locations that an applied record carried, and it shows the
      first of these records' text and time and the last one's place and time. */
  lemma {:induction false} AliasesReflectHistory(k: Keying, log: seq<Event>, key: string)
    requires k.Injective()
    ensures AliasReflects(k, After(k, log).aliases, key, Placed(k, log, key))
  {
    if log == [] {
    } else {
      var before, last := log[..|log| - 1], log[|log| - 1];
      AliasesReflectHistory(k, before, key);
      match last
      case Offered(run, r) =>
        if Persist(k, After(k, before), run, r).Success? {
          RowsReflectHistory(k, before);
          ReachableIsConsistent(k, before);
          PersistWritesAlias(k, After(k, before), run, r, Accepted(k, before, r.sourceId));
          RecordAliasReflects(k, After(k, before).aliases, r, key, Placed(k, before, key));
        }
      case _ =>
    }
  }

  // ---------------------------------------------------------------- last seen before first seen

  /** The call that places `r` leaves the alias last seen before it was first seen exactly when the alias
      existed and was first seen after `r` was observed. */
  lemma TimesCrossExactlyWhen(k: Keying, log: seq<Event>, run: RunId, r: Record, key: string)
    requires k.Injective()
    requires Placed(k, log + [Offered(run, r)], key) == Placed(k, log, key) + [r]
    ensures var was, now := After(k, log).aliases, After(k, log + [Offered(run, r)]).aliases;
            && key in now
            && (now[key].lastSeenAt < now[key].firstSeenAt <==> key in was && r.observedAt < was[key].firstSeenAt)
  {
    AliasesReflectHistory(k, log, key);
    AliasesReflectHistory(k, log + [Offered(run, r)], key);
    assert Placed(k, log, key) != [] ==> (Placed(k, log, key) + [r])[0] == Placed(k, log, key)[0];
  }

  function InVictoria(r: Record): Record {
    r.(metadata := r.metadata.(locationRaw := Some("Victoria"), locationCanonical := Some("Victoria")))
  }

  const DESK_PLACED: seq<Event> := STARTED + [Offered(0, InVictoria(Desk(Open, 5)))]
  const LAMP_PLACED: seq<Event> := DESK_PLACED + [Offered(0, InVictoria(Lamp(Open, 3)))]

  /** A record of a new listing is applied. */
  lemma NewListingIsPlaced(k: Keying, log: seq<Event>, run: RunId, r: Record)
    requires k.Injective() && run in After(k, log).runs
    requires var items := After(k, log).items;
             ValidRecord(k, r) && !OwnedByAnother(items, r) && !Known(items, r.sourceId)
    ensures var t, after := After(k, log), After(k, log + [Offered(run, r)]);
            && after.aliases == RecordAlias(k, t.aliases, r) && after.runs == t.runs
            && after.items == t.items + [NewItem(k, r)]
  {
    ReachableIsConsistent(k, log);
    RefusedExactlyWhen(k, After(k, log), run, r);
    ResolveIsExact(k, After(k, log), r);
    AfterOneMore(k, log, Offered(run, r));
  }

  lemma DeskIsPlaced(k: Keying)
    requires k.Injective()
    ensures var t, key := After(k, DESK_PLACED), k.aliasKey("Victoria");
            && 0 in t.runs && |t.items| == 1
            && t.items[0].sourceId == "A1" && t.items[0].disId == "1" && t.items[0].url == CanonicalUrl("1")
            && key in t.aliases && t.aliases[key].firstSeenAt == 5
  {
    AfterStarted(k);
    SamplesDiffer(k, Open, Open, 5, 5);
    NewListingIsPlaced(k, STARTED, 0, InVictoria(Desk(Open, 5)));
  }

  lemma LampIsFree(k: Keying, items: seq<Item>)
    requires |items| == 1 && items[0].sourceId == "A1" && items[0].disId == "1" && items[0].url == CanonicalUrl("1")
    ensures var lamp := InVictoria(Lamp(Open, 3));
            ValidRecord(k, lamp) && !OwnedByAnother(items, lamp) && !Known(items, lamp.sourceId)
  {
    SamplesDiffer(k, Open, Open, 5, 3);
  }

  /** A new listing observed earlier is applied, and pushes the last-seen time below the first-seen one. */
  lemma TimesMayCross(k: Keying)
    requires k.Injective()
    ensures var key, aliases := k.aliasKey("Victoria"), After(k, LAMP_PLACED).aliases;
            key in aliases && aliases[key].firstSeenAt == 5 && aliases[key].lastSeenAt == 3
  {
    DeskIsPlaced(k);
    LampIsFree(k, After(k, DESK_PLACED).items);
    NewListingIsPlaced(k, DESK_PLACED, 0, InVictoria(Lamp(Open, 3)));
  }
}
