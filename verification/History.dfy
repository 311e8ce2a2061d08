/** Whole runs of the repository, and what an item's row says about the records behind it. */
module History {
  import opened Records
  import opened Store
  import opened Integrity

  // ---------------------------------------------------------------- runs of the repository

  datatype Event =
    | Started(run: RunId, scheduled: bool, at: Time)
    | Offered(run: RunId, record: Record)
    | Finished(run: RunId, status: RunStatus, coverage: Coverage, ids: seq<string>, at: Time)

  /** One repository call. A call that raises leaves the tables as they were, and a run ID is new. */
  function Step(k: Keying, t: Tables, e: Event): Tables {
    match e
    case Started(run, scheduled, at) => if run in t.runs then t else Start(t, run, scheduled, at)
    case Offered(run, record) =>
      var outcome := Persist(k, t, run, record);
      if outcome.Success? then outcome.value.0 else t
    case Finished(run, status, coverage, ids, at) =>
      if status == Running then t else Finish(t, run, status, coverage, ids, at)
  }

  /** The tables after a log of calls on an empty database. */
  function After(k: Keying, log: seq<Event>): Tables {
    if log == [] then EMPTY else Step(k, After(k, log[..|log| - 1]), log[|log| - 1])
  }

  lemma AfterOneMore(k: Keying, before: seq<Event>, e: Event)
    ensures After(k, before + [e]) == Step(k, After(k, before), e)
  {
    assert (before + [e])[..|before|] == before;
  }

  lemma StepKeepsConsistent(k: Keying, t: Tables, e: Event)
    requires Consistent(k, t) && k.Injective()
    ensures Consistent(k, Step(k, t, e))
  {
    match e
    case Started(run, scheduled, at) => StartKeepsConsistent(k, t, run, scheduled, at);
    case Offered(run, record) =>
      if Persist(k, t, run, record).Success? {
        PersistKeepsConsistent(k, t, run, record);
      }
    case Finished(run, status, coverage, ids, at) =>
      if status != Running {
        FinishKeepsConsistent(k, t, run, status, coverage, ids, at);
      }
  }

  /** Every reachable store is consistent. */
  lemma {:induction false} ReachableIsConsistent(k: Keying, log: seq<Event>)
    requires k.Injective()
    ensures Consistent(k, After(k, log))
  {
    if log == [] {
    } else {
      ReachableIsConsistent(k, log[..|log| - 1]);
      StepKeepsConsistent(k, After(k, log[..|log| - 1]), log[|log| - 1]);
    }
  }

  // ---------------------------------------------------------------- reading a sequence of records

  /** A record is stale when an earlier one was observed later. */
  predicate StaleAt(rs: seq<Record>, i: nat)
    requires i < |rs|
  {
    exists j | 0 <= j < i :: rs[j].observedAt > rs[i].observedAt
  }

  /** A record closes the listing when it is not stale and its status is terminal. */
  predicate ClosesAt(rs: seq<Record>, i: nat)
    requires i < |rs|
  {
    !StaleAt(rs, i) && Terminal(rs[i].snapshot.status)
  }

  /** A non-terminal record after the listing was closed is held back. */
  predicate HeldAt(rs: seq<Record>, i: nat)
    requires i < |rs|
  {
    !Terminal(rs[i].snapshot.status) && exists j | 0 <= j < i :: ClosesAt(rs, j)
  }

  predicate AppliedAt(rs: seq<Record>, i: nat)
    requires i < |rs|
  {
    !StaleAt(rs, i) && !HeldAt(rs, i)
  }

  /** `a` is the last record that is neither stale nor held back. */
  ghost predicate LastApplied(rs: seq<Record>, a: nat) {
    a < |rs| && AppliedAt(rs, a) && forall i | a < i < |rs| :: !AppliedAt(rs, i)
  }

  /** `c` is the last record that is not stale. */
  ghost predicate LastCurrent(rs: seq<Record>, c: nat) {
    c < |rs| && !StaleAt(rs, c) && forall i | c < i < |rs| :: StaleAt(rs, i)
  }

  ghost predicate FirstClosing(rs: seq<Record>, c: nat) {
    c < |rs| && ClosesAt(rs, c) && forall i | 0 <= i < c :: !ClosesAt(rs, i)
  }

  ghost predicate Latest(rs: seq<Record>, at: Time) {
    (exists i | 0 <= i < |rs| :: rs[i].observedAt == at) && forall i | 0 <= i < |rs| :: rs[i].observedAt <= at
  }

  predicate ShowsContent(k: Keying, it: Item, r: Record) {
    && it.sourceId == r.sourceId
    && it.metadata == r.metadata
    && it.status == r.snapshot.status
    && it.statusRaw == r.statusRaw
    && it.metadataHash == k.metadataHash(r.metadata)
    && it.observationHash == k.observationHash(r.snapshot)
  }

  ghost predicate ShowsLastApplied(k: Keying, it: Item, rs: seq<Record>) {
    exists a: nat :: LastApplied(rs, a) && ShowsContent(k, it, rs[a])
  }

  ghost predicate ShowsLastIdentity(it: Item, rs: seq<Record>) {
    exists c: nat :: LastCurrent(rs, c) && it.disId == rs[c].disId && it.url == rs[c].url
  }

  ghost predicate ShowsFirstClosing(it: Item, rs: seq<Record>) {
    if it.closedAt.None? then forall i | 0 <= i < |rs| :: !ClosesAt(rs, i)
    else exists c: nat :: FirstClosing(rs, c) && rs[c].observedAt == it.closedAt.value
  }

  /** What a row says of the accepted records `rs` of its listing: the content of the last applied
      record, the identity of the last current one, the closing time of the first one that closed it. */
  ghost predicate Reflects(k: Keying, it: Item, rs: seq<Record>) {
    && rs != []
    && it.firstSeenAt == rs[0].observedAt
    && Latest(rs, it.lastSeenAt)
    && ShowsLastApplied(k, it, rs)
    && ShowsLastIdentity(it, rs)
    && ShowsFirstClosing(it, rs)
  }

  /** The verdict on a record depends only on the records before it. */
  lemma VerdictsAreFinal(rs: seq<Record>, r: Record, i: nat)
    requires i < |rs|
    ensures StaleAt(rs + [r], i) == StaleAt(rs, i)
    ensures ClosesAt(rs + [r], i) == ClosesAt(rs, i)
    ensures HeldAt(rs + [r], i) == HeldAt(rs, i)
  {
    forall j | 0 <= j <= i ensures StaleAt(rs + [r], j) == StaleAt(rs, j) {
      assert forall h | 0 <= h <= j :: (rs + [r])[h] == rs[h];
    }
    forall j | 0 <= j <= i ensures ClosesAt(rs + [r], j) == ClosesAt(rs, j) {
    }
  }

  lemma TerminalMeansClosed(k: Keying, it: Item, rs: seq<Record>)
    requires ShowsLastApplied(k, it, rs)
    ensures Terminal(it.status) <==> exists j | 0 <= j < |rs| :: ClosesAt(rs, j)
  {
    var a: nat :| LastApplied(rs, a) && ShowsContent(k, it, rs[a]);
    assert Terminal(it.status) ==> ClosesAt(rs, a);
    if j: nat :| j < |rs| && ClosesAt(rs, j) {
      assert AppliedAt(rs, j);
      assert !HeldAt(rs, a);
    }
  }

  /** Whether the next record is stale or held is decided by the whole past, and the row knows it. */
  lemma RowDecides(k: Keying, it: Item, rs: seq<Record>, r: Record)
    requires Reflects(k, it, rs)
    ensures StaleAt(rs + [r], |rs|) <==> IsStale(it, r)
    ensures HeldAt(rs + [r], |rs|) <==> IsHeld(it, r)
  {
    var all := rs + [r];
    var m: nat :| m < |rs| && rs[m].observedAt == it.lastSeenAt;
    assert all[m] == rs[m];
    forall j: nat | j < |rs| ensures all[j] == rs[j] && ClosesAt(all, j) == ClosesAt(rs, j) {
      VerdictsAreFinal(rs, r, j);
    }
    TerminalMeansClosed(k, it, rs);
  }

  lemma LatestNext(rs: seq<Record>, at: Time, r: Record)
    requires Latest(rs, at)
    ensures Latest(rs + [r], if r.observedAt < at then at else r.observedAt)
  {
    var all := rs + [r];
    var m: nat :| m < |rs| && rs[m].observedAt == at;
    assert all[m] == rs[m] && all[|rs|] == r;
  }

  /** How the three positions move when a record arrives. */
  lemma PositionsNext(rs: seq<Record>, r: Record)
    ensures var all, n := rs + [r], |rs|;
            && (forall a: nat | LastApplied(rs, a) :: LastApplied(all, if AppliedAt(all, n) then n else a))
            && (forall c: nat | LastCurrent(rs, c) :: LastCurrent(all, if StaleAt(all, n) then c else n))
            && (forall c: nat | FirstClosing(rs, c) :: FirstClosing(all, c))
            && (ClosesAt(all, n) && (forall i | 0 <= i < n :: !ClosesAt(rs, i)) ==> FirstClosing(all, n))
            && (!ClosesAt(all, n) && (forall i | 0 <= i < n :: !ClosesAt(rs, i)) ==>
                  forall i | 0 <= i <= n :: !ClosesAt(all, i))
  {
    forall i: nat | i < |rs|
      ensures AppliedAt(rs + [r], i) == AppliedAt(rs, i)
      ensures StaleAt(rs + [r], i) == StaleAt(rs, i) && ClosesAt(rs + [r], i) == ClosesAt(rs, i)
    {
      VerdictsAreFinal(rs, r, i);
    }
  }

  /** The row a record leaves reflects the longer past. */
  lemma ReflectsNext(k: Keying, it: Item, rs: seq<Record>, r: Record)
    requires Reflects(k, it, rs) && r.sourceId == it.sourceId
    ensures Reflects(k, ItemAfter(k, it, r), rs + [r])
  {
    var all, next := rs + [r], ItemAfter(k, it, r);
    RowDecides(k, it, rs, r);
    LatestNext(rs, it.lastSeenAt, r);
    PositionsNext(rs, r);
    assert ShowsLastApplied(k, next, all) by {
      var a: nat :| LastApplied(rs, a) && ShowsContent(k, it, rs[a]);
      var b := if AppliedAt(all, |rs|) then |rs| else a;
      assert LastApplied(all, b) && ShowsContent(k, next, all[b]);
    }
    assert ShowsLastIdentity(next, all) by {
      var c: nat :| LastCurrent(rs, c) && it.disId == rs[c].disId && it.url == rs[c].url;
      var d := if StaleAt(all, |rs|) then c else |rs|;
      assert LastCurrent(all, d) && next.disId == all[d].disId && next.url == all[d].url;
    }
    assert ShowsFirstClosing(next, all) by {
      if it.closedAt.Some? {
        var c: nat :| FirstClosing(rs, c) && rs[c].observedAt == it.closedAt.value;
        assert FirstClosing(all, c) && all[c] == rs[c];
      }
    }
  }

  lemma ReflectsFirst(k: Keying, r: Record)
    ensures Reflects(k, NewItem(k, r), [r])
  {
    var rs, it := [r], NewItem(k, r);
    assert Latest(rs, it.lastSeenAt) by {
      assert rs[0].observedAt == it.lastSeenAt;
    }
    assert LastApplied(rs, 0) && ShowsContent(k, it, rs[0]);
    assert LastCurrent(rs, 0);
    if Terminal(r.snapshot.status) {
      assert FirstClosing(rs, 0);
    }
  }

  // ---------------------------------------------------------------- rows of a reachable store

  /** The records of one listing that the log persisted, in the order of the calls. */
  function Accepted(k: Keying, log: seq<Event>, sourceId: string): seq<Record> {
    if log == [] then [] else
    var before := log[..|log| - 1];
    var last := log[|log| - 1];
    if last.Offered? && last.record.sourceId == sourceId && Persist(k, After(k, before), last.run, last.record).Success?
    then Accepted(k, before, sourceId) + [last.record]
    else Accepted(k, before, sourceId)
  }

  /** Every row reflects the past of its listing, and every listing with a past has a row. */
  ghost predicate ItemsReflect(k: Keying, items: seq<Item>, past: string -> seq<Record>) {
    && (forall i | 0 <= i < |items| :: Reflects(k, items[i], past(items[i].sourceId)))
    && (forall sourceId | past(sourceId) != [] :: Known(items, sourceId))
  }

  ghost predicate RowsReflect(k: Keying, log: seq<Event>) {
    ItemsReflect(k, After(k, log).items, sourceId => Accepted(k, log, sourceId))
  }

  lemma KnownStaysKnown(k: Keying, t: Tables, run: RunId, r: Record, id: nat, after: Tables, sourceId: string)
    requires RowsOk(t.items) && Effect(k, t, run, r, id, after) && Known(t.items, sourceId)
    ensures Known(after.items, sourceId)
  {
    ResolveIsExact(k, t, r);
    var i: nat :| i < |t.items| && t.items[i].sourceId == sourceId;
    assert after.items[i].sourceId == sourceId;
  }

  lemma RowReflectsAfter(k: Keying, t: Tables, run: RunId, r: Record, id: nat, after: Tables, i: nat, rs: seq<Record>)
    requires RowsOk(t.items) && Effect(k, t, run, r, id, after) && i < |after.items|
    requires if i < |t.items| then Reflects(k, t.items[i], rs) else rs == []
    ensures Reflects(k, after.items[i], if after.items[i].sourceId == r.sourceId then rs + [r] else rs)
  {
    EffectKeepsRows(k, t, run, r, id, after);
    ResolveIsExact(k, t, r);
    if i == id {
      if id < |t.items| {
        ReflectsNext(k, t.items[id], rs, r);
      } else {
        ReflectsFirst(k, r);
        assert [] + [r] == [r];
      }
    }
  }

  lemma EffectReflects(k: Keying, t: Tables, run: RunId, r: Record, id: nat, after: Tables,
                       past: string -> seq<Record>, next: string -> seq<Record>)
    requires RowsOk(t.items) && Effect(k, t, run, r, id, after) && ItemsReflect(k, t.items, past)
    requires forall s :: next(s) == if s == r.sourceId then past(s) + [r] else past(s)
    ensures ItemsReflect(k, after.items, next)
  {
    EffectKeepsRows(k, t, run, r, id, after);
    ResolveIsExact(k, t, r);
    forall i | 0 <= i < |after.items|
      ensures Reflects(k, after.items[i], next(after.items[i].sourceId))
    {
      RowReflectsAfter(k, t, run, r, id, after, i, past(after.items[i].sourceId));
    }
    forall sourceId | next(sourceId) != [] ensures Known(after.items, sourceId) {
      if sourceId == r.sourceId {
        assert after.items[id].sourceId == sourceId;
      } else {
        KnownStaysKnown(k, t, run, r, id, after, sourceId);
      }
    }
  }

  lemma AcceptedNext(k: Keying, before: seq<Event>, run: RunId, r: Record)
    requires Persist(k, After(k, before), run, r).Success?
    ensures forall s :: Accepted(k, before + [Offered(run, r)], s) ==
                        if s == r.sourceId then Accepted(k, before, s) + [r] else Accepted(k, before, s)
  {
    assert (before + [Offered(run, r)])[..|before|] == before;
  }

  lemma PersistReflects(k: Keying, before: seq<Event>, run: RunId, r: Record)
    requires RowsReflect(k, before) && RowsOk(After(k, before).items)
    requires Persist(k, After(k, before), run, r).Success?
    ensures RowsReflect(k, before + [Offered(run, r)])
  {
    var log := before + [Offered(run, r)];
    AfterOneMore(k, before, Offered(run, r));
    AcceptedNext(k, before, run, r);
    var id := PersistHasEffect(k, After(k, before), run, r);
    EffectReflects(k, After(k, before), run, r, id, After(k, log),
                   sourceId => Accepted(k, before, sourceId), sourceId => Accepted(k, log, sourceId));
  }

  lemma FreshnessDoesNotReflect(k: Keying, it: Item, f: Freshness, rs: seq<Record>)
    requires Reflects(k, it, rs)
    ensures Reflects(k, it.(freshness := f), rs)
  {
    var a: nat :| LastApplied(rs, a) && ShowsContent(k, it, rs[a]);
    assert ShowsContent(k, it.(freshness := f), rs[a]);
  }

  lemma FreshnessReflects(k: Keying, items: seq<Item>, after: seq<Item>,
                          past: string -> seq<Record>, next: string -> seq<Record>)
    requires ItemsReflect(k, items, past) && |after| == |items|
    requires forall i | 0 <= i < |items| :: after[i] == items[i].(freshness := after[i].freshness)
    requires forall s :: next(s) == past(s)
    ensures ItemsReflect(k, after, next)
  {
    forall i | 0 <= i < |after| ensures Reflects(k, after[i], next(after[i].sourceId)) {
      FreshnessDoesNotReflect(k, items[i], after[i].freshness, past(items[i].sourceId));
    }
    forall sourceId | next(sourceId) != [] ensures Known(after, sourceId) {
      var i: nat :| i < |items| && items[i].sourceId == sourceId;
      assert after[i].sourceId == sourceId;
    }
  }

  /** Starting and finishing runs leaves content and identity alone. */
  lemma OtherStepsReflect(k: Keying, log: seq<Event>, before: seq<Event>, last: Event)
    requires log == before + [last] && !last.Offered?
    requires RowsReflect(k, before)
    ensures RowsReflect(k, log)
  {
    assert log[..|log| - 1] == before;
    FreshnessReflects(k, After(k, before).items, After(k, log).items,
                      sourceId => Accepted(k, before, sourceId), sourceId => Accepted(k, log, sourceId));
  }

  /** Any store reachable by any calls: an item exists exactly for the listings that have an accepted
      record, and its row reflects all of them. */
  lemma {:induction false} RowsReflectHistory(k: Keying, log: seq<Event>)
    requires k.Injective()
    ensures RowsReflect(k, log)
  {
    if log == [] {
    } else {
      var before, last := log[..|log| - 1], log[|log| - 1];
      RowsReflectHistory(k, before);
      ReachableIsConsistent(k, before);
      match last
      case Offered(run, r) =>
        if Persist(k, After(k, before), run, r).Success? {
          PersistReflects(k, before, run, r);
          assert log == before + [last];
        }
      case _ => OtherStepsReflect(k, log, before, last);
    }
  }

  lemma StepKeepsClosure(k: Keying, t: Tables, e: Event, i: nat)
    requires Consistent(k, t) && i < |t.items|
    ensures i < |Step(k, t, e).items|
    ensures var was, now := t.items[i], Step(k, t, e).items[i];
            && now.sourceId == was.sourceId
            && now.firstSeenAt == was.firstSeenAt
            && now.lastSeenAt >= was.lastSeenAt
            && (Terminal(was.status) ==> Terminal(now.status) && now.closedAt == was.closedAt)
  {
    if e.Offered? && Persist(k, t, e.run, e.record).Success? {
      var id := PersistHasEffect(k, t, e.run, e.record);
      EffectKeepsRows(k, t, e.run, e.record, id, Step(k, t, e));
      ResolveIsExact(k, t, e.record);
      assert ItemOk(t.items[i]);
      ItemAfterOk(k, t.items[i], e.record);
    }
  }

  // ---------------------------------------------------------------- closure over any continuation

  /** Items are never removed or renamed; once closed or withdrawn they stay so, with the same
      closing time, whatever calls follow. */
  lemma {:induction false} ClosureIsAbsorbing(k: Keying, log: seq<Event>, more: seq<Event>, i: nat)
    requires k.Injective() && i < |After(k, log).items|
    ensures i < |After(k, log + more).items|
    ensures After(k, log + more).items[i].sourceId == After(k, log).items[i].sourceId
    ensures After(k, log + more).items[i].firstSeenAt == After(k, log).items[i].firstSeenAt
    ensures After(k, log + more).items[i].lastSeenAt >= After(k, log).items[i].lastSeenAt
    ensures Terminal(After(k, log).items[i].status) ==>
              && Terminal(After(k, log + more).items[i].status)
              && After(k, log + more).items[i].closedAt == After(k, log).items[i].closedAt
    decreases |more|
  {
    if more == [] {
      assert log + more == log;
    } else {
      var before, last := log + more[..|more| - 1], more[|more| - 1];
      assert (log + more)[..|log + more| - 1] == before;
      ClosureIsAbsorbing(k, log, more[..|more| - 1], i);
      ReachableIsConsistent(k, before);
      StepKeepsClosure(k, After(k, before), last, i);
    }
  }
}
