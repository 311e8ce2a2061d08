/** What a run's row shows of the calls behind it, over every log. */
module RunRows {
  import opened Wrappers
  import opened Records
  import opened Store
  import opened Integrity
  import opened History

  /** Call number `i` started the run: the first one to do so. */
  ghost predicate Starts(log: seq<Event>, run: RunId, i: nat) {
    && i < |log| && log[i].Started? && log[i].run == run
    && forall j | 0 <= j < i :: !(log[j].Started? && log[j].run == run)
  }

  /** Call number `j` finishes the run. */
  predicate Ends(log: seq<Event>, run: RunId, j: nat) {
    j < |log| && log[j].Finished? && log[j].run == run && log[j].status != Running
  }

  /** Call number `j` is the last one after its start to finish the run. */
  ghost predicate EndsLast(log: seq<Event>, run: RunId, start: nat, j: nat) {
    start < j && Ends(log, run, j) && forall h | j < h < |log| :: !Ends(log, run, h)
  }

  /** Every group processed, and every listing fetched and stored once. */
  predicate IsFull(c: Coverage) {
    && c.enumerationComplete && c.expectedGroups == c.processedGroups
    && c.uniqueListings == c.detailAttempted == c.detailSucceeded == c.persistenceSucceeded
    && c.persistenceFailures == 0
  }

  ghost predicate ShowsFinish(e: Event, row: ScrapeRun)
    requires e.Finished?
  {
    && row.finishedAt == Some(e.at) && row.status == e.status && row.coverage == e.coverage
    && row.completion == if IsFull(e.coverage) then Complete else Incomplete
  }

  ghost predicate ShowsFrom(log: seq<Event>, run: RunId, i: nat, row: ScrapeRun)
    requires Starts(log, run, i)
  {
    && row.scheduled == log[i].scheduled && row.startedAt == row.createdAt == log[i].at
    && if row.status == Running then
         && row.finishedAt.None? && row.completion == Pending
         && row.coverage == Coverage(0, 0, 0, 0, 0, 0, 0, 0, false)
         && forall j | i < j < |log| :: !Ends(log, run, j)
       else exists j: nat :: EndsLast(log, run, i, j) && ShowsFinish(log[j], row)
  }

  /** The row shows its start, and its last finish, if there is one. */
  ghost predicate ShowsRun(log: seq<Event>, run: RunId, row: ScrapeRun) {
    exists i: nat :: Starts(log, run, i) && ShowsFrom(log, run, i, row)
  }

  /** Only a run that succeeded with everything in place ages the inventory. */
  lemma AgesExactly(status: RunStatus, coverage: Coverage)
    ensures Ages(status, coverage) <==> status == Succeeded && IsFull(coverage)
    ensures coverage.CompletionStatus() == if IsFull(coverage) then Complete else Incomplete
  {
  }

  lemma StartsStays(log: seq<Event>, e: Event, run: RunId, i: nat)
    requires i < |log|
    ensures Starts(log + [e], run, i) <==> Starts(log, run, i)
    ensures Ends(log + [e], run, i) <==> Ends(log, run, i)
  {
    assert forall j | 0 <= j < |log| :: (log + [e])[j] == log[j];
  }

  lemma OtherCallShows(log: seq<Event>, e: Event, run: RunId, row: ScrapeRun)
    requires ShowsRun(log, run, row) && !(e.Finished? && e.run == run && e.status != Running)
    ensures ShowsRun(log + [e], run, row)
  {
    var all := log + [e];
    var i: nat :| Starts(log, run, i) && ShowsFrom(log, run, i, row);
    StartsStays(log, e, run, i);
    forall j: nat | j < |log| ensures Ends(all, run, j) <==> Ends(log, run, j) {
      StartsStays(log, e, run, j);
    }
    assert !Ends(all, run, |log|);
    if row.status != Running {
      var j: nat :| EndsLast(log, run, i, j) && ShowsFinish(log[j], row);
      assert EndsLast(all, run, i, j) && all[j] == log[j];
    }
    assert ShowsFrom(all, run, i, row);
  }

  lemma FinishShows(log: seq<Event>, e: Event, run: RunId, was: ScrapeRun, row: ScrapeRun)
    requires ShowsRun(log, run, was) && e.Finished? && e.run == run && e.status != Running
    requires row == was.(finishedAt := Some(e.at), status := e.status, completion := e.coverage.CompletionStatus(),
                                                      coverage := e.coverage)
    ensures ShowsRun(log + [e], run, row)
  {
    var all := log + [e];
    var i: nat :| Starts(log, run, i) && ShowsFrom(log, run, i, was);
    StartsStays(log, e, run, i);
    AgesExactly(e.status, e.coverage);
    assert EndsLast(all, run, i, |log|) && ShowsFinish(all[|log|], row);
    assert ShowsFrom(all, run, i, row);
  }

  lemma StartShows(log: seq<Event>, e: Event, run: RunId, row: ScrapeRun)
    requires e.Started? && e.run == run && forall j | 0 <= j < |log| :: !(log[j].Started? && log[j].run == run)
    requires row == ScrapeRun(e.scheduled, e.at, e.at, None, Running, Pending, NO_COVERAGE)
    ensures ShowsRun(log + [e], run, row)
  {
    assert Starts(log + [e], run, |log|);
    assert ShowsFrom(log + [e], run, |log|, row);
  }

  ghost predicate WasStarted(log: seq<Event>, run: RunId) {
    exists i | 0 <= i < |log| :: log[i].Started? && log[i].run == run
  }

  lemma WasStartedNext(log: seq<Event>, e: Event, run: RunId)
    ensures WasStarted(log + [e], run) <==> WasStarted(log, run) || (e.Started? && e.run == run)
  {
    var all := log + [e];
    assert all[|log|] == e && forall i | 0 <= i < |log| :: all[i] == log[i];
  }

  /** What one call does to the row of a run. */
  lemma RowAfter(k: Keying, t: Tables, e: Event, run: RunId)
    ensures run in Step(k, t, e).runs <==> run in t.runs || (e.Started? && e.run == run)
    ensures run in t.runs && !(e.Finished? && e.run == run && e.status != Running) ==>
              Step(k, t, e).runs[run] == t.runs[run]
    ensures run in t.runs && e.Finished? && e.run == run && e.status != Running ==>
              Step(k, t, e).runs[run] == t.runs[run].(finishedAt := Some(e.at), status := e.status,
                                                      completion := e.coverage.CompletionStatus(),
                                                      coverage := e.coverage)
    ensures run !in t.runs && e.Started? && e.run == run ==>
              Step(k, t, e).runs[run] == ScrapeRun(e.scheduled, e.at, e.at, None, Running, Pending, NO_COVERAGE)
  {
    if e.Offered? && Persist(k, t, e.run, e.record).Success? {
      var id := PersistHasEffect(k, t, e.run, e.record);
    }
  }

  /** For every log: a run has a row exactly when it was started, and the row shows the flag and the time of its
      first start, and time, status, coverage and completeness of its last finish. */
  lemma {:induction false} RunRowsReflectLog(k: Keying, log: seq<Event>, run: RunId)
    ensures run in After(k, log).runs <==> WasStarted(log, run)
    ensures run in After(k, log).runs ==> ShowsRun(log, run, After(k, log).runs[run])
  {
    if log == [] {
    } else {
      var before, e := log[..|log| - 1], log[|log| - 1];
      RunRowsReflectLog(k, before, run);
      assert before + [e] == log;
      WasStartedNext(before, e, run);
      RowAfter(k, After(k, before), e, run);
      if run in After(k, log).runs {
        var row := After(k, log).runs[run];
        if run !in After(k, before).runs {
          StartShows(before, e, run, row);
        } else if e.Finished? && e.run == run && e.status != Running {
          FinishShows(before, e, run, After(k, before).runs[run], row);
        } else {
          OtherCallShows(before, e, run, row);
        }
      }
    }
  }

  /** The history row comes from a call of this log, and names the run of that call. */
  ghost predicate CameFrom(log: seq<Event>, sourceId: string, key: ObservationKey, o: Observation) {
    exists i | 0 <= i < |log| ::
      && log[i].Offered? && log[i].run == o.run && log[i].record.sourceId == sourceId
      && log[i].record.observedAt == key.observedAt && log[i].record.snapshot == o.snapshot
  }

  lemma CameFromStays(log: seq<Event>, e: Event, sourceId: string, key: ObservationKey, o: Observation)
    requires CameFrom(log, sourceId, key, o)
    ensures CameFrom(log + [e], sourceId, key, o)
  {
    var i :| 0 <= i < |log| && log[i].Offered? && log[i].run == o.run && log[i].record.sourceId == sourceId
             && log[i].record.observedAt == key.observedAt && log[i].record.snapshot == o.snapshot;
    assert (log + [e])[i] == log[i];
  }

  /** The history after one call: every row kept, and a new one, if any, of this run and record. */
  ghost predicate HistoryGrows(t: Tables, after: Tables, run: RunId, r: Record, key: ObservationKey) {
    && (key.item < |t.items| && key in t.observations ==>
          && key in after.observations && after.observations[key] == t.observations[key]
          && key.item < |after.items| && after.items[key.item].sourceId == t.items[key.item].sourceId)
    && (key in after.observations && key !in t.observations ==>
          && after.observations[key] == Observation(run, r.snapshot, r.observedAt) && key.observedAt == r.observedAt
          && key.item < |after.items| && after.items[key.item].sourceId == r.sourceId)
  }

  lemma OfferGrowsHistory(k: Keying, t: Tables, run: RunId, r: Record, key: ObservationKey)
    requires RowsOk(t.items) && Persist(k, t, run, r).Success?
    ensures HistoryGrows(t, Persist(k, t, run, r).value.0, run, r, key)
  {
    var after := Persist(k, t, run, r).value.0;
    var id := PersistHasEffect(k, t, run, r);
    EffectKeepsRows(k, t, run, r, id, after);
    ResolveIsExact(k, t, r);
  }

  lemma OtherCallKeepsHistory(k: Keying, t: Tables, e: Event)
    requires e.Offered? ==> Persist(k, t, e.run, e.record).Failure?
    ensures var after := Step(k, t, e);
            && after.observations == t.observations && |after.items| == |t.items|
            && forall i | 0 <= i < |t.items| :: after.items[i].sourceId == t.items[i].sourceId
  {
  }

  /** For every log: each row of the history names the run that offered its record. */
  lemma {:induction false} HistoryNamesRuns(k: Keying, log: seq<Event>, key: ObservationKey)
    requires k.Injective() && key in After(k, log).observations
    ensures key.item < |After(k, log).items|
    ensures CameFrom(log, After(k, log).items[key.item].sourceId, key, After(k, log).observations[key])
  {
    if log == [] {
      assert false;
    } else {
      var before, e := log[..|log| - 1], log[|log| - 1];
      var t := After(k, before);
      assert before + [e] == log;
      ReachableIsConsistent(k, before);
      if e.Offered? && Persist(k, t, e.run, e.record).Success? {
        OfferGrowsHistory(k, t, e.run, e.record, key);
      } else {
        OtherCallKeepsHistory(k, t, e);
      }
      if key in t.observations {
        HistoryNamesRuns(k, before, key);
        CameFromStays(before, e, t.items[key.item].sourceId, key, t.observations[key]);
      } else {
        assert log[|log| - 1] == e;
      }
    }
  }
}
