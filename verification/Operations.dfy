/** The operations view: how many scheduled runs have failed since the last complete one. */
module Operations {
  import opened Wrappers
  import opened Records
  import opened Store
  import opened History
  import opened Ordering
  import opened Calls

  type Runs = map<RunId, ScrapeRun>

  predicate IsComplete(runs: Runs, id: RunId) {
    id in runs && runs[id].scheduled && runs[id].status == Succeeded && runs[id].completion == Complete
  }

  /** A finished scheduled run that was not complete. */
  predicate IsFailure(runs: Runs, id: RunId) {
    id in runs && runs[id].scheduled && runs[id].status != Running
    && (runs[id].status != Succeeded || runs[id].completion != Complete)
  }

  function Finishes(runs: Runs): set<RunId> {
    set id | id in runs && (IsComplete(runs, id) || IsFailure(runs, id))
  }

  function StartOf(runs: Runs, id: RunId): Time {
    if id in runs then runs[id].startedAt else 0
  }

  /** Finish time, then creation time, then ID; a finished run has a finish time. */
  predicate FinishesAfter(runs: Runs, a: RunId, b: RunId)
    requires a in runs && b in runs && runs[a].finishedAt.Some? && runs[b].finishedAt.Some?
  {
    var x, y := runs[a], runs[b];
    x.finishedAt.value > y.finishedAt.value
    || (x.finishedAt == y.finishedAt && (x.createdAt > y.createdAt || (x.createdAt == y.createdAt && a > b)))
  }

  /** What the schema demands, and what starting a run writes. */
  ghost predicate RunsOk(runs: Runs) {
    forall id | id in runs ::
      (runs[id].finishedAt.None? <==> runs[id].status == Running) && runs[id].createdAt == runs[id].startedAt
  }

  /** The first row of the complete scheduled runs, latest finish first. */
  ghost predicate LatestComplete(runs: Runs, id: RunId)
    requires RunsOk(runs)
  {
    IsComplete(runs, id) && forall other | other in runs && IsComplete(runs, other) :: !FinishesAfter(runs, other, id)
  }

  /** The count query: failures that started after the latest complete run did. */
  function FailuresSince(runs: Runs, latest: Option<RunId>): set<RunId> {
    set id | id in runs && IsFailure(runs, id) && (latest.Some? ==> runs[id].startedAt > StartOf(runs, latest.value))
  }

  /** Which rows the two queries read: the scheduled runs that are no longer running; among them a run is complete
      when it succeeded with complete coverage, and any other one is a failure. */
  lemma FinishesAreExact(runs: Runs)
    ensures Finishes(runs) == set id | id in runs && runs[id].scheduled && runs[id].status != Running
    ensures forall id | id in Finishes(runs) ::
              && (IsComplete(runs, id) <==> runs[id].status == Succeeded && runs[id].completion == Complete)
              && (IsFailure(runs, id) <==>
                    runs[id].status == Partial || runs[id].status == Failed || runs[id].completion != Complete)
    ensures forall id :: IsComplete(runs, id) || IsFailure(runs, id) ==> id in Finishes(runs)
  {
  }

  /** The number that the operations view shows: all failed, partial and incomplete scheduled runs, or those that
      started after the complete run with the latest finish did. */
  lemma CountIsExact(runs: Runs, latest: RunId)
    requires RunsOk(runs)
    ensures var failed := set id | id in runs && runs[id].scheduled
                                   && (runs[id].status == Partial || runs[id].status == Failed
                                       || (runs[id].status == Succeeded && runs[id].completion != Complete));
            && FailuresSince(runs, None) == failed
            && (latest in runs ==>
                  FailuresSince(runs, Some(latest)) ==
                  set id | id in failed && runs[id].startedAt > runs[latest].startedAt)
    ensures LatestComplete(runs, latest) <==>
              && latest in runs && runs[latest].scheduled
              && runs[latest].status == Succeeded && runs[latest].completion == Complete
              && forall id | id in runs && id != latest && runs[id].scheduled
                             && runs[id].status == Succeeded && runs[id].completion == Complete ::
                   || runs[id].finishedAt.value < runs[latest].finishedAt.value
                   || (runs[id].finishedAt == runs[latest].finishedAt
                       && (runs[id].createdAt < runs[latest].createdAt
                           || (runs[id].createdAt == runs[latest].createdAt && id < latest)))
  {
  }

  // ---------------------------------------------------------------- the meaning

  ghost predicate DistinctStarts(runs: Runs) {
    forall a, b | a in Finishes(runs) && b in Finishes(runs) && a != b :: runs[a].startedAt != runs[b].startedAt
  }

  ghost predicate NoOverlap(runs: Runs)
    requires RunsOk(runs)
  {
    && (forall a | a in Finishes(runs) :: runs[a].startedAt <= runs[a].finishedAt.value)
    && (forall a, b | a in Finishes(runs) && b in Finishes(runs) && a != b ::
          runs[a].finishedAt.value <= runs[b].startedAt || runs[b].finishedAt.value <= runs[a].startedAt)
  }

  /** Start order; runs that start together are ordered by ID. */
  function StartsBefore(runs: Runs): (RunId, RunId) -> bool {
    (a: RunId, b: RunId) => StartOf(runs, a) < StartOf(runs, b) || (StartOf(runs, a) == StartOf(runs, b) && a < b)
  }

  /** The failures that come after `last` in start order. */
  function FailuresAfter(runs: Runs, last: Option<RunId>): set<RunId> {
    set id | id in runs && IsFailure(runs, id) && (last.Some? ==> StartsBefore(runs)(last.value, id))
  }

  /** The length of the longest suffix of failures. */
  function TrailingFailures(runs: Runs, ordered: seq<RunId>): (n: nat)
    ensures n <= |ordered|
    ensures forall j | |ordered| - n <= j < |ordered| :: IsFailure(runs, ordered[j])
    ensures n < |ordered| ==> !IsFailure(runs, ordered[|ordered| - n - 1])
  {
    if ordered == [] || !IsFailure(runs, ordered[|ordered| - 1]) then 0
    else 1 + TrailingFailures(runs, ordered[..|ordered| - 1])
  }

  function Elements(s: seq<RunId>): set<RunId> {
    set x | x in s
  }

  lemma {:induction false} SetOfDistinct(s: seq<RunId>)
    requires forall i, j | 0 <= i < j < |s| :: s[i] != s[j]
    ensures |Elements(s)| == |s|
  {
    if s == [] {
      assert Elements(s) == {};
    } else {
      var init, last := s[..|s| - 1], s[|s| - 1];
      SetOfDistinct(init);
      assert s == init + [last];
      assert last !in init;
      assert Elements(s) == Elements(init) + {last};
    }
  }

  lemma SuffixIsFailuresAfter(runs: Runs, ordered: seq<RunId>, m: nat, last: Option<RunId>)
    requires Arranges(StartsBefore(runs), Finishes(runs), ordered)
    requires m <= |ordered| && last == if m == 0 then None else Some(ordered[m - 1])
    requires forall j | m <= j < |ordered| :: IsFailure(runs, ordered[j])
    ensures Elements(ordered[m..]) == FailuresAfter(runs, last)
  {
    forall j | 0 <= j < m ensures ordered[j] !in FailuresAfter(runs, last) {
      assert j < m - 1 ==> StartsBefore(runs)(ordered[j], ordered[m - 1]);
    }
    forall id ensures id in ordered[m..] <==> id in FailuresAfter(runs, last) {
      if id in ordered[m..] {
        var j :| m <= j < |ordered| && ordered[j] == id;
        assert m > 0 ==> StartsBefore(runs)(ordered[m - 1], ordered[j]);
      }
      if id in FailuresAfter(runs, last) {
        assert id in Finishes(runs) && id in ordered;
        var j :| 0 <= j < |ordered| && ordered[j] == id;
        assert ordered[m..][j - m] == id;
      }
    }
  }

  /** In start order, the trailing failures are those after the last-started complete run. */
  lemma TrailingAreAfterLastStart(runs: Runs, ordered: seq<RunId>) returns (last: Option<RunId>)
    requires Arranges(StartsBefore(runs), Finishes(runs), ordered)
    ensures last.None? <==> forall id | id in runs :: !IsComplete(runs, id)
    ensures last.Some? ==> IsComplete(runs, last.value)
    ensures forall id | last.Some? && id in runs && IsComplete(runs, id) && id != last.value ::
              StartsBefore(runs)(id, last.value)
    ensures TrailingFailures(runs, ordered) == |FailuresAfter(runs, last)|
  {
    var n := TrailingFailures(runs, ordered);
    var m := |ordered| - n;
    var suffix := ordered[m..];
    last := if m == 0 then None else Some(ordered[m - 1]);
    assert m > 0 ==> ordered[m - 1] in Finishes(runs);
    forall id | id in runs && IsComplete(runs, id)
      ensures m > 0 && (id != ordered[m - 1] ==> StartsBefore(runs)(id, ordered[m - 1]))
    {
      assert id in Finishes(runs) && id in ordered;
      var j :| 0 <= j < |ordered| && ordered[j] == id;
      assert !IsFailure(runs, ordered[j]);
      assert j < m;
    }
    forall i, j | 0 <= i < j < |suffix| ensures suffix[i] != suffix[j] {
      assert StartsBefore(runs)(ordered[m + i], ordered[m + j]);
    }
    SetOfDistinct(suffix);
    SuffixIsFailuresAfter(runs, ordered, m, last);
  }

  /** A failure that started after the complete run that finished last, but before another complete run. */
  ghost predicate Overcounted(runs: Runs, latest: RunId, f: RunId) {
    && IsFailure(runs, f) && StartOf(runs, latest) < StartOf(runs, f)
    && exists c :: IsComplete(runs, c) && StartsBefore(runs)(f, c)
  }

  /** A failure after every complete run that did not start later than the one that finished last: it
      started at the same instant. */
  ghost predicate Missed(runs: Runs, latest: RunId, f: RunId) {
    && IsFailure(runs, f) && StartOf(runs, f) <= StartOf(runs, latest)
    && forall c | c in runs && IsComplete(runs, c) :: StartsBefore(runs)(c, f)
  }

  lemma Subtract(a: set<RunId>, b: set<RunId>)
    ensures a <= b ==> |a| <= |b| && (|a| == |b| <==> a == b)
  {
    if a <= b {
      assert b == a + (b - a);
      assert |b| == |a| + |b - a|;
    }
  }

  /** The query counts too many exactly when some failure is overcounted, too few exactly when one is
      missed, and never both. */
  lemma CountIsExactUnless(runs: Runs, ordered: seq<RunId>, latest: RunId)
    requires RunsOk(runs) && LatestComplete(runs, latest)
    requires Arranges(StartsBefore(runs), Finishes(runs), ordered)
    ensures |FailuresSince(runs, Some(latest))| > TrailingFailures(runs, ordered)
            <==> exists f :: Overcounted(runs, latest, f)
    ensures |FailuresSince(runs, Some(latest))| < TrailingFailures(runs, ordered)
            <==> exists f :: Missed(runs, latest, f)
  {
    var last := TrailingAreAfterLastStart(runs, ordered);
    var counted, trailing := FailuresSince(runs, Some(latest)), FailuresAfter(runs, last);
    forall f ensures f in counted && f !in trailing <==> Overcounted(runs, latest, f) {
      assert f in counted && f !in trailing ==> StartsBefore(runs)(f, last.value);
    }
    forall f ensures f in trailing && f !in counted <==> Missed(runs, latest, f) {
    }
    if f :| Overcounted(runs, latest, f) {
      forall g ensures !Missed(runs, latest, g) {
      }
      assert trailing <= counted;
      Subtract(trailing, counted);
    } else {
      assert counted <= trailing;
      Subtract(counted, trailing);
      if |counted| < |trailing| {
        var f :| f in trailing && f !in counted;
        assert Missed(runs, latest, f);
      }
    }
  }

  function Begun(run: RunId, at: Time): Event {
    Started(run, true, at)
  }

  function Completed(run: RunId, at: Time): Event {
    Finished(run, Succeeded, Full(0), [], at)
  }

  function FailedRun(run: RunId, at: Time): Event {
    Finished(run, Failed, NO_COVERAGE, [], at)
  }

  /** A long complete run around a failure and a short complete run. */
  const OVERLAPPING: seq<Event> :=
    [Begun(1, 1)] + [Begun(2, 2)] + [FailedRun(2, 3)] + [Begun(3, 4)] + [Completed(3, 5)] + [Completed(1, 9)]

  /** A complete run and a failure that started together. */
  const TOGETHER: seq<Event> := [Begun(1, 1)] + [Begun(2, 1)] + [Completed(1, 2)] + [FailedRun(2, 3)]

  function Row(startedAt: Time, finishedAt: Time, status: RunStatus, coverage: Coverage): ScrapeRun {
    ScrapeRun(true, startedAt, startedAt, Some(finishedAt), status, coverage.CompletionStatus(), coverage)
  }

  lemma RunsOfOverlapping(k: Keying)
    ensures After(k, OVERLAPPING).runs ==
              map[1 := Row(1, 9, Succeeded, Full(0)), 2 := Row(2, 3, Failed, NO_COVERAGE),
                  3 := Row(4, 5, Succeeded, Full(0))]
  {
    AfterOneMore(k, [], Begun(1, 1));
    assert [] + [Begun(1, 1)] == [Begun(1, 1)];
    AfterOneMore(k, [Begun(1, 1)], Begun(2, 2));
    AfterOneMore(k, [Begun(1, 1)] + [Begun(2, 2)], FailedRun(2, 3));
    AfterOneMore(k, [Begun(1, 1)] + [Begun(2, 2)] + [FailedRun(2, 3)], Begun(3, 4));
    AfterOneMore(k, [Begun(1, 1)] + [Begun(2, 2)] + [FailedRun(2, 3)] + [Begun(3, 4)], Completed(3, 5));
    AfterOneMore(k, [Begun(1, 1)] + [Begun(2, 2)] + [FailedRun(2, 3)] + [Begun(3, 4)] + [Completed(3, 5)],
                 Completed(1, 9));
  }

  lemma RunsOfTogether(k: Keying)
    ensures After(k, TOGETHER).runs == map[1 := Row(1, 2, Succeeded, Full(0)), 2 := Row(1, 3, Failed, NO_COVERAGE)]
  {
    AfterOneMore(k, [], Begun(1, 1));
    assert [] + [Begun(1, 1)] == [Begun(1, 1)];
    AfterOneMore(k, [Begun(1, 1)], Begun(2, 1));
    AfterOneMore(k, [Begun(1, 1)] + [Begun(2, 1)], Completed(1, 2));
    AfterOneMore(k, [Begun(1, 1)] + [Begun(2, 1)] + [Completed(1, 2)], FailedRun(2, 3));
  }

  lemma StepKeepsRunsOk(k: Keying, t: Tables, e: Event)
    requires RunsOk(t.runs)
    ensures RunsOk(Step(k, t, e).runs)
  {
  }

  /** Every reachable store satisfies the assumption on run rows. */
  lemma {:induction false} ReachableRunsOk(k: Keying, log: seq<Event>)
    ensures RunsOk(After(k, log).runs)
  {
    if log == [] {
    } else {
      ReachableRunsOk(k, log[..|log| - 1]);
      StepKeepsRunsOk(k, After(k, log[..|log| - 1]), log[|log| - 1]);
    }
  }

  /** The failure inside the long run counts, although a complete run started after it. */
  lemma CountMayExceed(k: Keying)
    ensures var runs, ordered := After(k, OVERLAPPING).runs, [1, 2, 3];
            && RunsOk(runs) && LatestComplete(runs, 1) && Overcounted(runs, 1, 2)
            && Arranges(StartsBefore(runs), Finishes(runs), ordered)
            && |FailuresSince(runs, Some(1))| == 1 > TrailingFailures(runs, ordered) == 0
  {
    RunsOfOverlapping(k);
    ReachableRunsOk(k, OVERLAPPING);
    var runs := After(k, OVERLAPPING).runs;
    assert IsComplete(runs, 3) && StartsBefore(runs)(2, 3);
    assert FailuresSince(runs, Some(1)) == {2};
  }

  /** The failure that started together with the complete run does not count, although it comes after it. */
  lemma CountMayFallShort(k: Keying)
    ensures var runs, ordered := After(k, TOGETHER).runs, [1, 2];
            && RunsOk(runs) && LatestComplete(runs, 1) && Missed(runs, 1, 2)
            && Arranges(StartsBefore(runs), Finishes(runs), ordered)
            && |FailuresSince(runs, Some(1))| == 0 < TrailingFailures(runs, ordered) == 1
  {
    RunsOfTogether(k);
    ReachableRunsOk(k, TOGETHER);
    var runs := After(k, TOGETHER).runs;
    assert FailuresSince(runs, Some(1)) == {};
    assert [1, 2][..1] == [1];
  }

  /** A run that lost listings, and a run by hand that failed. */
  const LOSSES: seq<Event> :=
    [Begun(1, 1)] + [Finished(1, Partial, NO_COVERAGE, [], 2)] + [Started(2, false, 3)] + [FailedRun(2, 4)]

  lemma RunsOfLosses(k: Keying)
    ensures After(k, LOSSES).runs ==
              map[1 := Row(1, 2, Partial, NO_COVERAGE), 2 := Row(3, 4, Failed, NO_COVERAGE).(scheduled := false)]
  {
    AfterOneMore(k, [], Begun(1, 1));
    assert [] + [Begun(1, 1)] == [Begun(1, 1)];
    AfterOneMore(k, [Begun(1, 1)], Finished(1, Partial, NO_COVERAGE, [], 2));
    AfterOneMore(k, [Begun(1, 1)] + [Finished(1, Partial, NO_COVERAGE, [], 2)], Started(2, false, 3));
    AfterOneMore(k, [Begun(1, 1)] + [Finished(1, Partial, NO_COVERAGE, [], 2)] + [Started(2, false, 3)],
                 FailedRun(2, 4));
  }

  /** The partial run counts, and the run by hand does not. */
  lemma PartialRunCounts(k: Keying)
    ensures var runs := After(k, LOSSES).runs;
            Arranges(StartsBefore(runs), Finishes(runs), [1]) && FailuresSince(runs, None) == {1}
            && TrailingFailures(runs, [1]) == 1
  {
    RunsOfLosses(k);
    var runs := After(k, LOSSES).runs;
    assert [1][..0] == [];
    assert FailuresSince(runs, None) == {1};
  }

  /** With no complete run, every finished scheduled run counts. */
  lemma CountWithoutComplete(runs: Runs, ordered: seq<RunId>)
    requires Arranges(StartsBefore(runs), Finishes(runs), ordered)
    requires forall id | id in runs :: !IsComplete(runs, id)
    ensures |FailuresSince(runs, None)| == TrailingFailures(runs, ordered) == |ordered|
  {
    var last := TrailingAreAfterLastStart(runs, ordered);
    assert FailuresSince(runs, None) == FailuresAfter(runs, None);
    forall j | 0 <= j < |ordered| ensures IsFailure(runs, ordered[j]) {
      assert ordered[j] in Finishes(runs);
    }
  }

  lemma NoneMissed(runs: Runs, latest: RunId)
    requires DistinctStarts(runs) && IsComplete(runs, latest)
    ensures forall f :: !Missed(runs, latest, f)
  {
    assert latest in Finishes(runs);
    forall f | IsFailure(runs, f) && StartsBefore(runs)(latest, f) ensures StartOf(runs, latest) < StartOf(runs, f) {
      assert f in Finishes(runs);
    }
  }

  lemma LastFinishedStartedLast(runs: Runs, latest: RunId, c: RunId)
    requires RunsOk(runs) && NoOverlap(runs) && LatestComplete(runs, latest) && IsComplete(runs, c)
    ensures runs[c].startedAt <= runs[latest].startedAt
  {
    assert c in Finishes(runs) && latest in Finishes(runs);
    assert !FinishesAfter(runs, c, latest);
  }

  /** Runs that do not overlap: the query counts the failures since the last complete run, except for
      those that started at the very instant of that run. */
  lemma CountIsTrailingFailures(runs: Runs, latest: Option<RunId>) returns (ordered: seq<RunId>)
    requires RunsOk(runs) && NoOverlap(runs)
    requires latest.Some? ==> LatestComplete(runs, latest.value)
    requires latest.None? ==> forall id | id in runs :: !IsComplete(runs, id)
    ensures Arranges(StartsBefore(runs), Finishes(runs), ordered)
    ensures |FailuresSince(runs, latest)| == TrailingFailures(runs, ordered)
            <==> latest.None? || forall f :: !Missed(runs, latest.value, f)
    ensures DistinctStarts(runs) ==> |FailuresSince(runs, latest)| == TrailingFailures(runs, ordered)
  {
    assert OrdersTotally(StartsBefore(runs), Finishes(runs));
    ordered := Arrangement(StartsBefore(runs), Finishes(runs));
    if latest.None? {
      CountWithoutComplete(runs, ordered);
    } else {
      CountIsExactUnless(runs, ordered, latest.value);
      forall f ensures !Overcounted(runs, latest.value, f) {
        forall c | c in runs && IsComplete(runs, c) ensures runs[c].startedAt <= runs[latest.value].startedAt {
          LastFinishedStartedLast(runs, latest.value, c);
        }
      }
      if DistinctStarts(runs) {
        NoneMissed(runs, latest.value);
      }
    }
  }
}
