/** What the absence columns count, over every run of the repository. */
module Absence {
  import opened Wrappers
  import opened Records
  import opened Store
  import opened Integrity
  import opened History
  import opened Calls

  /** What one ageing run found of an open item: it was listed, or it was missed. */
  datatype Mark = Listed(at: Time) | Missed(at: Time)

  /** The mark that a call leaves on item `i`, if any. */
  function MarkOf(items: seq<Item>, e: Event, i: nat): seq<Mark> {
    if !e.Finished? || !Ages(e.status, e.coverage) || i >= |items| || !items[i].status.Open? then []
    else if items[i].sourceId in e.ids then [Listed(e.at)]
    else [Missed(e.at)]
  }

  /** The marks of item `i` over a log: one for each ageing run that found it open. */
  function Marks(k: Keying, log: seq<Event>, i: nat): seq<Mark> {
    if log == [] then [] else
    var before := log[..|log| - 1];
    Marks(k, before, i) + MarkOf(After(k, before).items, log[|log| - 1], i)
  }

  /** The times of the misses since the item was last listed, oldest first. */
  function TrailingMisses(marks: seq<Mark>): (misses: seq<Time>)
    ensures |misses| <= |marks|
    ensures forall j | 0 <= j < |misses| :: marks[|marks| - |misses| + j] == Missed(misses[j])
    ensures |misses| < |marks| ==> marks[|marks| - |misses| - 1].Listed?
  {
    if marks == [] || marks[|marks| - 1].Listed? then []
    else TrailingMisses(marks[..|marks| - 1]) + [marks[|marks| - 1].at]
  }

  function LastListed(marks: seq<Mark>): Option<Time> {
    if marks == [] then None
    else if marks[|marks| - 1].Listed? then Some(marks[|marks| - 1].at)
    else LastListed(marks[..|marks| - 1])
  }

  function StateFor(misses: nat): Inventory {
    if misses == 0 then Current else if misses < 3 then NotObserved else Stale
  }

  /** The freshness columns tell of the marks: how many misses trail, and when the first and third were. */
  ghost predicate Tells(f: Freshness, marks: seq<Mark>) {
    var misses := TrailingMisses(marks);
    && f.absences == |misses|
    && f.inventory == StateFor(|misses|)
    && f.firstAbsentAt == (if |misses| >= 1 then Some(misses[0]) else None)
    && f.staleAt == (if |misses| >= 3 then Some(misses[2]) else None)
    && f.lastCompleteSeenAt == LastListed(marks)
  }

  lemma TellsNext(f: Freshness, marks: seq<Mark>, at: Time)
    requires Tells(f, marks)
    ensures Tells(Refreshed(f, at), marks + [Listed(at)])
    ensures Tells(Aged(f, at), marks + [Missed(at)])
  {
    var misses := TrailingMisses(marks);
    var missed := marks + [Missed(at)];
    assert missed[..|missed| - 1] == marks;
    assert TrailingMisses(missed) == misses + [at];
    assert (marks + [Listed(at)])[..|marks|] == marks;
  }

  /** Persisting never touches the freshness columns, and a new row starts unreconciled. */
  lemma PersistKeepsFreshness(k: Keying, t: Tables, run: RunId, r: Record, i: nat)
    requires RowsOk(t.items) && Persist(k, t, run, r).Success? && i < |Persist(k, t, run, r).value.0.items|
    ensures Persist(k, t, run, r).value.0.items[i].freshness ==
              if i < |t.items| then t.items[i].freshness else NEVER_RECONCILED
  {
    var id := PersistHasEffect(k, t, run, r);
  }

  lemma OfferKeepsFreshness(k: Keying, t: Tables, run: RunId, r: Record, i: nat)
    requires RowsOk(t.items) && i < |Step(k, t, Offered(run, r)).items|
    ensures Step(k, t, Offered(run, r)).items[i].freshness ==
              if i < |t.items| then t.items[i].freshness else NEVER_RECONCILED
  {
    if Persist(k, t, run, r).Success? {
      PersistKeepsFreshness(k, t, run, r, i);
    }
  }

  lemma FinishTells(t: Tables, run: RunId, status: RunStatus, coverage: Coverage, ids: seq<string>, at: Time, i: nat,
                    marks: seq<Mark>)
    requires status != Running && i < |t.items| && Tells(t.items[i].freshness, marks)
    ensures Tells(Finish(t, run, status, coverage, ids, at).items[i].freshness,
                  marks + MarkOf(t.items, Finished(run, status, coverage, ids, at), i))
  {
    assert marks + [] == marks;
    TellsNext(t.items[i].freshness, marks, at);
  }

  lemma StepTells(k: Keying, t: Tables, e: Event, i: nat, marks: seq<Mark>)
    requires RowsOk(t.items) && i < |Step(k, t, e).items|
    requires if i < |t.items| then Tells(t.items[i].freshness, marks) else marks == []
    ensures Tells(Step(k, t, e).items[i].freshness, marks + MarkOf(t.items, e, i))
  {
    assert marks + [] == marks;
    match e
    case Offered(run, r) => OfferKeepsFreshness(k, t, run, r, i);
    case Finished(run, status, coverage, ids, at) =>
      if status != Running {
        FinishTells(t, run, status, coverage, ids, at, i, marks);
      }
    case Started(_, _, _) =>
  }

  lemma ItemsOnlyGrow(k: Keying, t: Tables, e: Event)
    ensures |t.items| <= |Step(k, t, e).items|
  {
    if e.Offered? && Persist(k, t, e.run, e.record).Success? {
      var id := PersistHasEffect(k, t, e.run, e.record);
    }
  }

  lemma {:induction false} NoMarksBeforeCreation(k: Keying, log: seq<Event>, i: nat)
    requires i >= |After(k, log).items|
    ensures Marks(k, log, i) == []
  {
    if log == [] {
    } else {
      ItemsOnlyGrow(k, After(k, log[..|log| - 1]), log[|log| - 1]);
      NoMarksBeforeCreation(k, log[..|log| - 1], i);
    }
  }

  /** For every reachable store and every item: `absences` is the number of ageing runs that found it
      open and missed it since the last one that found it open and listed it. */
  lemma {:induction false} AbsencesAreCounted(k: Keying, log: seq<Event>, i: nat)
    requires k.Injective() && i < |After(k, log).items|
    ensures Tells(After(k, log).items[i].freshness, Marks(k, log, i))
  {
    var before := log[..|log| - 1];
    ReachableIsConsistent(k, before);
    if i < |After(k, before).items| {
      AbsencesAreCounted(k, before, i);
    } else {
      NoMarksBeforeCreation(k, before, i);
    }
    StepTells(k, After(k, before), log[|log| - 1], i, Marks(k, before, i));
  }

  // ---------------------------------------------------------------- what does not hold

  /** A run that lists an item clears its count exactly when it finds the item open (or had nothing to
      clear): an item of unknown status keeps counting from before. */
  lemma ListingClearsExactlyOpenItems(it: Item, ids: seq<string>, at: Time)
    requires it.sourceId in ids
    ensures ReconciledItem(it, ids, at).freshness.absences == 0 <==> it.status.Open? || it.freshness.absences == 0
  {
  }

  /** Finishing a run a second time, at its own time, leaves the items alone exactly when the run does not
      age, or every open item is listed and the two times agree. */
  lemma SecondFinishIsHarmlessExactlyWhen(t: Tables, run: RunId, status: RunStatus, coverage: Coverage,
                                          ids: seq<string>, first: Time, second: Time)
    requires status != Running
    ensures var once := Finish(t, run, status, coverage, ids, first);
            Finish(once, run, status, coverage, ids, second).items == once.items
            <==> !Ages(status, coverage)
                 || forall i | 0 <= i < |t.items| && t.items[i].status.Open? ::
                      t.items[i].sourceId in ids && first == second
  {
    if Ages(status, coverage) {
      var once := Reconciled(t.items, ids, first);
      var twice := Reconciled(once, ids, second);
      forall i | 0 <= i < |t.items|
        ensures twice[i] == once[i] <==> !t.items[i].status.Open? || (t.items[i].sourceId in ids && first == second)
      {
      }
      if twice != once {
        assert exists i | 0 <= i < |t.items| :: twice[i] != once[i];
      }
    }
  }

  /** A first run lists both listings, a second one only the lamp, a third one both again, but its detail
      page of the desk gives no status. */
  const BOTH_SEEN: seq<Event> := STARTED + [Offered(0, Desk(Open, 1))] + [Offered(0, Lamp(Open, 1))]
  const BOTH_LISTED: seq<Event> := BOTH_SEEN + [Finished(0, Succeeded, Full(2), ["A1", "A2"], 2)]
  const LAMP_SEEN: seq<Event> := BOTH_LISTED + [Started(1, true, 3)] + [Offered(1, Lamp(Open, 4))]
  const LAMP_LISTED: seq<Event> := LAMP_SEEN + [Finished(1, Succeeded, Full(1), ["A2"], 5)]
  const DESK_UNKNOWN: seq<Event> := LAMP_LISTED + [Started(2, true, 6)] + [Offered(2, Desk(Unknown, 7))]
  const BOTH_AGAIN: seq<Event> := DESK_UNKNOWN + [Offered(2, Lamp(Open, 7))]
  const LISTED_WHILE_UNKNOWN: seq<Event> := BOTH_AGAIN + [Finished(2, Succeeded, Full(2), ["A1", "A2"], 8)]

  /** The store holds the desk, with this status and count, and the open lamp. */
  ghost predicate Holds(t: Tables, run: RunId, status: Status, absences: nat, at: Time) {
    && |t.items| == 2 && run in t.runs
    && t.items[0].sourceId == "A1" && t.items[0].disId == "1" && t.items[0].url == CanonicalUrl("1")
    && t.items[1].sourceId == "A2" && t.items[1].disId == "2" && t.items[1].url == CanonicalUrl("2")
    && t.items[0].status == status && t.items[0].freshness.absences == absences && t.items[1].status == Open
    && t.items[0].lastSeenAt <= at && t.items[1].lastSeenAt <= at
  }

  lemma BothSeen(k: Keying)
    requires k.Injective()
    ensures Holds(After(k, BOTH_SEEN), 0, Open, 0, 1)
  {
    AfterStarted(k);
    SamplesDiffer(k, Open, Open, 1, 1);
    var desk := OfferIsAccepted(k, STARTED, 0, Desk(Open, 1));
    var lamp := OfferIsAccepted(k, STARTED + [Offered(0, Desk(Open, 1))], 0, Lamp(Open, 1));
  }

  /** The two listings stay out of each other's way. */
  lemma NoneOwned(k: Keying, t: Tables, run: RunId, status: Status, absences: nat, was: Time, seen: Status, at: Time)
    requires Holds(t, run, status, absences, was)
    ensures ValidRecord(k, Desk(seen, at)) && ValidRecord(k, Lamp(Open, at))
    ensures !OwnedByAnother(t.items, Desk(seen, at)) && !OwnedByAnother(t.items, Lamp(Open, at))
    ensures t.items[0].sourceId != t.items[1].sourceId
  {
    SamplesDiffer(k, seen, Open, at, at);
  }

  lemma DeskWritten(k: Keying, t: Tables, run: RunId, status: Status, absences: nat, was: Time, at: Time, id: nat,
                    after: Tables)
    requires Holds(t, run, Open, absences, was) && was <= at
    requires Effect(k, t, run, Desk(status, at), id, after) && id == 0
    ensures Holds(after, run, status, absences, at)
  {
  }

  lemma DeskSeen(k: Keying, log: seq<Event>, run: RunId, status: Status, absences: nat, was: Time, at: Time)
    requires k.Injective() && Holds(After(k, log), run, Open, absences, was) && was <= at
    ensures Holds(After(k, log + [Offered(run, Desk(status, at))]), run, status, absences, at)
  {
    NoneOwned(k, After(k, log), run, Open, absences, was, status, at);
    var id := OfferIsAccepted(k, log, run, Desk(status, at));
    DeskWritten(k, After(k, log), run, status, absences, was, at, id, After(k, log + [Offered(run, Desk(status, at))]));
  }

  lemma LampSeen(k: Keying, log: seq<Event>, run: RunId, status: Status, absences: nat, was: Time, at: Time)
    requires k.Injective() && Holds(After(k, log), run, status, absences, was) && was <= at
    ensures Holds(After(k, log + [Offered(run, Lamp(Open, at))]), run, status, absences, at)
  {
    NoneOwned(k, After(k, log), run, status, absences, was, status, at);
    var id := OfferIsAccepted(k, log, run, Lamp(Open, at));
    assert id == 1;
  }

  lemma RunStarted(k: Keying, log: seq<Event>, run: RunId, next: RunId, absences: nat, was: Time, at: Time)
    requires Holds(After(k, log), run, Open, absences, was)
    ensures Holds(After(k, log + [Started(next, true, at)]), next, Open, absences, was)
  {
    AfterOneMore(k, log, Started(next, true, at));
  }

  lemma RunFinished(k: Keying, log: seq<Event>, run: RunId, n: nat, ids: seq<string>, status: Status, absences: nat,
                    was: Time, at: Time)
    requires Holds(After(k, log), run, status, absences, was)
    ensures Holds(After(k, log + [Finished(run, Succeeded, Full(n), ids, at)]), run, status,
                  if !status.Open? then absences else if "A1" in ids then 0 else absences + 1, was)
  {
    AfterOneMore(k, log, Finished(run, Succeeded, Full(n), ids, at));
    assert Ages(Succeeded, Full(n));
  }

  lemma LampListed(k: Keying)
    requires k.Injective()
    ensures Holds(After(k, LAMP_LISTED), 1, Open, 1, 4)
  {
    BothSeen(k);
    RunFinished(k, BOTH_SEEN, 0, 2, ["A1", "A2"], Open, 0, 1, 2);
    RunStarted(k, BOTH_LISTED, 0, 1, 0, 1, 3);
    LampSeen(k, BOTH_LISTED + [Started(1, true, 3)], 1, Open, 0, 1, 4);
    assert "A1"[1] != "A2"[1];
    RunFinished(k, LAMP_SEEN, 1, 1, ["A2"], Open, 0, 4, 5);
  }

  /** A listing that the latest complete run did list may still be counted as missed. */
  lemma ListedButStillCounted(k: Keying)
    requires k.Injective()
    ensures var t := After(k, LISTED_WHILE_UNKNOWN);
            |t.items| == 2 && t.items[0].sourceId == "A1" && t.items[0].freshness.absences == 1
  {
    LampListed(k);
    RunStarted(k, LAMP_LISTED, 1, 2, 1, 4, 6);
    DeskSeen(k, LAMP_LISTED + [Started(2, true, 6)], 2, Unknown, 1, 4, 7);
    LampSeen(k, DESK_UNKNOWN, 2, Unknown, 1, 7, 7);
    RunFinished(k, BOTH_AGAIN, 2, 2, ["A1", "A2"], Unknown, 1, 7, 8);
  }

  /** One complete run that missed a listing counts it twice when it is finished twice. */
  lemma FinishedTwiceCountsTwice(k: Keying)
    requires k.Injective()
    ensures var t := After(k, LAMP_LISTED + [Finished(1, Succeeded, Full(1), ["A2"], 6)]);
            |t.items| == 2 && t.items[0].sourceId == "A1" && t.items[0].freshness.absences == 2
  {
    LampListed(k);
    assert "A1"[1] != "A2"[1];
    RunFinished(k, LAMP_LISTED, 1, 1, ["A2"], Open, 1, 4, 6);
  }
}
