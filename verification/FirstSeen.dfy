/** When an item's first-seen time is the earliest time it was observed. */
module FirstSeen {
  import opened Records
  import opened Store
  import opened Integrity
  import opened History
  import opened Calls

  ghost predicate Earliest(rs: seq<Record>, at: Time) {
    (exists i | 0 <= i < |rs| :: rs[i].observedAt == at) && forall i | 0 <= i < |rs| :: at <= rs[i].observedAt
  }

  /** One record: a row that showed the earliest time still does, unless the record was observed before it. */
  lemma FirstSeenStaysEarliest(k: Keying, it: Item, rs: seq<Record>, r: Record)
    requires Reflects(k, it, rs)
    ensures Earliest(rs + [r], ItemAfter(k, it, r).firstSeenAt)
            <==> Earliest(rs, it.firstSeenAt) && !(r.observedAt < it.firstSeenAt)
  {
    var all := rs + [r];
    assert all[0] == rs[0] && all[|rs|] == r;
    assert forall i | 0 <= i < |rs| :: all[i] == rs[i];
  }

  /** The call is accepted and brings a record observed before its item was first seen. */
  ghost predicate Backdates(k: Keying, t: Tables, e: Event, sourceId: string) {
    && e.Offered? && e.record.sourceId == sourceId
    && Persist(k, t, e.run, e.record).Success?
    && exists i | 0 <= i < |t.items| :: t.items[i].sourceId == sourceId && e.record.observedAt < t.items[i].firstSeenAt
  }

  ghost predicate NeverBackdated(k: Keying, log: seq<Event>, sourceId: string) {
    log == [] ||
    var before := log[..|log| - 1];
    NeverBackdated(k, before, sourceId) && !Backdates(k, After(k, before), log[|log| - 1], sourceId)
  }

  lemma OneMoreRecord(k: Keying, t: Tables, e: Event, sourceId: string, rs: seq<Record>)
    requires e.Offered? && e.record.sourceId == sourceId && Persist(k, t, e.run, e.record).Success?
    requires forall i | 0 <= i < |t.items| && t.items[i].sourceId == sourceId :: Reflects(k, t.items[i], rs)
    requires rs != [] ==> Known(t.items, sourceId)
    ensures var all := rs + [e.record];
            Earliest(all, all[0].observedAt)
            <==> (rs == [] || Earliest(rs, rs[0].observedAt)) && !Backdates(k, t, e, sourceId)
  {
    var all := rs + [e.record];
    if rs == [] {
      assert all[0] == e.record;
    } else {
      var i: nat :| i < |t.items| && t.items[i].sourceId == sourceId;
      FirstSeenStaysEarliest(k, t.items[i], rs, e.record);
      assert all[0] == rs[0];
    }
  }

  lemma {:induction false} PastIsEarliestUnlessBackdated(k: Keying, log: seq<Event>, sourceId: string)
    requires k.Injective()
    ensures var rs := Accepted(k, log, sourceId);
            NeverBackdated(k, log, sourceId) <==> rs == [] || Earliest(rs, rs[0].observedAt)
  {
    if log == [] {
    } else {
      var before, last := log[..|log| - 1], log[|log| - 1];
      PastIsEarliestUnlessBackdated(k, before, sourceId);
      RowsReflectHistory(k, before);
      if last.Offered? && last.record.sourceId == sourceId
         && Persist(k, After(k, before), last.run, last.record).Success? {
        OneMoreRecord(k, After(k, before), last, sourceId, Accepted(k, before, sourceId));
      }
    }
  }

  /** Any log: `first_seen_at` is the earliest observation time of the listing exactly when no accepted
      call was observed before the row's first-seen time. */
  lemma FirstSeenIsEarliestUnlessBackdated(k: Keying, log: seq<Event>, i: nat)
    requires k.Injective() && i < |After(k, log).items|
    ensures var it := After(k, log).items[i];
            Earliest(Accepted(k, log, it.sourceId), it.firstSeenAt) <==> NeverBackdated(k, log, it.sourceId)
  {
    var sourceId := After(k, log).items[i].sourceId;
    RowsReflectHistory(k, log);
    PastIsEarliestUnlessBackdated(k, log, sourceId);
  }

  // ---------------------------------------------------------------- it need not be

  const SEEN_AT_5: seq<Event> := STARTED + [Offered(0, Desk(Open, 5))]
  const SEEN_AT_5_THEN_3: seq<Event> := SEEN_AT_5 + [Offered(0, Desk(Open, 3))]

  lemma SeenAt5(k: Keying)
    requires k.Injective()
    ensures Accepted(k, SEEN_AT_5, "A1") == [Desk(Open, 5)]
    ensures var t := After(k, SEEN_AT_5);
            && 0 in t.runs && |t.items| == 1 && t.items[0].sourceId == "A1" && t.items[0].firstSeenAt == 5
            && Known(t.items, "A1") && !OwnedByAnother(t.items, Desk(Open, 3))
  {
    AfterStarted(k);
    SamplesDiffer(k, Open, Open, 5, 3);
    var id := OfferIsAccepted(k, STARTED, 0, Desk(Open, 5));
    assert STARTED[..0] == [] && Accepted(k, STARTED, "A1") == [];
    assert After(k, SEEN_AT_5).items[0].sourceId == "A1";
  }

  /** The record observed first arrives second: both are accepted, and the row keeps the later time. */
  lemma FirstSeenMayBeLate(k: Keying)
    requires k.Injective()
    ensures Accepted(k, SEEN_AT_5_THEN_3, "A1") == [Desk(Open, 5), Desk(Open, 3)]
    ensures var t := After(k, SEEN_AT_5_THEN_3);
            |t.items| == 1 && t.items[0].sourceId == "A1" && t.items[0].firstSeenAt == 5
  {
    SeenAt5(k);
    SamplesDiffer(k, Open, Open, 3, 3);
    var id := OfferIsAccepted(k, SEEN_AT_5, 0, Desk(Open, 3));
  }
}
