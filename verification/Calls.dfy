/** One more repository call at the end of a log, and the records used in concrete logs. */
module Calls {
  import opened Wrappers
  import opened Records
  import opened Store
  import opened Integrity
  import opened Replay
  import opened History

  /** A valid record that no other listing stands against is accepted, and writes exactly one row. */
  lemma OfferIsAccepted(k: Keying, log: seq<Event>, run: RunId, r: Record) returns (id: nat)
    requires k.Injective() && run in After(k, log).runs
    requires ValidRecord(k, r) && !OwnedByAnother(After(k, log).items, r)
    ensures Persist(k, After(k, log), run, r).Success?
    ensures Effect(k, After(k, log), run, r, id, After(k, log + [Offered(run, r)]))
    ensures id < |After(k, log).items| ==> After(k, log).items[id].sourceId == r.sourceId
    ensures id == |After(k, log).items| ==> !Known(After(k, log).items, r.sourceId)
    ensures Accepted(k, log + [Offered(run, r)], r.sourceId) == Accepted(k, log, r.sourceId) + [r]
  {
    ReachableIsConsistent(k, log);
    RefusedExactlyWhen(k, After(k, log), run, r);
    AfterOneMore(k, log, Offered(run, r));
    AcceptedNext(k, log, run, r);
    id := PersistHasEffect(k, After(k, log), run, r);
    ResolveIsExact(k, After(k, log), r);
  }

  function Sighting(sourceId: string, disId: string, status: Status, at: Time): Record {
    Record(sourceId, disId, CanonicalUrl(disId),
           Metadata("Desk", None, None, None, None, None, None, None, None, []),
           Snapshot(None, None, None, None, None, status), None, at)
  }

  /** Two listings with their own documents. */
  function Desk(status: Status, at: Time): Record {
    Sighting("A1", "1", status, at)
  }

  function Lamp(status: Status, at: Time): Record {
    Sighting("A2", "2", status, at)
  }

  lemma SamplesDiffer(k: Keying, a: Status, b: Status, at: Time, bt: Time)
    ensures ValidRecord(k, Desk(a, at)) && ValidRecord(k, Lamp(b, bt))
    ensures Desk(a, at).sourceId != Lamp(b, bt).sourceId && Desk(a, at).disId != Lamp(b, bt).disId
    ensures Desk(a, at).url != Lamp(b, bt).url
  {
    assert "A1"[1] != "A2"[1] && "1"[0] != "2"[0];
    CanonicalUrlIsInjective("1", "2");
  }

  /** The coverage of a run that listed and stored `n` listings of one product group. */
  function Full(n: nat): Coverage {
    Coverage(1, 1, n, 0, n, n, n, 0, true)
  }

  const STARTED: seq<Event> := [Started(0, true, 0)]

  lemma AfterStarted(k: Keying)
    ensures After(k, STARTED) == Start(EMPTY, 0, true, 0)
  {
    AfterOneMore(k, [], Started(0, true, 0));
    assert [] + [Started(0, true, 0)] == STARTED;
  }
}
