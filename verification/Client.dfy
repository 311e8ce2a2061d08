/** The HTTP client: retries, redirects, and the spacing of requests. */
module Client {
  import opened Wrappers

  datatype Verb = GET | POST | HEAD | OTHER(name: string)

  datatype Sent = Sent(verb: Verb, url: string, data: Option<string>)

  /** `retryAfter` is the finite number of seconds the header asks for, `acceptable` the verdict of the
      checks on an HTML body. */
  datatype Response = Response(
    url: string,
    status: nat,
    location: Option<string>,
    retryAfter: Option<real>,
    acceptable: bool)

  datatype Attempt = Answered(response: Response) | RetryableError | FatalError

  datatype ClientError =
    | ForeignHost
    | TransportFailed
    | RequestFailed
    | TooManyRedirects
    | MissingLocation
    | RedirectLoop
    | BadStatus
    | BadBody

  predicate RetryableStatus(status: nat) {
    status == 429 || status == 502 || status == 503 || status == 504
  }

  predicate IsRedirect(status: nat) {
    300 <= status <= 399
  }

  predicate IsSuccess(status: nat) {
    200 <= status <= 299
  }

  /** Sections 15.4.2 to 15.4.4, 15.4.8 and 15.4.9 of RFC 9110: 302 and 303 turn every method but HEAD into
      GET, 301 turns POST into GET, and any other redirect keeps the method. */
  function RedirectVerb(verb: Verb, status: nat): (next: Verb)
    ensures next == verb || next == GET
    ensures next != verb
            <==> !verb.GET? && !verb.HEAD? && (status == 302 || status == 303 || (status == 301 && verb.POST?))
  {
    if (status == 303 || status == 302) && !verb.HEAD? then GET
    else if status == 301 && verb.POST? then GET
    else verb
  }

  // ---------------------------------------------------------------- back-off

  function Pow2(n: nat): nat {
    if n == 0 then 1 else 2 * Pow2(n - 1)
  }

  /** `base` doubled `n` times. */
  function Doubled(base: real, n: nat): real {
    if n == 0 then base else 2.0 * Doubled(base, n - 1)
  }

  lemma {:induction false} DoubledIsProduct(base: real, n: nat)
    ensures Doubled(base, n) == base * Pow2(n) as real
  {
    if n == 0 {
    } else {
      DoubledIsProduct(base, n - 1);
      assert Pow2(n) as real == 2.0 * Pow2(n - 1) as real;
    }
  }

  function RMin(a: real, b: real): real {
    if a < b then a else b
  }

  function RMax(a: real, b: real): real {
    if a < b then b else a
  }

  function Backoff(base: real, retriesUsed: nat): real {
    RMin(5.0, Doubled(base, retriesUsed))
  }

  function Sum(delays: seq<real>): real {
    if delays == [] then 0.0 else Sum(delays[..|delays| - 1]) + delays[|delays| - 1]
  }

  lemma {:induction false} BackoffGrows(base: real, i: nat)
    requires base >= 0.0
    ensures 0.0 <= Backoff(base, i) <= Backoff(base, i + 1) <= 5.0
    ensures 0.0 <= Doubled(base, i)
  {
    if i == 0 {
    } else {
      BackoffGrows(base, i - 1);
    }
  }

  predicate AsksForDelay(attempt: Attempt) {
    attempt.Answered? && attempt.response.retryAfter.Some?
  }

  /** The delay after attempt number `retriesUsed`, when the next attempt is made. */
  function DelayAfter(base: real, attempt: Attempt, retriesUsed: nat): (delay: real)
    requires base >= 0.0
    ensures delay >= 0.0
  {
    if AsksForDelay(attempt) then RMax(0.0, attempt.response.retryAfter.value)
    else BackoffGrows(base, retriesUsed); Backoff(base, retriesUsed)
  }

  lemma {:induction false} BackoffSums(base: real, delays: seq<real>)
    requires forall i | 0 <= i < |delays| :: delays[i] == Backoff(base, i)
    ensures Sum(delays) <= 5.0 * (|delays| as real)
    ensures Sum(delays) <= Doubled(base, |delays|) - base
  {
    if delays == [] {
    } else {
      BackoffSums(base, delays[..|delays| - 1]);
    }
  }

  /** Without Retry-After the delays never shrink, and together they stay within both bounds. */
  lemma BackoffIsBounded(base: real, delays: seq<real>)
    requires base >= 0.0
    requires forall i | 0 <= i < |delays| :: delays[i] == Backoff(base, i)
    ensures forall i | 0 <= i < |delays| - 1 :: delays[i] <= delays[i + 1]
    ensures Sum(delays) <= RMin(5.0 * (|delays| as real), Doubled(base, |delays|) - base)
  {
    forall i | 0 <= i < |delays| - 1 ensures delays[i] <= delays[i + 1] {
      BackoffGrows(base, i);
    }
    BackoffSums(base, delays);
  }

  // ---------------------------------------------------------------- spacing

  /** Consecutive request slots are at least the interval apart. */
  ghost predicate Spaced(slots: seq<real>, interval: real) {
    forall i | 0 <= i < |slots| - 1 :: slots[i + 1] - slots[i] >= interval
  }

  lemma {:induction false} SlotsSpan(slots: seq<real>, interval: real, i: nat, j: nat)
    requires Spaced(slots, interval) && i <= j < |slots|
    ensures slots[j] - slots[i] >= (j - i) as real * interval
    decreases j - i
  {
    if i == j {
    } else {
      SlotsSpan(slots, interval, i, j - 1);
      assert slots[j - 1 + 1] - slots[j - 1] >= interval;
      assert (j - i) as real * interval == (j - 1 - i) as real * interval + interval;
    }
  }

  lemma QuotientBounds(count: real, interval: real, length: real)
    requires interval > 0.0 && count * interval <= length
    ensures count <= length / interval
  {
  }

  /** A window of the given length holds at most floor(length / interval) + 1 request slots. */
  lemma WindowHoldsFew(slots: seq<real>, interval: real, length: real, i: nat, j: nat)
    requires Spaced(slots, interval) && interval > 0.0
    requires i <= j < |slots| && slots[j] - slots[i] <= length
    ensures j - i + 1 <= (length / interval).Floor + 1
  {
    SlotsSpan(slots, interval, i, j);
    QuotientBounds((j - i) as real, interval, length);
  }

  // ---------------------------------------------------------------- redirects

  /** How the logical requests of one call follow one another: no method and URL repeat, all stay on the
      configured host, GET stays GET, and a body is sent again only under the method it came with. */
  ghost predicate GoodHops(hops: seq<Sent>, origin: string -> string, base: string) {
    && (forall i | 0 <= i < |hops| :: origin(hops[i].url) == base)
    && (forall i, j | 0 <= i < j < |hops| :: (hops[i].verb, hops[i].url) != (hops[j].verb, hops[j].url))
    && (forall i, j | 0 <= i < j < |hops| ::
          && (hops[i].verb.GET? ==> hops[j].verb.GET?)
          && hops[j].data == if hops[i].verb == hops[j].verb then hops[i].data else None)
  }

  predicate Retryable(attempt: Attempt) {
    attempt.RetryableError? || (attempt.Answered? && RetryableStatus(attempt.response.status))
  }

  /** The answer to the n-th request sent. */
  function AnswerTo(server: seq<Sent> -> Attempt, sent: seq<Sent>, n: nat): Attempt
    requires n <= |sent|
  {
    server(sent[..n])
  }

  lemma AnswersStay(server: seq<Sent> -> Attempt, before: seq<Sent>, sent: seq<Sent>)
    requires before <= sent
    ensures forall n: nat | n <= |before| :: AnswerTo(server, sent, n) == AnswerTo(server, before, n)
  {
    forall n: nat | n <= |before| ensures AnswerTo(server, sent, n) == AnswerTo(server, before, n) {
      assert sent[..n] == before[..n];
    }
  }

  /** The requests after the first `start` ones are copies of one request, and the first ones of these, up to
      number `answered`, were answered retryably. */
  ghost predicate Trying(server: seq<Sent> -> Attempt, request: Sent, start: nat, answered: nat, sent: seq<Sent>)
    requires answered <= |sent|
  {
    && start <= |sent|
    && (forall i | start <= i < |sent| :: sent[i] == request)
    && forall n: nat | start < n <= answered :: Retryable(AnswerTo(server, sent, n))
  }

  /** One logical request: at most `most` copies. Every one but the last was answered retryably, and the last
      one was not, unless it was the last one allowed. */
  ghost predicate Tried(server: seq<Sent> -> Attempt, most: nat, request: Sent, start: nat, end: nat, sent: seq<Sent>) {
    && start < end <= |sent| && end - start <= most
    && (forall i | start <= i < end :: sent[i] == request)
    && (forall n: nat | start < n < end :: Retryable(AnswerTo(server, sent, n)))
    && (Retryable(AnswerTo(server, sent, end)) ==> end - start == most)
  }

  /** Before each of these requests but the first, the delay passed that the answer before it calls for. */
  ghost predicate Waited(server: seq<Sent> -> Attempt, base: real, start: nat, end: nat, sent: seq<Sent>,
                         slots: seq<real>)
    requires base >= 0.0 && end <= |sent| && end <= |slots|
  {
    forall n: nat {:trigger AnswerTo(server, sent, n)} | start < n < end ::
      DelayAfter(base, AnswerTo(server, sent, n), n - start - 1) <= slots[n] - slots[n - 1]
  }

  lemma TryingNext(server: seq<Sent> -> Attempt, request: Sent, start: nat, sent: seq<Sent>)
    requires Trying(server, request, start, |sent|, sent)
    ensures Trying(server, request, start, |sent|, sent + [request])
    ensures AnswerTo(server, sent + [request], |sent| + 1) == server(sent + [request])
  {
    AnswersStay(server, sent, sent + [request]);
    assert (sent + [request])[..|sent| + 1] == sent + [request];
  }

  lemma WaitedNext(server: seq<Sent> -> Attempt, base: real, start: nat, sent: seq<Sent>, request: Sent,
                   slots: seq<real>, slot: real)
    requires base >= 0.0 && |slots| == |sent| && Waited(server, base, start, |sent|, sent, slots)
    requires start < |sent| ==>
               DelayAfter(base, AnswerTo(server, sent, |sent|), |sent| - start - 1) <= slot - slots[|slots| - 1]
    ensures Waited(server, base, start, |sent| + 1, sent + [request], slots + [slot])
  {
    AnswersStay(server, sent, sent + [request]);
  }

  /** The delays that the retried answers of one logical request call for. */
  function DelaysOf(server: seq<Sent> -> Attempt, base: real, sent: seq<Sent>, start: nat, end: nat)
    : (delays: seq<real>)
    requires base >= 0.0 && start < end <= |sent|
    ensures |delays| == end - start - 1
    ensures forall i: nat | i < |delays| :: delays[i] == DelayAfter(base, AnswerTo(server, sent, start + i + 1), i)
  {
    seq(end - start - 1,
        i requires 0 <= i < end - start - 1 => DelayAfter(base, AnswerTo(server, sent, start + i + 1), i))
  }

  lemma UnaskedDelays(server: seq<Sent> -> Attempt, base: real, sent: seq<Sent>, start: nat, end: nat)
    requires base >= 0.0 && start < end <= |sent|
    requires forall n: nat | start < n < end :: !AsksForDelay(AnswerTo(server, sent, n))
    ensures var delays := DelaysOf(server, base, sent, start, end);
            forall i | 0 <= i < |delays| :: delays[i] == Backoff(base, i)
  {
    var delays := DelaysOf(server, base, sent, start, end);
    forall i: nat | i < |delays| ensures delays[i] == Backoff(base, i) {
      assert !AsksForDelay(AnswerTo(server, sent, start + i + 1));
    }
  }

  /** The delays of one logical request whose retried answers asked for no delay of their own. */
  lemma CallBackoffIsBounded(server: seq<Sent> -> Attempt, base: real, sent: seq<Sent>, start: nat, end: nat)
    requires base >= 0.0 && start < end <= |sent|
    requires forall n: nat | start < n < end :: !AsksForDelay(AnswerTo(server, sent, n))
    ensures var delays := DelaysOf(server, base, sent, start, end);
            && (forall i | 0 <= i < |delays| - 1 :: delays[i] <= delays[i + 1])
            && Sum(delays) <= RMin(5.0 * (|delays| as real), Doubled(base, |delays|) - base)
  {
    UnaskedDelays(server, base, sent, start, end);
    BackoffIsBounded(base, DelaysOf(server, base, sent, start, end));
  }

  /** From the first slot of one logical request to its last at least all its delays pass. */
  lemma {:induction false} DelaysPass(server: seq<Sent> -> Attempt, base: real, start: nat, end: nat, sent: seq<Sent>,
                                      slots: seq<real>)
    requires base >= 0.0 && start < end <= |sent| && end <= |slots|
    requires Waited(server, base, start, end, sent, slots)
    ensures Sum(DelaysOf(server, base, sent, start, end)) <= slots[end - 1] - slots[start]
  {
    if end == start + 1 {
    } else {
      DelaysPass(server, base, start, end - 1, sent, slots);
      var delays := DelaysOf(server, base, sent, start, end);
      assert delays[..|delays| - 1] == DelaysOf(server, base, sent, start, end - 1);
      assert DelayAfter(base, AnswerTo(server, sent, end - 1), end - start - 2) <= slots[end - 1] - slots[end - 2];
    }
  }

  /** Answers that are tried again, by their numbers. */
  predicate AsksAgain(attempt: Attempt) {
    match attempt
    case Answered(response) =>
      response.status == 429 || response.status == 502 || response.status == 503 || response.status == 504
    case RetryableError => true
    case FatalError => false
  }

  /** The delay after an answer: the seconds of its Retry-After, never less than 0, or else base * 2^i, at most 5. */
  lemma DelayIsExact(base: real, attempt: Attempt, i: nat)
    requires base >= 0.0
    ensures var delay := DelayAfter(base, attempt, i);
            if attempt.Answered? && attempt.response.retryAfter.Some? then
              delay == if attempt.response.retryAfter.value >= 0.0 then attempt.response.retryAfter.value else 0.0
            else delay == if base * Pow2(i) as real <= 5.0 then base * Pow2(i) as real else 5.0
  {
    DoubledIsProduct(base, i);
  }

  /** One logical request, told from the answers alone: it is sent again after an answer exactly when that is a
      transport error or has one of four statuses, and fewer than `most` were sent; and before it is sent again,
      the delay of the answer passes. */
  lemma RetriesAreExact(server: seq<Sent> -> Attempt, base: real, most: nat, request: Sent, start: nat, end: nat,
                        sent: seq<Sent>, slots: seq<real>)
    requires base >= 0.0 && |slots| == |sent| && Tried(server, most, request, start, end, sent)
    requires Waited(server, base, start, end, sent, slots)
    ensures forall n: nat | start < n <= end :: n < end <==> AsksAgain(AnswerTo(server, sent, n)) && n - start < most
    ensures forall n: nat | start < n < end ::
              slots[n] - slots[n - 1] >= DelayAfter(base, AnswerTo(server, sent, n), n - start - 1)
  {
  }

  // ---------------------------------------------------------------- counting

  datatype Kind = Answer | RateLimit | TransportError | OtherError

  predicate IsOf(kind: Kind, attempt: Attempt) {
    match kind
    case Answer => attempt.Answered?
    case RateLimit => attempt.Answered? && attempt.response.status == 429
    case TransportError => attempt.RetryableError?
    case OtherError => attempt.FatalError?
  }

  /** How many of these requests met with an outcome of this kind. */
  function Tally(server: seq<Sent> -> Attempt, sent: seq<Sent>, kind: Kind): nat {
    if sent == [] then 0
    else Tally(server, sent[..|sent| - 1], kind) + if IsOf(kind, server(sent)) then 1 else 0
  }

  lemma TallyNext(server: seq<Sent> -> Attempt, sent: seq<Sent>, request: Sent, kind: Kind)
    ensures Tally(server, sent + [request], kind) ==
              Tally(server, sent, kind) + if IsOf(kind, server(sent + [request])) then 1 else 0
  {
    assert (sent + [request])[..|sent|] == sent;
  }

  /** Every request meets with exactly one of response, transport error and other failure. */
  lemma {:induction false} EveryRequestIsCounted(server: seq<Sent> -> Attempt, sent: seq<Sent>)
    ensures |sent| ==
              Tally(server, sent, Answer) + Tally(server, sent, TransportError) + Tally(server, sent, OtherError)
    ensures Tally(server, sent, RateLimit) <= Tally(server, sent, Answer)
  {
    if sent == [] {
    } else {
      EveryRequestIsCounted(server, sent[..|sent| - 1]);
    }
  }

  // ---------------------------------------------------------------- the clock

  /** Between two readings of the clock only new slots were taken, each at a time in between. */
  ghost predicate Passes(was: real, now: real, before: seq<real>, slots: seq<real>) {
    && before <= slots && was <= now
    && forall i | |before| <= i < |slots| :: was <= slots[i] <= now
  }

  lemma CopiesAgree(server: seq<Sent> -> Attempt, most: nat, request: Sent, start: nat, end: nat, sent: seq<Sent>,
                    otherEnd: nat, other: seq<Sent>)
    requires Tried(server, most, request, start, end, sent) && Tried(server, most, request, start, otherEnd, other)
    requires sent[..start] == other[..start] && end <= otherEnd
    ensures end == otherEnd && sent[..end] == other[..end]
  {
    assert forall i | 0 <= i < start :: sent[..start][i] == sent[i] && other[..start][i] == other[i];
    assert sent[..end] == other[..end];
    assert AnswerTo(server, sent, end) == AnswerTo(server, other, end);
  }

  /** How often a request is tried is decided by what was sent before it, and by the server. */
  lemma TriedAgree(server: seq<Sent> -> Attempt, most: nat, request: Sent, start: nat, end: nat, sent: seq<Sent>,
                   otherEnd: nat, other: seq<Sent>)
    requires Tried(server, most, request, start, end, sent) && Tried(server, most, request, start, otherEnd, other)
    requires sent[..start] == other[..start]
    ensures otherEnd == end && sent[..end] == other[..end]
  {
    if end <= otherEnd {
      CopiesAgree(server, most, request, start, end, sent, otherEnd, other);
    } else {
      CopiesAgree(server, most, request, start, otherEnd, other, end, sent);
    }
  }

  // ---------------------------------------------------------------- hops

  function VisitedBy(hops: seq<Sent>): set<(Verb, string)> {
    set h | h in hops :: (h.verb, h.url)
  }

  /** Where the requests of hop `i` start: where those of the hop before it end. */
  function StartOf(start: nat, ends: seq<nat>, i: nat): nat
    requires i <= |ends|
  {
    if i == 0 then start else ends[i - 1]
  }

  /** `n` times `each`, by addition. */
  function Times(n: nat, each: nat): nat {
    if n == 0 then 0 else Times(n - 1, each) + each
  }

  lemma {:induction false} TimesFits(n: nat, most: nat, each: nat)
    requires n <= most
    ensures Times(n, each) == n * each <= most * each
  {
    if n == 0 {
    } else {
      TimesFits(n - 1, most, each);
    }
  }

  /** The hops so far, and what the loop remembers of them. */
  ghost predicate HopState(hops: seq<Sent>, first: Sent, last: Sent, visited: set<(Verb, string)>,
                           origin: string -> string, base: string) {
    && GoodHops(hops, origin, base)
    && hops != [] && hops[0] == first && hops[|hops| - 1] == last
    && visited == VisitedBy(hops)
  }

  lemma HopsExtend(hops: seq<Sent>, first: Sent, last: Sent, next: Sent, visited: set<(Verb, string)>,
                   origin: string -> string, base: string)
    requires HopState(hops, first, last, visited, origin, base)
    requires origin(next.url) == base && (next.verb, next.url) !in visited
    requires next.verb == last.verb || next.verb == GET
    requires next.data == if next.verb == last.verb then last.data else None
    ensures HopState(hops + [next], first, next, visited + {(next.verb, next.url)}, origin, base)
  {
    forall i | 0 <= i < |hops|
      ensures (hops[i].verb, hops[i].url) != (next.verb, next.url)
    {
      assert hops[i] in hops;
    }
  }

  /** What one call saw: everything sent up to its end, its hops, where the requests of each end, its result. */
  datatype Call = Call(
    sent: seq<Sent>,
    hops: seq<Sent>,
    ends: seq<nat>,
    page: Result<Response, ClientError>)

  class AuctionClient {
    /** Any server, whose answer may depend on everything sent so far. */
    const server: seq<Sent> -> Attempt
    /** The case-folded scheme and host of a URL, and URL resolution. */
    const origin: string -> string
    const join: (string, string) -> string
    /** How long passes before the n-th clock reading, and how long the n-th sleep overruns. */
    const drift: nat -> real
    const overrun: nat -> real

    const baseUrl: string
    const minRequestInterval: real
    const maxRedirects: nat
    const maxRetries: nat
    const retryBackoff: real

    var now: real
    var ticks: nat
    var sent: seq<Sent>
    var lastRequestStarted: Option<real>

    var requestsAttempted: nat
    var responsesReceived: nat
    var retries: nat
    var rateLimitResponses: nat
    var transportErrors: nat

    ghost var slots: seq<real>
    ghost var calls: nat

    ghost predicate Settings() {
      && minRequestInterval >= 0.0
      && retryBackoff >= 0.0
      && forall n :: drift(n) >= 0.0 && overrun(n) >= 0.0
    }

    /** The counters are those of the server's answers to everything sent; `pending` is one between a slot
        and its send. */
    ghost predicate Accounts(pending: nat)
      reads this
    {
      && requestsAttempted == |sent|
      && responsesReceived == Tally(server, sent, Answer)
      && rateLimitResponses == Tally(server, sent, RateLimit)
      && transportErrors == Tally(server, sent, TransportError)
      && requestsAttempted + pending == retries + calls
    }

    ghost predicate Paced()
      reads this`slots, this`lastRequestStarted, this`now
    {
      && Spaced(slots, minRequestInterval)
      && lastRequestStarted == (if slots == [] then None else Some(slots[|slots| - 1]))
      && (slots != [] ==> slots[|slots| - 1] <= now)
    }

    ghost predicate Valid()
      reads this
    {
      Settings() && Accounts(0) && Paced() && |slots| == |sent|
    }

    constructor (server: seq<Sent> -> Attempt, origin: string -> string, join: (string, string) -> string,
                 drift: nat -> real, overrun: nat -> real, baseUrl: string,
                 minRequestInterval: real, maxRedirects: nat, maxRetries: nat, retryBackoff: real)
      requires minRequestInterval >= 0.0 && retryBackoff >= 0.0
      requires forall n :: drift(n) >= 0.0 && overrun(n) >= 0.0
      ensures Valid() && sent == [] && calls == 0
    {
      this.server, this.origin, this.join := server, origin, join;
      this.drift, this.overrun, this.baseUrl := drift, overrun, baseUrl;
      this.minRequestInterval, this.retryBackoff := minRequestInterval, retryBackoff;
      this.maxRedirects, this.maxRetries := maxRedirects, maxRetries;
      now, ticks, sent, lastRequestStarted := 0.0, 0, [], None;
      requestsAttempted, responsesReceived, retries, rateLimitResponses, transportErrors := 0, 0, 0, 0, 0;
      slots, calls := [], 0;
    }

    // -------------------------------------------------------------- clock

    method Monotonic() returns (reading: real)
      requires Settings()
      modifies this`now, this`ticks
      ensures reading == now == old(now) + drift(old(ticks)) && ticks == old(ticks) + 1
      ensures old(now) <= now
    {
      now, ticks := now + drift(ticks), ticks + 1;
      return now;
    }

    method Sleep(seconds: real)
      requires Settings() && seconds >= 0.0
      modifies this`now, this`ticks
      ensures now == old(now) + seconds + overrun(old(ticks)) && ticks == old(ticks) + 1
      ensures now >= old(now) + seconds
    {
      now, ticks := now + seconds + overrun(ticks), ticks + 1;
    }

    // -------------------------------------------------------------- sending

    /** Waits until the interval since the last slot has passed, with an exact clock no longer than that, and takes
        the next slot. */
    method WaitForRequestSlot()
      requires Settings() && Paced()
      modifies this`now, this`ticks, this`lastRequestStarted, this`slots
      ensures Paced()
      ensures old(now) <= now && slots == old(slots) + [now]
      ensures (forall n :: drift(n) == 0.0 && overrun(n) == 0.0) ==>
                now == if old(lastRequestStarted).None? then old(now)
                       else RMax(old(now), old(lastRequestStarted).value + minRequestInterval)
    {
      var reading := Monotonic();
      if lastRequestStarted.Some? {
        var remaining := minRequestInterval - (reading - lastRequestStarted.value);
        if remaining > 0.0 {
          Sleep(remaining);
        }
      }
      var started := Monotonic();
      lastRequestStarted := Some(started);
      slots := slots + [started];
    }

    /** Sends in a slot taken for the request. */
    method SendRequest(request: Sent) returns (attempt: Attempt)
      requires |slots| == |sent| + 1 && slots[|slots| - 1] == now
      modifies this`sent, this`requestsAttempted
      ensures sent == old(sent) + [request] && requestsAttempted == old(requestsAttempted) + 1
      ensures attempt == server(sent)
    {
      requestsAttempted := requestsAttempted + 1;
      sent := sent + [request];
      return server(sent);
    }

    method SleepForRetry(attempt: Attempt, retriesUsed: nat)
      requires Settings()
      modifies this`now, this`ticks
      ensures now == old(now) + DelayAfter(retryBackoff, attempt, retriesUsed) + overrun(old(ticks))
      ensures now >= old(now) + DelayAfter(retryBackoff, attempt, retriesUsed)
    {
      Sleep(DelayAfter(retryBackoff, attempt, retriesUsed));
    }

    /** One physical request, in a slot taken for it, counted as what it met with. */
    method AttemptOnce(request: Sent) returns (attempt: Attempt)
      requires Settings() && Accounts(1) && Paced() && |slots| == |sent|
      modifies this`now, this`ticks, this`lastRequestStarted, this`slots, this`sent, this`requestsAttempted,
               this`responsesReceived, this`rateLimitResponses, this`transportErrors
      ensures Valid()
      ensures sent == old(sent) + [request] && attempt == server(sent)
      ensures old(now) <= now && slots == old(slots) + [now]
    {
      WaitForRequestSlot();
      attempt := SendRequest(request);
      TallyNext(server, old(sent), request, Answer);
      TallyNext(server, old(sent), request, RateLimit);
      TallyNext(server, old(sent), request, TransportError);
      match attempt
      case Answered(response) =>
        responsesReceived := responsesReceived + 1;
        if response.status == 429 {
          rateLimitResponses := rateLimitResponses + 1;
        }
      case RetryableError =>
        transportErrors := transportErrors + 1;
      case FatalError =>
    }

    /** The next attempt of a logical request is due: every earlier one was answered retryably, and the delay
        after the last one has passed. */
    ghost predicate Due(request: Sent, start: nat)
      reads this
    {
      && Settings() && Accounts(1) && Paced() && |slots| == |sent|
      && Trying(server, request, start, |sent|, sent) && |sent| - start <= maxRetries
      && Waited(server, retryBackoff, start, |sent|, sent, slots)
      && (start < |sent| ==>
            DelayAfter(retryBackoff, AnswerTo(server, sent, |sent|), |sent| - start - 1) <= now - slots[|slots| - 1])
    }

    /** One attempt; the delay before the next one if it is to be made again. */
    method AttemptOrSleep(request: Sent, retriesUsed: nat, ghost start: nat) returns (outcome: Option<Attempt>)
      requires Due(request, start) && retriesUsed == |sent| - start
      modifies this`now, this`ticks, this`lastRequestStarted, this`slots, this`sent, this`requestsAttempted,
               this`responsesReceived, this`retries, this`rateLimitResponses, this`transportErrors
      ensures sent == old(sent) + [request] && Passes(old(now), now, old(slots), slots)
      ensures outcome.None? ==> Due(request, start)
      ensures outcome.Some? ==>
                && Valid() && outcome.value == server(sent)
                && Tried(server, maxRetries + 1, request, start, |sent|, sent)
                && Waited(server, retryBackoff, start, |sent|, sent, slots)
    {
      TryingNext(server, request, start, sent);
      var attempt := AttemptOnce(request);
      WaitedNext(server, retryBackoff, start, old(sent), request, old(slots), now);
      if !Retryable(attempt) || retriesUsed >= maxRetries {
        return Some(attempt);
      }
      SleepForRetry(attempt, retriesUsed);
      retries := retries + 1;
      return None;
    }

    /** One logical request: the same request at most `maxRetries + 1` times. A retryable outcome is
        returned only when the retries are used up, and every earlier attempt was retryable. */
    method SendWithRetries(request: Sent) returns (result: Result<Response, ClientError>)
      requires Valid()
      modifies this`now, this`ticks, this`lastRequestStarted, this`slots, this`sent, this`requestsAttempted,
               this`responsesReceived, this`retries, this`rateLimitResponses, this`transportErrors, this`calls
      ensures Valid()
      ensures calls == old(calls) + 1
      ensures old(sent) <= sent && Passes(old(now), now, old(slots), slots)
      ensures Tried(server, maxRetries + 1, request, |old(sent)|, |sent|, sent)
      ensures Waited(server, retryBackoff, |old(sent)|, |sent|, sent, slots)
      ensures result == match server(sent)
                        case Answered(response) => Success(response)
                        case RetryableError => Failure(TransportFailed)
                        case FatalError => Failure(RequestFailed)
    {
      var retriesUsed := 0;
      calls := calls + 1;
      while true
        invariant Due(request, |old(sent)|) && retriesUsed == |sent| - |old(sent)|
        invariant old(sent) <= sent && Passes(old(now), now, old(slots), slots)
        invariant calls == old(calls) + 1
        decreases maxRetries - retriesUsed
      {
        var outcome := AttemptOrSleep(request, retriesUsed, |old(sent)|);
        if outcome.Some? {
          result := match outcome.value
            case Answered(response) => Success(response)
            case RetryableError => Failure(TransportFailed)
            case FatalError => Failure(RequestFailed);
          return;
        }
        retriesUsed := retriesUsed + 1;
      }
    }

    predicate OnHost(url: string) {
      origin(url) == origin(baseUrl)
    }

    /** The verdict on a response that is not followed. */
    function Final(response: Response): Result<Response, ClientError> {
      if !OnHost(response.url) then Failure(ForeignHost)
      else if !IsSuccess(response.status) then Failure(BadStatus)
      else if !response.acceptable then Failure(BadBody)
      else Success(response)
    }

    /** The request a redirect leads to, unless the limit is reached, it has no target, it leaves the
        host, or it was made before. */
    function NextHop(request: Sent, response: Response, followed: nat, visited: set<(Verb, string)>)
      : (next: Result<Sent, ClientError>)
      ensures next.Success? ==>
                && followed < maxRedirects && OnHost(next.value.url)
                && (next.value.verb, next.value.url) !in visited
                && (next.value.verb == request.verb || next.value.verb == GET)
                && next.value.data == if next.value.verb == request.verb then request.data else None
    {
      if followed >= maxRedirects then Failure(TooManyRedirects)
      else if response.location.None? then Failure(MissingLocation)
      else
        var url := join(response.url, response.location.value);
        var verb := RedirectVerb(request.verb, response.status);
        if !OnHost(url) then Failure(ForeignHost)
        else if (verb, url) in visited then Failure(RedirectLoop)
        else Success(Sent(verb, url, if verb == request.verb then request.data else None))
    }

    /** The answer to request number `end` leads from hop `i` to the next. */
    ghost predicate LeadsOn(sent: seq<Sent>, hops: seq<Sent>, end: nat, i: nat)
      requires end <= |sent| && i + 1 < |hops|
    {
      var answer := AnswerTo(server, sent, end);
      && answer.Answered? && OnHost(answer.response.url) && IsRedirect(answer.response.status)
      && NextHop(hops[i], answer.response, i, VisitedBy(hops[..i + 1])) == Success(hops[i + 1])
    }

    /** Hop `i` was tried, and it led to the next hop, if there is one. */
    ghost predicate HopAt(sent: seq<Sent>, hops: seq<Sent>, start: nat, end: nat, i: nat)
      requires i < |hops|
    {
      Tried(server, maxRetries + 1, hops[i], start, end, sent) && (i + 1 < |hops| ==> LeadsOn(sent, hops, end, i))
    }

    /** Everything sent after the first `start` requests was sent for these hops, one after the other: the
        requests of hop `i` end at number `ends[i]`. */
    ghost predicate Followed(start: nat, sent: seq<Sent>, hops: seq<Sent>, ends: seq<nat>) {
      && |ends| <= |hops|
      && StartOf(start, ends, |ends|) == |sent|
      && forall i: nat {:trigger StartOf(start, ends, i)} | i < |ends| ::
           HopAt(sent, hops, StartOf(start, ends, i), ends[i], i)
    }

    /** Within each hop the delays passed. */
    ghost predicate Delayed(start: nat, sent: seq<Sent>, slots: seq<real>, ends: seq<nat>)
      requires retryBackoff >= 0.0 && |slots| == |sent|
    {
      forall i: nat {:trigger StartOf(start, ends, i)} | i < |ends| ::
        ends[i] <= |sent| && Waited(server, retryBackoff, StartOf(start, ends, i), ends[i], sent, slots)
    }

    /** The result is what the server's last answer says: the failure of the last hop, the verdict on a
        response that is no redirect on the host, or the reason a redirect is not followed. */
    ghost predicate Concludes(page: Result<Response, ClientError>, last: Attempt, hops: seq<Sent>)
      requires hops != []
    {
      match last
      case RetryableError => page == Failure(TransportFailed)
      case FatalError => page == Failure(RequestFailed)
      case Answered(response) =>
        if !OnHost(response.url) || !IsRedirect(response.status) then page == Final(response)
        else
          var next := NextHop(hops[|hops| - 1], response, |hops| - 1, VisitedBy(hops));
          next.Failure? && page == Failure(next.error)
    }

    /** What one call comes to: it follows its hops, and its result is that of the last answer. */
    ghost predicate CallIs(start: nat, first: Sent, call: Call) {
      && call.hops != [] && call.hops[0] == first && |call.ends| == |call.hops|
      && Followed(start, call.sent, call.hops, call.ends)
      && Concludes(call.page, server(call.sent), call.hops)
    }

    lemma HopStays(before: seq<Sent>, sent: seq<Sent>, hops: seq<Sent>, start: nat, end: nat, i: nat)
      requires before <= sent && i < |hops| && HopAt(before, hops, start, end, i)
      ensures HopAt(sent, hops, start, end, i)
    {
      AnswersStay(server, before, sent);
    }

    /** The requests of one more hop. */
    lemma HopIsSent(start: nat, before: seq<Sent>, sent: seq<Sent>, hops: seq<Sent>, ends: seq<nat>)
      requires before <= sent && Followed(start, before, hops, ends) && |ends| + 1 == |hops|
      requires Tried(server, maxRetries + 1, hops[|ends|], |before|, |sent|, sent)
      ensures Followed(start, sent, hops, ends + [|sent|])
    {
      var all := ends + [|sent|];
      forall i: nat | i < |all| ensures HopAt(sent, hops, StartOf(start, all, i), all[i], i) {
        if i < |ends| {
          assert HopAt(before, hops, StartOf(start, ends, i), ends[i], i);
          HopStays(before, sent, hops, StartOf(start, ends, i), ends[i], i);
        }
      }
    }

    lemma HopIsDelayed(start: nat, before: seq<Sent>, was: seq<real>, sent: seq<Sent>, slots: seq<real>, ends: seq<nat>)
      requires retryBackoff >= 0.0 && |was| == |before| && |slots| == |sent| && before <= sent && was <= slots
      requires Delayed(start, before, was, ends) && StartOf(start, ends, |ends|) == |before|
      requires Waited(server, retryBackoff, |before|, |sent|, sent, slots)
      ensures Delayed(start, sent, slots, ends + [|sent|])
    {
      AnswersStay(server, before, sent);
      var all := ends + [|sent|];
      forall i: nat | i < |all|
        ensures all[i] <= |sent| && Waited(server, retryBackoff, StartOf(start, all, i), all[i], sent, slots)
      {
        if i < |ends| {
          assert Waited(server, retryBackoff, StartOf(start, ends, i), ends[i], before, was);
        }
      }
    }

    /** The next hop is where the server's redirect of the last one leads. */
    lemma HopIsFollowed(start: nat, sent: seq<Sent>, hops: seq<Sent>, ends: seq<nat>, response: Response, next: Sent)
      requires Followed(start, sent, hops, ends) && |ends| == |hops| && hops != []
      requires server(sent) == Answered(response) && OnHost(response.url) && IsRedirect(response.status)
      requires NextHop(hops[|hops| - 1], response, |hops| - 1, VisitedBy(hops)) == Success(next)
      ensures Followed(start, sent, hops + [next], ends)
    {
      var all := hops + [next];
      assert sent[..|sent|] == sent && all[..|hops|] == hops;
      forall i: nat | i < |ends| ensures HopAt(sent, all, StartOf(start, ends, i), ends[i], i) {
        assert HopAt(sent, hops, StartOf(start, ends, i), ends[i], i);
        if i + 1 < |hops| {
          assert all[..i + 1] == hops[..i + 1];
        }
      }
    }

    lemma {:induction false} HopsFit(start: nat, sent: seq<Sent>, hops: seq<Sent>, ends: seq<nat>, n: nat)
      requires Followed(start, sent, hops, ends) && n <= |ends|
      ensures StartOf(start, ends, n) <= start + Times(n, maxRetries + 1)
    {
      if n == 0 {
      } else {
        HopsFit(start, sent, hops, ends, n - 1);
        assert HopAt(sent, hops, StartOf(start, ends, n - 1), ends[n - 1], n - 1);
      }
    }

    // -------------------------------------------------------------- the server decides

    /** Up to hop `i` the two calls are the same. */
    ghost predicate SameUpTo(start: nat, a: Call, b: Call, i: nat) {
      && i < |a.hops| && i < |b.hops| && i <= |a.ends| && i <= |b.ends|
      && a.hops[..i + 1] == b.hops[..i + 1] && a.ends[..i] == b.ends[..i]
      && StartOf(start, a.ends, i) <= |a.sent| && StartOf(start, a.ends, i) <= |b.sent|
      && a.sent[..StartOf(start, a.ends, i)] == b.sent[..StartOf(start, a.ends, i)]
    }

    lemma HopIsDetermined(start: nat, first: Sent, a: Call, b: Call, i: nat)
      requires CallIs(start, first, a) && CallIs(start, first, b) && SameUpTo(start, a, b, i)
      ensures a.ends[i] == b.ends[i] <= |a.sent| && a.ends[i] <= |b.sent|
      ensures a.sent[..a.ends[i]] == b.sent[..a.ends[i]]
    {
      var from := StartOf(start, a.ends, i);
      assert StartOf(start, b.ends, i) == from by {
        assert i > 0 ==> a.ends[..i][i - 1] == b.ends[..i][i - 1];
      }
      assert a.hops[..i + 1][i] == b.hops[..i + 1][i];
      assert HopAt(a.sent, a.hops, from, a.ends[i], i) && HopAt(b.sent, b.hops, from, b.ends[i], i);
      TriedAgree(server, maxRetries + 1, a.hops[i], from, a.ends[i], a.sent, b.ends[i], b.sent);
    }

    lemma NextHopIsDetermined(start: nat, first: Sent, a: Call, b: Call, i: nat)
      requires CallIs(start, first, a) && CallIs(start, first, b) && SameUpTo(start, a, b, i)
      requires i + 1 < |a.hops| && i + 1 < |b.hops|
      ensures a.hops[i + 1] == b.hops[i + 1]
    {
      HopIsDetermined(start, first, a, b, i);
      assert HopAt(a.sent, a.hops, StartOf(start, a.ends, i), a.ends[i], i);
      assert HopAt(b.sent, b.hops, StartOf(start, b.ends, i), b.ends[i], i);
      assert AnswerTo(server, a.sent, a.ends[i]) == AnswerTo(server, b.sent, b.ends[i]);
      assert a.hops[..i + 1][i] == b.hops[..i + 1][i];
    }

    lemma SameUpToNext(start: nat, first: Sent, a: Call, b: Call, i: nat)
      requires CallIs(start, first, a) && CallIs(start, first, b) && SameUpTo(start, a, b, i)
      requires i + 1 < |a.hops| && i + 1 < |b.hops|
      ensures SameUpTo(start, a, b, i + 1)
    {
      HopIsDetermined(start, first, a, b, i);
      NextHopIsDetermined(start, first, a, b, i);
      assert a.hops[..i + 2] == a.hops[..i + 1] + [a.hops[i + 1]];
      assert b.hops[..i + 2] == b.hops[..i + 1] + [b.hops[i + 1]];
      assert a.ends[..i + 1] == a.ends[..i] + [a.ends[i]] && b.ends[..i + 1] == b.ends[..i] + [b.ends[i]];
    }

    lemma SameAtStart(start: nat, first: Sent, a: Call, b: Call)
      requires a.hops != [] && a.hops[0] == first && b.hops != [] && b.hops[0] == first
      requires start <= |a.sent| && start <= |b.sent| && a.sent[..start] == b.sent[..start]
      ensures SameUpTo(start, a, b, 0)
    {
      assert a.hops[..1] == [first] && b.hops[..1] == [first];
    }

    lemma {:induction false} HopsAreDetermined(start: nat, first: Sent, a: Call, b: Call, i: nat)
      requires CallIs(start, first, a) && CallIs(start, first, b) && i < |a.hops| && i < |b.hops|
      requires start <= |a.sent| && start <= |b.sent| && a.sent[..start] == b.sent[..start]
      ensures SameUpTo(start, a, b, i)
    {
      if i == 0 {
        SameAtStart(start, first, a, b);
      } else {
        HopsAreDetermined(start, first, a, b, i - 1);
        SameUpToNext(start, first, a, b, i - 1);
      }
    }

    lemma NoMoreHops(start: nat, first: Sent, a: Call, b: Call)
      requires CallIs(start, first, a) && CallIs(start, first, b) && |a.hops| <= |b.hops|
      requires SameUpTo(start, a, b, |a.hops| - 1)
      ensures |a.hops| == |b.hops| && a == b
    {
      var last := |a.hops| - 1;
      HopIsDetermined(start, first, a, b, last);
      assert a.sent[..a.ends[last]] == a.sent && a.hops[..last + 1] == a.hops;
      assert AnswerTo(server, b.sent, a.ends[last]) == server(a.sent);
      assert HopAt(b.sent, b.hops, StartOf(start, b.ends, last), b.ends[last], last);
      assert |b.hops| == |a.hops|;
      assert b.sent[..b.ends[last]] == b.sent && b.hops[..last + 1] == b.hops;
      assert a.ends == a.ends[..last] + [a.ends[last]] && b.ends == b.ends[..last] + [b.ends[last]];
    }

    /** The server's answers decide everything that one call sends, and its result. */
    lemma CallIsDetermined(start: nat, first: Sent, a: Call, b: Call)
      requires CallIs(start, first, a) && CallIs(start, first, b)
      requires start <= |a.sent| && start <= |b.sent| && a.sent[..start] == b.sent[..start]
      ensures a == b
    {
      HopsAreDetermined(start, first, a, b, if |a.hops| <= |b.hops| then |a.hops| - 1 else |b.hops| - 1);
      if |a.hops| <= |b.hops| {
        NoMoreHops(start, first, a, b);
      } else {
        NoMoreHops(start, first, b, a);
      }
    }

    /** The result of a call, told from the answer to its last request alone. A response on the host with a
        success status and an acceptable body is returned; every other outcome is the error that belongs to it;
        and a redirect on the host ends the call only at the limit, without a target, or towards a foreign host
        or a request made before. */
    lemma VerdictIsExact(start: nat, first: Sent, call: Call)
      requires CallIs(start, first, call)
      ensures var last, hop := server(call.sent), call.hops[|call.hops| - 1];
              match last
              case RetryableError => call.page == Failure(TransportFailed)
              case FatalError => call.page == Failure(RequestFailed)
              case Answered(response) =>
                if origin(response.url) != origin(baseUrl) then call.page == Failure(ForeignHost)
                else if 300 <= response.status < 400 then
                  if |call.hops| > maxRedirects then call.page == Failure(TooManyRedirects)
                  else if response.location.None? then call.page == Failure(MissingLocation)
                  else
                    var url := join(response.url, response.location.value);
                    if origin(url) != origin(baseUrl) then call.page == Failure(ForeignHost)
                    else
                      && call.page == Failure(RedirectLoop)
                      && exists h | h in call.hops :: h.verb == RedirectVerb(hop.verb, response.status) && h.url == url
                else if !(200 <= response.status < 300) then call.page == Failure(BadStatus)
                else call.page == if response.acceptable then Success(response) else Failure(BadBody)
    {
    }

    /** A redirect on the host, within the limit, with a target on the host that was not requested yet, is
        followed: the next hop requests its target, with the data if the method stays. */
    lemma RedirectIsFollowed(start: nat, first: Sent, call: Call, i: nat)
      requires CallIs(start, first, call) && i < |call.hops|
      requires call.ends[i] <= |call.sent| && AnswerTo(server, call.sent, call.ends[i]).Answered?
      ensures var response, hop := AnswerTo(server, call.sent, call.ends[i]).response, call.hops[i];
              && origin(response.url) == origin(baseUrl) && 300 <= response.status < 400
              && response.location.Some? && i < maxRedirects
              ==>
              var url := join(response.url, response.location.value);
              var verb := RedirectVerb(hop.verb, response.status);
              && origin(url) == origin(baseUrl)
              && (forall h | h in call.hops[..i + 1] :: (h.verb, h.url) != (verb, url))
              ==>
              && i + 1 < |call.hops|
              && call.hops[i + 1] == Sent(verb, url, if verb == hop.verb then hop.data else None)
    {
      if i + 1 == |call.hops| {
        assert call.sent[..call.ends[i]] == call.sent && call.hops[..i + 1] == call.hops;
      } else {
        assert HopAt(call.sent, call.hops, StartOf(start, call.ends, i), call.ends[i], i);
      }
    }

    // -------------------------------------------------------------- following

    /** One hop: the verdict on its answer, or the hop that its redirect leads to. */
    method FollowOnce(request: Sent, followed: nat, visited: set<(Verb, string)>, ghost first: Sent,
                      ghost start: nat, ghost hops: seq<Sent>, ghost ends: seq<nat>)
      returns (page: Option<Result<Response, ClientError>>, next: Sent)
      requires Valid() && HopState(hops, first, request, visited, origin, origin(baseUrl))
      requires |ends| == followed && |hops| == followed + 1 <= maxRedirects + 1
      requires Followed(start, sent, hops, ends) && Delayed(start, sent, slots, ends)
      modifies this
      ensures Valid() && calls == old(calls) + 1
      ensures old(sent) < sent && Passes(old(now), now, old(slots), slots)
      ensures Delayed(start, sent, slots, ends + [|sent|])
      ensures page.Some? ==>
                Followed(start, sent, hops, ends + [|sent|]) && Concludes(page.value, server(sent), hops)
      ensures page.None? ==>
                && followed < maxRedirects
                && HopState(hops + [next], first, next, visited + {(next.verb, next.url)}, origin, origin(baseUrl))
                && Followed(start, sent, hops + [next], ends + [|sent|])
    {
      ghost var before, was := sent, slots;
      next := request;
      var answer := SendWithRetries(request);
      HopIsSent(start, before, sent, hops, ends);
      HopIsDelayed(start, before, was, sent, slots, ends);
      if answer.Failure? {
        return Some(Failure(answer.error)), next;
      }
      var response := answer.value;
      if !OnHost(response.url) || !IsRedirect(response.status) {
        return Some(Final(response)), next;
      }
      var hop := NextHop(request, response, followed, visited);
      if hop.Failure? {
        return Some(Failure(hop.error)), next;
      }
      next := hop.value;
      HopsExtend(hops, first, request, next, visited, origin, origin(baseUrl));
      HopIsFollowed(start, sent, hops, ends + [|sent|], response, next);
      return None, next;
    }

    /** Follows redirects on the configured host, requesting each verb and URL once. */
    method FollowRedirects(first: Sent)
      returns (page: Result<Response, ClientError>, ghost hops: seq<Sent>, ghost ends: seq<nat>)
      requires Valid() && OnHost(first.url)
      modifies this
      ensures Valid()
      ensures old(sent) < sent && Passes(old(now), now, old(slots), slots)
      ensures CallIs(|old(sent)|, first, Call(sent, hops, ends, page)) && Delayed(|old(sent)|, sent, slots, ends)
      ensures GoodHops(hops, origin, origin(baseUrl)) && |hops| <= maxRedirects + 1
      ensures calls == old(calls) + |hops|
      ensures page.Success? ==> IsSuccess(page.value.status) && page.value.acceptable && OnHost(page.value.url)
    {
      var request, followed := first, 0;
      var visited := {(first.verb, first.url)};
      hops, ends := [first], [];
      while true
        invariant Valid()
        invariant HopState(hops, first, request, visited, origin, origin(baseUrl))
        invariant |ends| == followed && |hops| == followed + 1 <= maxRedirects + 1
        invariant calls + 1 == old(calls) + |hops|
        invariant old(sent) <= sent && Passes(old(now), now, old(slots), slots)
        invariant Followed(|old(sent)|, sent, hops, ends) && Delayed(|old(sent)|, sent, slots, ends)
        decreases maxRedirects - followed
      {
        var verdict, next := FollowOnce(request, followed, visited, first, |old(sent)|, hops, ends);
        ends := ends + [|sent|];
        if verdict.Some? {
          page := verdict.value;
          break;
        }
        request, followed, visited := next, followed + 1, visited + {(next.verb, next.url)};
        hops := hops + [next];
      }
    }

    /** One call. A URL outside the configured host is refused before anything is sent. */
    method Request(verb: Verb, path: string, data: Option<string>)
      returns (page: Result<Response, ClientError>, ghost hops: seq<Sent>, ghost ends: seq<nat>)
      requires Valid()
      modifies this
      ensures Valid()
      ensures old(sent) <= sent && Passes(old(now), now, old(slots), slots)
      ensures var first := Sent(verb, join(baseUrl, path), data);
              if OnHost(first.url) then CallIs(|old(sent)|, first, Call(sent, hops, ends, page))
              else sent == old(sent) && hops == [] && ends == [] && page == Failure(ForeignHost)
      ensures Delayed(|old(sent)|, sent, slots, ends)
      ensures GoodHops(hops, origin, origin(baseUrl)) && |hops| <= maxRedirects + 1
      ensures calls == old(calls) + |hops|
      ensures |sent| - |old(sent)| <= (maxRedirects + 1) * (maxRetries + 1)
      ensures page.Success? ==> IsSuccess(page.value.status) && page.value.acceptable && OnHost(page.value.url)
    {
      TimesFits(0, maxRedirects + 1, maxRetries + 1);
      var first := Sent(verb, join(baseUrl, path), data);
      if !OnHost(first.url) {
        return Failure(ForeignHost), [], [];
      }
      page, hops, ends := FollowRedirects(first);
      HopsFit(|old(sent)|, sent, hops, ends, |ends|);
      TimesFits(|hops|, maxRedirects + 1, maxRetries + 1);
    }
  }
}
