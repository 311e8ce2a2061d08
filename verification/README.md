# BC Auction Explorer: verified model

A Dafny model of the scraper, the versioned store it feeds, and the queries that read the store.
`dafny verify dfyconfig.toml` checks the whole project.

| File | Content |
|---|---|
| Records.dfy, Urls.dfy, Wrappers.dfy | accepted records, hashes, canonical URLs and their encoding |
| Store.dfy | the four tables; what persisting a record and finishing a run do to them, as functions |
| Repository.dfy | the write side as a class that updates its tables step by step, proved equal to Store.dfy |
| Integrity.dfy | the store invariant and its preservation |
| Replay.dfy | refusals, result flags, idempotent replay |
| History.dfy | whole runs of the repository against the sequence of records behind each row |
| Retention.dfy | the observation history against the same sequences, and its newest row |
| RunRows.dfy | the run rows, and the runs that history rows name, against the log of calls |
| Aliases.dfy | location aliases against the records that reached them |
| FirstSeen.dfy | when the first-seen time is the earliest observation |
| Absence.dfy | what the absence columns count |
| Calls.dfy | one more call at the end of a log, and the records of the concrete logs |
| Ordering.dfy, Listings.dfy, Like.dfy, Operations.dfy | the read side: order, pages, current listings, keyword search, failure count |
| SearchPages.dfy, Collecting.dfy | results pages, the page walk, the enumeration of all product groups |
| Determinism.dfy | the server's answers decide the outcome of an enumeration |
| Completeness.dfy | when a complete enumeration delivers what the pages announce |
| Sites.dfy, Paging.dfy | sites whose pages tell the truth, what a walk over them shows, and a site that cuts its results into pages |
| ScrapeCommand.dfy | the persisted scrape command from enumeration to the finished run |
| Publication.dfy | what the current listing shows after a run |
| Keyword.dfy | which items that such a site lists a complete run ages, with and without a keyword |
| Client.dfy | retries, redirects, request spacing and counters of the HTTP client |

## How it is modelled

- The item table is a sequence whose positions stand for the UUID keys. The observation table is a map
  keyed by its unique constraint. The tables hold values; the repository class assigns new ones.
- A hash is an arbitrary function into the naturals (`Keying`). Lemmas that need distinct fields to have
  distinct hashes say so with `Injective`; replay does not need it.
- `After(k, log)` is the store after any log of calls on an empty database, refused calls included.
  `Accepted(k, log, id)` is the sequence of records that were persisted for one listing. A record of such a
  sequence is *stale* when an earlier one was observed later, *held* when it is not terminal and an
  earlier non-stale one was; otherwise it is *applied*. These words are defined on the sequence alone,
  and `RowsReflectHistory` proves that the rows follow them.
- A server is a function of everything requested so far, so it may behave in any way that depends on the
  past. A search request carries its product group and the keyword. The client's clock is any clock that
  never runs backwards, and a sleep lasts at least as long as asked. Times and delays are exact numbers.
  The HTTP library treats every 3xx status as a redirect.
- `CallIs` says what one call of the HTTP client sends and returns, and `CallIsDetermined` that the server
  alone decides it. The client's counters are tallies of the server's answers to everything sent so far.
- A `Trace` is what an enumeration saw of the server. `Enumerated` and `Broke` say what a successful and
  a failed one look like, page by page and request by request. `EnumerationIsDetermined` proves that one
  server admits one trace, so a run fails exactly on the servers that make it fail.

## What turned out not to hold

- An ageing run that lists an item resets its absence count only if it finds the item open.
  `ListedButStillCounted` is a log of three runs after which a listing on the latest complete run is still
  counted as missed; `ListingClearsExactlyOpenItems` gives the exact condition and `AbsencesAreCounted` the
  exact count.
- Finishing a run twice ages the inventory twice, since nothing checks that the run is still running
  (`FinishedTwiceCountsTwice`). It is harmless exactly when the run does not age, or every open item is
  listed and the two finish times agree (`SecondFinishIsHarmlessExactlyWhen`). The scrape command finishes
  its run once.
- A complete run need not deliver every record that the pages announce. The page walk checks that record
  ranges advance, not that they adjoin (`WalkMaySkip`), and takes any page without a range for the last
  one, also the empty-results page behind a next link (`WalkMayBeCut`). Both happen in enumerations that
  count as complete (`SkippingRunIsComplete`, `CutRunIsComplete`). A finished walk delivers the announced
  total exactly when it closes: its ranges adjoin, or a last page without a range makes up for what is
  missing (`FinishedWalkIsWholeIffItCloses`, `EmptyLastPageIsNeverWhole`). A complete run delivers what every
  group announced exactly when every walk closes (`CompleteRunIsWholeIffWalksClose`).
- So a complete run may age an item that the site lists. Take any site whose pages tell the truth: a page
  with a range holds just these records of the results and announces their number, a first page without a
  range holds all of them, any other one some of them (`TrueServer`). An enumeration of it below the cap gets everything that the keyword
  finds exactly when every walk closes (`DeliversIffWalksClose`), and a complete run refreshes an open item
  exactly when a walk covers its position, and otherwise counts it absent. If every walk closes, it refreshes
  every open item that the site lists exactly when the keyword finds all of them
  (`CompleteRunAgesNothingListedIff`); without a keyword it always does (`EmptyKeywordAgesNothingListed`). Over a site
  that cuts its results into pages of one size every walk closes (`PagedWalkCloses`, `PagedRunAgesNothingListedIff`).
- Neither condition is checked. `SkippingRunMissesListed` is a complete enumeration, without a keyword, of a
  site that tells the truth, which misses a listing; `KeywordRunAgesListedItem` is a search for lamps that
  succeeds, is complete, and counts a desk as absent that the site lists.
- `first_seen_at` need not be the earliest observation: `FirstSeenMayBeLate` is a log of two records. It is
  the earliest exactly when no accepted record was observed before the time its row showed
  (`FirstSeenIsEarliestUnlessBackdated`; for one record `FirstSeenStaysEarliest`).
- A location alias may be last seen before it was first seen, since the upsert takes no maximum
  (`TimesMayCross`), exactly when a record is placed that was observed before the alias was first seen
  (`TimesCrossExactlyWhen`).
- The count of consecutive failures may be too large when runs overlap and too small when runs start at
  the same instant (`CountMayExceed`, `CountMayFallShort`: logs of calls that do so); `CountIsExactUnless` says
  exactly when.

## Model

| member | source | states |
|---|---|---|
| Urls.TextRoundTrips | src/bc_auction/urls.py:50-58 | a percent-encoded value, through UTF-8, reads back as what was written |
| Urls.Utf8IsExact | src/bc_auction/urls.py:50-58 | a character below 128 is one byte, any other one has the lead byte of its length and continuation bytes |
| Urls.QuotedByteIsExact | src/bc_auction/urls.py:50-58 | letters, digits and four marks stand for themselves, a space becomes a plus sign, any other byte a percent sign and its two hexadecimal digits |
| Urls.PlainTextIsQuotedAsItself | src/bc_auction/urls.py:50-58 | a text of letters, digits and the four marks is quoted as itself |
| Urls.CanonicalUrlReads | src/bc_auction/urls.py:50-58 | one canonical URL, written out |
| Urls.SourceUrlIsInjective | src/bc_auction/urls.py:50-58 | two display IDs never share a canonical URL, whatever their characters |
| Urls.ExtractDisplayIdIsExact | src/bc_auction/urls.py:36-71 | whatever the spelling of a URL, extraction gives a display ID exactly when the canonical form is that ID's URL, and exactly when the URL passes the item checks and its query, without session parameters, gives this one ID |
| Urls.ItemUrlIsExact | src/bc_auction/urls.py:9-60 | a URL has a canonical form exactly when it has no credentials, no session ID outside of session parameters, the auction's host and document path under HTTPS, no unexpected parameter, and exactly one display ID, which is not empty |
| Urls.CanonicalizeIsIdempotent | src/bc_auction/urls.py:36-60 | the canonical form of a URL is its own canonical form |
| Store.SelectOne | src/bc_auction/persistence.py:481-489 | a one-row query finds the only match, nothing, or fails exactly on two matches |
| Integrity.ResolveIsExact | src/bc_auction/persistence.py:481-491 | in a consistent store neither lookup meets two rows; the identity conflict is raised exactly when the display ID or URL belongs to another source ID |
| Integrity.AcceptedIdentityIsFree | src/bc_auction/database.py:134-136 | an insert or remap that passed the lookups breaks no unique constraint and leaves all identities distinct |
| Integrity.ItemAfterOk | src/bc_auction/persistence.py:525-584 | whichever branch is taken: last seen becomes the maximum, terminal stays terminal, the closing time is written once, it is set exactly for terminal items, and the times stay ordered |
| Integrity.CurrentIsRecorded | src/bc_auction/persistence.py:585-589 | after a write the history holds an observation with the row's hash and status |
| Integrity.PersistKeepsConsistent | src/bc_auction/persistence.py:475-597 | every branch keeps identities, time order, history bounds and a recorded current observation |
| Integrity.FinishKeepsConsistent | src/bc_auction/persistence.py:359-457 | finishing a run, ageing or not, keeps the same invariant |
| Replay.RefusedExactlyWhen | src/bc_auction/persistence.py:464-491 | a call fails exactly on an invalid record, an identity owned by another listing, or an unknown run when a new observation row is needed; it reports a new observation exactly when one is needed |
| Replay.ValidationIsExact | src/bc_auction/persistence.py:464-468 | a record fails validation exactly without a source ID, display ID or title, with a URL that is not the canonical one of its display ID, or with an image URL that is not public as given |
| Replay.FlagsAreExact | src/bc_auction/persistence.py:553-597 | `updated` is reported exactly when the row differs in more than raw status text and sighting times, and exactly then the last-changed time moves |
| Replay.CreatedIsExact | src/bc_auction/persistence.py:495-517 | `created` is reported exactly when the listing had no row; then the tables have one more row, its first history row is new, and nothing is reported as updated |
| Replay.FirstCallAbsorbs | src/bc_auction/persistence.py:495-597 | after each of the four branches the row, history and alias already are what the record would make them |
| Replay.AbsorbedIsNoChange | src/bc_auction/persistence.py:599-618 | a record in that state changes no table and reports nothing, also when another observation of the same instant sorts first |
| Replay.ReplayIsIdempotent | src/bc_auction/persistence.py:459-597 | persisting a record again right after it succeeded changes no table and reports all three flags false |
| History.ReachableIsConsistent | src/bc_auction/persistence.py:325-597 | the invariant, with pairwise distinct source IDs, display IDs and URLs, holds after every log of calls |
| History.RowDecides | src/bc_auction/persistence.py:525-537 | the row alone decides staleness and holding as the whole sequence of past records does |
| History.ReflectsNext | src/bc_auction/persistence.py:525-597 | the successor row reflects the longer sequence |
| History.RowsReflectHistory | src/bc_auction/persistence.py:475-597 | for every log: an item exists exactly for listings with an accepted record; it shows the content of the last applied record, the identity of the last non-stale one, the closing time of the first that closed it, and the greatest observation time |
| History.ClosureIsAbsorbing | src/bc_auction/persistence.py:537-597 | under any further calls a closed or withdrawn item stays terminal with the same closing time, and no item disappears, is renamed or is seen earlier |
| Retention.HistoryRetainsRecords | src/bc_auction/persistence.py:599-642 | for every log: each accepted record's snapshot is in its item's history no later than the record, and each history row is the time and snapshot of an accepted record |
| Retention.ReopeningIsRecorded | src/bc_auction/persistence.py:599-618 | an open or unknown record of a closed item, not observed before the item's last sighting, adds a history row exactly when its own row is missing and the first row, latest time and then greatest hash, has another snapshot; afterwards the newest time shows its snapshot |
| Retention.HeldIsNewest | src/bc_auction/persistence.py:599-618 | over every log the same: a record that the past holds back has a row with its snapshot and no row is later |
| Retention.NewestShowsAppliedExactlyWhen | src/bc_auction/persistence.py:560-589 | a record that is written to its row shows in the newest history row exactly when it changes the snapshot, or the newest row showed it before |
| RunRows.RunRowsReflectLog | src/bc_auction/persistence.py:325-417 | for every log a run has a row exactly when it was started; the row has the flag and time of its first start, and time, status, coverage and completeness of its last finish |
| RunRows.AgesExactly | src/bc_auction/persistence.py:410-417 | a run ages the inventory exactly when it succeeded, all groups were processed, and every listing was fetched and stored |
| RunRows.HistoryNamesRuns | src/bc_auction/persistence.py:629-642 | for every log each history row names the run that offered its record |
| Absence.AbsencesAreCounted | src/bc_auction/persistence.py:419-457 | for every log: the count is the number of ageing runs that found the item open and missed it since the last that found it open and listed it; state, first-absent and stale times follow from the trailing misses |
| Absence.TrailingMisses | src/bc_auction/persistence.py:438-455 | the trailing misses are all misses, and what precedes them is a listing |
| Absence.ListedButStillCounted | src/bc_auction/persistence.py:425-437 | a concrete log of three runs, each reporting what it stored, after which the latest complete run listed an item that still counts one absence |
| Absence.ListingClearsExactlyOpenItems | src/bc_auction/persistence.py:425-437 | a listing run leaves count zero exactly for items it finds open or already at zero |
| Absence.SecondFinishIsHarmlessExactlyWhen | src/bc_auction/persistence.py:380-417 | finishing a run again, at its own time, leaves all items alone exactly when the run does not age, or every open item is listed and the times agree |
| Absence.FinishedTwiceCountsTwice | src/bc_auction/persistence.py:380-417 | a concrete log in which one missed run, finished twice, counts as two absences |
| FirstSeen.FirstSeenStaysEarliest | src/bc_auction/persistence.py:525-584 | after one more record the first-seen time is the earliest exactly when it was and the record is not observed before it |
| FirstSeen.FirstSeenIsEarliestUnlessBackdated | src/bc_auction/persistence.py:495-584 | for every log: the first-seen time is the earliest accepted observation exactly when no accepted call was observed before the time its row showed |
| FirstSeen.FirstSeenMayBeLate | src/bc_auction/persistence.py:503-504 | a concrete log of two accepted records, observed at 5 and then at 3, whose row keeps 5 |
| Aliases.AliasesReflectHistory | src/bc_auction/persistence.py:644-681 | for every log: an alias exists exactly for the locations that an applied record carried; raw text, first-seen and creation time are those of the first such record, place, qualifier, status, last-seen and update time those of the last |
| Aliases.PersistWritesAlias | src/bc_auction/persistence.py:525-597 | stale and held records do not touch the aliases; every other accepted record records its location |
| Aliases.TimesCrossExactlyWhen | src/bc_auction/persistence.py:671-680 | a placed record leaves its alias last seen before first seen exactly when the alias was first seen after the record was observed |
| Aliases.TimesMayCross | src/bc_auction/persistence.py:671-680 | a concrete log of two listings that does so |
| Repository.AuctionRepository.StartScrapeRun | src/bc_auction/persistence.py:333-357 | adds a running row with pending coverage and nothing else |
| Repository.AuctionRepository.FinishScrapeRun | src/bc_auction/persistence.py:359-417 | refuses a running status; otherwise leaves exactly the tables of `Store.Finish` |
| Repository.AuctionRepository.ReconcileCompleteInventory | src/bc_auction/persistence.py:419-457 | two successive updates refresh listed open rows and age the other open rows, once each |
| Repository.AuctionRepository.PersistReconciledRecord | src/bc_auction/persistence.py:459-473 | success leaves exactly the tables of `Store.Persist`; any refusal leaves the tables as they were |
| Repository.AuctionRepository.PersistRecord | src/bc_auction/persistence.py:475-597 | the lookups and the choice of branch agree with `Store.Persist` |
| Repository.AuctionRepository.InsertItem | src/bc_auction/persistence.py:495-517 | the insert branch agrees with `Store.PersistNew` |
| Repository.AuctionRepository.HoldItem | src/bc_auction/persistence.py:537-559 | the terminal-hold branch agrees with `Store.PersistHeld` |
| Repository.AuctionRepository.UpdateItem | src/bc_auction/persistence.py:560-597 | the full-update branch agrees with `Store.PersistUpdate` |
| Repository.AuctionRepository.RecordNonterminalHistoryAfterClosure | src/bc_auction/persistence.py:599-618 | inserts nothing when the newest history row has the record's hash, otherwise inserts once |
| Repository.AuctionRepository.InsertObservation | src/bc_auction/persistence.py:629-642 | inserts unless the unique key exists, and needs the run only for a real insert |
| Ordering.ArrangementIsUnique | src/bc_auction/read_repository.py:78-80 | a strict total order admits one ordered list of a set of rows |
| Ordering.PagesPartition | src/bc_auction/read_repository.py:657-664 | the reported pages put together are the list, none is empty or too long, and every later page is empty |
| Listings.RankingIsTotal | src/bc_auction/read_repository.py:331-343 | the seven-column ranking of candidates is the order of observation times and never ties |
| Listings.OneIsSelected | src/bc_auction/read_repository.py:327-357 | every item has exactly one observation of rank one, the newest of its current hash |
| Listings.EveryItemIsListedOnce | src/bc_auction/read_repository.py:358-395 | the current-listing query returns exactly one row per item |
| Listings.ListingShowsLastApplied | src/bc_auction/read_repository.py:326-395 | for every log and item there is exactly one row, and it shows bids, bid count, closing time, status and content of the last applied record |
| Listings.ViewsAreDisjoint | src/bc_auction/read_repository.py:457-510 | active and ended views never overlap, exactly which rows are in neither, and which availabilities are ended |
| Listings.AvailabilityIsExact | src/bc_auction/read_repository.py:482-510 | what each of the five availabilities says of status and closing time |
| Listings.FiltersAreExact | src/bc_auction/read_repository.py:398-480 | which rows are listed, field by field: the view, a keyword contained in title or description whatever its case, the canonical or else raw location and category, and the bounds on bid and closing time, which a row without one never meets |
| Listings.SortIsTotal | src/bc_auction/read_repository.py:512-527 | each of the six orders, nulls last and source ID under any collation as tie-break, is strict and total |
| Listings.OrdersRun | src/bc_auction/read_repository.py:512-527 | how closing time, bid, last sighting and number of bids run along the list in each of the six orders, rows without a value last and ties by source ID |
| Listings.CodePointsCollate | src/bc_auction/read_repository.py:513 | the order of code points is such a collation |
| Listings.PagesListEveryMatchOnce | src/bc_auction/read_repository.py:63-86 | for a fixed store, filter, order and time, any collation and any normalisation of the filter texts: the ordered result is unique, holds each match once, and is the concatenation of the reported pages |
| Like.ReplacesEscapeOnce | src/bc_auction/read_repository.py:683 | three successive replacements equal one escape per character |
| Like.PatternsMean | src/bc_auction/read_repository.py:407-414 | an underscore matches one character, a percent sign any text, an escaped character itself, and any other character itself |
| Like.EscapedMatchesLiterally | src/bc_auction/read_repository.py:682-684 | an escaped value followed by a pattern matches exactly the value followed by a match of the pattern |
| Like.PatternIsWellFormed | src/bc_auction/read_repository.py:682-684 | every escape character in the pattern precedes a character that may be escaped |
| Like.PatternFindsSubstrings | src/bc_auction/read_repository.py:682-684 | a text matches the pattern exactly when it contains the value |
| Like.KeywordFindsSubstrings | src/bc_auction/read_repository.py:406-414 | with case folding, which may turn one character into several, a text matches exactly when its folded form contains the folded value |
| Operations.TrailingAreAfterLastStart | src/bc_auction/read_repository.py:273-285 | the longest failing suffix in start order, ties by ID, is the set of failures after the last complete run |
| Operations.FinishesAreExact | src/bc_auction/read_repository.py:273-281 | the finished scheduled runs are the complete ones and the failures; a failure is a run that is partial, failed, or not completely covered |
| Operations.CountIsExact | src/bc_auction/read_repository.py:257-285 | the counted runs in terms of flag, status and completeness, and which complete run is the latest |
| Operations.PartialRunCounts | src/bc_auction/read_repository.py:273-281 | a concrete log in which a partial scheduled run counts and a failed run by hand does not |
| Operations.CountIsExactUnless | src/bc_auction/read_repository.py:257-285 | for any run history: the count exceeds the failing suffix exactly when some failure started between the last-finished complete run and another complete one, and falls short of it exactly when one that started at the same instant comes after every complete run |
| Operations.CountMayExceed | src/bc_auction/read_repository.py:257-285 | a concrete log of overlapping runs after which the query counts one failure although the last run in start order is complete |
| Operations.CountMayFallShort | src/bc_auction/read_repository.py:257-285 | a concrete log of runs that start together after which the query counts none although the last run in start order failed |
| Operations.CountWithoutComplete | src/bc_auction/read_repository.py:273-285 | without a complete run every finished scheduled run counts |
| Operations.CountIsTrailingFailures | src/bc_auction/read_repository.py:248-285 | for runs that do not overlap the count is the length of the failing suffix exactly when no failure started together with the last complete run and comes after it |
| Operations.ReachableRunsOk | src/bc_auction/database.py:100-104 | run rows have a finish time exactly when not running, and their start as creation time |
| SearchPages.ParserIsExact | src/bc_auction/parsers/results.py:90-113 | rows are accepted exactly when the listings are distinct, the range fits the records and the total, page 1 starts at record 1, a link to a later page is there exactly when records remain, and a page with page links has a range; an empty-results page is always accepted, any other page never |
| SearchPages.SearchPageTracker.Add | src/bc_auction/parsers/results.py:74-87 | a page is refused exactly when it repeats a listing of an earlier page; the fingerprint test adds nothing |
| SearchPages.WalkYield | src/bc_auction/__main__.py:297-305 | conservation for every walk: the listings it yields plus the positions its ranges skip are the last record end plus the listings on a last page without a range |
| SearchPages.WalkIsBounded | src/bc_auction/__main__.py:43 | a walk has at most 100 pages |
| SearchPages.FinishedWalkIsWholeIffItCloses | src/bc_auction/__main__.py:313-317 | a finished walk delivers the last total announced exactly when its ranges adjoin from 1, or a last page without a range holds what they left out |
| SearchPages.EmptyLastPageIsNeverWhole | src/bc_auction/parsers/results.py:94-95 | a walk that ends in the empty-results page after a next link delivers less than was announced |
| Completeness.GoodPagePasses | src/bc_auction/__main__.py:288-305 | the checks refuse no page that continues a good walk |
| Completeness.FinishedWalkHappens | src/bc_auction/__main__.py:236-271 | every finished good walk of fewer listings than the cap is the whole of a complete enumeration, for some server |
| Completeness.CompleteRunIsWholeIffWalksClose | src/bc_auction/__main__.py:260-271 | in a complete enumeration the records returned, the duplicates counted and the positions lost add up to the announced totals; every group delivers its total exactly when every walk closes |
| Completeness.WalkMaySkip | src/bc_auction/__main__.py:297-305 | two pages that pass the parser and every check of the walk and miss a record |
| Completeness.WalkMayBeCut | src/bc_auction/__main__.py:312-314 | a first page of three announced records, followed by the empty-results page, passes every check and delivers one |
| Completeness.SkippingRunIsComplete | src/bc_auction/__main__.py:267-270 | a complete enumeration over the skipping walk |
| Completeness.CutRunIsComplete | src/bc_auction/__main__.py:267-270 | a complete enumeration over the walk that ends in the empty-results page |
| Collecting.WalkExtends | src/bc_auction/__main__.py:288-305 | passing the checks against the last page and the seen listings means passing them against every earlier page |
| Collecting.FirstOccurrencesKeepIds | src/bc_auction/__main__.py:325-345 | dropping repeats loses no listing and keeps none twice |
| Collecting.Collector.AddUniqueSearchRecord | src/bc_auction/__main__.py:325-345 | keeps list and dictionaries in one-to-one correspondence; raises exactly on a half match; adds exactly a record that is new in both |
| Collecting.Collector.AddSearchRecord | src/bc_auction/__main__.py:224-234 | one more record offered is one more kept or one more duplicate; raises exactly on a half match, changing nothing; asks to stop exactly at the cap |
| Collecting.Collector.OfferPage | src/bc_auction/__main__.py:306-311 | offers the page's records in order: all of them, or up to the one that reaches the cap, or up to the one that contradicts a kept one |
| Collecting.Collector.AcceptPage | src/bc_auction/__main__.py:289-305 | refuses a page exactly for the page limit, a repeated URL, a broken parser contract, a page number or range that does not advance, or a repeated listing; an accepted page extends the walk |
| Collecting.Collector.VisitPage | src/bc_auction/__main__.py:288-311 | an accepted page is offered in full below the cap and extends the served walk; otherwise the walk broke off at this reply, for a check it fails or a record that contradicts a kept one |
| Collecting.ServedNext | src/bc_auction/__main__.py:315-320 | a page that answers the request for the previous page's next link continues a served walk |
| Collecting.Collector.FetchNext | src/bc_auction/__main__.py:315-320 | asks for the next link unless the walk has 100 pages; a missing reply breaks the walk off |
| Collecting.Collector.TurnPage | src/bc_auction/__main__.py:287-320 | one turn of the page loop: the walk grows by the server's page and the next link was asked for, or the walk ended, was capped, or broke off at this reply |
| Collecting.Collector.CollectFromPage | src/bc_auction/__main__.py:274-322 | for any server the walk ends within 100 pages of distinct URLs, increasing page numbers and disjoint ranges, each the server's answer to the request for the link before; below the cap it offered every record up to a page without a next link; it raises exactly at 100 pages with a next link, or when the reply to its last request is missing, refused by a check, or holds a record that contradicts a kept one |
| Collecting.Collector.CollectGroup | src/bc_auction/__main__.py:236-251 | a group's walk starts with the search of that group under the keyword and extends the trace by one walk, or the trace says how it broke off |
| Collecting.CollectSearchRecords | src/bc_auction/__main__.py:203-271 | success: the groups were walked in order, every page is the server's answer to the request before, offered equals kept plus duplicates, nothing is offered after the record that reaches the cap, groups are skipped only at the cap, listings and URLs agree, and the enumeration is complete exactly when every group was walked with strictly fewer listings than the cap, all records having been offered. Failure: all groups before were walked to the end below the cap, then the search of the next one was sent, and the reply to its last request broke its walk off |
| Determinism.GroupIsDetermined | src/bc_auction/__main__.py:274-322 | the requests and records before a group decide its pages, its records, and whether it finishes, reaches the cap or breaks off |
| Determinism.EnumerationIsDetermined | src/bc_auction/__main__.py:203-322 | one server admits one trace, successful or failed |
| Determinism.SuccessExcludesFailure | src/bc_auction/__main__.py:203-322 | a server on which the enumeration succeeds gives it no ground to fail |
| ScrapeCommand.ReconciliationIsExact | src/bc_auction/parsers/details.py:111-145 | another source ID is refused; a closed or withdrawn search row gives its own status, otherwise a known status of the detail page is taken; bid, closing time and location come from the detail page first, and everything else from the detail page alone |
| ScrapeCommand.AllDetailsExactlyWhen | src/bc_auction/__main__.py:401-417 | no detail is lost exactly when every page was fetched and has the source ID of its search row |
| ScrapeCommand.DetailsAreDistinct | src/bc_auction/__main__.py:405-417 | reconciled details repeat neither source ID nor URL |
| ScrapeCommand.FullDetailsKeepOrder | src/bc_auction/__main__.py:405-417 | if no detail failed, the records name the search results one by one |
| ScrapeCommand.FetchDetails | src/bc_auction/__main__.py:401-432 | every search result ends as one record or one failure |
| ScrapeCommand.ConvertReconciledRecord | src/bc_auction/persistence.py:133-173 | conversion succeeds exactly for an item URL, non-empty source ID and title, and public image URLs; then every field of the detail, the URL and the time can be read back from the record, which is valid and carries the normalised location, if there is one, and no canonical category or starting bid; the only failure is a value error |
| ScrapeCommand.CollectedIsValidBatch | src/bc_auction/__main__.py:640-646 | the duplicate checks never fail on what the scrape delivers |
| ScrapeCommand.PersistOne | src/bc_auction/__main__.py:671-693 | a saved record has a row, a refused or aborting one changes nothing, the batch aborts exactly for a record that cannot be converted or whose identity belongs to another listing, with the error that belongs to it, and nothing else is refused when the run exists |
| ScrapeCommand.PersistRecords | src/bc_auction/__main__.py:649-703 | the batch leaves the tables of persisting its records in order up to the first that aborts it, and reports why, and how many it saved; without failures every record has a row |
| ScrapeCommand.StoredStopsRight | src/bc_auction/__main__.py:668-693 | a batch that was not aborted got past every record; another one stopped at the record that aborts it on the tables it left |
| ScrapeCommand.StoredKnowsAll | src/bc_auction/__main__.py:668-676 | in a batch that was not aborted every record of an existing run has its row |
| ScrapeCommand.StoredKeeps | src/bc_auction/__main__.py:668-673 | a batch keeps the store invariant, every existing item's freshness and the run rows |
| ScrapeCommand.FinishAgesRightly | src/bc_auction/__main__.py:551-558 | finishing after a batch refreshes the listed open items, ages the other open ones, and touches no item otherwise |
| ScrapeCommand.IdsAreListed | src/bc_auction/__main__.py:551-558 | with all details fetched and all pages offered, the reported source IDs are distinct and are exactly the listings on the pages |
| ScrapeCommand.RunOutcome | src/bc_auction/__main__.py:525-607 | after a successful enumeration a run fails exactly when a record aborts the batch, and else succeeds exactly when every detail page was fetched; it ages exactly when it succeeded after walking every group below the cap, and then it reports exactly the listings on all pages, each with a row, and the open items it counts absent are exactly those on no page; any other run leaves all freshness alone |
| ScrapeCommand.Scrape | src/bc_auction/__main__.py:483-607 | without a search form, or when the enumeration broke off, the tables change by a failed run alone; otherwise the enumeration is as `Enumerated` says and the tables are exactly those that `LeftBy` computes from the trace; the exit code is that of the run, the ageing facts of `RunOutcome` hold, and a store that a log of calls leads to stays one |
| ScrapeCommand.StoredIsLogged | src/bc_auction/__main__.py:668-693 | the tables of a batch, aborted or not, are those after a log with one call for each record it got past |
| ScrapeCommand.LeftByIsLogged | src/bc_auction/__main__.py:525-607 | the tables a run leaves are those after the log before it, one call for each record persisted, and one finish |
| ScrapeCommand.RunIsReachable | src/bc_auction/__main__.py:508-607 | from a store that some log of calls leads to, every run leads to one again, so what holds after every log holds of what the command leaves |
| ScrapeCommand.SaveAndFinish | src/bc_auction/__main__.py:525-559 | details, batch and finish leave exactly the tables of `LeftBy`, with the coverage counts of the collection, also when a record aborts the batch |
| ScrapeCommand.FailRun | src/bc_auction/__main__.py:775-804 | a failed run is recorded and changes no item |
| Sites.WalkShowsAllIffItCloses | src/bc_auction/__main__.py:287-322 | a finished walk over true pages shows nothing but listings, and all of them exactly when it closes |
| Sites.WalkShowsWhatItCovers | src/bc_auction/__main__.py:287-322 | whether it closes or not, the walk shows exactly the listings at the positions it covers |
| Sites.WalkIsTrue | src/bc_auction/__main__.py:240-251 | over a server that tells the truth every walk shows true pages of its own search |
| Paging.PagedWalkCloses | src/bc_auction/__main__.py:297-322 | every walk over a site that cuts its results into pages closes |
| Paging.PagedSiteIsEnumerated | src/bc_auction/__main__.py:203-322 | whatever the page size and the product groups, results of at most 100 pages to a group, below the cap and with one URL to a listing, are enumerated completely, and the first record of each listing is kept |
| Publication.AcceptedOfBatch | src/bc_auction/__main__.py:668-693 | a batch that was not aborted adds to the past of each listing just its own record |
| Publication.RunIsShown | src/bc_auction/__main__.py:525-559 | from any store that a log of calls leads to, after a run that persisted its batch the current listing has exactly one row for each of its records: it shows the record of this run, unless the store had seen the listing later or holds it closed; then it shows the last record applied before |
| Publication.CompleteRunIsShown | src/bc_auction/__main__.py:483-607 | after a complete run this holds of every listing on its pages |
| Publication.PagesAreShown | src/bc_auction/__main__.py:401-432 | after a run that persisted its batch, readers see of every search row whose detail page was fetched what the two pages say, field by field, unless the store had seen the listing later or holds it closed; a closed or withdrawn search row is shown so unless the store had seen it later |
| Keyword.DeliversIffWalksClose | src/bc_auction/__main__.py:203-271 | over any site that tells the truth, an enumeration below the cap gets everything the keyword finds exactly when every walk closes, and never anything else |
| Keyword.ListedIffCovered | src/bc_auction/__main__.py:203-271 | an item is on some page exactly when a walk covers a position at which the keyword finds it |
| Keyword.CompleteRunAgesNothingListedIff | src/bc_auction/__main__.py:483-607 | a complete run over such a site refreshes an open item exactly when a walk covers it and ages it otherwise; if every walk closes, it refreshes every open item the site lists exactly when the keyword finds all of them |
| Keyword.NoListedItemIsAgedIff | src/bc_auction/__main__.py:551-558 | if the pages show what the keyword finds, an ageing run refreshes every open item the site lists exactly when the keyword finds all of them |
| Keyword.EmptyKeywordAgesNothingListed | src/bc_auction/__main__.py:446 | a complete run with the default, empty keyword over walks that close refreshes every open item the site lists |
| Keyword.PagedRunAgesNothingListedIff | src/bc_auction/__main__.py:483-607 | a complete run over a site that cuts its results into pages refreshes every open item the site lists exactly when the keyword finds all of them |
| Keyword.SkippingRunMissesListed | src/bc_auction/__main__.py:260-271 | a concrete complete enumeration, without a keyword, of a site that tells the truth, which misses a listing |
| Keyword.KeywordRunAgesListedItem | src/bc_auction/__main__.py:513-559 | a concrete keyword run that succeeds, is complete, and counts a listed item absent |
| Client.RedirectVerb | src/bc_auction/client.py:326-332 | the method changes exactly to GET, and exactly for a method other than GET and HEAD under 302 or 303, or POST under 301 |
| Client.DoubledIsProduct | src/bc_auction/client.py:375 | doubling the base n times multiplies it by 2^n |
| Client.BackoffIsBounded | src/bc_auction/client.py:374-378 | k back-off delays never shrink and sum to at most min(5k, base 2^k - base) |
| Client.DelayIsExact | src/bc_auction/client.py:374-397 | the delay after an answer is the number of seconds of its Retry-After, never below 0, or else base 2^i, at most 5 |
| Client.RetriesAreExact | src/bc_auction/client.py:25 | a request is sent again exactly after a transport error or status 429, 502, 503 or 504 while retries remain, and not before its delay has passed |
| Client.CallBackoffIsBounded | src/bc_auction/client.py:269-304 | the same for the delays of one logical request whose retried answers carry no Retry-After |
| Client.DelaysPass | src/bc_auction/client.py:374-378 | from the first slot of a logical request to its last at least the sum of its delays passes |
| Client.SlotsSpan | src/bc_auction/client.py:405-413 | n successive request slots span at least n - 1 intervals |
| Client.WindowHoldsFew | src/bc_auction/client.py:405-413 | a window of length L holds at most floor(L / interval) + 1 slots |
| Client.EveryRequestIsCounted | src/bc_auction/client.py:276-324 | whatever the server answers, every request meets with exactly one of response, transport error and other failure, and rate-limit responses are responses |
| Client.HopsExtend | src/bc_auction/client.py:257-267 | a redirect that passes the checks keeps methods and URLs distinct, GET absorbing, and bodies tied to their method |
| Client.AuctionClient.WaitForRequestSlot | src/bc_auction/client.py:405-413 | takes one more slot, at the clock's reading at the end of the wait and at least the interval after the slot before; with a clock that neither drifts nor overruns the wait is no longer than that |
| Client.AuctionClient.AttemptOnce | src/bc_auction/client.py:276-324 | sends one request in a slot taken for it now, and leaves every counter equal to the number of the server's answers of its kind |
| Client.AuctionClient.SleepForRetry | src/bc_auction/client.py:374-378 | the delay passes that the answer calls for, and what the sleep overruns |
| Client.AuctionClient.AttemptOrSleep | src/bc_auction/client.py:276-304 | one attempt; the next one is due, its delay having passed, exactly for a retryable answer while retries remain |
| Client.AuctionClient.SendWithRetries | src/bc_auction/client.py:269-304 | sends just one request, at most max_retries + 1 times: again after every retryable answer while retries remain and after no other one, each time after the delay; earlier slots and requests stay; the result is the last answer |
| Client.AuctionClient.NextHop | src/bc_auction/client.py:248-267 | a followed redirect is within the limit, on the host, not made before, and carries a body only under its own method |
| Client.AuctionClient.HopIsFollowed | src/bc_auction/client.py:248-267 | the next hop is where the server's redirect of the last one leads |
| Client.AuctionClient.FollowOnce | src/bc_auction/client.py:233-267 | sends the requests of one hop and no other, and gives the verdict of the answer to the last of them, or the new hop on the host that its redirect leads to |
| Client.AuctionClient.FollowRedirects | src/bc_auction/client.py:233-267 | for any server everything sent is sent for at most max_redirects + 1 distinct hops on the configured host, one after the other, each tried as `SendWithRetries` says and each but the first the target of the redirect before; the result is what the answer to the last request sent says |
| Client.AuctionClient.CallIsDetermined | src/bc_auction/client.py:219-304 | the server's answers decide every request of a call, how often it is tried, every hop and the result |
| Client.AuctionClient.VerdictIsExact | src/bc_auction/client.py:233-267 | from the last answer alone: a response on the host with status 200 to 299 and an acceptable body is returned, and each other outcome is its own error |
| Client.AuctionClient.RedirectIsFollowed | src/bc_auction/client.py:248-267 | a redirect on the host, within the limit, with a target on the host that was not requested yet, is followed to that target |
| Client.AuctionClient.Request | src/bc_auction/client.py:219-267 | sends nothing for a foreign URL, else what `CallIsDetermined` decides, at most (max_redirects + 1)(max_retries + 1) requests, each in its own slot taken during the call; counters and spacing hold over any sequence of calls, and only an accepted page on the host is returned |

## Left out

- Urls.ExtractDisplayIdIsExact: how the text of a URL is split into its parts is not modelled; case folding and the search for a session ID are arbitrary functions.
- Replay.RefusedExactlyWhen: a time is an instant, so a time without a timezone cannot occur, and columns have no width; how an image URL is normalised is an arbitrary function.
- Repository.AuctionRepository.FinishScrapeRun: the count, metric and error-summary columns of a run row are not modelled; nothing else reads them.
- Keyword.CompleteRunAgesNothingListedIff: which records a keyword finds is an arbitrary function, since the site decides it, and the site does not change during a run.
- Keyword.EmptyKeywordAgesNothingListed: that the site shows every listing when the keyword is empty is assumed of the site.
- ScrapeCommand.Scrape: stop signals, database outages while finishing, and output files are not modelled.
- ScrapeCommand.FailRun: an exception raised while a failed run is recorded, which the command swallows, is not modelled.
- ScrapeCommand.ConvertReconciledRecord: location and URL normalisation are arbitrary functions.
- Collecting.Collector.CollectFromPage: the optional record limit that the command never passes is not modelled.
- Collecting.Collector.CollectGroup: the display order is not modelled; it is the same for every search of a run, and one that the form does not offer fails the run before the first search.
- Client.AuctionClient.Request: URL resolution and the scheme and host of a URL are arbitrary functions, and the checks on a body are one verdict.
- Client.AuctionClient.AttemptOnce: the duration counters, which round to milliseconds, are not modelled; the time that a request takes passes before the next reading of the clock.
- HTML parsing, character sets and pagination links: pages are data as the parser sees them.
- SHA-256, JSON serialisation and decimal formatting: hashes are injective functions and money is in cents.
- Transactions, advisory locks, concurrent writers and column widths: each repository call is one atomic step.
- Facets, run summaries, the operations state and latest-run fields: they select and count what is already modelled.
- The scheduler, the web API and its response models, the front end, migrations and deployment.
