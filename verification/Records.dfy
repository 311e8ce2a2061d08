/** The parser-independent record the repository accepts, and the hashes taken of it. */
module Records {
  import opened Wrappers

  /** An instant, in microseconds of UTC. */
  type Time = int

  datatype Status = Open | Closed | Withdrawn | Unknown

  predicate Terminal(status: Status) {
    status.Closed? || status.Withdrawn?
  }

  datatype LocationStatus = Exact | Alias | Unrecognised

  /** The fields of an observation hash; money is in cents. */
  datatype Snapshot = Snapshot(
    currentBid: Option<nat>,
    minimumBid: Option<nat>,
    startingBid: Option<nat>,
    bidCount: Option<nat>,
    closingAt: Option<Time>,
    status: Status)

  /** The fields of a metadata hash. */
  datatype Metadata = Metadata(
    title: string,
    description: Option<string>,
    categoryRaw: Option<string>,
    categoryCanonical: Option<string>,
    locationRaw: Option<string>,
    locationCanonical: Option<string>,
    locationQualifier: Option<string>,
    locationStatus: Option<LocationStatus>,
    pickupDetails: Option<string>,
    imageUrls: seq<string>)

  datatype Record = Record(
    sourceId: string,
    disId: string,
    url: string,
    metadata: Metadata,
    snapshot: Snapshot,
    statusRaw: Option<string>,
    observedAt: Time)

  /** The digests of the two field groups, the normalised key of a raw location, and the normalised form
      of a URL, unless it embeds credentials or a session. A digest is a 64-digit hexadecimal string in the
      source; as a number it has the same order. */
  datatype Keying = Keying(
    metadataHash: Metadata -> nat,
    observationHash: Snapshot -> nat,
    aliasKey: string -> string,
    publicUrl: string -> Option<string>)
  {
    /** What is assumed of SHA-256: distinct field values have distinct digests. */
    ghost predicate Injective() {
      && (forall a, b {:trigger metadataHash(a), metadataHash(b)} ::
            metadataHash(a) == metadataHash(b) ==> a == b)
      && (forall a, b {:trigger observationHash(a), observationHash(b)} ::
            observationHash(a) == observationHash(b) ==> a == b)
    }
  }

  const ITEM_URL: string := "https://www.bcauction.ca/open.dll/showDisplayDocument?disID="

  /** The one canonical URL of a display ID, which is written as it is quoted in a query. */
  function CanonicalUrl(disId: string): string {
    ITEM_URL + disId
  }

  lemma CanonicalUrlIsInjective(a: string, b: string)
    ensures CanonicalUrl(a) == CanonicalUrl(b) <==> a == b
  {
    assert CanonicalUrl(a)[|ITEM_URL|..] == a;
    assert CanonicalUrl(b)[|ITEM_URL|..] == b;
  }

  /** The checks of the record model that depend on values rather than on types. */
  predicate ValidRecord(k: Keying, r: Record) {
    && r.sourceId != ""
    && r.disId != ""
    && r.metadata.title != ""
    && r.url == CanonicalUrl(r.disId)
    && forall image | image in r.metadata.imageUrls :: k.publicUrl(image) == Some(image)
  }
}
