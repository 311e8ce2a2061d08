/** Item URLs: percent-encoding, as `urlencode` writes and `parse_qsl` reads it, and the canonical form. */
module Urls {
  import opened Wrappers
  import opened Records

  type Byte = b: nat | b < 256

  // ---------------------------------------------------------------- UTF-8

  /** The UTF-8 encoding of a character (section 3 of RFC 3629). */
  function Utf8(c: char): (bytes: seq<Byte>)
    ensures |bytes| > 0
  {
    var n := c as int;
    if n < 0x80 then [n]
    else if n < 0x800 then [0xC0 + n / 64, 0x80 + n % 64]
    else if n < 0x10000 then [0xE0 + n / 64 / 64, 0x80 + n / 64 % 64, 0x80 + n % 64]
    else [0xF0 + n / 64 / 64 / 64, 0x80 + n / 64 / 64 % 64, 0x80 + n / 64 % 64, 0x80 + n % 64]
  }

  /** A lead byte that tells the length, and continuation bytes. */
  lemma Utf8IsExact(c: char)
    ensures var n, bytes := c as int, Utf8(c);
            && (n < 0x80 ==> bytes == [n])
            && (0x80 <= n < 0x800 ==> |bytes| == 2 && 0xC2 <= bytes[0] < 0xE0)
            && (0x800 <= n < 0x10000 ==> |bytes| == 3 && 0xE0 <= bytes[0] < 0xF0)
            && (0x10000 <= n ==> |bytes| == 4 && 0xF0 <= bytes[0] < 0xF8)
            && forall i | 1 <= i < |bytes| :: 0x80 <= bytes[i] < 0xC0
  {
  }

  function Encoded(s: string): seq<Byte> {
    if s == "" then [] else Utf8(s[0]) + Encoded(s[1..])
  }

  /** How many bytes a character takes that begins with this one. */
  function Width(lead: Byte): nat {
    if lead < 0x80 then 1 else if lead < 0xE0 then 2 else if lead < 0xF0 then 3 else 4
  }

  /** Six more bits, from a continuation byte. */
  function Joined(high: int, b: Byte): int {
    high * 64 + (b as int - 0x80)
  }

  function CodePoint(bytes: seq<Byte>): int
    requires bytes != [] && |bytes| >= Width(bytes[0])
  {
    var b, width := bytes[0] as int, Width(bytes[0]);
    if width == 1 then b
    else if width == 2 then Joined(b - 0xC0, bytes[1])
    else if width == 3 then Joined(Joined(b - 0xE0, bytes[1]), bytes[2])
    else Joined(Joined(Joined(b - 0xF0, bytes[1]), bytes[2]), bytes[3])
  }

  function Decoded(bytes: seq<Byte>): Option<string> {
    if bytes == [] then Some("")
    else if |bytes| < Width(bytes[0]) then None
    else
      var n, rest := CodePoint(bytes), Decoded(bytes[Width(bytes[0])..]);
      if rest.None? || !(0 <= n < 0xD800 || 0xE000 <= n < 0x11_0000) then None else Some([n as char] + rest.value)
  }

  lemma FirstCharacter(c: char, rest: seq<Byte>)
    ensures var bytes := Utf8(c) + rest;
            && |bytes| >= Width(bytes[0]) == |Utf8(c)|
            && CodePoint(bytes) == c as int
            && bytes[Width(bytes[0])..] == rest
  {
    var n := c as int;
    assert n / 64 * 64 + n % 64 == n;
    assert n / 64 / 64 * 64 + n / 64 % 64 == n / 64;
    assert n / 64 / 64 / 64 * 64 + n / 64 / 64 % 64 == n / 64 / 64;
  }

  lemma {:induction false} DecodedEncoded(s: string)
    ensures Decoded(Encoded(s)) == Some(s)
  {
    if s == "" {
    } else {
      DecodedEncoded(s[1..]);
      FirstCharacter(s[0], Encoded(s[1..]));
      assert [s[0]] + s[1..] == s;
    }
  }

  // ---------------------------------------------------------------- percent-encoding

  /** The unreserved characters of section 2.3 of RFC 3986. */
  predicate Unreserved(c: char) {
    'a' <= c <= 'z' || 'A' <= c <= 'Z' || '0' <= c <= '9' || c == '_' || c == '.' || c == '-' || c == '~'
  }

  function Hex(n: nat): char
    requires n < 16
  {
    if n < 10 then (n + 48) as char else (n + 55) as char
  }

  function HexValue(c: char): Option<nat> {
    if '0' <= c <= '9' then Some(c as int - 48) else if 'A' <= c <= 'F' then Some(c as int - 55) else None
  }

  function QuotedByte(b: Byte): (q: string)
    ensures |q| > 0
  {
    if b < 128 && Unreserved(b as char) then [b as char]
    else if b == 32 then "+"
    else ['%', Hex(b / 16), Hex(b % 16)]
  }

  const HEX_DIGITS: string := "0123456789ABCDEF"

  /** Letters, digits and four marks stand for themselves, a space becomes a plus sign, and every other byte a
      percent sign and two digits. */
  lemma QuotedByteIsExact(b: Byte)
    ensures var plain := 'a' as int <= b <= 'z' as int || 'A' as int <= b <= 'Z' as int || '0' as int <= b <= '9' as int
                         || b == '_' as int || b == '.' as int || b == '-' as int || b == '~' as int;
            QuotedByte(b) == if plain then [b as char]
                             else if b == ' ' as int then "+"
                             else ['%', HEX_DIGITS[b / 16], HEX_DIGITS[b % 16]]
  {
  }

  function Quoted(bytes: seq<Byte>): string {
    if bytes == [] then "" else QuotedByte(bytes[0]) + Quoted(bytes[1..])
  }

  function Unquoted(q: string): Option<seq<Byte>> {
    if q == "" then Some([])
    else if q[0] == '%' then
      if |q| < 3 || HexValue(q[1]).None? || HexValue(q[2]).None? then None else
      var rest := Unquoted(q[3..]);
      if rest.None? then None else Some([HexValue(q[1]).value * 16 + HexValue(q[2]).value] + rest.value)
    else
      var rest := Unquoted(q[1..]);
      if rest.None? || q[0] as int >= 128 then None
      else Some([if q[0] == '+' then 32 else q[0] as int] + rest.value)
  }

  lemma {:induction false} UnquotedQuoted(bytes: seq<Byte>)
    ensures Unquoted(Quoted(bytes)) == Some(bytes)
  {
    if bytes == [] {
    } else {
      var q, rest := QuotedByte(bytes[0]), Quoted(bytes[1..]);
      UnquotedQuoted(bytes[1..]);
      assert (q + rest)[|q|..] == rest;
      assert [bytes[0]] + bytes[1..] == bytes;
    }
  }

  // ---------------------------------------------------------------- both together

  function QuotedText(s: string): string {
    Quoted(Encoded(s))
  }

  function UnquotedText(q: string): Option<string> {
    var bytes := Unquoted(q);
    if bytes.None? then None else Decoded(bytes.value)
  }

  /** Reading a value back gives the value that was written. */
  lemma TextRoundTrips(s: string)
    ensures UnquotedText(QuotedText(s)) == Some(s)
  {
    UnquotedQuoted(Encoded(s));
    DecodedEncoded(s);
  }

  /** A text of letters, digits and the four marks is quoted as itself. */
  lemma {:induction false} PlainTextIsQuotedAsItself(s: string)
    requires forall c | c in s ::
               'a' <= c <= 'z' || 'A' <= c <= 'Z' || '0' <= c <= '9' || c == '_' || c == '.' || c == '-' || c == '~'
    ensures QuotedText(s) == s
  {
    if s == "" {
    } else {
      var c, rest := s[0], s[1..];
      assert c in s && forall d | d in rest :: d in s;
      PlainTextIsQuotedAsItself(rest);
      assert Utf8(c) == [c as int];
      assert Encoded(s) == [c as int] + Encoded(rest);
      assert Encoded(s)[1..] == Encoded(rest);
      assert s == [c] + rest;
    }
  }

  // ---------------------------------------------------------------- item URLs

  /** The canonical URL of an item. The records of the model hold the display ID as it is quoted there. */
  function SourceUrl(displayId: string): string {
    CanonicalUrl(QuotedText(displayId))
  }

  lemma SourceUrlIsInjective(a: string, b: string)
    ensures SourceUrl(a) == SourceUrl(b) <==> a == b
  {
    CanonicalUrlIsInjective(QuotedText(a), QuotedText(b));
    TextRoundTrips(a);
    TextRoundTrips(b);
  }

  /** The display ID in a canonical URL, as it is quoted there. */
  function ExtractQuoted(url: string): Option<string> {
    if |url| > |ITEM_URL| && ITEM_URL <= url then Some(url[|ITEM_URL|..]) else None
  }

  /** A URL split into its parts; the query pairs are decoded. */
  datatype SplitUrl = SplitUrl(
    scheme: string,
    host: string,
    path: string,
    credentials: bool,
    query: seq<(string, string)>)

  /** Case folding, and whether a text embeds a session ID, however it is encoded. */
  datatype Rules = Rules(fold: string -> string, marked: string -> bool)

  const ITEM_QUERY_NAMES: set<string> := {"disID", "dis_version_nos", "docType", "docTypeQual", "doc_search_by"}

  /** The query without its session parameters. */
  function Public(rules: Rules, query: seq<(string, string)>): seq<(string, string)> {
    if query == [] then []
    else (if rules.fold(query[0].0) == "sessionid" then [] else [query[0]]) + Public(rules, query[1..])
  }

  function DisplayIds(query: seq<(string, string)>): seq<string> {
    if query == [] then [] else (if query[0].0 == "disID" then [query[0].1] else []) + DisplayIds(query[1..])
  }

  /** The checks of an item URL other than those on the display ID. */
  predicate NamesAnItem(rules: Rules, u: SplitUrl) {
    && !u.credentials && !rules.marked(u.host) && !rules.marked(u.path)
    && (forall p | p in Public(rules, u.query) :: !rules.marked(p.0) && !rules.marked(p.1) && p.0 in ITEM_QUERY_NAMES)
    && rules.fold(u.scheme) == "https" && rules.fold(u.host) == "www.bcauction.ca"
    && rules.fold(u.path) == "/open.dll/showdisplaydocument"
  }

  function Canonicalize(rules: Rules, u: SplitUrl): Option<string> {
    var ids := DisplayIds(Public(rules, u.query));
    if !NamesAnItem(rules, u) || |ids| != 1 || ids[0] == "" then None else Some(SourceUrl(ids[0]))
  }

  /** Canonicalises, then reads the display ID back. */
  function ExtractDisplayId(rules: Rules, u: SplitUrl): Option<string> {
    var url := Canonicalize(rules, u);
    if url.None? then None else
    var quoted := ExtractQuoted(url.value);
    if quoted.None? then None else UnquotedText(quoted.value)
  }

  /** Whatever the spelling, the ID extracted is the only one the query gives, and it decides the canonical URL. */
  lemma ExtractDisplayIdIsExact(rules: Rules, u: SplitUrl, displayId: string)
    ensures Canonicalize(rules, u) == Some(SourceUrl(displayId))
            <==> NamesAnItem(rules, u) && displayId != "" && DisplayIds(Public(rules, u.query)) == [displayId]
    ensures ExtractDisplayId(rules, u) == Some(displayId) <==> Canonicalize(rules, u) == Some(SourceUrl(displayId))
  {
    var ids := DisplayIds(Public(rules, u.query));
    if Canonicalize(rules, u).Some? {
      SourceUrlIsInjective(ids[0], displayId);
      TextRoundTrips(ids[0]);
      assert SourceUrl(ids[0])[|ITEM_URL|..] == QuotedText(ids[0]);
      assert QuotedText(ids[0]) != "";
    }
  }

  /** Pair `i` of the query is a display ID and not a session parameter. */
  predicate GivesDisplayId(rules: Rules, query: seq<(string, string)>, i: nat)
    requires i < |query|
  {
    rules.fold(query[i].0) != "sessionid" && query[i].0 == "disID"
  }

  lemma {:induction false} PublicPairs(rules: Rules, query: seq<(string, string)>)
    ensures forall p :: p in Public(rules, query) <==> p in query && rules.fold(p.0) != "sessionid"
  {
    if query == [] {
    } else {
      PublicPairs(rules, query[1..]);
      assert query == [query[0]] + query[1..];
    }
  }

  lemma FirstPair(rules: Rules, query: seq<(string, string)>)
    requires query != []
    ensures DisplayIds(Public(rules, query)) ==
              (if GivesDisplayId(rules, query, 0) then [query[0].1] else []) + DisplayIds(Public(rules, query[1..]))
  {
    var rest := Public(rules, query[1..]);
    if rules.fold(query[0].0) == "sessionid" {
      assert Public(rules, query) == rest;
    } else {
      assert Public(rules, query) == [query[0]] + rest && ([query[0]] + rest)[1..] == rest;
    }
  }

  lemma {:induction false} NoDisplayId(rules: Rules, query: seq<(string, string)>)
    ensures DisplayIds(Public(rules, query)) == [] <==> forall i: nat | i < |query| :: !GivesDisplayId(rules, query, i)
  {
    if query == [] {
    } else {
      NoDisplayId(rules, query[1..]);
      FirstPair(rules, query);
      assert query == [query[0]] + query[1..];
      forall i: nat | i < |query| - 1
        ensures GivesDisplayId(rules, query, i + 1) == GivesDisplayId(rules, query[1..], i)
      {
      }
      assert (forall i: nat | i < |query| :: !GivesDisplayId(rules, query, i)) <==>
               !GivesDisplayId(rules, query, 0)
               && forall i: nat | i < |query[1..]| :: !GivesDisplayId(rules, query[1..], i) by {
        forall i: nat | 0 < i < |query|
          ensures GivesDisplayId(rules, query, i) == GivesDisplayId(rules, query[1..], i - 1)
        {
        }
      }
    }
  }

  /** Pair `i` gives this display ID, and no other pair gives one. */
  ghost predicate OnlyDisplayId(rules: Rules, query: seq<(string, string)>, i: nat, displayId: string) {
    && i < |query| && GivesDisplayId(rules, query, i) && query[i].1 == displayId
    && forall j: nat | j < |query| && j != i :: !GivesDisplayId(rules, query, j)
  }

  lemma FirstIsOnly(rules: Rules, query: seq<(string, string)>, displayId: string)
    requires query != [] && GivesDisplayId(rules, query, 0)
    ensures (exists i: nat :: OnlyDisplayId(rules, query, i, displayId)) <==>
              && query[0].1 == displayId
              && forall j: nat | j < |query[1..]| :: !GivesDisplayId(rules, query[1..], j)
  {
    var rest := query[1..];
    forall j: nat | j < |rest| ensures GivesDisplayId(rules, query, j + 1) == GivesDisplayId(rules, rest, j) {
    }
    if i: nat :| OnlyDisplayId(rules, query, i, displayId) {
      assert i == 0;
    }
    if query[0].1 == displayId && forall j: nat | j < |rest| :: !GivesDisplayId(rules, rest, j) {
      forall j: nat | j < |query| && j != 0 ensures !GivesDisplayId(rules, query, j) {
        assert !GivesDisplayId(rules, rest, j - 1);
      }
      assert OnlyDisplayId(rules, query, 0, displayId);
    }
  }

  lemma LaterIsOnly(rules: Rules, query: seq<(string, string)>, displayId: string)
    requires query != [] && !GivesDisplayId(rules, query, 0)
    ensures (exists i: nat :: OnlyDisplayId(rules, query, i, displayId)) <==>
              exists i: nat :: OnlyDisplayId(rules, query[1..], i, displayId)
  {
    var rest := query[1..];
    forall j: nat | j < |rest| ensures GivesDisplayId(rules, query, j + 1) == GivesDisplayId(rules, rest, j) {
    }
    if i: nat :| OnlyDisplayId(rules, query, i, displayId) {
      assert OnlyDisplayId(rules, rest, i - 1, displayId);
    }
    if i: nat :| OnlyDisplayId(rules, rest, i, displayId) {
      forall j: nat | j < |query| && j != i + 1 ensures !GivesDisplayId(rules, query, j) {
        assert j > 0 ==> !GivesDisplayId(rules, rest, j - 1);
      }
      assert OnlyDisplayId(rules, query, i + 1, displayId);
    }
  }

  lemma {:induction false} OneDisplayId(rules: Rules, query: seq<(string, string)>, displayId: string)
    ensures DisplayIds(Public(rules, query)) == [displayId]
            <==> exists i: nat :: OnlyDisplayId(rules, query, i, displayId)
  {
    if query == [] {
    } else {
      var rest := query[1..];
      OneDisplayId(rules, rest, displayId);
      NoDisplayId(rules, rest);
      FirstPair(rules, query);
      if GivesDisplayId(rules, query, 0) {
        var ids := DisplayIds(Public(rules, rest));
        assert [query[0].1] + ids == [displayId] <==> query[0].1 == displayId && ids == [] by {
          assert |[query[0].1] + ids| == 1 + |ids| && ([query[0].1] + ids)[0] == query[0].1;
        }
        FirstIsOnly(rules, query, displayId);
      } else {
        LaterIsOnly(rules, query, displayId);
      }
    }
  }

  /** No credentials; no session ID in host, path or query, apart from session parameters, which are dropped; the
      auction's host and document path under HTTPS; and no unexpected parameter. */
  predicate LooksLikeAnItem(rules: Rules, u: SplitUrl) {
    && !u.credentials && !rules.marked(u.host) && !rules.marked(u.path)
    && rules.fold(u.scheme) == "https" && rules.fold(u.host) == "www.bcauction.ca"
    && rules.fold(u.path) == "/open.dll/showdisplaydocument"
    && forall p | p in u.query && rules.fold(p.0) != "sessionid" ::
         && !rules.marked(p.0) && !rules.marked(p.1)
         && (p.0 == "disID" || p.0 == "dis_version_nos" || p.0 == "docType" || p.0 == "docTypeQual"
             || p.0 == "doc_search_by")
  }

  lemma ItemChecksAreExact(rules: Rules, u: SplitUrl)
    ensures NamesAnItem(rules, u) <==> LooksLikeAnItem(rules, u)
  {
    PublicPairs(rules, u.query);
  }

  /** Which URLs have a canonical form: those that look like an item and give one display ID, which is not empty. */
  lemma ItemUrlIsExact(rules: Rules, u: SplitUrl, displayId: string)
    ensures Canonicalize(rules, u) == Some(SourceUrl(displayId)) <==>
              && LooksLikeAnItem(rules, u)
              && displayId != "" && exists i: nat :: OnlyDisplayId(rules, u.query, i, displayId)
  {
    ExtractDisplayIdIsExact(rules, u, displayId);
    OneDisplayId(rules, u.query, displayId);
    ItemChecksAreExact(rules, u);
  }

  /** One canonical URL, written out. */
  lemma CanonicalUrlReads()
    ensures SourceUrl("A-1") == "https://www.bcauction.ca/open.dll/showDisplayDocument?disID=A-1"
  {
    PlainTextIsQuotedAsItself("A-1");
  }

  /** The canonical URL of a display ID, split. */
  function CanonicalSplit(displayId: string): SplitUrl {
    SplitUrl("https", "www.bcauction.ca", "/open.dll/showDisplayDocument", false, [("disID", displayId)])
  }

  /** What is assumed of case folding on the texts of a canonical URL, and that they embed no session. */
  predicate KeepsCanonicalTexts(rules: Rules) {
    && rules.fold("https") == "https" && rules.fold("www.bcauction.ca") == "www.bcauction.ca"
    && rules.fold("/open.dll/showDisplayDocument") == "/open.dll/showdisplaydocument"
    && rules.fold("disID") == "disid"
    && !rules.marked("www.bcauction.ca") && !rules.marked("/open.dll/showDisplayDocument") && !rules.marked("disID")
  }

  lemma {:induction false} DisplayIdIsUnmarked(rules: Rules, query: seq<(string, string)>, displayId: string)
    requires displayId in DisplayIds(query)
    ensures ("disID", displayId) in query
  {
    if query[0].0 == "disID" && query[0].1 == displayId {
    } else {
      DisplayIdIsUnmarked(rules, query[1..], displayId);
    }
  }

  lemma CanonicalQuery(rules: Rules, displayId: string)
    requires KeepsCanonicalTexts(rules)
    ensures var query := [("disID", displayId)]; Public(rules, query) == query && DisplayIds(query) == [displayId]
  {
    var query := [("disID", displayId)];
    assert "disid"[0] != "sessionid"[0];
    assert query[1..] == [];
  }

  /** A canonical URL is its own canonical form. */
  lemma CanonicalizeIsIdempotent(rules: Rules, u: SplitUrl, displayId: string)
    requires KeepsCanonicalTexts(rules) && Canonicalize(rules, u) == Some(SourceUrl(displayId))
    ensures Canonicalize(rules, CanonicalSplit(displayId)) == Some(SourceUrl(displayId))
  {
    ExtractDisplayIdIsExact(rules, u, displayId);
    DisplayIdIsUnmarked(rules, Public(rules, u.query), displayId);
    CanonicalQuery(rules, displayId);
  }
}
