/**
 * The URL input helpers of the client: `parseUrls` turns the text a user typed
 * into a list of URLs, `isValidUrl` accepts parseable http(s) URLs with a dotted
 * host name, and `getDomainFromUrl` extracts the host name. The WHATWG URL parser
 * (`new URL`) is a parameter: `None` stands for the constructor throwing.
 */
module UrlInput {
  import opened Wrappers
  import opened JsText
  import opened Seqs

  /** The parts of a parsed URL these helpers read. */
  datatype UrlRecord = UrlRecord(protocol: string, hostname: string)

  type UrlParser = string -> Option<UrlRecord>

  // ---------------------------------------------------------------- isValidUrl

  /** `isValidUrl(urlString)`. */
  function IsValidUrl(urlString: string, parse: UrlParser): bool {
    match parse(urlString)
    case None => false
    case Some(url) =>
      if url.protocol != "http:" && url.protocol != "https:" then false
      else
        var hostnameParts := Split(url.hostname, {'.'});
        if |hostnameParts| < 2 || !Includes(url.hostname, ".") then false
        else true
  }

  /** A URL is valid exactly when it parses, its scheme is `http:` or `https:` and
      its host name holds a dot. */
  lemma IsValidUrlIff(urlString: string, parse: UrlParser)
    ensures IsValidUrl(urlString, parse) <==>
      && parse(urlString).Some?
      && (parse(urlString).value.protocol == "http:" || parse(urlString).value.protocol == "https:")
      && '.' in parse(urlString).value.hostname
  {
    if parse(urlString).Some? {
      HostnameChecksAgree(parse(urlString).value.hostname);
    }
  }

  /** The two host-name tests agree: there are at least two dot-separated parts
      exactly when the host name includes a dot. */
  lemma HostnameChecksAgree(hostname: string)
    ensures |Split(hostname, {'.'})| >= 2 <==> '.' in hostname
    ensures Includes(hostname, ".") <==> '.' in hostname
  {
    SplitHasSeparator(hostname, {'.'});
    IncludesChar(hostname, '.');
    assert "." == ['.'];
  }

  /** Splitting yields more than one piece exactly when a separator occurs. */
  lemma {:induction false} SplitHasSeparator(s: string, seps: set<char>)
    ensures |Split(s, seps)| >= 2 <==> exists i :: 0 <= i < |s| && s[i] in seps
    decreases |s|
  {
    if s != [] {
      SplitHasSeparator(s[1..], seps);
      if exists i :: 0 <= i < |s| && s[i] in seps {
        var i :| 0 <= i < |s| && s[i] in seps;
        if i > 0 { assert s[1..][i - 1] == s[i]; }
      }
      if exists i :: 0 <= i < |s[1..]| && s[1..][i] in seps {
        var i :| 0 <= i < |s[1..]| && s[1..][i] in seps;
        assert s[i + 1] == s[1..][i];
      }
    }
  }

  /** Other schemes are refused even with a dotted host, e.g. `ftp://example.com`. */
  lemma OtherSchemeRejected(urlString: string, parse: UrlParser)
    requires parse(urlString) == Some(UrlRecord("ftp:", "example.com"))
    ensures !IsValidUrl(urlString, parse)
  {
  }

  /** A dotted host such as `example.com` under `https:` is accepted. */
  lemma DottedHttpsAccepted(urlString: string, parse: UrlParser)
    requires parse(urlString) == Some(UrlRecord("https:", "example.com"))
    ensures IsValidUrl(urlString, parse)
  {
    IsValidUrlIff(urlString, parse);
    assert "example.com"[7] == '.';
  }

  /** A host without a dot, such as `localhost`, is refused. */
  lemma UndottedHostRejected(urlString: string, parse: UrlParser)
    requires parse(urlString) == Some(UrlRecord("http:", "localhost"))
    ensures !IsValidUrl(urlString, parse)
  {
    IsValidUrlIff(urlString, parse);
  }

  /** Only one dot is asked for: a host name with an empty part, such as `example.`,
      passes. */
  lemma TrailingDotAccepted(urlString: string, parse: UrlParser)
    requires parse(urlString) == Some(UrlRecord("http:", "example."))
    ensures IsValidUrl(urlString, parse)
  {
    IsValidUrlIff(urlString, parse);
    assert "example."[7] == '.';
  }

  // ---------------------------------------------------------------- getDomainFromUrl

  /** `getDomainFromUrl(url)`. */
  function GetDomainFromUrl(url: string, parse: UrlParser): string {
    match parse(url)
    case Some(parsed) => parsed.hostname
    case None => url
  }

  /** The host name when the URL parses, the input unchanged when it does not; the
      domain of a valid URL holds a dot. */
  lemma GetDomainFromUrlMeaning(url: string, parse: UrlParser)
    ensures parse(url).None? ==> GetDomainFromUrl(url, parse) == url
    ensures parse(url).Some? ==> GetDomainFromUrl(url, parse) == parse(url).value.hostname
    ensures IsValidUrl(url, parse) ==> '.' in GetDomainFromUrl(url, parse)
  {
    IsValidUrlIff(url, parse);
  }

  // ---------------------------------------------------------------- parseUrls

  /** The characters `/[\n,]+/` splits on. */
  const Separators: set<char> := {',', '\n'}

  /** `.map(url => url.trim()).filter(url => url.length > 0)`. */
  function Tokens(pieces: seq<string>): seq<string>
  {
    FlatMap(Kept, pieces)
  }

  /** The trimmed piece, unless it is empty. */
  function Kept(piece: string): seq<string> {
    var t := Trim(piece);
    if t == "" then [] else [t]
  }

  /** The scheme prefixing of one token: the result has a scheme, and only a prefix
      was added in front of the token. */
  function WithScheme(url: string): (r: string)
    ensures StartsWith(r, "http://") || StartsWith(r, "https://")
    ensures |url| <= |r| && r[|r| - |url|..] == url
  {
    if !StartsWith(url, "http://") && !StartsWith(url, "https://") then
      var r := "https://" + url;
      assert r[..8] == "https://" && r[8..] == url;
      r
    else url
  }

  /** `urls.map(...)`: every URL gets a scheme; one that has an `http://` or
      `https://` prefix already is kept as it is, any other gets `https://`. */
  function Prefixed(urls: seq<string>): (r: seq<string>)
    ensures |r| == |urls|
    ensures forall k :: 0 <= k < |r| ==> StartsWith(r[k], "http://") || StartsWith(r[k], "https://")
    ensures forall k :: 0 <= k < |r| && (StartsWith(urls[k], "http://") || StartsWith(urls[k], "https://")) ==>
      r[k] == urls[k]
    ensures forall k :: 0 <= k < |r| && !StartsWith(urls[k], "http://") && !StartsWith(urls[k], "https://") ==>
      r[k] == "https://" + urls[k]
  {
    seq(|urls|, k requires 0 <= k < |urls| => WithScheme(urls[k]))
  }

  /** `input.split(/[\n,]+/)`: the pieces between maximal runs of separators, with
      an empty first (last) piece when the input starts (ends) with a run. */
  function SplitOnRuns(s: string, seps: set<char>): (r: seq<string>)
    ensures |r| >= 1
    decreases |s|
  {
    if s == [] then [""]
    else
      var rest := SplitOnRuns(s[1..], seps);
      if s[0] in seps then
        if |s| > 1 && s[1] in seps then rest else [""] + rest
      else [[s[0]] + rest[0]] + rest[1..]
  }

  /** `parseUrls(input)`. */
  function ParseUrls(input: string): seq<string> {
    if Trim(input) == "" then [] else Prefixed(Tokens(SplitOnRuns(input, Separators)))
  }

  /** `parseUrls` read as splitting at every single separator and without its early
      return: the extra pieces are empty and the filter drops them. */
  function Scan(input: string): seq<string> {
    Prefixed(Tokens(Split(input, Separators)))
  }

  /** Empty or white-space-only input gives no URL. */
  lemma BlankInputGivesNothing(input: string)
    requires AllWhite(input)
    ensures ParseUrls(input) == []
  {
    TrimEmptyIff(input);
  }

  /** Every URL found begins with a scheme, has no comma or line feed, and neither
      starts nor ends with white space. */
  lemma ParseUrlsShape(input: string)
    ensures forall k :: 0 <= k < |ParseUrls(input)| ==> ValidEntry(ParseUrls(input)[k])
  {
    EarlyReturnAgrees(input);
    var ts := Tokens(Split(input, Separators));
    SplitPiecesNoneOf(input, Separators);
    TokensShape(Split(input, Separators));
    forall k | 0 <= k < |ts| ensures ValidEntry(WithScheme(ts[k])) {
      WithSchemeShape(ts[k]);
    }
  }

  /** What every URL `parseUrls` returns looks like. */
  predicate ValidEntry(u: string) {
    (StartsWith(u, "http://") || StartsWith(u, "https://")) && NoneOf(u, Separators) && IsTrimmed(u)
  }

  /** A token is a nonempty trimmed piece without a separator. */
  predicate IsToken(t: string) {
    t != "" && IsTrimmed(t) && NoneOf(t, Separators)
  }

  lemma {:induction false} TokensShape(pieces: seq<string>)
    requires forall k :: 0 <= k < |pieces| ==> NoneOf(pieces[k], Separators)
    ensures forall k :: 0 <= k < |Tokens(pieces)| ==> IsToken(Tokens(pieces)[k])
  {
    if pieces != [] {
      TokensShape(pieces[1..]);
      TrimNoneOf(pieces[0], Separators);
      var head := Kept(pieces[0]);
      var r := head + Tokens(pieces[1..]);
      forall k | 0 <= k < |r| ensures IsToken(r[k]) {
        if k >= |head| { assert r[k] == Tokens(pieces[1..])[k - |head|]; }
      }
    }
  }

  lemma WithSchemeShape(t: string)
    requires IsToken(t)
    ensures ValidEntry(WithScheme(t))
  {
    if !StartsWith(t, "http://") && !StartsWith(t, "https://") {
      var u := "https://" + t;
      assert u[..8] == "https://";
      forall i | 0 <= i < |u| ensures u[i] !in Separators {
        if i >= 8 { assert u[i] == t[i - 8]; }
      }
      assert u[|u| - 1] == t[|t| - 1];
    }
  }

  /** An existing `http://` or `https://` prefix is kept and any other token gets
      `https://`, so prefixing twice is prefixing once. */
  lemma WithSchemeIdempotent(t: string)
    ensures StartsWith(t, "http://") || StartsWith(t, "https://") ==> WithScheme(t) == t
    ensures !StartsWith(t, "http://") && !StartsWith(t, "https://") ==> WithScheme(t) == "https://" + t
    ensures WithScheme(WithScheme(t)) == WithScheme(t)
  {
    var u := "https://" + t;
    assert u[..8] == "https://";
  }

  /** `example.com` becomes `https://example.com`. */
  lemma BareHostGetsHttps()
    ensures WithScheme("example.com") == "https://example.com"
  {
    assert !StartsWith("example.com", "http://") by { assert "example.com"[0] != 'h'; }
    assert !StartsWith("example.com", "https://") by { assert "example.com"[0] != 'h'; }
  }

  /** Neither the early return nor the collapsing of separator runs changes the
      result: blank input yields only blank pieces, adjacent separators only empty
      ones, and the filter drops them all. */
  lemma EarlyReturnAgrees(input: string)
    ensures ParseUrls(input) == Scan(input)
  {
    RunsAgree(input, Separators);
    if Trim(input) == "" {
      TrimEmptyIff(input);
      SplitPiecesAllWhite(input, Separators);
      BlankTokens(Split(input, Separators));
    }
  }

  /** Splitting on runs and splitting at each separator agree on the first piece
      and, once empty pieces are dropped, on the rest. */
  lemma {:induction false} RunsAgree(s: string, seps: set<char>)
    ensures SplitOnRuns(s, seps)[0] == Split(s, seps)[0]
    ensures Tokens(SplitOnRuns(s, seps)) == Tokens(Split(s, seps))
    decreases |s|
  {
    if s != [] {
      RunsAgree(s[1..], seps);
      var r, q := SplitOnRuns(s[1..], seps), Split(s[1..], seps);
      if s[0] in seps {
        if |s| > 1 && s[1] in seps {
          assert q[0] == "";
          RunsMergeAtSeparator(r, q);
        } else {
          RunsSplitAtSeparator(r, q);
        }
      } else {
        RunsExtendFirst(s[0], r, q);
      }
    }
  }

  lemma KeptEmpty()
    ensures Kept("") == []
  {
    assert Trim("") == "";
  }

  lemma TokensCons(pieces: seq<string>)
    requires pieces != []
    ensures Tokens(pieces) == Kept(pieces[0]) + Tokens(pieces[1..])
  {
  }

  /** A separator right before another one adds no piece to the run split, where the
      single split adds an empty one. */
  lemma RunsMergeAtSeparator(r: seq<string>, q: seq<string>)
    requires r != [] && q != [] && r[0] == q[0] == "" && Tokens(r) == Tokens(q)
    ensures r[0] == ([""] + q)[0] && Tokens(r) == Tokens([""] + q)
  {
    KeptEmpty();
    TokensCons([""] + q);
    assert ([""] + q)[1..] == q;
  }

  lemma RunsSplitAtSeparator(r: seq<string>, q: seq<string>)
    requires Tokens(r) == Tokens(q)
    ensures Tokens([""] + r) == Tokens([""] + q)
  {
    KeptEmpty();
    TokensCons([""] + r);
    TokensCons([""] + q);
    assert ([""] + r)[1..] == r && ([""] + q)[1..] == q;
  }

  lemma RunsExtendFirst(c: char, r: seq<string>, q: seq<string>)
    requires r != [] && q != [] && r[0] == q[0] && Tokens(r) == Tokens(q)
    ensures Tokens([[c] + r[0]] + r[1..]) == Tokens([[c] + q[0]] + q[1..])
  {
    var r', q' := [[c] + r[0]] + r[1..], [[c] + q[0]] + q[1..];
    TokensCons(r);
    TokensCons(q);
    var k := Kept(r[0]);
    CancelPrefix(k, Tokens(r[1..]), Tokens(q[1..]));
    TokensCons(r');
    TokensCons(q');
    assert r'[1..] == r[1..] && q'[1..] == q[1..];
  }

  lemma CancelPrefix(x: seq<string>, y: seq<string>, z: seq<string>)
    requires x + y == x + z
    ensures y == z
  {
    assert y == (x + y)[|x|..];
    assert z == (x + z)[|x|..];
  }

  lemma {:induction false} SplitPiecesAllWhite(s: string, seps: set<char>)
    requires AllWhite(s)
    ensures forall k :: 0 <= k < |Split(s, seps)| ==> AllWhite(Split(s, seps)[k])
    decreases |s|
  {
    if s != [] {
      assert AllWhite(s[1..]) by {
        forall i | 0 <= i < |s[1..]| ensures IsWhite(s[1..][i]) { assert s[1..][i] == s[i + 1]; }
      }
      SplitPiecesAllWhite(s[1..], seps);
      var rest := Split(s[1..], seps);
      if s[0] !in seps {
        var first := [s[0]] + rest[0];
        assert AllWhite(first) by {
          forall i | 0 <= i < |first| ensures IsWhite(first[i]) {
            if i > 0 { assert first[i] == rest[0][i - 1]; }
          }
        }
      }
    }
  }

  lemma BlankTokens(pieces: seq<string>)
    requires forall k :: 0 <= k < |pieces| ==> AllWhite(pieces[k])
    ensures Tokens(pieces) == []
  {
    forall k | 0 <= k < |pieces| ensures Kept(pieces[k]) == [] {
      TrimEmptyIff(pieces[k]);
    }
    FlatMapNothing(Kept, pieces);
  }

  /** Text before and after a separator is parsed independently and the results are
      concatenated, in input order. */
  lemma ParseUrlsAtSeparator(a: string, c: char, b: string)
    requires c in Separators
    ensures ParseUrls(a + [c] + b) == ParseUrls(a) + ParseUrls(b)
  {
    EarlyReturnAgrees(a + [c] + b);
    EarlyReturnAgrees(a);
    EarlyReturnAgrees(b);
    ScanAtSeparator(a, c, b);
  }

  lemma ScanAtSeparator(a: string, c: char, b: string)
    requires c in Separators
    ensures Scan(a + [c] + b) == Scan(a) + Scan(b)
  {
    SplitAtSeparator(a, c, b, Separators);
    FlatMapAppend(Kept, Split(a, Separators), Split(b, Separators));
    PrefixedAppend(Tokens(Split(a, Separators)), Tokens(Split(b, Separators)));
  }

  lemma PrefixedAppend(a: seq<string>, b: seq<string>)
    ensures Prefixed(a + b) == Prefixed(a) + Prefixed(b)
  {
  }

  lemma TokensOfTokens(ts: seq<string>)
    requires forall k :: 0 <= k < |ts| ==> IsToken(ts[k])
    ensures Tokens(ts) == ts
  {
    forall k | 0 <= k < |ts| ensures Kept(ts[k]) == [ts[k]] {
      TrimOfTrimmed(ts[k]);
    }
    FlatMapSingletons(Kept, ts);
  }

  /** Tokens joined by a separator are read back, in order, each with its scheme. */
  lemma ParseUrlsOfJoin(ts: seq<string>, sep: char)
    requires sep in Separators
    requires forall k :: 0 <= k < |ts| ==> IsToken(ts[k])
    ensures ParseUrls(Join(ts, sep)) == Prefixed(ts)
  {
    if ts == [] {
      assert Trim("") == "";
    } else {
      EarlyReturnAgrees(Join(ts, sep));
      SplitJoin(ts, sep, Separators);
      TokensOfTokens(ts);
    }
  }

  /** A bare host typed alone is read as one `https://` URL. */
  lemma BareHostParsed()
    ensures ParseUrls("example.com") == ["https://example.com"]
  {
    var t := "example.com";
    assert IsToken(t) by {
      assert forall i :: 0 <= i < |t| ==> t[i] != ',' && t[i] != '\n';
    }
    assert Join([t], ',') == t;
    ParseUrlsOfJoin([t], ',');
    BareHostGetsHttps();
  }

  /** Parsing the URLs joined back with commas gives the same URLs. */
  lemma ParseUrlsIdempotent(input: string)
    ensures ParseUrls(Join(ParseUrls(input), ',')) == ParseUrls(input)
  {
    var us := ParseUrls(input);
    ParseUrlsShape(input);
    forall k | 0 <= k < |us| ensures IsToken(us[k]) {
      assert ValidEntry(us[k]);
      assert us[k] != "" by { assert |us[k]| >= 7; }
    }
    ParseUrlsOfJoin(us, ',');
    forall k | 0 <= k < |us| ensures WithScheme(us[k]) == us[k] {
      WithSchemeIdempotent(us[k]);
    }
  }
}
