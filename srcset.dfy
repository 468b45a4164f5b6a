/** `parseSrcSet`: the candidate URLs of an `<img srcset="...">` attribute. */
module SrcSet {
  import opened JsText

  /** `t.split(/\s+/)[0]`: the part of `t` before its first white space. */
  function FirstToken(t: string): (r: string)
    ensures r <= t && NoWhite(r)
    ensures |r| == |t| || IsWhite(t[|r|])
  {
    if t != [] && !IsWhite(t[0]) then [t[0]] + FirstToken(t[1..]) else []
  }

  /** The URL of one comma-separated entry: its first token once trimmed. */
  function EntryUrl(entry: string): string {
    FirstToken(Trim(entry))
  }

  /** `.map(set => set.trim().split(/\s+/)[0]).filter(Boolean)` over the entries. */
  function EntryUrls(entries: seq<string>): (r: seq<string>)
    ensures |r| <= |entries|
  {
    if entries == [] then []
    else
      var u := EntryUrl(entries[0]);
      (if u == "" then [] else [u]) + EntryUrls(entries[1..])
  }

  /** `parseSrcSet(srcset)`: split on commas, keep the first token of each entry, drop the empty ones. */
  function ParseSrcSet(srcset: string): (urls: seq<string>)
  {
    EntryUrls(Split(srcset, {','}))
  }

  /** No URL `parseSrcSet` returns is empty or holds white space or a comma. */
  lemma ParseSrcSetUrlsAreTokens(srcset: string)
    ensures forall k :: 0 <= k < |ParseSrcSet(srcset)| ==> IsToken(ParseSrcSet(srcset)[k], {','})
  {
    SplitPiecesNoneOf(srcset, {','});
    EntryUrlsAreTokens(Split(srcset, {','}), {','});
  }

  /** Each URL kept from the entries is a nonempty token free of the characters `cs`
      when the entries are. */
  lemma {:induction false} EntryUrlsAreTokens(entries: seq<string>, cs: set<char>)
    requires forall k :: 0 <= k < |entries| ==> NoneOf(entries[k], cs)
    ensures forall k :: 0 <= k < |EntryUrls(entries)| ==> IsToken(EntryUrls(entries)[k], cs)
  {
    if entries != [] {
      EntryUrlsAreTokens(entries[1..], cs);
      EntryUrlIsToken(entries[0], cs);
      var u := EntryUrl(entries[0]);
      TokensAppend(if u == "" then [] else [u], EntryUrls(entries[1..]), cs);
    }
  }

  /** A nonempty string without white space or any of `cs`. */
  predicate IsToken(u: string, cs: set<char>) {
    u != "" && NoWhite(u) && NoneOf(u, cs)
  }

  lemma EntryUrlIsToken(e: string, cs: set<char>)
    requires NoneOf(e, cs)
    ensures EntryUrl(e) == "" || IsToken(EntryUrl(e), cs)
  {
    TrimNoneOf(e, cs);
    var t := Trim(e);
    var u := FirstToken(t);
    forall i | 0 <= i < |u| ensures u[i] !in cs { assert u[i] == t[i]; }
  }

  lemma TokensAppend(a: seq<string>, b: seq<string>, cs: set<char>)
    requires forall k :: 0 <= k < |a| ==> IsToken(a[k], cs)
    requires forall k :: 0 <= k < |b| ==> IsToken(b[k], cs)
    ensures forall k :: 0 <= k < |a + b| ==> IsToken((a + b)[k], cs)
  {
    forall k | 0 <= k < |a + b| ensures IsToken((a + b)[k], cs) {
      if k >= |a| { assert (a + b)[k] == b[k - |a|]; }
    }
  }

  // ---------------------------------------------------------------- the attribute's shape

  /** One entry of a well-formed `srcset`, e.g. `" b.jpg 2x"`: white space, the URL,
      then nothing or a descriptor that starts with white space. */
  datatype Entry = Entry(lead: string, url: string, descriptor: string)

  predicate WellFormed(e: Entry) {
    && AllWhite(e.lead)
    && e.url != "" && NoWhite(e.url) && NoneOf(e.url, {','})
    && NoneOf(e.descriptor, {','}) && (e.descriptor == [] || IsWhite(e.descriptor[0]))
  }

  function EntryText(e: Entry): string {
    e.lead + e.url + e.descriptor
  }

  function Texts(es: seq<Entry>): (r: seq<string>)
    ensures |r| == |es| && forall k :: 0 <= k < |es| ==> r[k] == EntryText(es[k])
  {
    if es == [] then [] else [EntryText(es[0])] + Texts(es[1..])
  }

  function Urls(es: seq<Entry>): (r: seq<string>)
    ensures |r| == |es| && forall k :: 0 <= k < |es| ==> r[k] == es[k].url
  {
    if es == [] then [] else [es[0].url] + Urls(es[1..])
  }

  lemma {:induction false} FirstTokenOf(u: string, y: string)
    requires NoWhite(u) && (y == [] || IsWhite(y[0]))
    ensures FirstToken(u + y) == u
    decreases |u|
  {
    if u == [] {
      assert u + y == y;
    } else {
      assert (u + y)[1..] == u[1..] + y;
      FirstTokenOf(u[1..], y);
      assert [u[0]] + u[1..] == u;
    }
  }

  /** The URL of a well-formed entry is what `parseSrcSet` reads from it. */
  lemma EntryUrlOf(e: Entry)
    requires WellFormed(e)
    ensures EntryUrl(EntryText(e)) == e.url
  {
    var u, d := e.url, e.descriptor;
    assert e.lead + u + d == e.lead + (u + d);
    assert (u + d)[0] == u[0];
    TrimStartOfPadded(e.lead, u + d);
    assert Trim(EntryText(e)) == TrimEnd(u + d);
    FirstTokenOfTrimEnd(u, d);
  }

  lemma FirstTokenOfTrimEnd(u: string, d: string)
    requires u != [] && NoWhite(u) && (d == [] || IsWhite(d[0]))
    ensures FirstToken(TrimEnd(u + d)) == u
  {
    TrimEndKeepsPrefix(u, d);
    var r := TrimEnd(u + d);
    var y := r[|u|..];
    PrefixSplit(u, r);
    assert y <= d by { PrefixTail(u, r, u + d); }
    FirstTokenOf(u, y);
  }

  lemma PrefixSplit(u: string, r: string)
    requires u <= r
    ensures r == u + r[|u|..]
  {
  }

  lemma PrefixTail(u: string, r: string, x: string)
    requires u <= r <= x
    ensures r[|u|..] <= x[|u|..]
  {
  }

  lemma {:induction false} EntryUrlsOf(es: seq<Entry>)
    requires forall k :: 0 <= k < |es| ==> WellFormed(es[k])
    ensures EntryUrls(Texts(es)) == Urls(es)
  {
    if es != [] {
      EntryUrlOf(es[0]);
      assert Texts(es)[1..] == Texts(es[1..]);
      EntryUrlsOf(es[1..]);
    }
  }

  /** `parseSrcSet` reads back, in order, the URLs of entries joined with commas. */
  lemma ParseSrcSetOfEntries(es: seq<Entry>)
    requires forall k :: 0 <= k < |es| ==> WellFormed(es[k])
    ensures ParseSrcSet(Join(Texts(es), ',')) == Urls(es)
  {
    if es == [] {
      assert Split("", {','}) == [""];
      assert Trim("") == "";
    } else {
      var ts := Texts(es);
      forall k | 0 <= k < |ts| ensures NoneOf(ts[k], {','}) {
        EntryTextNoComma(es[k]);
      }
      SplitJoin(ts, ',', {','});
      EntryUrlsOf(es);
    }
  }

  lemma EntryTextNoComma(e: Entry)
    requires WellFormed(e)
    ensures NoneOf(EntryText(e), {','})
  {
    var t := EntryText(e);
    forall i | 0 <= i < |t| ensures t[i] != ',' {
      if i < |e.lead| {
        assert t[i] == e.lead[i] && IsWhite(t[i]);
      } else if i < |e.lead| + |e.url| {
        assert t[i] == e.url[i - |e.lead|];
      } else {
        assert t[i] == e.descriptor[i - |e.lead| - |e.url|];
      }
    }
  }

  /** `srcset="a 1x, b 2x"` yields `a` then `b`, e.g. `a.jpg` then `b.jpg`. */
  lemma ParseSrcSetTwoDensities(a: string, b: string)
    requires a != [] && NoWhite(a) && NoneOf(a, {','})
    requires b != [] && NoWhite(b) && NoneOf(b, {','})
    ensures ParseSrcSet(a + " 1x" + ", " + b + " 2x") == [a, b]
  {
    var ea, eb := Entry("", a, " 1x"), Entry(" ", b, " 2x");
    assert IsWhite(' ');
    assert WellFormed(ea) && WellFormed(eb);
    var es := [ea, eb];
    assert Texts(es) == [EntryText(ea), EntryText(eb)];
    assert Join(Texts(es), ',') == EntryText(ea) + [','] + EntryText(eb);
    assert EntryText(ea) + [','] + EntryText(eb) == a + " 1x" + ", " + b + " 2x";
    ParseSrcSetOfEntries(es);
  }
}
