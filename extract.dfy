/**
 * The per-page extraction of `scrapeImagesFromUrl`: every `img` element of the page,
 * in document order, contributes its `src` and the URLs of its `srcset`.
 * The fetched document is given as the attribute maps of its `img` elements, and
 * `new URL(relative, base).href` as a function `resolve` that is `None` when the
 * constructor throws.
 */
module Extract {
  import opened Wrappers
  import opened Images
  import opened SrcSet
  import opened ImageUrl

  /** The attributes of one `img` element. */
  type Element = map<string, string>

  /** `new URL(relative, base).href`, or `None` when it throws. */
  type Resolver = (string, string) -> Option<string>

  /** `img.attr(name)`: `None` stands for `undefined`. */
  function Attr(el: Element, name: string): Option<string> {
    if name in el then Some(el[name]) else None
  }

  /** The attribute is truthy: present and not the empty string. */
  predicate IsSet(a: Option<string>) {
    a.Some? && a.value != ""
  }

  /** `img.attr("alt") || ""`. */
  function AltOf(el: Element): string {
    if IsSet(Attr(el, "alt")) then el["alt"] else ""
  }

  /** `resolveUrl`: the resolved `href`, or the raw string when resolution throws. */
  function ResolveUrl(relative: string, base: string, resolve: Resolver): string {
    match resolve(relative, base)
    case Some(href) => href
    case None => relative
  }

  /** What an element gives every record it contributes: `width`, `height` and `alt`,
      read once per element. */
  datatype Shared = Shared(width: Option<int>, height: Option<int>, alt: string)

  function SharedOf(el: Element): Shared {
    Shared(Dimension(Attr(el, "width")), Dimension(Attr(el, "height")), AltOf(el))
  }

  /** The record pushed under the URL `imageUrl`. */
  function Record(sh: Shared, imageUrl: string): PageImage {
    PageImage(imageUrl, sh.width, sh.height, sh.alt)
  }

  /** `images.some(img => img.url === u)`. */
  predicate HasUrl(images: seq<PageImage>, u: string) {
    exists k :: 0 <= k < |images| && images[k].url == u
  }

  /** The candidate strings of `srcset`, or none when the attribute is not set. */
  function SrcSetCandidates(el: Element): seq<string> {
    var srcset := Attr(el, "srcset");
    if IsSet(srcset) then ParseSrcSet(srcset.value) else []
  }

  /** The `src` step: a valid `src` is pushed, with no check against what is there. */
  function SrcStep(images: seq<PageImage>, src: Option<string>, sh: Shared, base: string, resolve: Resolver): seq<PageImage> {
    if IsSet(src) && IsValidImageUrl(src.value) then images + [Record(sh, ResolveUrl(src.value, base, resolve))]
    else images
  }

  /** One `srcset` candidate: pushed when valid and its resolved URL is not yet on the page. */
  function AddCandidate(images: seq<PageImage>, sh: Shared, candidate: string, base: string, resolve: Resolver): seq<PageImage> {
    if IsValidImageUrl(candidate) then
      var imageUrl := ResolveUrl(candidate, base, resolve);
      if HasUrl(images, imageUrl) then images else images + [Record(sh, imageUrl)]
    else images
  }

  /** The `srcset` loop over `candidates`, in order. */
  function AddCandidates(images: seq<PageImage>, sh: Shared, candidates: seq<string>, base: string, resolve: Resolver): seq<PageImage>
  {
    if candidates == [] then images
    else
      var last := |candidates| - 1;
      AddCandidate(AddCandidates(images, sh, candidates[..last], base, resolve), sh, candidates[last], base, resolve)
  }

  /** The body of the `each` callback for one element. */
  function ElementStep(images: seq<PageImage>, el: Element, base: string, resolve: Resolver): seq<PageImage> {
    var sh := SharedOf(el);
    AddCandidates(SrcStep(images, Attr(el, "src"), sh, base, resolve), sh, SrcSetCandidates(el), base, resolve)
  }

  /** The `images` list after the callback has run on every element of `elements`. */
  function PageImages(base: string, elements: seq<Element>, resolve: Resolver): seq<PageImage>
  {
    if elements == [] then []
    else
      var last := |elements| - 1;
      ElementStep(PageImages(base, elements[..last], resolve), elements[last], base, resolve)
  }

  /** The `$("img").each(...)` loop of `scrapeImagesFromUrl` on the page at `base`. */
  method ExtractImages(base: string, elements: seq<Element>, resolve: Resolver) returns (images: seq<PageImage>)
    ensures images == PageImages(base, elements, resolve)
  {
    images := [];
    for i := 0 to |elements|
      invariant images == PageImages(base, elements[..i], resolve)
    {
      assert elements[..i + 1][..i] == elements[..i];
      images := ProcessElement(images, elements[i], base, resolve);
    }
    assert elements[..|elements|] == elements;
  }

  /** The `each` callback on one element: push the `src`, then the `srcset` URLs. */
  method ProcessElement(images0: seq<PageImage>, el: Element, base: string, resolve: Resolver) returns (images: seq<PageImage>)
    ensures images == ElementStep(images0, el, base, resolve)
  {
    images := images0;
    var src := Attr(el, "src");
    var srcset := Attr(el, "srcset");
    var alt := AltOf(el);
    var width := Dimension(Attr(el, "width"));
    var height := Dimension(Attr(el, "height"));

    if IsSet(src) && IsValidImageUrl(src.value) {
      var imageUrl := ResolveUrl(src.value, base, resolve);
      images := images + [PageImage(imageUrl, width, height, alt)];
    }

    if IsSet(srcset) {
      var srcsetUrls := ParseSrcSet(srcset.value);
      images := AddSrcSetUrls(images, srcsetUrls, width, height, alt, base, resolve);
    } else {
      assert AddCandidates(images, Shared(width, height, alt), [], base, resolve) == images;
    }
    ElementStepUnfold(images0, el, base, resolve);
  }

  /** `for (const srcsetUrl of srcsetUrls)`: push each valid URL whose resolved form
      is not on the page yet. */
  method AddSrcSetUrls(images0: seq<PageImage>, srcsetUrls: seq<string>, width: Option<int>, height: Option<int>, alt: string,
                       base: string, resolve: Resolver) returns (images: seq<PageImage>)
    ensures images == AddCandidates(images0, Shared(width, height, alt), srcsetUrls, base, resolve)
  {
    images := images0;
    for j := 0 to |srcsetUrls|
      invariant images == AddCandidates(images0, Shared(width, height, alt), srcsetUrls[..j], base, resolve)
    {
      var srcsetUrl := srcsetUrls[j];
      assert srcsetUrls[..j + 1][..j] == srcsetUrls[..j];
      if IsValidImageUrl(srcsetUrl) {
        var imageUrl := ResolveUrl(srcsetUrl, base, resolve);
        if !HasUrl(images, imageUrl) {
          images := images + [PageImage(imageUrl, width, height, alt)];
        }
      }
    }
    assert srcsetUrls[..|srcsetUrls|] == srcsetUrls;
  }

  lemma ElementStepUnfold(images: seq<PageImage>, el: Element, base: string, resolve: Resolver)
    ensures ElementStep(images, el, base, resolve) ==
      AddCandidates(SrcStep(images, Attr(el, "src"), SharedOf(el), base, resolve), SharedOf(el), SrcSetCandidates(el), base, resolve)
  {
  }

  /** What fetching and loading a page gave: its `img` elements, or an error. */
  datatype Fetch = Fetched(elements: seq<Element>) | FetchFailed

  /** A settled promise of `scrapeImagesFromUrl`. */
  datatype Settled = Fulfilled(value: seq<PageImage>) | Rejected

  /** `scrapeImagesFromUrl(url)`: a failed fetch rejects; a loaded page fulfils with its images. */
  method ScrapeImagesFromUrl(url: string, fetch: Fetch, resolve: Resolver) returns (r: Settled)
    ensures fetch.FetchFailed? ==> r == Rejected
    ensures fetch.Fetched? ==> r == Fulfilled(PageImages(url, fetch.elements, resolve))
  {
    match fetch
    case FetchFailed =>
      r := Rejected;
    case Fetched(elements) =>
      var images := ExtractImages(url, elements, resolve);
      r := Fulfilled(images);
  }

  // ---------------------------------------------------------------- the srcset loop

  /** Every record of `r` from index `n` on has a URL that no record before it has. */
  predicate FreshFrom(r: seq<PageImage>, n: int) {
    forall k :: 0 <= n <= k < |r| ==> !HasUrl(r[..k], r[k].url)
  }

  /** The resolved URL of every valid candidate of `cs` is in `r`. */
  predicate Covers(r: seq<PageImage>, cs: seq<string>, base: string, resolve: Resolver) {
    forall i :: 0 <= i < |cs| && IsValidImageUrl(cs[i]) ==> HasUrl(r, ResolveUrl(cs[i], base, resolve))
  }

  lemma HasUrlExtend(a: seq<PageImage>, b: seq<PageImage>, u: string)
    requires a <= b && HasUrl(a, u)
    ensures HasUrl(b, u)
  {
    var k :| 0 <= k < |a| && a[k].url == u;
    assert b[k] == a[k];
  }

  /** The `srcset` loop only appends. */
  lemma {:induction false} AddCandidatesExtends(s: seq<PageImage>, sh: Shared, cs: seq<string>, base: string, resolve: Resolver)
    ensures s <= AddCandidates(s, sh, cs, base, resolve)
  {
    if cs != [] {
      AddCandidatesExtends(s, sh, cs[..|cs| - 1], base, resolve);
    }
  }

  /** Each record the `srcset` loop appends has a URL no earlier record of the page has. */
  lemma {:induction false} AddCandidatesFresh(s: seq<PageImage>, sh: Shared, cs: seq<string>, base: string, resolve: Resolver)
    ensures FreshFrom(AddCandidates(s, sh, cs, base, resolve), |s|)
  {
    if cs != [] {
      var r' := AddCandidates(s, sh, cs[..|cs| - 1], base, resolve);
      var r := AddCandidates(s, sh, cs, base, resolve);
      AddCandidatesFresh(s, sh, cs[..|cs| - 1], base, resolve);
      AddCandidatesExtends(s, sh, cs[..|cs| - 1], base, resolve);
      if r != r' {
        forall k | |s| <= k < |r| ensures !HasUrl(r[..k], r[k].url) {
          if k < |r'| {
            assert r[..k] == r'[..k] && r[k] == r'[k];
          } else {
            assert r[..k] == r';
          }
        }
      }
    }
  }

  /** Each valid candidate's resolved URL is on the page once the loop is done,
      appended now or already there. */
  lemma {:induction false} AddCandidatesCover(s: seq<PageImage>, sh: Shared, cs: seq<string>, base: string, resolve: Resolver)
    ensures Covers(AddCandidates(s, sh, cs, base, resolve), cs, base, resolve)
  {
    if cs != [] {
      var init := cs[..|cs| - 1];
      var r' := AddCandidates(s, sh, init, base, resolve);
      var r := AddCandidates(s, sh, cs, base, resolve);
      AddCandidatesCover(s, sh, init, base, resolve);
      AddCandidateCovers(r', sh, cs[|cs| - 1], base, resolve);
      forall i | 0 <= i < |cs| && IsValidImageUrl(cs[i]) ensures HasUrl(r, ResolveUrl(cs[i], base, resolve)) {
        if i < |init| {
          assert cs[i] == init[i];
          HasUrlExtend(r', r, ResolveUrl(cs[i], base, resolve));
        }
      }
    }
  }

  /** One candidate only appends, and a valid one is on the page afterwards. */
  lemma AddCandidateCovers(images: seq<PageImage>, sh: Shared, c: string, base: string, resolve: Resolver)
    ensures images <= AddCandidate(images, sh, c, base, resolve)
    ensures IsValidImageUrl(c) ==> HasUrl(AddCandidate(images, sh, c, base, resolve), ResolveUrl(c, base, resolve))
  {
    var r := AddCandidate(images, sh, c, base, resolve);
    if IsValidImageUrl(c) && r != images {
      assert r[|images|].url == ResolveUrl(c, base, resolve);
    }
  }

  /** Each record the `srcset` loop appends is the shared record for a valid candidate. */
  lemma {:induction false} AddCandidatesRecords(s: seq<PageImage>, sh: Shared, cs: seq<string>, base: string, resolve: Resolver)
    ensures var r := AddCandidates(s, sh, cs, base, resolve);
      forall k :: |s| <= k < |r| ==>
        (r[k] == Record(sh, r[k].url) &&
         exists i :: 0 <= i < |cs| && IsValidImageUrl(cs[i]) && r[k].url == ResolveUrl(cs[i], base, resolve))
  {
    if cs != [] {
      var init := cs[..|cs| - 1];
      var r' := AddCandidates(s, sh, init, base, resolve);
      var r := AddCandidates(s, sh, cs, base, resolve);
      AddCandidatesRecords(s, sh, init, base, resolve);
      AddCandidatesExtends(s, sh, init, base, resolve);
      forall k | |s| <= k < |r| ensures r[k] == Record(sh, r[k].url) &&
        exists i :: 0 <= i < |cs| && IsValidImageUrl(cs[i]) && r[k].url == ResolveUrl(cs[i], base, resolve)
      {
        if k < |r'| {
          assert r[k] == r'[k];
          var i :| 0 <= i < |init| && IsValidImageUrl(init[i]) && r'[k].url == ResolveUrl(init[i], base, resolve);
          assert cs[i] == init[i];
        } else {
          assert IsValidImageUrl(cs[|cs| - 1]);
        }
      }
    }
  }

  /** A candidate whose resolved URL is already on the page adds nothing, whichever
      element put it there. */
  lemma {:induction false} AddCandidatesKnown(s: seq<PageImage>, sh: Shared, cs: seq<string>, base: string, resolve: Resolver)
    requires Covers(s, cs, base, resolve)
    ensures AddCandidates(s, sh, cs, base, resolve) == s
  {
    if cs != [] {
      var init := cs[..|cs| - 1];
      forall i | 0 <= i < |init| && IsValidImageUrl(init[i]) ensures HasUrl(s, ResolveUrl(init[i], base, resolve)) {
        assert init[i] == cs[i];
      }
      AddCandidatesKnown(s, sh, init, base, resolve);
    }
  }

  // ---------------------------------------------------------------- one element

  /** A raw string the element offers: its `src`, or a `srcset` candidate. */
  predicate IsRawOf(el: Element, raw: string) {
    (IsSet(Attr(el, "src")) && raw == el["src"]) || raw in SrcSetCandidates(el)
  }

  /** `img` carries the element's `width`, `height` and `alt`, and its URL is the
      resolution of a raw string of the element that passed the classifier. */
  ghost predicate FromElement(img: PageImage, el: Element, base: string, resolve: Resolver) {
    img == Record(SharedOf(el), img.url) &&
    exists raw :: IsRawOf(el, raw) && IsValidImageUrl(raw) && img.url == ResolveUrl(raw, base, resolve)
  }

  /** One element only appends, and everything it appends comes from it. */
  lemma ElementStepRecords(s: seq<PageImage>, el: Element, base: string, resolve: Resolver)
    ensures s <= ElementStep(s, el, base, resolve)
    ensures forall k {:trigger ElementStep(s, el, base, resolve)[k]} :: |s| <= k < |ElementStep(s, el, base, resolve)| ==>
      FromElement(ElementStep(s, el, base, resolve)[k], el, base, resolve)
  {
    var sh := SharedOf(el);
    var t := SrcStep(s, Attr(el, "src"), sh, base, resolve);
    var cs := SrcSetCandidates(el);
    var r := AddCandidates(t, sh, cs, base, resolve);
    AddCandidatesExtends(t, sh, cs, base, resolve);
    AddCandidatesRecords(t, sh, cs, base, resolve);
    forall k | |s| <= k < |r| ensures FromElement(r[k], el, base, resolve) {
      if k < |t| {
        assert r[k] == t[k];
        assert IsRawOf(el, el["src"]);
      } else {
        var i :| 0 <= i < |cs| && IsValidImageUrl(cs[i]) && r[k].url == ResolveUrl(cs[i], base, resolve);
        assert IsRawOf(el, cs[i]);
      }
    }
  }

  /** A valid `src` is always pushed, even when the page already holds its URL; when
      resolution throws, the raw `src` is what is pushed. */
  lemma SrcAlwaysPushed(s: seq<PageImage>, el: Element, base: string, resolve: Resolver)
    requires IsSet(Attr(el, "src")) && IsValidImageUrl(el["src"])
    ensures var r := ElementStep(s, el, base, resolve);
      |r| > |s| && r[|s|] == Record(SharedOf(el), ResolveUrl(el["src"], base, resolve))
    ensures resolve(el["src"], base).None? ==> ElementStep(s, el, base, resolve)[|s|].url == el["src"]
  {
    var sh := SharedOf(el);
    AddCandidatesExtends(SrcStep(s, Attr(el, "src"), sh, base, resolve), sh, SrcSetCandidates(el), base, resolve);
  }

  /** Every valid `srcset` candidate's resolved URL is on the page after the element,
      and each record the `srcset` adds has a URL new to the whole page so far. */
  lemma SrcSetDeduplicatedPageWide(s: seq<PageImage>, el: Element, base: string, resolve: Resolver)
    ensures Covers(ElementStep(s, el, base, resolve), SrcSetCandidates(el), base, resolve)
    ensures FreshFrom(ElementStep(s, el, base, resolve), |SrcStep(s, Attr(el, "src"), SharedOf(el), base, resolve)|)
  {
    var sh := SharedOf(el);
    var t := SrcStep(s, Attr(el, "src"), sh, base, resolve);
    AddCandidatesCover(t, sh, SrcSetCandidates(el), base, resolve);
    AddCandidatesFresh(t, sh, SrcSetCandidates(el), base, resolve);
  }

  // ---------------------------------------------------------------- the page

  /** The list built for the first elements is a prefix of the page's list. */
  lemma {:induction false} PageImagesPrefix(base: string, elements: seq<Element>, n: nat, resolve: Resolver)
    requires n <= |elements|
    ensures PageImages(base, elements[..n], resolve) <= PageImages(base, elements, resolve)
  {
    if n < |elements| {
      var init := elements[..|elements| - 1];
      assert init[..n] == elements[..n];
      PageImagesPrefix(base, init, n, resolve);
      ElementStepRecords(PageImages(base, init, resolve), elements[|elements| - 1], base, resolve);
    } else {
      assert elements[..n] == elements;
    }
  }

  /** `img` comes from one of `elements`. */
  ghost predicate FromSomeElement(img: PageImage, elements: seq<Element>, base: string, resolve: Resolver) {
    exists i :: 0 <= i < |elements| && FromElement(img, elements[i], base, resolve)
  }

  lemma FromSomeElementExtend(init: seq<Element>, elements: seq<Element>, base: string, resolve: Resolver)
    requires init <= elements
    ensures forall img :: FromSomeElement(img, init, base, resolve) ==> FromSomeElement(img, elements, base, resolve)
  {
    forall img | FromSomeElement(img, init, base, resolve) ensures FromSomeElement(img, elements, base, resolve) {
      var i :| 0 <= i < |init| && FromElement(img, init[i], base, resolve);
      assert elements[i] == init[i];
    }
  }

  lemma FromSomeElementAt(img: PageImage, elements: seq<Element>, i: int, base: string, resolve: Resolver)
    requires 0 <= i < |elements| && FromElement(img, elements[i], base, resolve)
    ensures FromSomeElement(img, elements, base, resolve)
  {
  }

  /** Every record of the page comes from one of its elements. */
  lemma {:induction false} PageImagesFromElements(base: string, elements: seq<Element>, resolve: Resolver)
    ensures forall k {:trigger PageImages(base, elements, resolve)[k]} :: 0 <= k < |PageImages(base, elements, resolve)| ==>
      FromSomeElement(PageImages(base, elements, resolve)[k], elements, base, resolve)
  {
    if elements != [] {
      var last := |elements| - 1;
      var init := elements[..last];
      var el := elements[last];
      var p := PageImages(base, init, resolve);
      var r := ElementStep(p, el, base, resolve);
      PageImagesFromElements(base, init, resolve);
      ElementStepRecords(p, el, base, resolve);
      FromSomeElementExtend(init, elements, base, resolve);
      forall k | 0 <= k < |r| ensures FromSomeElement(r[k], elements, base, resolve) {
        if k < |p| {
          assert r[k] == p[k];
        } else {
          FromSomeElementAt(r[k], elements, last, base, resolve);
        }
      }
    }
  }

  /** Two identical elements with a valid `src` and no `srcset` give the same record
      twice: only the `srcset` loop checks for a URL already on the page. */
  lemma RepeatedSrcKept(base: string, el: Element, resolve: Resolver)
    requires IsSet(Attr(el, "src")) && IsValidImageUrl(el["src"]) && !IsSet(Attr(el, "srcset"))
    ensures var rec := Record(SharedOf(el), ResolveUrl(el["src"], base, resolve));
      PageImages(base, [el, el], resolve) == [rec, rec]
  {
    var rec := Record(SharedOf(el), ResolveUrl(el["src"], base, resolve));
    PageImagesSnoc(base, [], el, resolve);
    SrcOnlyStep([], el, base, resolve);
    PageImagesSnoc(base, [el], el, resolve);
    SrcOnlyStep([rec], el, base, resolve);
  }

  lemma PageImagesSnoc(base: string, elements: seq<Element>, el: Element, resolve: Resolver)
    ensures PageImages(base, elements + [el], resolve) == ElementStep(PageImages(base, elements, resolve), el, base, resolve)
  {
    assert (elements + [el])[..|elements|] == elements;
  }

  lemma SrcOnlyStep(images: seq<PageImage>, el: Element, base: string, resolve: Resolver)
    requires IsSet(Attr(el, "src")) && IsValidImageUrl(el["src"]) && !IsSet(Attr(el, "srcset"))
    ensures ElementStep(images, el, base, resolve) ==
      images + [Record(SharedOf(el), ResolveUrl(el["src"], base, resolve))]
  {
    assert SrcSetCandidates(el) == [];
  }

  /** A `srcset` that offers only URLs an earlier element already put on the page adds
      nothing: the check runs against the whole page, not the current element. */
  lemma SrcSetAlreadyOnPage(s: seq<PageImage>, el: Element, base: string, resolve: Resolver)
    requires !IsSet(Attr(el, "src"))
    requires Covers(s, SrcSetCandidates(el), base, resolve)
    ensures ElementStep(s, el, base, resolve) == s
  {
    AddCandidatesKnown(s, SharedOf(el), SrcSetCandidates(el), base, resolve);
  }
}
