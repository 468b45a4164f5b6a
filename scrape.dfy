/**
 * `scrapeImages`: scrape every requested page, concatenate what the pages that
 * loaded gave (each image tagged with its page), then apply the size filter and
 * the deduplication the options ask for, in that order.
 */
module Scrape {
  import opened Wrappers
  import opened Seqs
  import opened Images
  import opened SizeFilter
  import opened Dedup
  import opened Extract

  /** `ScrapeOptions`. */
  datatype ScrapeOptions = ScrapeOptions(deduplicateImages: bool, filterSmallImages: bool)

  /** `defaultOptions`: both passes on. */
  const DefaultOptions := ScrapeOptions(true, true)

  /** `result.value.map(img => ({ ...img, sourceUrl }))`. */
  function Tag(images: seq<PageImage>, sourceUrl: string): (r: seq<ImageData>)
    ensures |r| == |images|
    ensures forall k :: 0 <= k < |r| ==> WithoutSource(r[k]) == images[k] && r[k].sourceUrl == sourceUrl
  {
    seq(|images|, k requires 0 <= k < |images| => WithSource(images[k], sourceUrl))
  }

  /** The settled outcome of `scrapeImagesFromUrl(url)`. */
  function SettledOf(url: string, fetch: Fetch, resolve: Resolver): Settled {
    match fetch
    case FetchFailed => Rejected
    case Fetched(elements) => Fulfilled(PageImages(url, elements, resolve))
  }

  /** The `forEach` over the settled results: fulfilled lists are tagged with
      `urls[index]` and appended; rejected ones add nothing. */
  function Combined(results: seq<Settled>, urls: seq<string>): seq<ImageData>
    requires |results| == |urls|
  {
    if results == [] then []
    else
      var n := |results| - 1;
      Combined(results[..n], urls[..n]) + Contribution(results[n], urls[n])
  }

  /** What one settled result adds to the combined list. */
  function Contribution(result: Settled, url: string): seq<ImageData> {
    if result.Fulfilled? then Tag(result.value, url) else []
  }

  /** The optional passes: size filter first, then deduplication. */
  function PostProcess(images: seq<ImageData>, options: ScrapeOptions, hash: string -> string): seq<ImageData> {
    var filtered := if options.filterSmallImages then FilterSmallImages(images) else images;
    if options.deduplicateImages then FirstOccurrences(filtered, hash) else filtered
  }

  /** What `scrapeImages` resolves to, given each page's fetch outcome. */
  function Pipeline(urls: seq<string>, fetches: seq<Fetch>, options: ScrapeOptions,
                    resolve: Resolver, hash: string -> string): seq<ImageData>
    requires |fetches| == |urls|
  {
    PostProcess(Combined(Results(urls, fetches, resolve), urls), options, hash)
  }

  /** The settled result of each page, in the order of `urls`. */
  function Results(urls: seq<string>, fetches: seq<Fetch>, resolve: Resolver): (r: seq<Settled>)
    requires |fetches| == |urls|
    ensures |r| == |urls| && forall i :: 0 <= i < |urls| ==> r[i] == SettledOf(urls[i], fetches[i], resolve)
  {
    seq(|urls|, i requires 0 <= i < |urls| => SettledOf(urls[i], fetches[i], resolve))
  }

  /** `scrapeImages(urls, options)`; `fetches[i]` is what fetching `urls[i]` gave. */
  method ScrapeImages(urls: seq<string>, fetches: seq<Fetch>, options: ScrapeOptions,
                      resolve: Resolver, hash: string -> string) returns (allImages: seq<ImageData>)
    requires |fetches| == |urls|
    ensures allImages == Pipeline(urls, fetches, options, resolve, hash)
  {
    var results := SettleAll(urls, fetches, resolve);
    allImages := CombineResults(results, urls);
    if options.filterSmallImages {
      allImages := FilterSmallImages(allImages);
    }
    if options.deduplicateImages {
      allImages := DeduplicateImages(allImages, hash);
    }
  }

  /** `Promise.allSettled(urls.map(url => scrapeImagesFromUrl(url)))`: one settled
      result per page, failures included, in the order of `urls`. */
  method SettleAll(urls: seq<string>, fetches: seq<Fetch>, resolve: Resolver) returns (results: seq<Settled>)
    requires |fetches| == |urls|
    ensures results == Results(urls, fetches, resolve)
  {
    results := [];
    for i := 0 to |urls|
      invariant |results| == i
      invariant forall k :: 0 <= k < i ==> results[k] == SettledOf(urls[k], fetches[k], resolve)
    {
      var r := ScrapeImagesFromUrl(urls[i], fetches[i], resolve);
      results := results + [r];
    }
  }

  /** The `forEach` over the settled results, appending each fulfilled page's images
      tagged with its URL. */
  method CombineResults(results: seq<Settled>, urls: seq<string>) returns (allImages: seq<ImageData>)
    requires |results| == |urls|
    ensures allImages == Combined(results, urls)
  {
    allImages := [];
    for index := 0 to |results|
      invariant allImages == Combined(results[..index], urls[..index])
    {
      CombinedStep(results, urls, index);
      if results[index].Fulfilled? {
        var images := Tag(results[index].value, urls[index]);
        allImages := allImages + images;
      }
    }
    assert results[..|results|] == results && urls[..|urls|] == urls;
  }

  // ---------------------------------------------------------------- combining the sources

  /** The results of two batches of sources combine to the two combinations, in order. */
  lemma {:induction false} CombinedAppend(r1: seq<Settled>, u1: seq<string>, r2: seq<Settled>, u2: seq<string>)
    requires |r1| == |u1| && |r2| == |u2|
    ensures Combined(r1 + r2, u1 + u2) == Combined(r1, u1) + Combined(r2, u2)
    decreases |r2|
  {
    if r2 == [] {
      assert r1 + r2 == r1 && u1 + u2 == u1;
    } else {
      var n := |r2| - 1;
      var p2, q2 := r2[..n], u2[..n];
      assert r2 == p2 + [r2[n]] && u2 == q2 + [u2[n]];
      assert r1 + r2 == (r1 + p2) + [r2[n]] && u1 + u2 == (u1 + q2) + [u2[n]];
      CombinedSnoc(r1 + p2, u1 + q2, r2[n], u2[n]);
      CombinedSnoc(p2, q2, r2[n], u2[n]);
      CombinedAppend(r1, u1, p2, q2);
      AppendAssoc(Combined(r1, u1), Combined(p2, q2), Contribution(r2[n], u2[n]));
    }
  }

  lemma CombinedStep(results: seq<Settled>, urls: seq<string>, i: nat)
    requires |results| == |urls| && i < |results|
    ensures Combined(results[..i + 1], urls[..i + 1]) == Combined(results[..i], urls[..i]) + Contribution(results[i], urls[i])
  {
    assert results[..i + 1] == results[..i] + [results[i]];
    assert urls[..i + 1] == urls[..i] + [urls[i]];
    CombinedSnoc(results[..i], urls[..i], results[i], urls[i]);
  }

  lemma CombinedSnoc(rs: seq<Settled>, us: seq<string>, r: Settled, u: string)
    requires |rs| == |us|
    ensures Combined(rs + [r], us + [u]) == Combined(rs, us) + Contribution(r, u)
  {
    assert (rs + [r])[..|rs|] == rs && (us + [u])[..|us|] == us;
  }

  /** A rejected source adds nothing; a fulfilled one adds its images tagged with its URL. */
  lemma CombinedOne(r: Settled, url: string)
    ensures Combined([r], [url]) == Contribution(r, url)
    ensures r.Rejected? ==> Combined([r], [url]) == []
    ensures r.Fulfilled? ==> Combined([r], [url]) == Tag(r.value, url)
  {
    assert [r][..0] == [] && [url][..0] == [];
  }

  /** A failed source neither contributes nor stops the others: dropping it changes nothing. */
  lemma RejectedContributesNothing(r1: seq<Settled>, u1: seq<string>, url: string, r2: seq<Settled>, u2: seq<string>)
    requires |r1| == |u1| && |r2| == |u2|
    ensures Combined(r1 + [Rejected] + r2, u1 + [url] + u2) == Combined(r1 + r2, u1 + u2)
  {
    CombinedAppend(r1 + [Rejected], u1 + [url], r2, u2);
    CombinedAppend(r1, u1, [Rejected], [url]);
    CombinedOne(Rejected, url);
    CombinedAppend(r1, u1, r2, u2);
  }

  /** `img` is an image of some fulfilled result, tagged with that result's URL. */
  ghost predicate FromSource(img: ImageData, results: seq<Settled>, urls: seq<string>)
    requires |results| == |urls|
  {
    exists i :: 0 <= i < |results| && results[i].Fulfilled? && img.sourceUrl == urls[i] && WithoutSource(img) in results[i].value
  }

  /** Every combined image is an image of a fulfilled source, tagged with that source's URL. */
  lemma {:induction false} CombinedSources(results: seq<Settled>, urls: seq<string>)
    requires |results| == |urls|
    ensures forall k {:trigger Combined(results, urls)[k]} :: 0 <= k < |Combined(results, urls)| ==>
      FromSource(Combined(results, urls)[k], results, urls)
  {
    if results != [] {
      var n := |results| - 1;
      var p := Combined(results[..n], urls[..n]);
      var c := Combined(results, urls);
      assert c == p + Contribution(results[n], urls[n]);
      CombinedSources(results[..n], urls[..n]);
      forall k | 0 <= k < |c| ensures FromSource(c[k], results, urls) {
        if k < |p| {
          assert c[k] == p[k];
          assert FromSource(p[k], results[..n], urls[..n]);
          var i :| 0 <= i < n && results[..n][i].Fulfilled? && p[k].sourceUrl == urls[..n][i] &&
            WithoutSource(p[k]) in results[..n][i].value;
          assert results[i] == results[..n][i] && urls[i] == urls[..n][i];
        } else {
          var t := Tag(results[n].value, urls[n]);
          assert c[k] == t[k - |p|];
          assert results[n].value[k - |p|] == WithoutSource(c[k]);
        }
      }
    }
  }

  /** When every source fails, the result is empty rather than an error. */
  lemma {:induction false} AllRejectedIsEmpty(results: seq<Settled>, urls: seq<string>)
    requires |results| == |urls|
    requires forall i :: 0 <= i < |results| ==> results[i] == Rejected
    ensures Combined(results, urls) == []
  {
    if results != [] {
      var n := |results| - 1;
      AllRejectedIsEmpty(results[..n], urls[..n]);
    }
  }

  /** With every fetch failing, `scrapeImages` gives the empty list whatever the options. */
  lemma AllFetchesFail(urls: seq<string>, fetches: seq<Fetch>, options: ScrapeOptions,
                       resolve: Resolver, hash: string -> string)
    requires |fetches| == |urls|
    requires forall i :: 0 <= i < |fetches| ==> fetches[i] == FetchFailed
    ensures Pipeline(urls, fetches, options, resolve, hash) == []
  {
    AllRejectedIsEmpty(Results(urls, fetches, resolve), urls);
    assert FilterSmallImages([]) == [];
  }

  // ---------------------------------------------------------------- the passes

  /** With both options off the combined list is returned unchanged. */
  lemma OptionsOffUnchanged(images: seq<ImageData>, hash: string -> string)
    ensures PostProcess(images, ScrapeOptions(false, false), hash) == images
  {
  }

  /** The default result keeps only images that pass the size filter, no two of them
      with the same digest, in their combined order. */
  lemma DefaultOptionsResult(images: seq<ImageData>, hash: string -> string)
    ensures var r := PostProcess(images, DefaultOptions, hash);
      IsSubsequence(r, images) && DistinctKeys(r, hash) && forall k :: 0 <= k < |r| ==> KeepsSize(r[k])
  {
    var f := FilterSmallImages(images);
    var r := FirstOccurrences(f, hash);
    FirstOccurrencesSubsequence(f, hash);
    SubsequenceTrans(r, f, images);
    FirstOccurrencesDistinct(f, hash);
    forall k | 0 <= k < |r| ensures KeepsSize(r[k]) {
      SubsequenceMembers(r, f, r[k]);
      var j :| 0 <= j < |f| && f[j] == r[k];
    }
  }

  /** Post-processing the result again changes nothing, whatever the options. */
  lemma PostProcessIdempotent(images: seq<ImageData>, options: ScrapeOptions, hash: string -> string)
    ensures PostProcess(PostProcess(images, options, hash), options, hash) == PostProcess(images, options, hash)
  {
    var f := if options.filterSmallImages then FilterSmallImages(images) else images;
    if options.filterSmallImages {
      FilterSmallImagesIdempotent(images);
    }
    if options.deduplicateImages {
      var r := FirstOccurrences(f, hash);
      if options.filterSmallImages {
        FirstOccurrencesSubsequence(f, hash);
        forall k | 0 <= k < |r| ensures KeepsSize(r[k]) {
          SubsequenceMembers(r, f, r[k]);
          var j :| 0 <= j < |f| && f[j] == r[k];
        }
        AllKeptUnchanged(r);
      }
      FirstOccurrencesIdempotent(f, hash);
    }
  }

  /** The size filter keeps a sub-multiset, so its digests are among the input's. */
  lemma FilterKeys(images: seq<ImageData>, hash: string -> string)
    ensures KeysOf(FilterSmallImages(images), hash) <= KeysOf(images, hash)
  {
    var f := FilterSmallImages(images);
    forall key | key in KeysOf(f, hash) ensures key in KeysOf(images, hash) {
      KeysOfIff(f, hash, key);
      var k :| 0 <= k < |f| && Key(f[k], hash) == key;
      SubsequenceMembers(f, images, f[k]);
      var j :| 0 <= j < |images| && images[j] == f[k];
      KeysOfIff(images, hash, key);
    }
  }

  /** Each pass can only shorten the list: both passes give at most what either gives
      alone, and either alone at most the combined list. */
  lemma PassesShorten(images: seq<ImageData>, hash: string -> string)
    ensures |PostProcess(images, ScrapeOptions(true, true), hash)| <= |PostProcess(images, ScrapeOptions(false, true), hash)|
    ensures |PostProcess(images, ScrapeOptions(true, true), hash)| <= |PostProcess(images, ScrapeOptions(true, false), hash)|
    ensures |PostProcess(images, ScrapeOptions(false, true), hash)| <= |images|
    ensures |PostProcess(images, ScrapeOptions(true, false), hash)| <= |images|
  {
    var f := FilterSmallImages(images);
    FilterThenDedupShorter(images, hash);
    DedupShorter(f, hash);
    DedupShorter(images, hash);
    FilterSmallImagesShrinks(images);
  }

  lemma FilterThenDedupShorter(images: seq<ImageData>, hash: string -> string)
    ensures |FirstOccurrences(FilterSmallImages(images), hash)| <= |FirstOccurrences(images, hash)|
  {
    FilterKeys(images, hash);
    FirstOccurrencesMonotone(FilterSmallImages(images), images, hash);
  }

  lemma DedupShorter(images: seq<ImageData>, hash: string -> string)
    ensures |FirstOccurrences(images, hash)| <= |images|
  {
    FirstOccurrencesSubsequence(images, hash);
    SubsequenceLength(FirstOccurrences(images, hash), images);
  }

  /** The passes run in a fixed order, and the order shows: a small image followed by a
      large one with the same URL leaves the large one, where deduplicating first
      would keep the small one and then filter it away. */
  lemma FilterRunsBeforeDedup(url: string, sourceUrl: string, alt: string, hash: string -> string)
    ensures var small := ImageData(url, sourceUrl, Some(50), Some(50), alt);
      var large := ImageData(url, sourceUrl, Some(200), Some(200), alt);
      PostProcess([small, large], DefaultOptions, hash) == [large] &&
      FilterSmallImages(FirstOccurrences([small, large], hash)) == []
  {
    var small := ImageData(url, sourceUrl, Some(50), Some(50), alt);
    var large := ImageData(url, sourceUrl, Some(200), Some(200), alt);
    assert !KeepsSize(small) && KeepsSize(large);
    assert [small, large][1..] == [large] && [large][1..] == [];
    assert FilterSmallImages([small, large]) == [large];
    assert [large][..0] == [];
    assert FirstOccurrences([large], hash) == [large];
    assert [small, large][..1] == [small] && [small][..0] == [];
    assert FirstOccurrences([small], hash) == [small];
    assert KeysOf([small], hash) == {Key(small, hash)};
    assert FirstOccurrences([small, large], hash) == [small];
    assert [small][1..] == [];
  }
}
