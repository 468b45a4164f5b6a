# ImageUrlHarvester scraper core, modelled in Dafny

ImageUrlHarvester takes a list of web-page URLs and returns the images found on
those pages. This project models the server-side scraping pipeline of
`server/scraper.ts` and the URL input helpers of `client/src/lib/utils.ts`:

- `scrapeImages` scrapes every page and settles all of them. It tags each fulfilled
  page's images with the page URL and concatenates them in request order. It then
  runs the optional size filter, then the optional deduplication.
- `scrapeImagesFromUrl` walks the page's `img` elements in document order. Each
  valid `src` is pushed. So is each valid `srcset` candidate whose resolved URL is
  not yet among the page's images.
- `parseSrcSet`, `isValidImageUrl`, `filterSmallImages` and `deduplicateImages` are
  the helpers of those two functions.
- `parseUrls`, `isValidUrl` and `getDomainFromUrl` turn the text a user typed into
  URLs and classify them.

Modules, one per concern:

| file | module | models |
|---|---|---|
| `wrappers.dfy` | `Wrappers` | `Option` (`undefined` / a thrown parse) |
| `js_text.dfy` | `JsText` | the ECMAScript string built-ins used: `trim`, `split`, `toLowerCase`, `startsWith`, `endsWith`, `includes`; plus `Join`, which the code never calls, to state the split round trips |
| `seqs.dfy` | `Seqs` | order-preserving selection (subsequences) and flat maps |
| `images.dfy` | `Images` | `ImageData`, the per-page record, `parseInt(…, 10)` and the width/height reading |
| `srcset.dfy` | `SrcSet` | `parseSrcSet` |
| `image_url.dfy` | `ImageUrl` | `isValidImageUrl` |
| `size_filter.dfy` | `SizeFilter` | `filterSmallImages` |
| `dedup.dfy` | `Dedup` | `deduplicateImages` (a method with its loop, proved against `FirstOccurrences`) |
| `extract.dfy` | `Extract` | `scrapeImagesFromUrl`: the `each` loop and the inner `srcset` loop as methods, proved against `PageImages` |
| `scrape.dfy` | `Scrape` | `scrapeImages`: the settle loop, the `forEach` combine loop and the passes, proved against `Pipeline` |
| `url_input.dfy` | `UrlInput` | `parseUrls`, `isValidUrl`, `getDomainFromUrl` |

Several things outside the model are parameters:

- the MD5 digest is a function `hash: string -> string`;
- the WHATWG URL parser `new URL(s)` is a function returning `Option<UrlRecord>`;
- `new URL(relative, base).href` is a resolver returning `Option<string>`;
- the HTTP fetch plus HTML parse is a `Fetch` value holding, per `img` element, the map of its attributes.

`None` stands for the call throwing.

Some behaviours of the code are easy to misread; the model follows the code:

- the "already present" test for a `srcset` candidate is made against every image
  collected from the page so far, including those of earlier elements, not only
  those of the same element; `src` URLs are never tested;
- `isValidImageUrl` is applied to the raw attribute string, before resolution;
- when resolution throws, the raw string is kept as the image URL;
- relative URLs are resolved against the requested URL, not any redirect target;
- when every page fails, `scrapeImages` resolves to the empty list; it does not
  raise an error.

## Model

| member | source | states |
|---|---|---|
| JsText.TrimStart | client/src/lib/utils.ts:27 | the result is a suffix of the input and does not start with white space |
| JsText.TrimStartRemovesWhite | client/src/lib/utils.ts:32 | what `trimStart` removes is all white space |
| JsText.TrimEnd | client/src/lib/utils.ts:32 | the result is a prefix of the input and does not end with white space |
| JsText.TrimEndRemovesWhite | client/src/lib/utils.ts:32 | what `trimEnd` removes is all white space |
| JsText.Trim | client/src/lib/utils.ts:32 | the result neither starts nor ends with white space |
| JsText.TrimOfPadded | server/scraper.ts:142 | a trimmed core surrounded by white space trims to that core |
| JsText.TrimOfTrimmed | client/src/lib/utils.ts:32 | trimming a trimmed string changes nothing |
| JsText.TrimEmptyIff | client/src/lib/utils.ts:27 | a string trims to the empty string exactly when it is all white space |
| JsText.TrimNoneOf | client/src/lib/utils.ts:32 | trimming introduces no character |
| JsText.SplitPiecesNoneOf | server/scraper.ts:141 | no piece of a split holds a separator |
| JsText.SplitNoSeparator | server/scraper.ts:141 | a string without separators splits into itself alone |
| JsText.SplitAtSeparator | client/src/lib/utils.ts:31 | splitting `a + sep + b` gives the pieces of `a`, then those of `b` |
| JsText.SplitJoin | server/scraper.ts:141 | splitting strings joined by a separator gives them back, in order |
| JsText.Split | server/scraper.ts:141 | `String.prototype.split` on a set of one-character separators: at least one piece (own ensures); pieces hold no separator (SplitPiecesNoneOf) and separators joined back give the pieces again (SplitJoin) |
| JsText.ToLower | server/scraper.ts:152 | `toLowerCase` on ASCII: same length, no upper-case ASCII letter remains, each `A`-`Z` becomes its lower-case letter and every other character is kept; ToLowerAppend, ToLowerIdempotent and ClassificationIgnoresCase state its use, and only ASCII is lowered (see Left out) |
| JsText.StartsWith | server/scraper.ts:155 | `startsWith`: the pattern is a prefix of the string; DataImageRejected and WithSchemeIdempotent rely on it |
| JsText.EndsWith | server/scraper.ts:160 | `endsWith`: the pattern is the string's suffix of its own length; EndsWithSomeIff states the extension test built on it |
| JsText.Includes | server/scraper.ts:161-165 | `includes` as a left-to-right scan; IncludesIff states that it holds exactly when the pattern occurs at some index, IncludesChar the one-character case of utils.ts:17 |
| JsText.IncludesIff | server/scraper.ts:161-165 | the `includes` scan succeeds exactly when the pattern occurs at some index |
| JsText.IncludesChar | client/src/lib/utils.ts:17 | a one-character `includes` holds exactly when the character appears |
| Seqs.SubsequenceTrans | server/scraper.ts:171-198 | a selection of a selection is a selection of the original |
| Seqs.SubsequenceLength | server/scraper.ts:171-198 | a selection is no longer than what it selects from |
| Seqs.FlatMapAppend | client/src/lib/utils.ts:32-33 | mapping-then-filtering a concatenation is the concatenation of the results |
| Images.WithSource | server/scraper.ts:38-41 | tagging a page record with its page keeps every other field |
| Images.DigitPrefix | server/scraper.ts:87-88 | `parseInt` reads the longest run of leading digits |
| Images.DecimalValue | server/scraper.ts:87-88 | the digits of `n` denote `n` |
| Images.ParseIntOfDecimal | server/scraper.ts:87-88 | `parseInt` reads back a decimal after leading white space and before a non-digit tail such as `px` |
| Images.ParseIntOfNegativeDecimal | server/scraper.ts:87-88 | the same with a minus sign |
| Images.DimensionMeaning | server/scraper.ts:87-88 | a missing, empty, non-numeric or zero attribute gives `undefined`; any other value is what `parseInt` reads from it, never 0 |
| Images.DimensionOfDecimal | server/scraper.ts:87-88 | a declared positive size such as `300` or `300px` is read as that number |
| Images.ParseInt | server/scraper.ts:87-88 | `parseInt(s, 10)`: leading white space skipped, optional sign, longest digit run, `NaN` as `None`; its meaning is stated by ParseIntOfDecimal and ParseIntOfNegativeDecimal |
| Images.Dimension | server/scraper.ts:87-88 | the `width`/`height` reading: a missing or empty attribute reads as `"0"`, and a zero or `NaN` result becomes `undefined`; its meaning is stated by DimensionMeaning and DimensionOfDecimal |
| SrcSet.FirstToken | server/scraper.ts:142 | `split(/\s+/)[0]` of a trimmed entry is its white-space-free head |
| SrcSet.ParseSrcSetUrlsAreTokens | server/scraper.ts:139-144 | every URL `parseSrcSet` returns is nonempty and holds no white space and no comma |
| SrcSet.EntryUrlOf | server/scraper.ts:142 | the URL of a well-formed entry (white space, URL, optional descriptor) is what is read from it |
| SrcSet.ParseSrcSetOfEntries | server/scraper.ts:139-144 | the URLs of well-formed entries joined with commas are read back, in order |
| SrcSet.ParseSrcSetTwoDensities | server/scraper.ts:139-144 | `a 1x, b 2x` yields `[a, b]` |
| SrcSet.ParseSrcSet | server/scraper.ts:139-144 | the comma split, the first white-space token of each trimmed entry, empty tokens dropped; its meaning is stated by ParseSrcSetUrlsAreTokens and ParseSrcSetOfEntries |
| ImageUrl.EndsWithSomeIff | server/scraper.ts:160 | `exts.some(ext => s.endsWith(ext))` holds exactly when one of the extensions ends the string |
| ImageUrl.IsValidImageUrl | server/scraper.ts:149-166 | the extension heuristic; its meaning is stated by IsValidImageUrlIff, DataImageRejected and ClassificationIgnoresCase |
| ImageUrl.IsValidImageUrlIff | server/scraper.ts:149-166 | a URL is accepted exactly when its lower-case form does not start with `data:image` and ends with one of the seven extensions or includes one of the five extension-plus-`?` patterns |
| ImageUrl.QueryExtensionsIff | server/scraper.ts:161-165 | the chain of `includes` tests holds exactly when some query pattern occurs |
| ImageUrl.ToLowerAppend | server/scraper.ts:152 | `toLowerCase` distributes over concatenation |
| ImageUrl.DataImageRejected | server/scraper.ts:154-157 | any URL starting with `data:image`, in any case, is rejected whatever follows |
| ImageUrl.ToLowerIdempotent | server/scraper.ts:152 | lower-casing twice is lower-casing once |
| ImageUrl.ClassificationIgnoresCase | server/scraper.ts:149-166 | two URLs equal once lower-cased are classified alike |
| ImageUrl.SvgAndBmpNeedTheEnd | server/scraper.ts:151-165 | `a.svg` and `a.bmp` are accepted, while `a.svg?w=1` and `a.bmp?w=1` are rejected: these two extensions count only at the end |
| ImageUrl.ExtensionAtTheEnd | server/scraper.ts:160 | `a` followed by any of the seven extensions is accepted |
| ImageUrl.OnlyDotBeforeOtherExtension | server/scraper.ts:159-165 | a lower-case URL of at least three characters whose only `.` is at index 1, followed by `s` or `b`, and whose last character is a digit, is rejected: it matches neither an ending nor a query pattern |
| SizeFilter.FilterSmallImages | server/scraper.ts:171-178 | the result keeps the input order, every kept image passes the test, and each image occurs as often as in the input if it passes and not at all otherwise |
| SizeFilter.KeepsSizeBoundary | server/scraper.ts:171-178 | unknown size keeps an image; 100 by 100 is kept; 99 by 100 is dropped |
| SizeFilter.FilterSmallImagesIdempotent | server/scraper.ts:171-178 | filtering twice is filtering once |
| SizeFilter.AllKeptUnchanged | server/scraper.ts:171-178 | a list whose images all pass goes through unchanged |
| SizeFilter.FilterSmallImagesShrinks | server/scraper.ts:171-178 | the filter never adds images |
| SizeFilter.KeepsSize | server/scraper.ts:172-177 | the predicate of the filter; KeepsSizeBoundary states its cases and FilterSmallImages keeps exactly the images that satisfy it |
| Dedup.DeduplicateImages | server/scraper.ts:183-198 | the loop with its `seen` set returns exactly the first image of each digest, in input order |
| Dedup.KeysOfIff | server/scraper.ts:184-192 | a digest is in the set exactly when some image has it |
| Dedup.FirstOccurrencesSubsequence | server/scraper.ts:187-195 | the kept images are a selection of the input, in order |
| Dedup.FirstOccurrencesKeys | server/scraper.ts:187-195 | every digest of the input survives |
| Dedup.FirstOccurrencesDistinct | server/scraper.ts:183-198 | no two kept images share a digest, so none share a URL |
| Dedup.FirstIsKept | server/scraper.ts:191-194 | an image whose digest no earlier image had is kept |
| Dedup.KeptIsFirst | server/scraper.ts:191-194 | every kept image is the first of its digest in the input |
| Dedup.DistinctUnchanged | server/scraper.ts:183-198 | a list with distinct digests is returned unchanged |
| Dedup.FirstOccurrencesIdempotent | server/scraper.ts:183-198 | deduplicating twice is deduplicating once |
| Dedup.FirstOccurrencesCount | server/scraper.ts:183-198 | one image survives per distinct digest |
| Dedup.FirstOccurrencesMonotone | server/scraper.ts:183-198 | fewer digests keep no more images |
| Dedup.FirstOccurrences | server/scraper.ts:183-198 | the list the dedup loop returns; FirstIsKept and KeptIsFirst state that it holds exactly the first image of each digest, FirstOccurrencesSubsequence that it keeps input order |
| Dedup.KeysOf | server/scraper.ts:184-192 | the `seen` set after a prefix of the images: it holds the digest of each (own ensures), exactly those (KeysOfIff), and the loop of DeduplicateImages keeps `seen == KeysOf(images[..i])` |
| Extract.ExtractImages | server/scraper.ts:77-129 | the `each` loop builds exactly `PageImages` of the page's elements |
| Extract.ProcessElement | server/scraper.ts:81-126 | one callback run pushes the `src` record, then runs the `srcset` loop, as `ElementStep` |
| Extract.AddSrcSetUrls | server/scraper.ts:111-126 | the `srcset` loop pushes each valid candidate whose resolved URL is not yet on the page, as `AddCandidates` |
| Extract.ScrapeImagesFromUrl | server/scraper.ts:67-134 | a failed fetch rejects; a loaded page fulfils with its `PageImages` |
| Extract.AddCandidatesExtends | server/scraper.ts:111-126 | the `srcset` loop only appends |
| Extract.AddCandidatesFresh | server/scraper.ts:116 | each record the loop appends has a URL no earlier record of the page has |
| Extract.AddCandidatesCover | server/scraper.ts:113-124 | after the loop, every valid candidate's resolved URL is on the page |
| Extract.AddCandidateCovers | server/scraper.ts:114-123 | one candidate only appends, and a valid candidate's resolved URL is on the page afterwards, pushed now or already there |
| Extract.AddCandidatesRecords | server/scraper.ts:114-122 | each appended record carries the element's size and alt and the resolved URL of a valid candidate |
| Extract.AddCandidatesKnown | server/scraper.ts:116 | candidates whose URLs are all on the page already add nothing |
| Extract.ElementStepRecords | server/scraper.ts:80-127 | one element only appends, and each appended record comes from its `src` or a `srcset` candidate that passed `isValidImageUrl`, with its size and alt |
| Extract.SrcAlwaysPushed | server/scraper.ts:100-108 | a valid `src` is pushed even when its URL is already on the page, and a resolution that throws keeps the raw string |
| Extract.SrcSetDeduplicatedPageWide | server/scraper.ts:111-126 | after an element, its valid `srcset` URLs are on the page and those it added were new to the whole page |
| Extract.PageImagesPrefix | server/scraper.ts:80-127 | the images of the first elements are a prefix of the page's images |
| Extract.PageImagesFromElements | server/scraper.ts:80-127 | every image of the page comes from one of its elements |
| Extract.RepeatedSrcKept | server/scraper.ts:100-108 | two identical elements with a valid `src` and no `srcset` give the record twice |
| Extract.SrcOnlyStep | server/scraper.ts:99-126 | an element with a valid `src` and no `srcset` appends exactly its `src` record |
| Extract.PageImagesSnoc | server/scraper.ts:80-127 | one more element runs the callback once more, on the list built so far |
| Extract.SrcSetAlreadyOnPage | server/scraper.ts:111-126 | an element without `src` whose `srcset` URLs are all on the page adds nothing |
| Extract.AltOf | server/scraper.ts:84 | the `alt` attribute, or the empty string when it is missing or empty; every record of the element carries it (ElementStepRecords) |
| Extract.ResolveUrl | server/scraper.ts:91-97 | the resolved `href`, or the raw string when resolution throws (SrcAlwaysPushed) |
| Extract.SrcStep | server/scraper.ts:100-108 | the `src` step; SrcAlwaysPushed states that a valid `src` is pushed without a check |
| Extract.AddCandidate | server/scraper.ts:114-123 | one `srcset` candidate; AddCandidatesFresh and AddCandidatesCover state when it is pushed |
| Extract.AddCandidates | server/scraper.ts:111-126 | the `srcset` loop, computed by AddSrcSetUrls; its meaning is stated by AddCandidatesExtends, AddCandidatesFresh, AddCandidatesCover and AddCandidatesRecords |
| Extract.HasUrl | server/scraper.ts:116 | `images.some(img => img.url === imageUrl)`; AddCandidatesFresh states that a candidate is pushed only when it is false, SrcAlwaysPushed that the `src` push ignores it |
| Extract.ElementStep | server/scraper.ts:80-127 | one run of the `each` callback, computed by ProcessElement; its meaning is stated by ElementStepRecords and SrcSetDeduplicatedPageWide |
| Extract.PageImages | server/scraper.ts:80-127 | the page's list, computed by ExtractImages; PageImagesPrefix and PageImagesFromElements state its meaning |
| Scrape.Tag | server/scraper.ts:38-41 | tagged images keep their page record and carry the page URL |
| Scrape.ScrapeImages | server/scraper.ts:24-62 | the whole function returns exactly `Pipeline` of the fetch outcomes and options |
| Scrape.SettleAll | server/scraper.ts:30-31 | the settle loop returns one settled result per URL, in request order: the page's images when its fetch loaded, a rejection when it failed |
| Scrape.CombineResults | server/scraper.ts:34-46 | the `forEach` loop returns exactly `Combined` |
| Scrape.CombinedAppend | server/scraper.ts:36-46 | two batches of sources combine to the two combinations, in order |
| Scrape.CombinedOne | server/scraper.ts:37-45 | a rejected page adds nothing; a fulfilled page adds its images tagged with its URL |
| Scrape.RejectedContributesNothing | server/scraper.ts:43-45 | a failed page neither contributes nor disturbs the others |
| Scrape.CombinedSources | server/scraper.ts:36-46 | every combined image is an image of a fulfilled page, tagged with that page's URL |
| Scrape.AllRejectedIsEmpty | server/scraper.ts:34-46 | when every page is rejected nothing is combined |
| Scrape.AllFetchesFail | server/scraper.ts:24-62 | when every fetch fails the result is empty, whatever the options |
| Scrape.OptionsOffUnchanged | server/scraper.ts:48-57 | with both options off the combined list is returned unchanged |
| Scrape.DefaultOptionsResult | server/scraper.ts:12-57 | with the default options the result is an in-order selection of distinct digests, each image passing the size test |
| Scrape.PostProcessIdempotent | server/scraper.ts:48-57 | running the passes again changes nothing |
| Scrape.FilterKeys | server/scraper.ts:49-55 | the size filter introduces no digest |
| Scrape.PassesShorten | server/scraper.ts:48-57 | both passes give at most what either alone gives, and either alone at most the combined list |
| Scrape.FilterRunsBeforeDedup | server/scraper.ts:49-55 | the order of the passes shows: small then large image with one URL gives the large one, where deduplicating first would leave nothing |
| Scrape.Contribution | server/scraper.ts:37-45 | what one settled result adds; CombinedOne states both cases |
| Scrape.Combined | server/scraper.ts:34-46 | the concatenation the `forEach` loop builds, computed by CombineResults; CombinedAppend, CombinedSources and RejectedContributesNothing state its meaning |
| Scrape.PostProcess | server/scraper.ts:48-57 | the two optional passes in order; OptionsOffUnchanged, DefaultOptionsResult, PostProcessIdempotent and PassesShorten state its meaning |
| Scrape.Pipeline | server/scraper.ts:24-57 | the whole of `scrapeImages`, computed by ScrapeImages; AllFetchesFail states the all-failure case |
| UrlInput.IsValidUrlIff | client/src/lib/utils.ts:8-24 | a URL is valid exactly when it parses, its scheme is `http:` or `https:` and its host name holds a dot |
| UrlInput.IsValidUrl | client/src/lib/utils.ts:8-24 | `isValidUrl`; its meaning is stated by IsValidUrlIff and the four example lemmas |
| UrlInput.HostnameChecksAgree | client/src/lib/utils.ts:16-17 | the two host-name tests agree |
| UrlInput.SplitHasSeparator | client/src/lib/utils.ts:16-17 | a split gives at least two pieces exactly when a separator occurs |
| UrlInput.OtherSchemeRejected | client/src/lib/utils.ts:12-14 | `ftp://example.com` is refused |
| UrlInput.DottedHttpsAccepted | client/src/lib/utils.ts:8-24 | `https://example.com` is accepted |
| UrlInput.UndottedHostRejected | client/src/lib/utils.ts:16-19 | a host without a dot such as `localhost` is refused |
| UrlInput.TrailingDotAccepted | client/src/lib/utils.ts:16-20 | a host with an empty part such as `example.` passes |
| UrlInput.GetDomainFromUrlMeaning | client/src/lib/utils.ts:56-63 | the host name when the URL parses, the input unchanged otherwise; the domain of a valid URL holds a dot |
| UrlInput.GetDomainFromUrl | client/src/lib/utils.ts:56-63 | `getDomainFromUrl`; its meaning is stated by GetDomainFromUrlMeaning |
| UrlInput.SplitOnRuns | client/src/lib/utils.ts:31 | the run split gives at least one piece |
| UrlInput.WithScheme | client/src/lib/utils.ts:36-41 | the result starts with `http://` or `https://` and ends with the token: only a prefix is added |
| UrlInput.Prefixed | client/src/lib/utils.ts:36-41 | one URL per token, in order; every URL starts with `http://` or `https://`; a token that had either prefix is kept as it is, any other gets `https://` in front |
| UrlInput.BlankInputGivesNothing | client/src/lib/utils.ts:27 | empty or white-space-only input gives no URL |
| UrlInput.ParseUrlsShape | client/src/lib/utils.ts:26-42 | every URL found starts with `http://` or `https://`, holds no comma or line feed and is trimmed |
| UrlInput.WithSchemeIdempotent | client/src/lib/utils.ts:36-41 | an existing `http://` or `https://` is kept, anything else gets `https://`, and prefixing twice is prefixing once |
| UrlInput.BareHostGetsHttps | client/src/lib/utils.ts:37-38 | `example.com` becomes `https://example.com` |
| UrlInput.BareHostParsed | client/src/lib/utils.ts:26-42 | the input `example.com` parses to the one URL `https://example.com` |
| UrlInput.EarlyReturnAgrees | client/src/lib/utils.ts:27-33 | neither the early return nor the collapsing of separator runs changes the result |
| UrlInput.RunsAgree | client/src/lib/utils.ts:31-33 | splitting on runs and at each separator agree once empty pieces are dropped |
| UrlInput.ParseUrlsAtSeparator | client/src/lib/utils.ts:26-42 | text before and after a separator is parsed independently, results concatenated in input order |
| UrlInput.TokensOfTokens | client/src/lib/utils.ts:32-33 | trimmed nonempty tokens pass through the map and filter unchanged |
| UrlInput.ParseUrlsOfJoin | client/src/lib/utils.ts:26-42 | tokens joined by a comma or line feed are read back in order, each with its scheme |
| UrlInput.ParseUrlsIdempotent | client/src/lib/utils.ts:26-42 | parsing the URLs joined back with commas gives the same URLs |
| UrlInput.Kept | client/src/lib/utils.ts:32-33 | one piece trimmed and dropped when empty; TokensShape and TokensOfTokens state what passes |
| UrlInput.Tokens | client/src/lib/utils.ts:32-33 | the map and filter over all pieces; TokensShape states that every token is trimmed, nonempty and separator-free |
| UrlInput.ParseUrls | client/src/lib/utils.ts:26-42 | `parseUrls`; its meaning is stated by BlankInputGivesNothing, ParseUrlsShape, ParseUrlsAtSeparator, ParseUrlsOfJoin and ParseUrlsIdempotent |

## Left out

- Network and HTML: `axios.get` (headers, 10-second timeout) and `cheerio.load` are not modelled; a page is given as its outcome, a list of `img` attribute maps or a failure.
- Concurrency: `Promise.allSettled` runs the fetches in parallel; the model settles them one after another, which gives the same ordered list of results.
- Logging (`console.error`) is omitted; it does not affect results.
- The outer `try`/`catch` of `scrapeImages` rethrows errors the combining and filtering code cannot raise on the modelled inputs, so it is not modelled.
- MD5 is the parameter `hash`; no property of MD5 is assumed, so two URLs with colliding digests are treated as one image, as the code does.
- URL parsing and resolution (WHATWG URL, RFC 3986 reference resolution) are parameters; only the fields `protocol`, `hostname` and `href` are read.
- `JsText.ToLower`: only the ASCII letters `A`-`Z` are lowered; every other character is kept, so the Unicode case mappings of `toLowerCase` (for example U+0130, which becomes two code units) are not modelled.
- JavaScript strings are sequences of UTF-16 code units, while the model's strings are sequences of Unicode scalar values. Nothing modelled depends on the difference: every separator and pattern involved (white space for `trim`, `,`, `.`, `\n`, the extensions, `data:image`) is a single code unit of the Basic Multilingual Plane, and lone surrogates are not modelled.
- `ImageUrl.IsValidImageUrl`: `toLowerCase` is modelled on ASCII letters only, as `JsText.ToLower` says; other case mappings are not modelled.
- `Images.Dimension`: numbers are unbounded integers; `parseInt`'s loss of precision above 2^53 is not modelled.
- `ScrapeOptions` with missing fields (a partial options object) is not modelled; both fields are always given.
- `fileSize` of `ImageData` is never set by the scraper and is not modelled.
- `cn` and `formatBytes` in `client/src/lib/utils.ts`, and the UI, authentication, storage and routing code, are outside this model.
