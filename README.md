# metafetch metadata extraction, modelled in Dafny

metafetch fetches a web page and returns a metadata record for it: title,
description, type, canonical url, AMP url, site name, charset, Open Graph
image, the meta dictionary, the images and links of the page, the response
headers and the language. This project models the two revisions of its
extractor `parseMeta` and the two `fetch` front ends that surround it:

- `src/parser.ts` (current `parseMeta`). It loads the markup and removes
  `script`/`style`/`applet`/`embed`/`object`/`noscript` subtrees. It then
  reads the title text, the charset, the images and the links. One pass over
  the `<meta>` elements builds the lower-cased, last-wins meta dictionary and
  copies every `http-equiv` into the header object. Next it resolves the
  language. Last, it fills in every field whose flag is on, following the
  fallback chains (`og:title` then `<title>`, `og:description` then
  `description`, canonical link then `og:url` then the page url, resolved).
- `index.js` (legacy `parseMeta` and `Client.fetch`). The legacy parser has
  no removal, no `http-equiv` capture, no language, and no resolution of the
  canonical or AMP url (image and link urls are resolved as in the current
  parser). The
  legacy front end follows at most five redirects by hand before its GET.
- `src/index.ts` (the `Metafetch` class). It holds the `userAgent` state and
  `setUserAgent`. Its `fetch` strips the fragment, validates the url, merges
  flags and user agent, sends one GET, and dispatches `.pdf` urls to a
  placeholder body.

The page is modelled as the sequence of its elements in document order
(`Page.Doc`). Each element has a tag, its attributes, its text and the tags
of its ancestors. The markup loader, URI reference resolution (section 5.2
of RFC 3986) and the language guess are uninterpreted functions in
`Page.Env`. The HTTP client is a function from a request to the outcome its
callback sees (`Transport.Outcome`).

The specification functions are `Parser.Extract`/`Parser.Expected`,
`LegacyParser.Extract`/`LegacyParser.Expected`, `Client.FetchSpec` and
`LegacyClient.FetchSpec`/`LegacyClient.Chase`. Each imperative member is
proved equal to its specification function. The properties the source
promises are then proved as lemmas about those functions, against
independent reference definitions:
- the meta dictionary against `MetaIndex.LastContent`, a backward scan;
- the collections against membership, distinctness and first-occurrence
  order;
- the redirect loop against `LegacyClient.Hop`, the url reached after k
  redirects.

Behaviours of the code worth noting, which the model follows:
- The title is `og:title` first, then the `<title>` text. It is not trimmed,
  and the element text does not take precedence.
- `ampURL` is resolved against the page url, not against the canonical url.
  Both revisions set it to `null` when absent.
- There is no `<base href>` handling.
- The language header lookup is for exactly `Content-Language` or
  `content-language`, not case-insensitive. A statistical guess is made when
  no language is declared.
- An empty body is not rejected before extraction.
- In the current `fetch`, `url.split` runs before the `typeof url` test, and
  in the legacy `Client.fetch` it runs before the `url === undefined` test.
  A non-string url therefore never reaches either test, and the url is
  modelled as a string.
- In the legacy `Client.fetch` the GET of a `.pdf` url only checks for an
  error: the placeholder is parsed whether or not a reply arrived.

## Model

| member | source | states |
|---|---|---|
| Js.Lower | src/parser.ts:72-77 | `toLowerCase` keeps the length, lower-cases each character, and yields a lower-case string |
| Js.LowerOfLowerCase | src/parser.ts:72-77 | lower-casing an already lower-case key changes nothing |
| Js.TrimEmptyIffBlank | src/parser.ts:50 | `href.trim().length` is zero exactly when the href is all white space |
| Js.SplitHead | src/index.ts:46 | `split(sep)[0]` is a prefix without `sep`, ending at the first `sep` |
| Js.SliceLastIsSuffix | src/index.ts:91 | for a non-empty `t`, the last `n` characters, for `n` the length of `t`, equal `t` exactly when the string ends with `t` |
| Client.IsPdfMeansSuffix | src/index.ts:91 | a url is dispatched as a PDF exactly when it ends with `.pdf` |
| Page.First | src/parser.ts:63-64 | a selector's first match: none exactly when no element matches, otherwise the least matching position |
| Page.AttrOfFirst | src/parser.ts:28 | an attribute read from a selector is `undefined` when nothing matches, and otherwise the attribute of the first matching element |
| Page.StripMembers | src/parser.ts:16-21 | the removals keep exactly the elements outside removed subtrees, and never add any |
| Page.StripKeepsCleanDocument | src/parser.ts:16-21 | a document with nothing to remove is unchanged |
| Page.StripIdempotent | src/parser.ts:16-21 | removing twice is removing once |
| Page.StripDropsRemoved | src/parser.ts:16-21 | a removed element appended to a document changes nothing |
| Page.StripConcat | src/parser.ts:16-21 | removal decides element by element: it distributes over concatenation and keeps the order of what remains |
| Page.StripDropsRemovedAnywhere | src/parser.ts:16-21 | a removed element at any position changes nothing |
| Metadata.MergeAt | src/index.ts:74 | merging flags replaces exactly the supplied keys and keeps every other default |
| Assets.DedupMembers | src/parser.ts:42-44 | the hash filter keeps exactly the values that occur |
| Assets.DedupDistinct | src/parser.ts:42-44 | the hash filter leaves no duplicates |
| Assets.DedupOrder | src/parser.ts:42-44 | the results keep the order in which values first occur |
| Assets.DedupSnoc | src/parser.ts:42-44 | a value passes the filter exactly when it has not been seen |
| Assets.DedupSpec | src/parser.ts:42-44 | first-occurrence de-duplication: same members, distinct, first-occurrence order |
| Assets.ImageCandidatesMembers | src/parser.ts:33-41 | a candidate image is exactly the resolved non-empty `src` of an `<img>` that passes the extension test |
| Assets.ImagesSpec | src/parser.ts:31-45 | `images` holds exactly those candidates, each with an image extension and non-empty, without duplicates and in first-occurrence order |
| Assets.CollectImages | src/parser.ts:31-45 | the map, filter and hash-filter pipeline computes exactly `ImageUrls` |
| Assets.LinkAcceptedMeans | src/parser.ts:50 | an href is accepted exactly when present, not blank, and not starting with `#` |
| Assets.LinkCandidatesMembers | src/parser.ts:48-54 | a candidate link is exactly the resolved href of an accepted `<a>` |
| Assets.LinksSpec | src/parser.ts:46-61 | `links` holds exactly those candidates, without duplicates and in first-occurrence order |
| Assets.CollectLinks | src/parser.ts:46-61 | the map, filter and hash-filter pipeline computes exactly `LinkUrls` |
| MetaIndex.WriteAt | src/parser.ts:72-77 | one `<meta>` sets the keys it writes (lower-cased `property`, `name`) to `content` and leaves every other key as it was |
| MetaIndex.IndexHas | src/parser.ts:69-82 | a key is in the meta dictionary exactly when some `<meta>` writes it |
| MetaIndex.IndexLastWins | src/parser.ts:69-82 | a key holds the `content` of the last `<meta>` that writes it |
| MetaIndex.IndexIsLastContent | src/parser.ts:69-82 | the forward pass agrees with a backward scan for the last writer of each key |
| MetaIndex.IndexKeysLowerCase | src/parser.ts:72-77 | every key of the meta dictionary is lower-case |
| MetaIndex.DeclareAt | src/parser.ts:78-80 | one `http-equiv` sets its verbatim key to `content` and leaves every other header as it was |
| MetaIndex.OverlayUntouched | src/parser.ts:78-80 | a header no `http-equiv` declares keeps its value or its absence |
| MetaIndex.OverlayLastWins | src/parser.ts:78-80 | a declared header holds the `content` of the last `<meta>` declaring it, overwriting a response header |
| MetaIndex.OverlayUnchanged | src/parser.ts:78-80 | without `http-equiv` the header object is the one given |
| MetaIndex.BuildIndex | src/parser.ts:69-82 | the `forEach` pass updates the dictionary and the header object to `Index` and `Overlay` |
| MetaIndex.BuildMetaData | index.js:58-68 | the legacy pass computes exactly `Index` and touches no header |
| Parser.ParseMeta | src/parser.ts:7-123 | the result is `Expected`; it is "Invalid HTML" exactly when the loader throws; the header object afterwards carries every `http-equiv` (`Overlay`), whatever the flags, and is the reported `headers` when that flag is on |
| Parser.ExtractFields | src/parser.ts:22-121 | the field-by-field construction equals `Extract` of the cleaned document, and leaves the header object as `Overlay` |
| Parser.QueryDocument | src/parser.ts:23-61 | the title text is read under its flag; charset, images and links are set exactly under theirs |
| Parser.ResolveLanguage | src/parser.ts:84-92 | the language is set only under its flag: the declared language cut at `-`, else the guess |
| Parser.UrlFields | src/parser.ts:105-109 | `url`, `originalURL` and `ampURL` are set together, only under the url flag |
| Parser.OpenGraphFields | src/parser.ts:96-115 | title, description, type, site name and image are set under their flags from the meta dictionary |
| Parser.Respond | src/parser.ts:94-121 | `uri` is always set; every other field is set exactly under its flag |
| Parser.FieldsFollowFlags | src/parser.ts:94-121 | a field is present exactly when its flag is on; `uri` is always present |
| Parser.TitleFromOpenGraph | src/parser.ts:96-98 | a non-empty `og:title` from the last writer is the title |
| Parser.TitleFromTitleElements | src/parser.ts:24-26 | without `og:title` the title is the text of the `<title>` elements |
| Parser.TitleChain | src/parser.ts:96-98 | the title is the last `og:title` content when non-empty, and the `<title>` text when it is empty or missing |
| Parser.MetaFallbacks | src/parser.ts:99-115 | description is `og:description` or else `description`; type, site name and image are their Open Graph keys, each the content of the last writer |
| Parser.CanonicalPrecedence | src/parser.ts:105-106 | `url` is the resolved canonical href, else `og:url`, else the page url |
| Parser.AmpFromFirstLink | src/parser.ts:64-68 | `ampURL` is the first `link[rel=amphtml]` href resolved against the page url, `null` when that href or its resolution is empty |
| Parser.AmpNullWithoutLink | src/parser.ts:108 | without a `link[rel=amphtml]`, `ampURL` is `null` |
| Parser.CharsetIsFirst | src/parser.ts:27-29 | `charset` is the attribute of the first `<meta charset>` |
| Parser.LanguageFromRoot | src/parser.ts:84-92 | a root `lang` gives the language up to its first `-`, which then contains no `-` |
| Parser.LanguageExamples | src/parser.ts:84-92 | `en-GB` gives `en`, `de-DE` gives `de` |
| Parser.LanguageFromXmlLang | src/parser.ts:84-92 | without `lang`, the root's `xml:lang` gives the language up to its first `-` |
| Parser.LanguageFromResponseHeader | src/parser.ts:84-92 | with nothing declared in the document, the `Content-Language` response header, else `content-language`, gives the language up to its first `-` |
| Parser.LanguageHeaderExample | src/parser.ts:84-92 | a `content-language: de-DE` response header gives `de` |
| Parser.LanguageFromHttpEquiv | src/parser.ts:78-92 | a `<meta http-equiv="Content-Language">` supplies the language when the root declares none |
| Parser.LanguageGuessed | src/parser.ts:84-88 | with no declared language anywhere the guess is used |
| Parser.RemovedElementIgnored | src/parser.ts:16-21 | an element inside removed content, at any position, cannot change the response |
| Parser.CleaningIsStable | src/parser.ts:16-21 | extracting from a cleaned document again gives the same response |
| LegacyParser.ParseMeta | index.js:10-98 | the result is `Expected`; there is none (an exception) exactly when the loader throws |
| LegacyParser.Respond | index.js:69-96 | every field is set under its flag; url is unresolved, `ampURL` is the raw href or `null`, headers default to `{}` |
| LegacyParser.UrlFields | index.js:80-84 | `url` is canonical, else `og:url`, else the page url, each unresolved |
| LegacyParser.NoLanguage | index.js:94-97 | the legacy response never has a language; its headers are the given ones or `{}` |
| LegacyParser.AgreesWithCurrent | index.js:14-92 | on a clean document both revisions agree on title, description, type, site name, charset, image, meta, images, links and `originalURL` |
| LegacyParser.ResolvesLegacyUrl | index.js:81 | the current `url` is the legacy one resolved against the page url |
| LegacyParser.HeadersWithoutHttpEquiv | index.js:94-96 | without `http-equiv` both revisions report the same headers |
| Client.Metafetch.constructor | src/index.ts:36 | the user agent starts as the fixed Firefox string |
| Client.Metafetch.SetUserAgent | src/index.ts:37-43 | a string replaces the user agent; anything else throws the fixed message and changes nothing |
| Client.Metafetch.Fetch | src/index.ts:44-131 | the report and the request sent are those of `FetchSpec` |
| Client.InvalidUrlIff | src/index.ts:85-87 | "Invalid URL" is reported, and nothing sent, exactly when nothing precedes the first `#` |
| Client.FragmentOnlyIsInvalid | src/index.ts:46 | a url starting with `#` is invalid |
| Client.RequestDropsFragment | src/index.ts:46 | the request url is the non-empty part of the url before its first `#` |
| Client.AgentPrecedence | src/index.ts:69-89 | the user agent sent is `options.userAgent` when truthy, else the instance's, over any supplied header |
| Client.RequestDefaults | src/index.ts:47-54 | without options the request has the html Accept header and a 20000 ms timeout |
| Client.FlagDefaults | src/index.ts:55-74 | all twelve flags default on; a supplied flag changes only its own key |
| Client.ResolvedOnlyFromSuccess | src/index.ts:94-128 | only a 2xx reply reaches the parser |
| Client.PdfUsesPlaceholder | src/index.ts:91-107 | a `.pdf` url is parsed from the placeholder body without headers |
| Client.HtmlIsParsed | src/index.ts:111-128 | other urls are parsed from the reply; "Invalid HTML" is the error exactly when the loader fails |
| LegacyClient.Fetch | index.js:100-199 | the report is `FetchSpec`; at most six urls are probed, the k-th being the url reached after k redirects, and none exactly when the url is invalid |
| LegacyClient.ChaseRedirects | index.js:136-183 | the HEAD loop ends as `Chase` says, probing the target first and then the urls reached by successive redirects |
| LegacyClient.Retrieve | index.js:155-191 | the GET step computes exactly the report `Finish` specifies |
| LegacyClient.FinishOutcomes | index.js:155-191 | after the HEAD: an error is passed on; a `.pdf` url is the legacy parse of the placeholder with no headers, whatever the reply; another url is the legacy parse of the reply's text and header, an exception with no reply or a throwing loader |
| LegacyClient.HopStep | index.js:152 | one more redirect moves to the target of the current url's reply |
| LegacyClient.TooManyIff | index.js:147-150 | "Too many redirects" is reported exactly when six successive replies are redirects |
| LegacyClient.ArrivalIsAHop | index.js:147-154 | a successful chase ends after at most five redirects, at the url they lead to, with a 2xx reply |
| LegacyClient.InvalidUrl | index.js:101-135 | "Invalid URL" is reported exactly when the url is empty or starts with `#` |
| LegacyClient.ChaseNeverInvalid | index.js:136-183 | the redirect chase never fails with "Invalid URL" |
| LegacyClient.SuppliedHeadersWin | index.js:103-127 | supplied headers override the defaults, including the generated user agent |
| LegacyClient.LegacyFlagDefaults | index.js:111-128 | eleven flags default on, language off; each supplied flag replaces only its own |

## Left out

- HTTP transport (superagent requests, redirect fetching, timeouts): the client is the `send` parameter, and its outcome is an input.
- The markup parser and its selector engine: the page is given as its elements in document order, and `$(sel).attr(a)` reads the first selected element.
- The element removals are modelled at element level: text inside removed descendants still counts towards an ancestor's `text`.
- `franc`/`langs` language detection: the uninterpreted `Env.detect`, already mapped to the two-letter code or `undefined`.
- The `replace(/\n\s*\n/g, '\n')` applied to the body text before detection is part of `Env.detect`.
- `URI.parse`: `Uri` only records the string parsed. `URI.resolve`: the uninterpreted `Env.resolve`.
- superagent-charset decoding: the request only records whether it is asked for (`Request.decodeCharset`).
- `_.merge` of the `http` options only merges `headers` and `timeout`. Other keys, `followRedirects` and non-boolean flag values are not modelled.
- The header object passed to `parseMeta` (the reply's `response.header`) is updated in place by the meta pass. The model has no shared object: `Parser.ParseMeta` returns the updated header object as the value `updated`, and the callers in `Client` discard it, as `fetch` never reads `response.header` again. When no header object is passed, the `{}` created for the call is discarded too.
- A `null` options object, which makes `options.http` throw, is not modelled; `Option<Options>` has no such case.
- A function passed as options (in the callback style) counts as no options object.
- Callback and promise plumbing (`finish`, `resolve`, `reject`) is not modelled. `Transport.Report` records how the call settles: rejected, resolved, settled with nothing, or thrown.
- A 3xx reply without a `location` header is not modelled; `Response.location` is always a string.
- The legacy user agent from `modern-random-ua` is a parameter of `LegacyClient.Fetch`.
- Js.Lower: ASCII letters only, not full Unicode `toLowerCase`.
- Assets.DedupSpec: uses ordinary set membership. A JavaScript object used as a hash treats the key `__proto__` specially. Also, a resolved url equal to `hasOwnProperty` becomes an own key of `linkhash`, and the next `hasOwnProperty` call then throws (src/parser.ts:59). Neither edge is modelled.
- MetaIndex.WriteAt: a JavaScript object treats the key `__proto__` specially, so `metaData["__proto__"] = content` adds no entry, while `Write` adds one; the same holds for `header["__proto__"]` and `Declare` (src/parser.ts:72-80). Not modelled.
- MetaIndex.WriteAt: when `property` and `name` of one `<meta>` lower-case to the same key, both write the same `content`, so "name wins" cannot be observed and is not stated separately.
- `sample.js` and the tests are not modelled. Behaviour the tests expect from code that is not present (JSON-LD, favicons, feeds, `twitter:image`) is not modelled either.
