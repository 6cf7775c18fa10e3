/** The record `parseMeta` returns, and the boolean flags that decide which of
    its fields are filled in. */
module Metadata {
  import opened Js

  /** A property of the result object: left out, or set (possibly to `undefined`). */
  datatype Field<+T> = Absent | Present(value: T)

  /** `if (flag) { response.x = value; }` */
  function Gate<T>(on: bool, value: T): (r: Field<T>)
    ensures r.Present? <==> on
    ensures r.Present? ==> r.value == value
  {
    if on then Present(value) else Absent
  }

  /** The names of the extraction flags. */
  datatype FlagName =
    | Title | Description | Type | Url | SiteName | Charset
    | Image | Meta | Images | Links | Headers | Language

  datatype Flags = Flags(
    title: bool, description: bool, pageType: bool, url: bool, siteName: bool, charset: bool,
    image: bool, meta: bool, images: bool, links: bool, headers: bool, language: bool)
  {
    /** The value of the flag called `n`. */
    function On(n: FlagName): bool {
      match n
      case Title => title
      case Description => description
      case Type => pageType
      case Url => url
      case SiteName => siteName
      case Charset => charset
      case Image => image
      case Meta => meta
      case Images => images
      case Links => links
      case Headers => headers
      case Language => language
    }
  }

  /** The value of flag `n` once `supplied` is merged over `d`. */
  function Pick(supplied: map<FlagName, bool>, n: FlagName, d: bool): bool {
    if n in supplied then supplied[n] else d
  }

  /** `_.merge(defaults, flags)` for a flat object of boolean flags. */
  function Merge(defaults: Flags, supplied: map<FlagName, bool>): Flags {
    Flags(
      Pick(supplied, Title, defaults.title), Pick(supplied, Description, defaults.description),
      Pick(supplied, Type, defaults.pageType), Pick(supplied, Url, defaults.url),
      Pick(supplied, SiteName, defaults.siteName), Pick(supplied, Charset, defaults.charset),
      Pick(supplied, Image, defaults.image), Pick(supplied, Meta, defaults.meta),
      Pick(supplied, Images, defaults.images), Pick(supplied, Links, defaults.links),
      Pick(supplied, Headers, defaults.headers), Pick(supplied, Language, defaults.language))
  }

  /** A supplied flag replaces its own key, and every other key keeps its default. */
  lemma MergeAt(defaults: Flags, supplied: map<FlagName, bool>, n: FlagName)
    ensures Merge(defaults, supplied).On(n) == if n in supplied then supplied[n] else defaults.On(n)
  {
    var m := Merge(defaults, supplied);
    assert m.On(n) == Pick(supplied, n, defaults.On(n)) by {
      match n
      case Title =>
      case Description =>
      case Type =>
      case Url =>
      case SiteName =>
      case Charset =>
      case Image =>
      case Meta =>
      case Images =>
      case Links =>
      case Headers =>
      case Language =>
    }
  }

  /** The result of `URI.parse(url)`: its components are not modelled, only the string parsed. */
  datatype Uri = Uri(source: string)

  /** The response object of `parseMeta`. `ampURL`'s `None` is JavaScript's `null`. */
  datatype FetchResult = FetchResult(
    uri: Uri,
    title: Field<string>,
    description: Field<Val>,
    pageType: Field<Val>,
    url: Field<string>,
    originalURL: Field<string>,
    ampURL: Field<Val>,
    siteName: Field<Val>,
    charset: Field<Val>,
    image: Field<Val>,
    meta: Field<map<string, Val>>,
    images: Field<seq<string>>,
    links: Field<seq<string>>,
    headers: Field<Dict>,
    language: Field<Val>)
  {
    /** Whether the field that flag `n` controls is set. */
    predicate Has(n: FlagName) {
      match n
      case Title => title.Present?
      case Description => description.Present?
      case Type => pageType.Present?
      case Url => url.Present?
      case SiteName => siteName.Present?
      case Charset => charset.Present?
      case Image => image.Present?
      case Meta => meta.Present?
      case Images => images.Present?
      case Links => links.Present?
      case Headers => headers.Present?
      case Language => language.Present?
    }
  }

  /** What `parseMeta` returns: the string "Invalid HTML", or the response object. */
  datatype Parsed = InvalidHtml | Extracted(result: FetchResult)
}
