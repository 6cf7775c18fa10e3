/** The legacy `parseMeta(url, options, body, header)`: the same queries as the
    current parser, but on the document as loaded (nothing is removed), with no
    `http-equiv` capture, no language, and no resolution of the canonical or AMP
    url. A loader failure is not caught: it escapes as an exception. */
module LegacyParser {
  import opened Js
  import opened Page
  import opened Metadata
  import opened Assets
  import opened MetaIndex
  import Parser

  /** The response object built from the document as loaded. */
  function Extract(env: Env, url: string, flags: Flags, doc: Doc, header: Option<Dict>): FetchResult {
    var meta := Index(doc);
    var amp := Parser.LinkHref(doc, "amphtml");
    FetchResult(
      uri := Uri(url),
      title := Gate(flags.title, Parser.TitleOf(meta, Text(doc, "title"))),
      description := Gate(flags.description, Or(Get(meta, "og:description"), Get(meta, "description"))),
      pageType := Gate(flags.pageType, Get(meta, "og:type")),
      url := Gate(flags.url, Parser.CanonicalRef(doc, meta, url)),
      originalURL := Gate(flags.url, url),
      ampURL := Gate(flags.url, if Truthy(amp) then amp else None),
      siteName := Gate(flags.siteName, Get(meta, "og:site_name")),
      charset := Gate(flags.charset, Parser.CharsetOf(doc)),
      image := Gate(flags.image, Get(meta, "og:image")),
      meta := Gate(flags.meta, meta),
      images := Gate(flags.images, ImageUrls(env.resolve, url, doc)),
      links := Gate(flags.links, LinkUrls(env.resolve, url, doc)),
      headers := Gate(flags.headers, Parser.HeaderOrEmpty(header)),
      language := Absent)
  }

  /** What the legacy `parseMeta` returns; `None` when the loader throws. */
  function Expected(env: Env, url: string, flags: Flags, body: string, header: Option<Dict>): Option<FetchResult> {
    match env.load(body)
    case None => None
    case Some(doc) => Some(Extract(env, url, flags, doc, header))
  }

  /** The legacy `parseMeta`, step by step. */
  method ParseMeta(env: Env, url: string, flags: Flags, body: string, header: Option<Dict>) returns (r: Option<FetchResult>)
    ensures r == Expected(env, url, flags, body, header)
    ensures r.None? <==> env.load(body).None?
  {
    var loaded := env.load(body);
    if loaded.None? {
      return None;
    }
    var doc := loaded.value;
    var title, charset, images, links := Parser.QueryDocument(env.resolve, url, flags, doc);
    var canonicalURL := Parser.LinkHref(doc, "canonical");
    var ampURL := Parser.LinkHref(doc, "amphtml");
    var metaData := BuildMetaData(doc);
    var response := Respond(url, flags, metaData, header, title, canonicalURL, ampURL);
    r := Some(response.(charset := charset, images := images, links := links));
  }

  /** The tail of the legacy `parseMeta`: every field but charset, images and links. */
  method Respond(url: string, flags: Flags, metaData: Dict, header: Option<Dict>,
                 title: string, canonicalURL: Val, ampURL: Val) returns (response: FetchResult)
    ensures response.uri == Uri(url)
    ensures response.title == Gate(flags.title, Parser.TitleOf(metaData, title))
    ensures response.description == Gate(flags.description, Or(Get(metaData, "og:description"), Get(metaData, "description")))
    ensures response.pageType == Gate(flags.pageType, Get(metaData, "og:type"))
    ensures response.url == Gate(flags.url, if Truthy(canonicalURL) then canonicalURL.value
                                            else if Truthy(Get(metaData, "og:url")) then Get(metaData, "og:url").value
                                            else url)
    ensures response.originalURL == Gate(flags.url, url)
    ensures response.ampURL == Gate(flags.url, if Truthy(ampURL) then ampURL else None)
    ensures response.siteName == Gate(flags.siteName, Get(metaData, "og:site_name"))
    ensures response.image == Gate(flags.image, Get(metaData, "og:image"))
    ensures response.meta == Gate(flags.meta, metaData)
    ensures response.headers == Gate(flags.headers, Parser.HeaderOrEmpty(header))
    ensures response.charset == Absent && response.images == Absent && response.links == Absent
    ensures response.language == Absent
  {
    var titleField, description, pageType, siteName, image := Parser.OpenGraphFields(flags, metaData, title);
    var canonical, original, amp := UrlFields(url, flags, metaData, canonicalURL, ampURL);
    var meta: Field<Dict> := Absent;
    if flags.meta {
      meta := Present(metaData);
    }
    var headers: Field<Dict> := Absent;
    if flags.headers {
      headers := Present(Parser.HeaderOrEmpty(header));
    }
    response := FetchResult(Uri(url), titleField, description, pageType, canonical, original, amp, siteName,
                            Absent, image, meta, Absent, Absent, headers, Absent);
  }

  /** `url`, `originalURL` and `ampURL`, neither of the first two resolved. */
  method UrlFields(url: string, flags: Flags, metaData: Dict, canonicalURL: Val, ampURL: Val)
    returns (canonical: Field<string>, original: Field<string>, amp: Field<Val>)
    ensures canonical == Gate(flags.url, if Truthy(canonicalURL) then canonicalURL.value
                                         else if Truthy(Get(metaData, "og:url")) then Get(metaData, "og:url").value
                                         else url)
    ensures original == Gate(flags.url, url)
    ensures amp == Gate(flags.url, if Truthy(ampURL) then ampURL else None)
  {
    canonical, original, amp := Absent, Absent, Absent;
    if flags.url {
      var og := Get(metaData, "og:url");
      canonical := Present(if Truthy(canonicalURL) then canonicalURL.value else if Truthy(og) then og.value else url);
      original := Present(url);
      amp := Present(if Truthy(ampURL) then ampURL else None);
    }
  }

  /** The legacy parser never reports a language, whatever the flags say. */
  lemma NoLanguage(env: Env, url: string, flags: Flags, body: string, header: Option<Dict>)
    requires env.load(body).Some?
    ensures Expected(env, url, flags, body, header).value.language == Absent
    ensures Expected(env, url, flags, body, header).value.headers == Gate(flags.headers, Parser.HeaderOrEmpty(header))
  {
  }

  /** On a document with nothing to remove, both revisions agree on title, description,
      type, site name, charset, image, meta, images, links and `originalURL`. `url` and
      `headers` are compared by `ResolvesLegacyUrl` and `HeadersWithoutHttpEquiv`; `ampURL`
      (resolved only by the current revision) and `language` (never set by the legacy one)
      are not compared. */
  lemma AgreesWithCurrent(env: Env, url: string, flags: Flags, doc: Doc, header: Dict)
    requires forall i :: 0 <= i < |doc| ==> Kept(doc[i])
    ensures var legacy := Extract(env, url, flags, doc, Some(header));
            var current := Parser.Extract(env, url, flags, Strip(doc), header);
            && legacy.title == current.title && legacy.description == current.description
            && legacy.pageType == current.pageType && legacy.siteName == current.siteName
            && legacy.charset == current.charset && legacy.image == current.image && legacy.meta == current.meta
            && legacy.images == current.images && legacy.links == current.links
            && legacy.originalURL == current.originalURL
  {
    StripKeepsCleanDocument(doc);
  }

  /** The current revision's url is the legacy one, resolved against the page url. */
  lemma ResolvesLegacyUrl(env: Env, url: string, flags: Flags, doc: Doc, header: Dict)
    requires flags.url
    ensures Parser.Extract(env, url, flags, doc, header).url ==
      Present(env.resolve(url, Extract(env, url, flags, doc, Some(header)).url.value))
  {
  }

  /** Without `http-equiv` in the document, the current revision reports the headers
      the legacy one does. */
  lemma HeadersWithoutHttpEquiv(env: Env, url: string, flags: Flags, doc: Doc, header: Dict)
    requires forall i :: 0 <= i < |doc| ==> !Truthy(Attr(doc[i], "http-equiv"))
    ensures Parser.Extract(env, url, flags, doc, header).headers == Extract(env, url, flags, doc, Some(header)).headers
  {
    OverlayUnchanged(header, doc);
  }
}
