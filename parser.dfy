/** The current `parseMeta(url, options, body, header)`: load the markup,
    remove non-content elements, build the meta index (capturing `http-equiv`
    into the headers), collect images and links, resolve the language, apply
    the fallback chains and fill in the fields whose flags are on. */
module Parser {
  import opened Js
  import opened Page
  import opened Metadata
  import opened Assets
  import opened MetaIndex

  /** `$("html").attr(name)`. */
  function HtmlAttr(doc: Doc, name: string): Val {
    AttrOfFirst(doc, (e: Element) => e.tag == "html", name)
  }

  /** `$("meta[charset]").attr("charset")`. */
  function CharsetOf(doc: Doc): Val {
    AttrOfFirst(doc, (e: Element) => e.tag == "meta" && "charset" in e.attrs, "charset")
  }

  /** `$("link[rel=<rel>]").attr('href')`. */
  function LinkHref(doc: Doc, rel: string): Val {
    AttrOfFirst(doc, (e: Element) => e.tag == "link" && Attr(e, "rel") == Some(rel), "href")
  }

  /** `metaData['og:title'] || title`. */
  function TitleOf(meta: Dict, title: string): string {
    var og := Get(meta, "og:title");
    if Truthy(og) then og.value else title
  }

  /** `canonicalURL || metaData['og:url'] || url`. */
  function CanonicalRef(doc: Doc, meta: Dict, url: string): string {
    var canonical := LinkHref(doc, "canonical");
    var og := Get(meta, "og:url");
    if Truthy(canonical) then canonical.value else if Truthy(og) then og.value else url
  }

  /** The resolved `<link rel=amphtml>` href, with a falsy result turned into `null` (`None`). */
  function AmpUrl(resolve: (string, string) -> string, url: string, doc: Doc): Val {
    var href := LinkHref(doc, "amphtml");
    var amp := if Truthy(href) then Some(resolve(url, href.value)) else href;
    if Truthy(amp) then amp else None
  }

  /** `$("html").attr("lang") || $("html").attr("xml:lang") || header["Content-Language"] || header["content-language"]`. */
  function DeclaredLanguage(doc: Doc, header: Dict): Val {
    Or(Or(Or(HtmlAttr(doc, "lang"), HtmlAttr(doc, "xml:lang")), Get(header, "Content-Language")),
       Get(header, "content-language"))
  }

  /** The `language` field: the declared language up to its first `-`, else the guess. */
  function LanguageOf(detect: Doc -> Val, doc: Doc, header: Dict): Val {
    var declared := DeclaredLanguage(doc, header);
    if !Truthy(declared) then detect(doc) else Some(SplitHead(declared.value, '-'))
  }

  /** The header object `parseMeta` works on: `header || {}`. */
  function HeaderOrEmpty(header: Option<Dict>): Dict {
    if header.Some? then header.value else map[]
  }

  /** The response object built from a document `doc` whose non-content elements are removed. */
  function Extract(env: Env, url: string, flags: Flags, doc: Doc, header: Dict): FetchResult {
    var meta := Index(doc);
    var headers := Overlay(header, doc);
    FetchResult(
      uri := Uri(url),
      title := Gate(flags.title, TitleOf(meta, Text(doc, "title"))),
      description := Gate(flags.description, Or(Get(meta, "og:description"), Get(meta, "description"))),
      pageType := Gate(flags.pageType, Get(meta, "og:type")),
      url := Gate(flags.url, env.resolve(url, CanonicalRef(doc, meta, url))),
      originalURL := Gate(flags.url, url),
      ampURL := Gate(flags.url, AmpUrl(env.resolve, url, doc)),
      siteName := Gate(flags.siteName, Get(meta, "og:site_name")),
      charset := Gate(flags.charset, CharsetOf(doc)),
      image := Gate(flags.image, Get(meta, "og:image")),
      meta := Gate(flags.meta, meta),
      images := Gate(flags.images, ImageUrls(env.resolve, url, doc)),
      links := Gate(flags.links, LinkUrls(env.resolve, url, doc)),
      headers := Gate(flags.headers, headers),
      language := Gate(flags.language, LanguageOf(env.detect, doc, headers)))
  }

  /** What `parseMeta(url, options, body, header)` returns. */
  function Expected(env: Env, url: string, flags: Flags, body: string, header: Option<Dict>): Parsed {
    match env.load(body)
    case None => InvalidHtml
    case Some(raw) => Extracted(Extract(env, url, flags, Strip(raw), HeaderOrEmpty(header)))
  }

  /** `parseMeta`: load the markup (a loader failure is reported as "Invalid HTML"
      and nothing else is computed), remove the non-content elements, then extract.
      `updated` is the header object after the call: the caller's own object, to which
      the meta pass has added every `http-equiv`, whether or not headers are reported. */
  method ParseMeta(env: Env, url: string, flags: Flags, body: string, header: Option<Dict>)
    returns (r: Parsed, updated: Dict)
    ensures r == Expected(env, url, flags, body, header)
    ensures r == InvalidHtml <==> env.load(body).None?
    ensures env.load(body).None? ==> updated == HeaderOrEmpty(header)
    ensures env.load(body).Some? ==> updated == Overlay(HeaderOrEmpty(header), Strip(env.load(body).value))
    ensures r.Extracted? && flags.headers ==> r.result.headers == Present(updated)
  {
    var h := HeaderOrEmpty(header);
    var loaded := env.load(body);
    if loaded.None? {
      return InvalidHtml, h;
    }
    var doc := Strip(loaded.value);
    var response;
    response, updated := ExtractFields(env, url, flags, doc, h);
    r := Extracted(response);
  }

  /** The body of `parseMeta` after loading: the document queries, the meta pass
      (which updates the header object in place), the language, then the response. */
  method ExtractFields(env: Env, url: string, flags: Flags, doc: Doc, header: Dict)
    returns (response: FetchResult, updated: Dict)
    ensures response == Extract(env, url, flags, doc, header)
    ensures updated == Overlay(header, doc)
  {
    var title, charset, images, links := QueryDocument(env.resolve, url, flags, doc);
    var canonicalURL := LinkHref(doc, "canonical");
    var ampURL := LinkHref(doc, "amphtml");
    if Truthy(ampURL) {
      ampURL := Some(env.resolve(url, ampURL.value));
    }
    var metaData;
    metaData, updated := BuildIndex(doc, header);
    var language := ResolveLanguage(env.detect, flags, doc, updated);
    response := Respond(env.resolve, url, flags, metaData, updated, title, canonicalURL, ampURL);
    response := response.(charset := charset, images := images, links := links, language := language);
  }

  /** The queries `parseMeta` makes before the meta pass: the title text (read only when
      the title flag is on), the charset, the images and the links. */
  method QueryDocument(resolve: (string, string) -> string, url: string, flags: Flags, doc: Doc)
    returns (title: string, charset: Field<Val>, images: Field<seq<string>>, links: Field<seq<string>>)
    ensures flags.title ==> title == Text(doc, "title")
    ensures charset == Gate(flags.charset, CharsetOf(doc))
    ensures images == Gate(flags.images, ImageUrls(resolve, url, doc))
    ensures links == Gate(flags.links, LinkUrls(resolve, url, doc))
  {
    title := "";
    if flags.title {
      title := Text(doc, "title");
    }
    charset := Absent;
    if flags.charset {
      charset := Present(CharsetOf(doc));
    }
    images := Absent;
    if flags.images {
      var found := CollectImages(resolve, url, doc);
      images := Present(found);
    }
    links := Absent;
    if flags.links {
      var found := CollectLinks(resolve, url, doc);
      links := Present(found);
    }
  }

  /** The language step, run after the meta pass so that an `http-equiv`
      `Content-Language` counts. */
  method ResolveLanguage(detect: Doc -> Val, flags: Flags, doc: Doc, header: Dict) returns (language: Field<Val>)
    ensures language == Gate(flags.language, LanguageOf(detect, doc, header))
  {
    language := Absent;
    if flags.language {
      var found := DeclaredLanguage(doc, header);
      if !Truthy(found) {
        found := detect(doc);
      } else {
        found := Some(SplitHead(found.value, '-'));
      }
      language := Present(found);
    }
  }

  /** The tail of `parseMeta`: the fields filled in from the meta index, the links and
      the header object, each under its flag (charset, images, links and language are
      set by the caller). */
  method Respond(resolve: (string, string) -> string, url: string, flags: Flags, metaData: Dict, header: Dict,
                 title: string, canonicalURL: Val, ampURL: Val) returns (response: FetchResult)
    ensures response.uri == Uri(url)
    ensures response.title == Gate(flags.title, TitleOf(metaData, title))
    ensures response.description == Gate(flags.description, Or(Get(metaData, "og:description"), Get(metaData, "description")))
    ensures response.pageType == Gate(flags.pageType, Get(metaData, "og:type"))
    ensures flags.url ==> response.url == Present(resolve(url, if Truthy(canonicalURL) then canonicalURL.value
                                                            else if Truthy(Get(metaData, "og:url")) then Get(metaData, "og:url").value
                                                            else url))
    ensures !flags.url ==> response.url == Absent
    ensures response.originalURL == Gate(flags.url, url)
    ensures response.ampURL == Gate(flags.url, if Truthy(ampURL) then ampURL else None)
    ensures response.siteName == Gate(flags.siteName, Get(metaData, "og:site_name"))
    ensures response.image == Gate(flags.image, Get(metaData, "og:image"))
    ensures response.meta == Gate(flags.meta, metaData)
    ensures response.headers == Gate(flags.headers, header)
  {
    var titleField, description, pageType, siteName, image := OpenGraphFields(flags, metaData, title);
    var canonical, original, amp := UrlFields(resolve, url, flags, metaData, canonicalURL, ampURL);
    var meta: Field<Dict> := Absent;
    if flags.meta {
      meta := Present(metaData);
    }
    var headers: Field<Dict> := Absent;
    if flags.headers {
      headers := Present(header);
    }
    response := FetchResult(Uri(url), titleField, description, pageType, canonical, original, amp, siteName,
                            Absent, image, meta, Absent, Absent, headers, Absent);
  }

  /** The `url`, `originalURL` and `ampURL` fields, set together under the url flag. */
  method UrlFields(resolve: (string, string) -> string, url: string, flags: Flags, metaData: Dict, canonicalURL: Val, ampURL: Val)
    returns (canonical: Field<string>, original: Field<string>, amp: Field<Val>)
    ensures flags.url ==> canonical == Present(resolve(url, if Truthy(canonicalURL) then canonicalURL.value
                                                            else if Truthy(Get(metaData, "og:url")) then Get(metaData, "og:url").value
                                                            else url))
    ensures !flags.url ==> canonical == Absent
    ensures original == Gate(flags.url, url)
    ensures amp == Gate(flags.url, if Truthy(ampURL) then ampURL else None)
  {
    canonical, original, amp := Absent, Absent, Absent;
    if flags.url {
      var og := Get(metaData, "og:url");
      var ref := if Truthy(canonicalURL) then canonicalURL.value else if Truthy(og) then og.value else url;
      canonical, original := Present(resolve(url, ref)), Present(url);
      amp := Present(if Truthy(ampURL) then ampURL else None);
    }
  }

  /** The fields read from the meta index alone: title, description, type, site name, image. */
  method OpenGraphFields(flags: Flags, metaData: Dict, title: string)
    returns (titleField: Field<string>, description: Field<Val>, pageType: Field<Val>, siteName: Field<Val>, image: Field<Val>)
    ensures titleField == Gate(flags.title, TitleOf(metaData, title))
    ensures description == Gate(flags.description, Or(Get(metaData, "og:description"), Get(metaData, "description")))
    ensures pageType == Gate(flags.pageType, Get(metaData, "og:type"))
    ensures siteName == Gate(flags.siteName, Get(metaData, "og:site_name"))
    ensures image == Gate(flags.image, Get(metaData, "og:image"))
  {
    titleField, description, pageType, siteName, image := Absent, Absent, Absent, Absent, Absent;
    if flags.title {
      var og := Get(metaData, "og:title");
      titleField := Present(if Truthy(og) then og.value else title);
    }
    if flags.description {
      description := Present(Or(Get(metaData, "og:description"), Get(metaData, "description")));
    }
    if flags.pageType {
      pageType := Present(Get(metaData, "og:type"));
    }
    if flags.siteName {
      siteName := Present(Get(metaData, "og:site_name"));
    }
    if flags.image {
      image := Present(Get(metaData, "og:image"));
    }
  }

  /** Exactly the fields whose flags are on are set (the uri is always set). */
  lemma FieldsFollowFlags(env: Env, url: string, flags: Flags, doc: Doc, header: Dict, n: FlagName)
    ensures Extract(env, url, flags, doc, header).Has(n) <==> flags.On(n)
    ensures Extract(env, url, flags, doc, header).uri == Uri(url)
    ensures Extract(env, url, flags, doc, header).originalURL.Present? <==> flags.url
    ensures Extract(env, url, flags, doc, header).ampURL.Present? <==> flags.url
  {
    var r := Extract(env, url, flags, doc, header);
    assert r.Has(n) <==> flags.On(n) by {
      match n
      case Title =>
      case Description =>
      case Type =>
      case Url =>
      case SiteName =>
      case Charset =>
      case Image =>
      case Meta =>
      case Images =>
      case Links =>
      case Headers =>
      case Language =>
    }
  }

  /** Title: the content of the last `<meta>` writing `og:title` when non-empty. */
  lemma TitleFromOpenGraph(env: Env, url: string, flags: Flags, doc: Doc, header: Dict, i: int)
    requires flags.title && LastWriter(doc, "og:title", i) && Truthy(Attr(doc[i], "content"))
    ensures Extract(env, url, flags, doc, header).title == Present(Attr(doc[i], "content").value)
  {
    IndexLastWins(doc, "og:title", i);
  }

  /** Title: the text of the `<title>` elements when no `<meta>` writes `og:title`. */
  lemma TitleFromTitleElements(env: Env, url: string, flags: Flags, doc: Doc, header: Dict)
    requires flags.title && forall i :: 0 <= i < |doc| ==> !Writes(doc[i], "og:title")
    ensures Extract(env, url, flags, doc, header).title == Present(Text(doc, "title"))
  {
    IndexHas(doc, "og:title");
  }

  /** The whole title chain, read from the document: the content of the last `<meta>`
      writing `og:title` when it is non-empty, otherwise (also when that content is empty
      or missing) the text of the `<title>` elements. */
  lemma TitleChain(env: Env, url: string, flags: Flags, doc: Doc, header: Dict)
    requires flags.title
    ensures var og := LastContent(doc, "og:title");
            Extract(env, url, flags, doc, header).title == Present(if Truthy(og) then og.value else Text(doc, "title"))
  {
    IndexIsLastContent(doc, "og:title");
  }

  /** The fallback chains, read key by key from the document rather than from the index:
      description is `og:description`, else `description`; type, site name and image are
      their Open Graph keys. */
  lemma MetaFallbacks(env: Env, url: string, flags: Flags, doc: Doc, header: Dict)
    ensures Extract(env, url, flags, doc, header).description ==
      Gate(flags.description, Or(LastContent(doc, "og:description"), LastContent(doc, "description")))
    ensures Extract(env, url, flags, doc, header).pageType == Gate(flags.pageType, LastContent(doc, "og:type"))
    ensures Extract(env, url, flags, doc, header).siteName == Gate(flags.siteName, LastContent(doc, "og:site_name"))
    ensures Extract(env, url, flags, doc, header).image == Gate(flags.image, LastContent(doc, "og:image"))
  {
    IndexIsLastContent(doc, "og:description");
    IndexIsLastContent(doc, "description");
    IndexIsLastContent(doc, "og:type");
    IndexIsLastContent(doc, "og:site_name");
    IndexIsLastContent(doc, "og:image");
  }

  /** The canonical url: the canonical link's href, else `og:url`, else the page url,
      resolved against the page url. */
  lemma CanonicalPrecedence(env: Env, url: string, flags: Flags, doc: Doc, header: Dict)
    requires flags.url
    ensures var canonical := LinkHref(doc, "canonical");
            var og := LastContent(doc, "og:url");
            Extract(env, url, flags, doc, header).url ==
              Present(env.resolve(url, if Truthy(canonical) then canonical.value else if Truthy(og) then og.value else url))
  {
    IndexIsLastContent(doc, "og:url");
  }

  /** The AMP url comes from the FIRST `<link rel=amphtml>`: its href resolved against the
      page url, and `null` when that link has no (or an empty) href or it resolves to "". */
  lemma AmpFromFirstLink(env: Env, url: string, flags: Flags, doc: Doc, header: Dict, i: nat)
    requires flags.url && i < |doc| && doc[i].tag == "link" && Attr(doc[i], "rel") == Some("amphtml")
    requires forall j :: 0 <= j < i ==> !(doc[j].tag == "link" && Attr(doc[j], "rel") == Some("amphtml"))
    ensures var href := Attr(doc[i], "href");
            Truthy(href) && env.resolve(url, href.value) != "" ==>
              Extract(env, url, flags, doc, header).ampURL == Present(Some(env.resolve(url, href.value)))
    ensures var href := Attr(doc[i], "href");
            !Truthy(href) || env.resolve(url, href.value) == "" ==>
              Extract(env, url, flags, doc, header).ampURL == Present(None)
  {
  }

  /** Without any `<link rel=amphtml>` the AMP url is `null`. */
  lemma AmpNullWithoutLink(env: Env, url: string, flags: Flags, doc: Doc, header: Dict)
    requires flags.url && forall i :: 0 <= i < |doc| ==> !(doc[i].tag == "link" && Attr(doc[i], "rel") == Some("amphtml"))
    ensures Extract(env, url, flags, doc, header).ampURL == Present(None)
  {
  }

  /** The charset is the attribute of the FIRST `<meta charset>`. */
  lemma CharsetIsFirst(env: Env, url: string, flags: Flags, doc: Doc, header: Dict, i: nat)
    requires flags.charset && i < |doc| && doc[i].tag == "meta" && "charset" in doc[i].attrs
    requires forall j :: 0 <= j < i ==> !(doc[j].tag == "meta" && "charset" in doc[j].attrs)
    ensures Extract(env, url, flags, doc, header).charset == Present(Some(doc[i].attrs["charset"]))
  {
    var p := (e: Element) => e.tag == "meta" && "charset" in e.attrs;
    var f := First(doc, p);
    assert p(doc[i]);
    assert f.Some?;
    assert !(f.value < i);
    assert !(i < f.value);
  }

  /** A language declared on the root element is cut at its first `-`. */
  lemma LanguageFromRoot(env: Env, url: string, flags: Flags, doc: Doc, header: Dict)
    requires flags.language && Truthy(HtmlAttr(doc, "lang"))
    ensures Extract(env, url, flags, doc, header).language == Present(Some(SplitHead(HtmlAttr(doc, "lang").value, '-')))
    ensures '-' !in Extract(env, url, flags, doc, header).language.value.value
  {
  }

  /** `<html lang="en-GB">` gives `en`; `<html lang="de-DE">` gives `de`. */
  lemma LanguageExamples(env: Env, url: string, flags: Flags, doc: Doc, header: Dict)
    requires flags.language
    ensures HtmlAttr(doc, "lang") == Some("en-GB") ==> Extract(env, url, flags, doc, header).language == Present(Some("en"))
    ensures HtmlAttr(doc, "lang") == Some("de-DE") ==> Extract(env, url, flags, doc, header).language == Present(Some("de"))
  {
    assert SplitHead("en-GB", '-') == "en" by {
      assert "en-GB"[1..] == "n-GB" && "n-GB"[1..] == "-GB";
    }
    assert SplitHead("de-DE", '-') == "de" by {
      assert "de-DE"[1..] == "e-DE" && "e-DE"[1..] == "-DE";
    }
  }

  /** Without `lang`, the root element's `xml:lang` supplies the language. */
  lemma LanguageFromXmlLang(env: Env, url: string, flags: Flags, doc: Doc, header: Dict)
    requires flags.language && !Truthy(HtmlAttr(doc, "lang")) && Truthy(HtmlAttr(doc, "xml:lang"))
    ensures Extract(env, url, flags, doc, header).language == Present(Some(SplitHead(HtmlAttr(doc, "xml:lang").value, '-')))
  {
  }

  /** With nothing declared in the document, the response header supplies the language:
      `Content-Language` first, then `content-language`. */
  lemma LanguageFromResponseHeader(env: Env, url: string, flags: Flags, doc: Doc, header: Dict)
    requires flags.language && !Truthy(HtmlAttr(doc, "lang")) && !Truthy(HtmlAttr(doc, "xml:lang"))
    requires forall i :: 0 <= i < |doc| ==> !Declares(doc[i], "Content-Language") && !Declares(doc[i], "content-language")
    ensures Truthy(Get(header, "Content-Language")) ==>
      Extract(env, url, flags, doc, header).language == Present(Some(SplitHead(Get(header, "Content-Language").value, '-')))
    ensures !Truthy(Get(header, "Content-Language")) && Truthy(Get(header, "content-language")) ==>
      Extract(env, url, flags, doc, header).language == Present(Some(SplitHead(Get(header, "content-language").value, '-')))
  {
    OverlayUntouched(header, doc, "Content-Language");
    OverlayUntouched(header, doc, "content-language");
  }

  /** A response header `content-language: de-DE` gives `de`. */
  lemma LanguageHeaderExample(env: Env, url: string, flags: Flags, doc: Doc)
    requires flags.language && !Truthy(HtmlAttr(doc, "lang")) && !Truthy(HtmlAttr(doc, "xml:lang"))
    requires forall i :: 0 <= i < |doc| ==> !Declares(doc[i], "Content-Language") && !Declares(doc[i], "content-language")
    ensures Extract(env, url, flags, doc, map["content-language" := Some("de-DE")]).language == Present(Some("de"))
  {
    var header: Dict := map["content-language" := Some("de-DE")];
    LanguageFromResponseHeader(env, url, flags, doc, header);
    assert SplitHead("de-DE", '-') == "de" by {
      assert "de-DE"[1..] == "e-DE" && "e-DE"[1..] == "-DE";
    }
  }

  /** A `<meta http-equiv="Content-Language">` supplies the language when the root
      element declares none, whatever the response headers said. */
  lemma LanguageFromHttpEquiv(env: Env, url: string, flags: Flags, doc: Doc, header: Dict, i: int)
    requires flags.language && !Truthy(HtmlAttr(doc, "lang")) && !Truthy(HtmlAttr(doc, "xml:lang"))
    requires LastDeclarer(doc, "Content-Language", i) && Truthy(Attr(doc[i], "content"))
    ensures Extract(env, url, flags, doc, header).language == Present(Some(SplitHead(Attr(doc[i], "content").value, '-')))
  {
    OverlayLastWins(header, doc, "Content-Language", i);
  }

  /** With no declared language anywhere, the language is the guess over the document. */
  lemma LanguageGuessed(env: Env, url: string, flags: Flags, doc: Doc, header: Dict)
    requires flags.language && !Truthy(HtmlAttr(doc, "lang")) && !Truthy(HtmlAttr(doc, "xml:lang"))
    requires !Truthy(Get(header, "Content-Language")) && !Truthy(Get(header, "content-language"))
    requires forall i :: 0 <= i < |doc| ==> !Declares(doc[i], "Content-Language") && !Declares(doc[i], "content-language")
    ensures Extract(env, url, flags, doc, header).language == Present(env.detect(doc))
  {
    OverlayUntouched(header, doc, "Content-Language");
    OverlayUntouched(header, doc, "content-language");
  }

  /** Content inside a removed element, wherever it sits in the document, never reaches the response. */
  lemma RemovedElementIgnored(env: Env, url: string, flags: Flags, a: Doc, e: Element, b: Doc, header: Dict)
    requires !Kept(e)
    ensures Extract(env, url, flags, Strip(a + [e] + b), header) == Extract(env, url, flags, Strip(a + b), header)
  {
    StripDropsRemovedAnywhere(a, e, b);
  }

  /** Extracting from an already cleaned document is the same as extracting from the
      raw one: removing twice changes nothing. */
  lemma CleaningIsStable(env: Env, url: string, flags: Flags, raw: Doc, header: Dict)
    ensures Extract(env, url, flags, Strip(Strip(raw)), header) == Extract(env, url, flags, Strip(raw), header)
  {
    StripIdempotent(raw);
  }
}
