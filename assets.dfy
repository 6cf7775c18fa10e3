/** The `images` and `links` collections of `parseMeta` (the same code in both
    revisions): candidates from `<img src>` and `<a href>`, a filter, and a
    first-occurrence de-duplication through a hash object. */
module Assets {
  import opened Js
  import opened Page

  // ---------------------------------------------------------------------
  // First-occurrence de-duplication

  /** No value occurs twice. */
  predicate Distinct(s: seq<string>) {
    forall i, j :: 0 <= i < j < |s| ==> s[i] != s[j]
  }

  /** The values of `s`, each kept only at its first occurrence. */
  function Dedup(s: seq<string>): seq<string> {
    if s == [] then []
    else
      var d := Dedup(s[..|s| - 1]);
      if s[|s| - 1] in d then d else d + [s[|s| - 1]]
  }

  /** The position of the first occurrence of `x` in `s`. */
  function FirstIndex(s: seq<string>, x: string): (k: nat)
    requires x in s
    ensures k < |s| && s[k] == x
    ensures forall j :: 0 <= j < k ==> s[j] != x
  {
    if s[0] == x then 0 else 1 + FirstIndex(s[1..], x)
  }

  lemma {:induction false} DedupMembers(s: seq<string>)
    ensures forall x :: x in Dedup(s) <==> x in s
  {
    if s != [] {
      var p := s[..|s| - 1];
      DedupMembers(p);
      assert s == p + [s[|s| - 1]];
    }
  }

  lemma {:induction false} DedupDistinct(s: seq<string>)
    ensures Distinct(Dedup(s))
  {
    if s != [] {
      DedupDistinct(s[..|s| - 1]);
    }
  }

  /** A value of `s` that already occurs in the prefix `p` is first found inside `p`. */
  lemma FirstIndexInPrefix(p: seq<string>, s: seq<string>, x: string)
    requires p <= s && x in p
    ensures FirstIndex(s, x) == FirstIndex(p, x)
  {
  }

  /** Appending one value adds it to the de-duplicated sequence exactly when it is new. */
  lemma DedupSnoc(s: seq<string>, x: string)
    ensures Dedup(s + [x]) == if x in Dedup(s) then Dedup(s) else Dedup(s) + [x]
  {
  }

  /** The values of `d` occur in `s`, and in the order of their first occurrence in `s`. */
  ghost predicate InFirstOccurrenceOrder(s: seq<string>, d: seq<string>) {
    && (forall x :: x in d ==> x in s)
    && forall i, j :: 0 <= i < j < |d| ==> d[i] in s && d[j] in s && FirstIndex(s, d[i]) < FirstIndex(s, d[j])
  }

  lemma {:induction false} DedupOrder(s: seq<string>)
    ensures InFirstOccurrenceOrder(s, Dedup(s))
  {
    DedupMembers(s);
    if s != [] {
      var p := s[..|s| - 1];
      var last := s[|s| - 1];
      var d := Dedup(p);
      DedupOrder(p);
      DedupMembers(p);
      var ds := Dedup(s);
      forall i, j | 0 <= i < j < |ds|
        ensures ds[i] in s && ds[j] in s && FirstIndex(s, ds[i]) < FirstIndex(s, ds[j])
      {
        var a, b := ds[i], ds[j];
        assert a in d by { assert i < |d|; assert a == d[i]; }
        FirstIndexInPrefix(p, s, a);
        if j < |d| {
          assert b == d[j];
          FirstIndexInPrefix(p, s, b);
        } else {
          assert b == last && last !in p;
          assert FirstIndex(s, b) == |s| - 1;
        }
      }
      forall x | x in ds ensures x in s { }
    }
  }

  /** What the de-duplication promises: exactly the values of `s`, each once, in the
      order of their first occurrence. */
  lemma DedupSpec(s: seq<string>)
    ensures forall x :: x in Dedup(s) <==> x in s
    ensures Distinct(Dedup(s))
    ensures InFirstOccurrenceOrder(s, Dedup(s))
  {
    DedupMembers(s);
    DedupDistinct(s);
    DedupOrder(s);
  }

  // ---------------------------------------------------------------------
  // Images

  /** The alternatives of `/\.(jpeg|jpg|gif|png|JPEG|JPG|GIF|PNG)$/`. */
  const ImageExtensions: seq<string> := [".jpeg", ".jpg", ".gif", ".png", ".JPEG", ".JPG", ".GIF", ".PNG"]

  /** The image-extension regular expression matches `s`. */
  predicate HasImageExtension(s: string) {
    exists k :: 0 <= k < |ImageExtensions| && EndsWith(s, ImageExtensions[k])
  }

  /** The value the `map` step gives an `<img>`: its resolved `src`, or "" when `src` is falsy. */
  function ImageCandidate(resolve: (string, string) -> string, url: string, e: Element): string {
    var src := Attr(e, "src");
    if Truthy(src) then resolve(url, src.value) else ""
  }

  /** The `<img>` candidates that pass the extension filter, in document order. */
  function ImageCandidates(resolve: (string, string) -> string, url: string, doc: Doc): seq<string> {
    if doc == [] then []
    else
      var e := doc[|doc| - 1];
      var c := ImageCandidate(resolve, url, e);
      ImageCandidates(resolve, url, doc[..|doc| - 1])
        + (if e.tag == "img" && HasImageExtension(c) then [c] else [])
  }

  /** The `images` field: the filtered candidates without repetitions. */
  function ImageUrls(resolve: (string, string) -> string, url: string, doc: Doc): seq<string> {
    Dedup(ImageCandidates(resolve, url, doc))
  }

  /** An `<img>` of the document contributes `x`: its `src` is a non-empty string that
      resolves to `x`, and `x` ends in one of the image extensions. */
  ghost predicate ImageSource(resolve: (string, string) -> string, url: string, doc: Doc, x: string) {
    exists i :: 0 <= i < |doc| && doc[i].tag == "img" && Truthy(Attr(doc[i], "src"))
      && resolve(url, Attr(doc[i], "src").value) == x && HasImageExtension(x)
  }

  lemma {:induction false} ImageCandidatesMembers(resolve: (string, string) -> string, url: string, doc: Doc)
    ensures forall x :: x in ImageCandidates(resolve, url, doc) <==> ImageSource(resolve, url, doc, x)
  {
    if doc != [] {
      var p := doc[..|doc| - 1];
      var n := |doc| - 1;
      ImageCandidatesMembers(resolve, url, p);
      forall x ensures x in ImageCandidates(resolve, url, doc) <==> ImageSource(resolve, url, doc, x) {
        if ImageSource(resolve, url, p, x) {
          var i :| 0 <= i < |p| && p[i].tag == "img" && Truthy(Attr(p[i], "src"))
            && resolve(url, Attr(p[i], "src").value) == x && HasImageExtension(x);
          assert doc[i] == p[i];
        }
        if ImageSource(resolve, url, doc, x) {
          var i :| 0 <= i < |doc| && doc[i].tag == "img" && Truthy(Attr(doc[i], "src"))
            && resolve(url, Attr(doc[i], "src").value) == x && HasImageExtension(x);
          if i < n { assert doc[i] == p[i]; }
        }
      }
    }
  }

  /** The `images` promise: exactly the resolved, non-empty `src` values with an image
      extension, each once, in the order of their first occurrence. */
  lemma ImagesSpec(resolve: (string, string) -> string, url: string, doc: Doc)
    ensures forall x :: x in ImageUrls(resolve, url, doc) <==> ImageSource(resolve, url, doc, x)
    ensures forall x :: x in ImageUrls(resolve, url, doc) ==> HasImageExtension(x) && x != ""
    ensures Distinct(ImageUrls(resolve, url, doc))
    ensures InFirstOccurrenceOrder(ImageCandidates(resolve, url, doc), ImageUrls(resolve, url, doc))
  {
    ImageCandidatesMembers(resolve, url, doc);
    DedupSpec(ImageCandidates(resolve, url, doc));
  }

  lemma ImageCandidatesStep(resolve: (string, string) -> string, url: string, doc: Doc, i: nat)
    requires i < |doc|
    ensures ImageCandidates(resolve, url, doc[..i + 1]) == ImageCandidates(resolve, url, doc[..i])
      + (if doc[i].tag == "img" && HasImageExtension(ImageCandidate(resolve, url, doc[i]))
         then [ImageCandidate(resolve, url, doc[i])] else [])
  {
    assert doc[..i + 1][..i] == doc[..i];
  }

  /** The `$('img').map(…).filter(…).filter(…)` chain; `seen` is the `imagehash` object. */
  method CollectImages(resolve: (string, string) -> string, url: string, doc: Doc) returns (images: seq<string>)
    ensures images == ImageUrls(resolve, url, doc)
  {
    var seen: set<string> := {};
    images := [];
    var i := 0;
    while i < |doc|
      invariant 0 <= i <= |doc|
      invariant images == Dedup(ImageCandidates(resolve, url, doc[..i]))
      invariant forall x :: x in seen <==> x in images
    {
      var c := ImageCandidate(resolve, url, doc[i]);
      var matches := doc[i].tag == "img" && HasImageExtension(c);
      ImageCandidatesStep(resolve, url, doc, i);
      if matches {
        DedupSnoc(ImageCandidates(resolve, url, doc[..i]), c);
        if c !in seen {
          seen := seen + {c};
          images := images + [c];
        }
      } else {
        assert ImageCandidates(resolve, url, doc[..i + 1]) == ImageCandidates(resolve, url, doc[..i]);
      }
      i := i + 1;
    }
    assert doc[..i] == doc;
  }

  // ---------------------------------------------------------------------
  // Links

  /** `href && href.trim().length && href[0] !== "#"`. */
  predicate LinkAccepted(href: Val) {
    Truthy(href) && |Trim(href.value)| != 0 && href.value[0] != '#'
  }

  /** The resolved `href` of every accepted `<a>`, in document order. */
  function LinkCandidates(resolve: (string, string) -> string, url: string, doc: Doc): seq<string> {
    if doc == [] then []
    else
      var e := doc[|doc| - 1];
      var href := Attr(e, "href");
      LinkCandidates(resolve, url, doc[..|doc| - 1])
        + (if e.tag == "a" && LinkAccepted(href) then [resolve(url, href.value)] else [])
  }

  /** The `links` field: the accepted candidates without repetitions. */
  function LinkUrls(resolve: (string, string) -> string, url: string, doc: Doc): seq<string> {
    Dedup(LinkCandidates(resolve, url, doc))
  }

  /** An `<a>` of the document contributes `x`: its `href` is not blank, does not start
      with `#`, and resolves to `x`. */
  ghost predicate LinkSource(resolve: (string, string) -> string, url: string, doc: Doc, x: string) {
    exists i :: 0 <= i < |doc| && doc[i].tag == "a" && "href" in doc[i].attrs
      && !Blank(doc[i].attrs["href"]) && doc[i].attrs["href"][0] != '#'
      && resolve(url, doc[i].attrs["href"]) == x
  }

  lemma LinkAcceptedMeans(e: Element)
    ensures LinkAccepted(Attr(e, "href")) <==>
      "href" in e.attrs && !Blank(e.attrs["href"]) && e.attrs["href"][0] != '#'
  {
    if "href" in e.attrs {
      TrimEmptyIffBlank(e.attrs["href"]);
    }
  }

  lemma {:induction false} LinkCandidatesMembers(resolve: (string, string) -> string, url: string, doc: Doc)
    ensures forall x :: x in LinkCandidates(resolve, url, doc) <==> LinkSource(resolve, url, doc, x)
  {
    if doc != [] {
      var p := doc[..|doc| - 1];
      var n := |doc| - 1;
      LinkCandidatesMembers(resolve, url, p);
      LinkAcceptedMeans(doc[n]);
      forall x ensures x in LinkCandidates(resolve, url, doc) <==> LinkSource(resolve, url, doc, x) {
        if LinkSource(resolve, url, p, x) {
          var i :| 0 <= i < |p| && p[i].tag == "a" && "href" in p[i].attrs
            && !Blank(p[i].attrs["href"]) && p[i].attrs["href"][0] != '#'
            && resolve(url, p[i].attrs["href"]) == x;
          assert doc[i] == p[i];
        }
        if LinkSource(resolve, url, doc, x) {
          var i :| 0 <= i < |doc| && doc[i].tag == "a" && "href" in doc[i].attrs
            && !Blank(doc[i].attrs["href"]) && doc[i].attrs["href"][0] != '#'
            && resolve(url, doc[i].attrs["href"]) == x;
          if i < n { assert doc[i] == p[i]; }
        }
      }
    }
  }

  /** The `links` promise: exactly the resolved `href`s that are not blank and not
      in-page fragments, each once, in the order of their first occurrence. */
  lemma LinksSpec(resolve: (string, string) -> string, url: string, doc: Doc)
    ensures forall x :: x in LinkUrls(resolve, url, doc) <==> LinkSource(resolve, url, doc, x)
    ensures Distinct(LinkUrls(resolve, url, doc))
    ensures InFirstOccurrenceOrder(LinkCandidates(resolve, url, doc), LinkUrls(resolve, url, doc))
  {
    LinkCandidatesMembers(resolve, url, doc);
    DedupSpec(LinkCandidates(resolve, url, doc));
  }

  lemma LinkCandidatesStep(resolve: (string, string) -> string, url: string, doc: Doc, i: nat)
    requires i < |doc|
    ensures LinkCandidates(resolve, url, doc[..i + 1]) == LinkCandidates(resolve, url, doc[..i])
      + (if doc[i].tag == "a" && LinkAccepted(Attr(doc[i], "href"))
         then [resolve(url, Attr(doc[i], "href").value)] else [])
  {
    assert doc[..i + 1][..i] == doc[..i];
  }

  /** The `$('a').map(…).filter(…)` chain; `seen` is the `linkhash` object. */
  method CollectLinks(resolve: (string, string) -> string, url: string, doc: Doc) returns (links: seq<string>)
    ensures links == LinkUrls(resolve, url, doc)
  {
    var seen: set<string> := {};
    links := [];
    var i := 0;
    while i < |doc|
      invariant 0 <= i <= |doc|
      invariant links == Dedup(LinkCandidates(resolve, url, doc[..i]))
      invariant forall x :: x in seen <==> x in links
    {
      var href := Attr(doc[i], "href");
      var accepted := doc[i].tag == "a" && LinkAccepted(href);
      LinkCandidatesStep(resolve, url, doc, i);
      if accepted {
        var c := resolve(url, href.value);
        DedupSnoc(LinkCandidates(resolve, url, doc[..i]), c);
        if c !in seen {
          seen := seen + {c};
          links := links + [c];
        }
      } else {
        assert LinkCandidates(resolve, url, doc[..i + 1]) == LinkCandidates(resolve, url, doc[..i]);
      }
      i := i + 1;
    }
    assert doc[..i] == doc;
  }
}
