/** The meta index of `parseMeta`: one pass over the `<meta>` elements in
    document order that fills the `metaData` dictionary from `property`/`name`
    and `content`, and (in the current revision) copies every `http-equiv`
    into the header dictionary. */
module MetaIndex {
  import opened Js
  import opened Page

  /** The effect of one `<meta>` on `metaData`: the lower-cased `property`, then the
      lower-cased `name`, each when truthy, is set to `content`. */
  function Write(m: Dict, e: Element): Dict {
    var content := Attr(e, "content");
    var property := Attr(e, "property");
    var name := Attr(e, "name");
    var m1 := if Truthy(property) then m[Lower(property.value) := content] else m;
    if Truthy(name) then m1[Lower(name.value) := content] else m1
  }

  /** `metaData` after the pass over `doc`. */
  function Index(doc: Doc): Dict {
    if doc == [] then map[]
    else
      var e := doc[|doc| - 1];
      var m := Index(doc[..|doc| - 1]);
      if e.tag == "meta" then Write(m, e) else m
  }

  /** Element `e` is a `<meta>` that writes key `k` of the index. */
  predicate Writes(e: Element, k: string) {
    && e.tag == "meta"
    && ((Truthy(Attr(e, "property")) && Lower(Attr(e, "property").value) == k)
        || (Truthy(Attr(e, "name")) && Lower(Attr(e, "name").value) == k))
  }

  /** `doc[i]` is the last element of `doc` that writes key `k`. */
  ghost predicate LastWriter(doc: Doc, k: string, i: int) {
    0 <= i < |doc| && Writes(doc[i], k) && forall j :: i < j < |doc| ==> !Writes(doc[j], k)
  }

  lemma WriteAt(m: Dict, e: Element, k: string)
    requires e.tag == "meta"
    ensures Writes(e, k) ==> k in Write(m, e) && Write(m, e)[k] == Attr(e, "content")
    ensures !Writes(e, k) ==> (k in Write(m, e) <==> k in m) && Get(Write(m, e), k) == Get(m, k)
  {
  }

  /** A key is in the meta index exactly when some `<meta>` writes it. */
  lemma {:induction false} IndexHas(doc: Doc, k: string)
    ensures k in Index(doc) <==> exists i :: 0 <= i < |doc| && Writes(doc[i], k)
  {
    if doc != [] {
      var n := |doc| - 1;
      var p := doc[..n];
      IndexHas(p, k);
      if doc[n].tag == "meta" {
        WriteAt(Index(p), doc[n], k);
      }
      if exists i :: 0 <= i < |p| && Writes(p[i], k) {
        var i :| 0 <= i < |p| && Writes(p[i], k);
        assert doc[i] == p[i];
      }
      if exists i :: 0 <= i < |doc| && Writes(doc[i], k) {
        var i :| 0 <= i < |doc| && Writes(doc[i], k);
        if i < n { assert p[i] == doc[i]; }
      }
    }
  }

  /** The value at a key is the `content` of the LAST `<meta>` that writes the key. */
  lemma {:induction false} IndexLastWins(doc: Doc, k: string, i: int)
    requires LastWriter(doc, k, i)
    ensures k in Index(doc) && Index(doc)[k] == Attr(doc[i], "content")
  {
    var n := |doc| - 1;
    var p := doc[..n];
    if doc[n].tag == "meta" {
      WriteAt(Index(p), doc[n], k);
    }
    if i < n {
      assert p[i] == doc[i];
      forall j | i < j < |p| ensures !Writes(p[j], k) { assert p[j] == doc[j]; }
      IndexLastWins(p, k, i);
      if doc[n].tag == "meta" {
        assert !Writes(doc[n], k);
      }
    }
  }

  /** A reference reading of one key, scanning backwards: the `content` of the last
      `<meta>` that writes `k`, `undefined` when none does. */
  function LastContent(doc: Doc, k: string): Val {
    if doc == [] then None
    else if Writes(doc[|doc| - 1], k) then Attr(doc[|doc| - 1], "content")
    else LastContent(doc[..|doc| - 1], k)
  }

  /** Looking a key up in the index built forwards agrees with the backward reading. */
  lemma {:induction false} IndexIsLastContent(doc: Doc, k: string)
    ensures Get(Index(doc), k) == LastContent(doc, k)
  {
    if doc != [] {
      var n := |doc| - 1;
      IndexIsLastContent(doc[..n], k);
      if doc[n].tag == "meta" {
        WriteAt(Index(doc[..n]), doc[n], k);
      }
    }
  }

  /** Every key of the meta index is lower-case. */
  lemma {:induction false} IndexKeysLowerCase(doc: Doc)
    ensures forall k :: k in Index(doc) ==> IsLowerCase(k)
  {
    if doc != [] {
      IndexKeysLowerCase(doc[..|doc| - 1]);
    }
  }

  /** The effect of one `<meta>` on the header dictionary: a truthy `http-equiv`, used
      verbatim as the key, is set to `content`. */
  function Declare(h: Dict, e: Element): Dict {
    var equiv := Attr(e, "http-equiv");
    if Truthy(equiv) then h[equiv.value := Attr(e, "content")] else h
  }

  /** The header dictionary after the pass over `doc`. */
  function Overlay(h: Dict, doc: Doc): Dict {
    if doc == [] then h
    else
      var e := doc[|doc| - 1];
      var m := Overlay(h, doc[..|doc| - 1]);
      if e.tag == "meta" then Declare(m, e) else m
  }

  /** Element `e` is a `<meta>` whose `http-equiv` is exactly `k`. */
  predicate Declares(e: Element, k: string) {
    e.tag == "meta" && Truthy(Attr(e, "http-equiv")) && Attr(e, "http-equiv").value == k
  }

  /** `doc[i]` is the last element of `doc` that declares header `k`. */
  ghost predicate LastDeclarer(doc: Doc, k: string, i: int) {
    0 <= i < |doc| && Declares(doc[i], k) && forall j :: i < j < |doc| ==> !Declares(doc[j], k)
  }

  lemma DeclareAt(h: Dict, e: Element, k: string)
    requires e.tag == "meta"
    ensures Declares(e, k) ==> k in Declare(h, e) && Declare(h, e)[k] == Attr(e, "content")
    ensures !Declares(e, k) ==> (k in Declare(h, e) <==> k in h) && Get(Declare(h, e), k) == Get(h, k)
  {
  }

  /** A header no `http-equiv` declares keeps its value (or its absence). */
  lemma {:induction false} OverlayUntouched(h: Dict, doc: Doc, k: string)
    requires forall i :: 0 <= i < |doc| ==> !Declares(doc[i], k)
    ensures k in Overlay(h, doc) <==> k in h
    ensures Get(Overlay(h, doc), k) == Get(h, k)
  {
    if doc != [] {
      var n := |doc| - 1;
      var p := doc[..n];
      forall i | 0 <= i < |p| ensures !Declares(p[i], k) { assert p[i] == doc[i]; }
      OverlayUntouched(h, p, k);
      if doc[n].tag == "meta" {
        DeclareAt(Overlay(h, p), doc[n], k);
      }
    }
  }

  /** A declared header holds the `content` of the LAST `<meta>` declaring it. */
  lemma {:induction false} OverlayLastWins(h: Dict, doc: Doc, k: string, i: int)
    requires LastDeclarer(doc, k, i)
    ensures k in Overlay(h, doc) && Overlay(h, doc)[k] == Attr(doc[i], "content")
  {
    var n := |doc| - 1;
    var p := doc[..n];
    if doc[n].tag == "meta" {
      DeclareAt(Overlay(h, p), doc[n], k);
    }
    if i < n {
      assert p[i] == doc[i];
      forall j | i < j < |p| ensures !Declares(p[j], k) { assert p[j] == doc[j]; }
      OverlayLastWins(h, p, k, i);
    }
  }

  /** A document without `http-equiv` leaves the header dictionary as it was. */
  lemma {:induction false} OverlayUnchanged(h: Dict, doc: Doc)
    requires forall i :: 0 <= i < |doc| ==> !Truthy(Attr(doc[i], "http-equiv"))
    ensures Overlay(h, doc) == h
  {
    if doc != [] {
      var p := doc[..|doc| - 1];
      forall i | 0 <= i < |p| ensures !Truthy(Attr(p[i], "http-equiv")) { assert p[i] == doc[i]; }
      OverlayUnchanged(h, p);
    }
  }

  /** The `Object.keys(meta).forEach(…)` pass: `metaData` and the header dictionary
      are updated in place, one `<meta>` at a time. */
  method BuildIndex(doc: Doc, header: Dict) returns (metaData: Dict, headers: Dict)
    ensures metaData == Index(doc)
    ensures headers == Overlay(header, doc)
  {
    metaData, headers := map[], header;
    var i := 0;
    while i < |doc|
      invariant 0 <= i <= |doc|
      invariant metaData == Index(doc[..i])
      invariant headers == Overlay(header, doc[..i])
    {
      assert doc[..i + 1][..i] == doc[..i];
      var e := doc[i];
      if e.tag == "meta" {
        var content := Attr(e, "content");
        var property, name, equiv := Attr(e, "property"), Attr(e, "name"), Attr(e, "http-equiv");
        if Truthy(property) {
          metaData := metaData[Lower(property.value) := content];
        }
        if Truthy(name) {
          metaData := metaData[Lower(name.value) := content];
        }
        if Truthy(equiv) {
          headers := headers[equiv.value := content];
        }
      }
      i := i + 1;
    }
    assert doc[..i] == doc;
  }

  /** The legacy pass: only `metaData` is filled in; `http-equiv` is ignored. */
  method BuildMetaData(doc: Doc) returns (metaData: Dict)
    ensures metaData == Index(doc)
  {
    metaData := map[];
    var i := 0;
    while i < |doc|
      invariant 0 <= i <= |doc|
      invariant metaData == Index(doc[..i])
    {
      assert doc[..i + 1][..i] == doc[..i];
      var e := doc[i];
      if e.tag == "meta" {
        var content := Attr(e, "content");
        var property, name := Attr(e, "property"), Attr(e, "name");
        if Truthy(property) {
          metaData := metaData[Lower(property.value) := content];
        }
        if Truthy(name) {
          metaData := metaData[Lower(name.value) := content];
        }
      }
      i := i + 1;
    }
    assert doc[..i] == doc;
  }
}
