/** The parsed page as the extractor sees it: the elements of the markup tree
    in document order, and the collaborators the extractor calls but does not
    implement (the markup loader, URI reference resolution, language guessing). */
module Page {
  import opened Js

  /** One element of the markup tree: its tag name, its attributes, its text
      content (the text of all its descendants) and the tag names of its
      ancestors, outermost first. */
  datatype Element = Element(tag: string, attrs: map<string, string>, text: string, ancestors: seq<string>)

  /** A document: every element of the tree, in document order. */
  type Doc = seq<Element>

  /** The collaborators of the extractor, left uninterpreted.
      - `load`: the markup loader; `None` when it throws.
      - `resolve(base, ref)`: reference resolution of `ref` against `base`.
      - `detect`: the statistical language guess over the body text of a
        document, already mapped to a two-letter code (`None` when no guess). */
  datatype Env = Env(
    load: string -> Option<Doc>,
    resolve: (string, string) -> string,
    detect: Doc -> Val)

  /** `element.attr(name)`: the attribute's value, `undefined` when absent. */
  function Attr(e: Element, name: string): Val {
    if name in e.attrs then Some(e.attrs[name]) else None
  }

  /** The position of the first element that `p` selects. */
  function First(doc: Doc, p: Element -> bool): (r: Option<nat>)
    ensures r.None? <==> forall i :: 0 <= i < |doc| ==> !p(doc[i])
    ensures r.Some? ==> r.value < |doc| && p(doc[r.value])
    ensures r.Some? ==> forall j :: 0 <= j < r.value ==> !p(doc[j])
  {
    if doc == [] then None
    else if p(doc[0]) then Some(0)
    else match First(doc[1..], p)
      case None => None
      case Some(i) => Some(i + 1)
  }

  /** `$(selector).attr(name)`: the attribute of the FIRST selected element
      (not of the first selected element that has it). */
  function AttrOfFirst(doc: Doc, p: Element -> bool, name: string): (r: Val)
    ensures (forall i :: 0 <= i < |doc| ==> !p(doc[i])) ==> r == None
    ensures forall i :: 0 <= i < |doc| && p(doc[i]) && (forall j :: 0 <= j < i ==> !p(doc[j])) ==> r == Attr(doc[i], name)
  {
    match First(doc, p)
    case None => None
    case Some(k) =>
      assert forall i :: 0 <= i < |doc| && p(doc[i]) && (forall j :: 0 <= j < i ==> !p(doc[j])) ==> i == k;
      Attr(doc[k], name)
  }

  /** `$(tag).text()`: the text of every element with that tag, concatenated in document order. */
  function Text(doc: Doc, tag: string): string {
    if doc == [] then ""
    else Text(doc[..|doc| - 1], tag) + (if doc[|doc| - 1].tag == tag then doc[|doc| - 1].text else "")
  }

  /** The element kinds the current parser removes, with their subtrees, before extracting. */
  const RemovedTags: set<string> := {"script", "style", "applet", "embed", "object", "noscript"}

  /** An element that survives the removals: neither it nor any ancestor is of a removed kind. */
  predicate Kept(e: Element) {
    e.tag !in RemovedTags && forall a :: a in e.ancestors ==> a !in RemovedTags
  }

  /** The document after `$('script').remove()` … `$('noscript').remove()`. */
  function Strip(doc: Doc): Doc {
    if doc == [] then []
    else Strip(doc[..|doc| - 1]) + (if Kept(doc[|doc| - 1]) then [doc[|doc| - 1]] else [])
  }

  /** The removals keep exactly the elements outside removed subtrees, and add none. */
  lemma {:induction false} StripMembers(doc: Doc)
    ensures forall e :: e in Strip(doc) <==> e in doc && Kept(e)
    ensures |Strip(doc)| <= |doc|
  {
    if doc != [] {
      var p := doc[..|doc| - 1];
      StripMembers(p);
      assert doc == p + [doc[|doc| - 1]];
    }
  }

  /** A document without removable content is left as it is. */
  lemma {:induction false} StripKeepsCleanDocument(doc: Doc)
    requires forall i :: 0 <= i < |doc| ==> Kept(doc[i])
    ensures Strip(doc) == doc
  {
    if doc != [] {
      var p := doc[..|doc| - 1];
      forall i | 0 <= i < |p| ensures Kept(p[i]) {
        assert p[i] == doc[i];
      }
      StripKeepsCleanDocument(p);
      assert Kept(doc[|doc| - 1]);
      assert p + [doc[|doc| - 1]] == doc;
    }
  }

  /** Removing twice removes nothing more. */
  lemma StripIdempotent(doc: Doc)
    ensures Strip(Strip(doc)) == Strip(doc)
  {
    var s := Strip(doc);
    StripMembers(doc);
    forall i | 0 <= i < |s| ensures Kept(s[i]) {
      assert s[i] in s;
    }
    StripKeepsCleanDocument(s);
  }

  /** Appending an element that is removed, or lies inside a removed subtree, changes nothing. */
  lemma StripDropsRemoved(doc: Doc, e: Element)
    requires !Kept(e)
    ensures Strip(doc + [e]) == Strip(doc)
  {
  }

  /** The removals decide element by element, so they distribute over concatenation:
      what remains keeps its document order. */
  lemma {:induction false} StripConcat(a: Doc, b: Doc)
    ensures Strip(a + b) == Strip(a) + Strip(b)
    decreases |b|
  {
    if b == [] {
      assert a + b == a;
    } else {
      var n := |b| - 1;
      StripConcat(a, b[..n]);
      assert (a + b)[..|a + b| - 1] == a + b[..n];
      assert (a + b)[|a + b| - 1] == b[n];
      assert b[..n] + [b[n]] == b;
    }
  }

  /** A removed element anywhere in the document can be left out before removing. */
  lemma StripDropsRemovedAnywhere(a: Doc, e: Element, b: Doc)
    requires !Kept(e)
    ensures Strip(a + [e] + b) == Strip(a + b)
  {
    StripConcat(a + [e], b);
    StripDropsRemoved(a, e);
    StripConcat(a, b);
  }
}
