/**
 * The `DOM` class of services/htmlParser.js: a parsed document that
 * `extractPart` changes in place and `getDocument` serialises.
 */
module HtmlParser {
  import opened Wrappers
  import opened JsString
  import opened HtmlTree

  /** The first value of the attribute called `name`. */
  function AttrValue(attrs: seq<Attr>, name: string): (r: Option<string>)
    ensures r.Some? ==> Attr(name, r.value) in attrs
    ensures r.None? <==> forall a :: a in attrs ==> a.name != name
  {
    if attrs == [] then None
    else if attrs[0].name == name then Some(attrs[0].value)
    else AttrValue(attrs[1..], name)
  }

  /**
   * The elements the selector `style, link[rel='stylesheet']` matches. In an
   * HTML document the value of `rel` is compared ASCII case-insensitively
   * (HTML Living Standard, "Case-sensitivity of selectors").
   */
  predicate IsStylesheetCarrier(n: Node)
    ensures n.Element? && n.tag == "style" ==> IsStylesheetCarrier(n)
    ensures IsStylesheetCarrier(n) ==>
      n.Element? && (n.tag == "style" ||
        (n.tag == "link" && AttrValue(n.attrs, "rel").Some? &&
         Attr("rel", AttrValue(n.attrs, "rel").value) in n.attrs &&
         AsciiLower(AttrValue(n.attrs, "rel").value) == "stylesheet"))
  {
    n.Element? &&
    (n.tag == "style" ||
     (n.tag == "link" && AttrValue(n.attrs, "rel").Some? && AsciiLower(AttrValue(n.attrs, "rel").value) == "stylesheet"))
  }

  /** A stylesheet link is collected whatever the letter case of its `rel` value. */
  lemma StylesheetRelIgnoresCase(attrs: seq<Attr>, rel: string)
    requires AttrValue(attrs, "rel") == Some(rel) && AsciiLower(rel) == "stylesheet"
    ensures IsStylesheetCarrier(Element("link", attrs, []))
    ensures IsStylesheetCarrier(Element("link", [Attr("rel", "StyleSheet")], []))
  {
    var mixed := "StyleSheet";
    assert AttrValue([Attr("rel", mixed)], "rel") == Some(mixed);
    assert AsciiLower(mixed) == "stylesheet";
  }

  /** The markup of the carriers in `s`, in the order of `s`, joined with nothing between. */
  function CarrierMarkup(s: seq<Node>): (r: string)
    ensures r == "" <==> forall i :: 0 <= i < |s| ==> !IsStylesheetCarrier(s[i])
  {
    if s == [] then ""
    else (if IsStylesheetCarrier(s[0]) then OuterHtml(s[0]) else "") + CarrierMarkup(s[1..])
  }

  /**
   * The style markup `extractPart` collects: every carrier in the whole
   * document, in document order; it is empty exactly when there is none.
   */
  function StyleMarkup(f: Forest): (r: string)
    ensures r == "" <==> forall n :: n in Preorder(f) ==> !IsStylesheetCarrier(n)
  {
    CarrierMarkup(Preorder(f))
  }

  /** What `extractPart` returns on the document `f`: the styles, one space and the match, in a `div`. */
  function Fragment(f: Forest, sel: Selector): (r: Option<string>)
    ensures r.None? <==> Find(f, sel).None?
    ensures r.Some? ==> Occurs(StyleMarkup(f), r.value) && Occurs(OuterHtml(Find(f, sel).value), r.value)
    ensures r.Some? ==> |r.value| >= 11 && r.value[..5] == "<div>" && r.value[|r.value| - 6..] == "</div>"
  {
    match Find(f, sel)
    case None => None
    case Some(m) =>
      Wrapped(StyleMarkup(f), OuterHtml(m));
      Some("<div>" + StyleMarkup(f) + " " + OuterHtml(m) + "</div>")
  }

  lemma Wrapped(styles: string, markup: string)
    ensures var s := "<div>" + styles + " " + markup + "</div>";
      Occurs(styles, s) && Occurs(markup, s) &&
      |s| >= 11 && s[..5] == "<div>" && s[|s| - 6..] == "</div>"
  {
    OccursIn(styles, "<div>", " " + markup + "</div>");
    OccursIn(markup, "<div>" + styles + " ", "</div>");
    assert "<div>" + styles + " " + markup + "</div>" == "<div>" + styles + (" " + markup + "</div>");
  }

  class Dom {
    /** The document's children; the tree `extractPart` changes in place. */
    var tree: Forest

    /** `new DOM(html)`: the document the parser builds from `html`. */
    constructor(html: string, parse: string -> Forest)
      ensures tree == parse(html)
    {
      tree := parse(html);
    }

    /**
     * `extractPart(query)`: with no match, nothing is returned and nothing
     * changes; otherwise the fragment holds the styles and the first match in
     * document order, and exactly that match's subtree leaves the document.
     */
    method ExtractPart(sel: Selector) returns (part: Option<string>)
      modifies this
      ensures part == Fragment(old(tree), sel)
      ensures tree == RemoveFirst(old(tree), sel)
      ensures var o, i := Outline(old(tree), 0), FirstMatch(Outline(old(tree), 0), sel);
        |o| == |Preorder(old(tree))| &&
        (part.None? <==> i == |o|) &&
        (part.None? ==> tree == old(tree)) &&
        (part.Some? ==>
          part.value == "<div>" + StyleMarkup(old(tree)) + " " + OuterHtml(Preorder(old(tree))[i]) + "</div>" &&
          CutAt(o, i, Size(Preorder(old(tree))[i]), Outline([Preorder(old(tree))[i]], o[i].depth),
                Outline(tree, 0)))
    {
      FindIsFirstInDocumentOrder(tree, sel, 0);
      RemoveFirstFrame(tree, sel, 0);
      var headContent := StyleMarkup(tree);
      var found := Find(tree, sel);
      if found.None? {
        return None;
      }
      var content := "<div>" + headContent + " " + OuterHtml(found.value) + "</div>";
      tree := RemoveFirst(tree, sel);
      return Some(content);
    }

    /** `getDocument()`: the document element's markup; it throws when there is none. */
    method GetDocument() returns (html: Option<string>)
      ensures html.None? <==> forall n :: n in tree ==> !n.Element?
      ensures html.Some? ==> exists e :: e in tree && e.Element? && html.value == OuterHtml(e)
      ensures html.Some? ==> html.value == OuterHtml(DocumentElement(tree).value)
    {
      var root := DocumentElement(tree);
      if root.None? {
        return None;
      }
      return Some(OuterHtml(root.value));
    }
  }

  lemma {:induction false} CarrierMarkupOccurs(s: seq<Node>, x: Node)
    requires x in s && IsStylesheetCarrier(x)
    ensures Occurs(OuterHtml(x), CarrierMarkup(s))
  {
    var rest := CarrierMarkup(s[1..]);
    var own := if IsStylesheetCarrier(s[0]) then OuterHtml(s[0]) else "";
    assert CarrierMarkup(s) == own + rest;
    if x == s[0] {
      OccursAtStart(own, rest);
    } else {
      assert x in s[1..];
      CarrierMarkupOccurs(s[1..], x);
      OccursAtEnd(rest, own);
      OccursTrans(OuterHtml(x), rest, CarrierMarkup(s));
    }
  }

  /**
   * Styles come from the whole document, not only from its head: the markup
   * of every style element and stylesheet link anywhere is in the style markup.
   */
  lemma StylesFromWholeDocument(f: Forest, x: Node)
    requires x in Preorder(f) && IsStylesheetCarrier(x)
    ensures Occurs(OuterHtml(x), StyleMarkup(f))
  {
    CarrierMarkupOccurs(Preorder(f), x);
  }

  /**
   * Styles are collected before the match is removed, so a style element
   * inside the match is written twice: once among the styles, once inside
   * the match's markup.
   */
  lemma StyleInsideMatchAppearsTwice(f: Forest, sel: Selector, x: Node)
    requires WellFormed(f) && Find(f, sel).Some?
    requires x in Preorder([Find(f, sel).value]) && IsStylesheetCarrier(x)
    ensures exists a, b, c :: Fragment(f, sel) == Some(a + OuterHtml(x) + b + OuterHtml(x) + c)
  {
    MatchHoldsDescendant(f, sel, x);
    StylesFromWholeDocument(f, x);
    WrappedTwice(StyleMarkup(f), OuterHtml(Find(f, sel).value), OuterHtml(x));
  }

  lemma WrappedTwice(styles: string, match_: string, x: string)
    requires Occurs(x, styles) && Occurs(x, match_)
    ensures exists a, b, c :: "<div>" + styles + " " + match_ + "</div>" == a + x + b + x + c
  {
    var p1, q1 :| styles == p1 + x + q1;
    var p2, q2 :| match_ == p2 + x + q2;
    Regroup("<div>", p1, x, q1, " ", p2, q2, "</div>");
    var a, b, c := "<div>" + p1, q1 + " " + p2, q2 + "</div>";
    assert "<div>" + styles + " " + match_ + "</div>" == a + x + b + x + c;
  }

  /** A node below the match is in the document, and its markup is in the match's markup. */
  lemma MatchHoldsDescendant(f: Forest, sel: Selector, x: Node)
    requires WellFormed(f) && Find(f, sel).Some?
    requires x in Preorder([Find(f, sel).value])
    ensures x in Preorder(f)
    ensures Occurs(OuterHtml(x), OuterHtml(Find(f, sel).value))
  {
    var m := Find(f, sel).value;
    FindIsFirstInDocumentOrder(f, sel, 0);
    assert m in Preorder(f);
    PreorderClosed(f, m);
    assert WellFormed([m]);
    DescendantMarkupOccurs([m], x);
    assert [m][1..] == [];
    assert InnerHtml([m]) == OuterHtml(m);
  }

  lemma Regroup(d1: string, p1: string, x: string, q1: string, sp: string, p2: string, q2: string, d2: string)
    ensures d1 + (p1 + x + q1) + sp + (p2 + x + q2) + d2
         == (d1 + p1) + x + (q1 + sp + p2) + x + (q2 + d2)
  {
  }
}
