/** The read-only `DOM` class of services/html.js: the markup of the first match. */
module HtmlQuery {
  import opened Wrappers
  import opened HtmlTree

  /**
   * `getPart(query)`: the first match's markup, or "" when nothing matches.
   * It reads the document and changes nothing.
   */
  function GetPart(doc: Forest, sel: Selector): (r: string)
    ensures r == "" <==> Find(doc, sel).None?
  {
    match Find(doc, sel)
    case Some(m) => OuterHtml(m)
    case None => ""
  }

  /** `getPart` gives the markup of the node at the first matching position in document order. */
  lemma GetPartFirstInDocumentOrder(doc: Forest, sel: Selector)
    ensures |Outline(doc, 0)| == |Preorder(doc)|
    ensures var s, i := Preorder(doc), FirstMatch(Outline(doc, 0), sel);
      GetPart(doc, sel) == if i < |s| then OuterHtml(s[i]) else ""
  {
    FindIsFirstInDocumentOrder(doc, sel, 0);
  }
}
