/**
 * The part of a DOM library the core uses: a document as a tree of nodes,
 * document order (preorder), `querySelector` for the first element a selector
 * matches, `remove()` of that element with its subtree, and `outerHTML`.
 */
module HtmlTree {
  import opened Wrappers
  import opened JsString

  datatype Attr = Attr(name: string, value: string)

  /** An element with its attributes and children, or character data. */
  datatype Node =
    | Element(tag: string, attrs: seq<Attr>, children: seq<Node>)
    | Text(data: string)

  /** The children of the document (or of an element), in order. */
  type Forest = seq<Node>

  /**
   * A CSS selector, as the predicate it denotes on an element's own tag name
   * and attributes (type, class, id and attribute selectors and their compounds).
   */
  type Selector = (string, seq<Attr>) -> bool

  predicate Matches(sel: Selector, n: Node)
  {
    n.Element? && sel(n.tag, n.attrs)
  }

  // ----- document order -----------------------------------------------------

  /** Every node of `f` in document order: each node before its descendants. */
  function Preorder(f: Forest): seq<Node>
  {
    if f == [] then []
    else match f[0]
      case Element(_, _, ch) => [f[0]] + Preorder(ch) + Preorder(f[1..])
      case Text(_) => [f[0]] + Preorder(f[1..])
  }

  /** The number of nodes in the subtree rooted at `n`, `n` included. */
  function Size(n: Node): nat
  {
    |Preorder([n])|
  }

  /** What a node shows apart from its children. */
  datatype Label = Tagged(tag: string, attrs: seq<Attr>) | Chars(data: string)

  /** A node's position in the tree (its depth) and its label. */
  datatype Entry = Entry(depth: nat, head: Label)

  function LabelOf(n: Node): Label
  {
    match n
    case Element(t, a, _) => Tagged(t, a)
    case Text(s) => Chars(s)
  }

  predicate LabelMatches(sel: Selector, l: Label)
  {
    l.Tagged? && sel(l.tag, l.attrs)
  }

  /**
   * The outline of a forest whose roots sit at depth `d`: one entry per node,
   * in document order, giving its depth and label. A subtree is a contiguous
   * slice of it, so removing a subtree is cutting out one slice.
   */
  function Outline(f: Forest, d: nat): seq<Entry>
  {
    if f == [] then []
    else match f[0]
      case Element(t, a, ch) => [Entry(d, Tagged(t, a))] + Outline(ch, d + 1) + Outline(f[1..], d)
      case Text(s) => [Entry(d, Chars(s))] + Outline(f[1..], d)
  }

  /** The position of the first entry the selector matches, or `|o|` if none does. */
  function FirstMatch(o: seq<Entry>, sel: Selector): (i: nat)
    ensures i <= |o|
    ensures forall j :: 0 <= j < i ==> !LabelMatches(sel, o[j].head)
    ensures i < |o| ==> LabelMatches(sel, o[i].head)
  {
    if o == [] then 0
    else if LabelMatches(sel, o[0].head) then 0
    else 1 + FirstMatch(o[1..], sel)
  }

  lemma {:induction false} FirstMatchAppend(a: seq<Entry>, b: seq<Entry>, sel: Selector)
    ensures FirstMatch(a + b, sel) ==
      if FirstMatch(a, sel) < |a| then FirstMatch(a, sel) else |a| + FirstMatch(b, sel)
  {
    if a == [] {
      assert a + b == b;
    } else {
      assert (a + b)[1..] == a[1..] + b;
      FirstMatchAppend(a[1..], b, sel);
    }
  }

  lemma {:induction false} OutlineLength(f: Forest, d: nat)
    ensures |Outline(f, d)| == |Preorder(f)|
  {
    if f != [] {
      match f[0]
      case Element(_, _, ch) =>
        OutlineLength(ch, d + 1);
        OutlineLength(f[1..], d);
      case Text(_) =>
        OutlineLength(f[1..], d);
    }
  }

  // ----- querySelector and remove --------------------------------------------

  /** `querySelector`: the first element in document order that `sel` matches. */
  function Find(f: Forest, sel: Selector): (r: Option<Node>)
    ensures r.Some? ==> Matches(sel, r.value)
  {
    if f == [] then None
    else if Matches(sel, f[0]) then Some(f[0])
    else match f[0]
      case Text(_) => Find(f[1..], sel)
      case Element(_, _, ch) =>
        var inner := Find(ch, sel);
        if inner.Some? then inner else Find(f[1..], sel)
  }

  /** `querySelector(..).remove()`: the forest without the first match's subtree. */
  function RemoveFirst(f: Forest, sel: Selector): (r: Forest)
    ensures Find(f, sel).None? ==> r == f
  {
    if f == [] then []
    else if Matches(sel, f[0]) then f[1..]
    else match f[0]
      case Text(_) => [f[0]] + RemoveFirst(f[1..], sel)
      case Element(t, a, ch) =>
        if Find(ch, sel).Some? then [Element(t, a, RemoveFirst(ch, sel))] + f[1..]
        else [f[0]] + RemoveFirst(f[1..], sel)
  }

  /** `remove()` takes out exactly the nodes of the match's subtree. */
  lemma {:induction false} RemovedNodeCount(f: Forest, sel: Selector)
    ensures |Preorder(RemoveFirst(f, sel))|
         == |Preorder(f)| - (if Find(f, sel).Some? then Size(Find(f, sel).value) else 0)
  {
    if f == [] {
    } else if Matches(sel, f[0]) {
      UnfoldPreorder(f);
    } else {
      match f[0]
      case Text(_) =>
        RemovedNodeCount(f[1..], sel);
      case Element(t, a, ch) =>
        if Find(ch, sel).Some? {
          RemovedNodeCount(ch, sel);
        } else {
          RemovedNodeCount(f[1..], sel);
        }
    }
  }

  /**
   * `Find` returns the node at the first matching position in document order,
   * and nothing exactly when no position matches.
   */
  lemma {:induction false} FindIsFirstInDocumentOrder(f: Forest, sel: Selector, d: nat)
    ensures |Outline(f, d)| == |Preorder(f)|
    ensures var i := FirstMatch(Outline(f, d), sel);
      (Find(f, sel).None? <==> i == |Preorder(f)|) &&
      (i < |Preorder(f)| ==> Find(f, sel) == Some(Preorder(f)[i]))
    decreases f, 1
  {
    OutlineLength(f, d);
    if f != [] {
      var rest := Outline(f[1..], d);
      FindIsFirstInDocumentOrder(f[1..], sel, d);
      match f[0]
      case Text(s) =>
        FindIsFirstAfterText(f, sel, d);
      case Element(t, a, ch) =>
        if !Matches(sel, f[0]) {
          FindIsFirstInChildren(f, sel, d);
        }
    }
  }

  /** Case of `FindIsFirstInDocumentOrder`: the first root is character data. */
  lemma FindIsFirstAfterText(f: Forest, sel: Selector, d: nat)
    requires f != [] && f[0].Text?
    requires var i := FirstMatch(Outline(f[1..], d), sel);
      |Outline(f[1..], d)| == |Preorder(f[1..])| &&
      (Find(f[1..], sel).None? <==> i == |Preorder(f[1..])|) &&
      (i < |Preorder(f[1..])| ==> Find(f[1..], sel) == Some(Preorder(f[1..])[i]))
    ensures var i := FirstMatch(Outline(f, d), sel);
      (Find(f, sel).None? <==> i == |Preorder(f)|) &&
      (i < |Preorder(f)| ==> Find(f, sel) == Some(Preorder(f)[i]))
  {
    var e := Entry(d, Chars(f[0].data));
    assert Outline(f, d) == [e] + Outline(f[1..], d);
    FirstMatchAppend([e], Outline(f[1..], d), sel);
    assert Preorder(f) == [f[0]] + Preorder(f[1..]);
  }

  /** An element root unfolds into itself, its children's nodes, then its siblings' nodes. */
  lemma UnfoldElementRoot(f: Forest, d: nat)
    requires f != [] && f[0].Element?
    ensures Outline(f, d) ==
      [Entry(d, Tagged(f[0].tag, f[0].attrs))] + (Outline(f[0].children, d + 1) + Outline(f[1..], d))
    ensures Preorder(f) == [f[0]] + (Preorder(f[0].children) + Preorder(f[1..]))
  {
    var e := Entry(d, Tagged(f[0].tag, f[0].attrs));
    var a, b := Outline(f[0].children, d + 1), Outline(f[1..], d);
    assert Outline(f, d) == [e] + a + b;
    Regroup3([e], a, b);
    var pa, pb := Preorder(f[0].children), Preorder(f[1..]);
    assert Preorder(f) == [f[0]] + pa + pb;
    Regroup3([f[0]], pa, pb);
  }

  lemma Regroup3<T>(x: seq<T>, y: seq<T>, z: seq<T>)
    ensures x + y + z == x + (y + z)
  {
  }

  /** Case of `FindIsFirstInDocumentOrder`: the first root is an element that does not match. */
  lemma {:induction false} FindIsFirstInChildren(f: Forest, sel: Selector, d: nat)
    requires f != [] && f[0].Element? && !Matches(sel, f[0])
    ensures var i := FirstMatch(Outline(f, d), sel);
      (Find(f, sel).None? <==> i == |Preorder(f)|) &&
      (i < |Preorder(f)| ==> Find(f, sel) == Some(Preorder(f)[i]))
    decreases f, 0
  {
    var ch := f[0].children;
    FindIsFirstInDocumentOrder(ch, sel, d + 1);
    FindIsFirstInDocumentOrder(f[1..], sel, d);
    UnfoldElementRoot(f, d);
    var e := Outline(f, d)[0];
    var oc, rest := Outline(ch, d + 1), Outline(f[1..], d);
    FirstMatchAppend([e], oc + rest, sel);
    FirstMatchAppend(oc, rest, sel);
    PickAcross(f[0], Preorder(ch), Preorder(f[1..]), FirstMatch(oc, sel), FirstMatch(rest, sel));
  }

  /** The position arithmetic of `FindIsFirstInChildren`. */
  lemma PickAcross<T>(n: T, a: seq<T>, b: seq<T>, i: nat, j: nat)
    requires i <= |a| && j <= |b|
    ensures i < |a| ==> ([n] + (a + b))[1 + i] == a[i]
    ensures i == |a| && j < |b| ==> ([n] + (a + b))[1 + |a| + j] == b[j]
  {
  }

  /** `o2` is `o` with the slice `sub`, `k` entries from position `i`, cut out. */
  ghost predicate CutAt(o: seq<Entry>, i: nat, k: nat, sub: seq<Entry>, o2: seq<Entry>)
  {
    i + k <= |o| && o[i..i + k] == sub && o2 == o[..i] + o[i + k..]
  }

  lemma CutPrefix(pre: seq<Entry>, mid: seq<Entry>, j: nat, k: nat, sub: seq<Entry>, mid2: seq<Entry>)
    requires CutAt(mid, j, k, sub, mid2)
    ensures CutAt(pre + mid, |pre| + j, k, sub, pre + mid2)
  {
    var o := pre + mid;
    assert o[|pre| + j..|pre| + j + k] == mid[j..j + k];
    assert o[..|pre| + j] == pre + mid[..j];
    assert o[|pre| + j + k..] == mid[j + k..];
  }

  lemma CutSuffix(mid: seq<Entry>, post: seq<Entry>, j: nat, k: nat, sub: seq<Entry>, mid2: seq<Entry>)
    requires CutAt(mid, j, k, sub, mid2)
    ensures CutAt(mid + post, j, k, sub, mid2 + post)
  {
    var o := mid + post;
    assert o[j..j + k] == mid[j..j + k];
    assert o[..j] == mid[..j];
    assert o[j + k..] == mid[j + k..] + post;
  }

  /** What `RemoveFirstFrame` promises for `f` at depth `d`. */
  ghost predicate RemovalFrame(f: Forest, sel: Selector, d: nat)
  {
    var o, i := Outline(f, d), FirstMatch(Outline(f, d), sel);
    |o| == |Preorder(f)| &&
    (i == |o| ==> RemoveFirst(f, sel) == f) &&
    (i < |o| ==>
      CutAt(o, i, Size(Preorder(f)[i]), Outline([Preorder(f)[i]], o[i].depth),
            Outline(RemoveFirst(f, sel), d)))
  }

  /**
   * What `remove()` of the first match leaves: with no match the forest is
   * unchanged; otherwise the outline loses exactly the slice that is the
   * match's subtree, and every other node keeps its label, its depth and its
   * place in document order (later matches included).
   */
  lemma {:induction false} RemoveFirstFrame(f: Forest, sel: Selector, d: nat)
    ensures RemovalFrame(f, sel, d)
    decreases f, 1
  {
    OutlineLength(f, d);
    if f != [] {
      if Matches(sel, f[0]) {
        RemoveFirstFrameHere(f, sel, d);
      } else if f[0].Element? && Find(f[0].children, sel).Some? {
        RemoveFirstFrame(f[0].children, sel, d + 1);
        FindIsFirstInDocumentOrder(f[0].children, sel, d + 1);
        RemoveFirstFrameInside(f, sel, d);
      } else {
        RemoveFirstFrameSkip(f, sel, d);
      }
    }
  }

  /** A forest unfolds into its first root's subtree, then its other roots'. */
  lemma UnfoldRoot(f: Forest, d: nat)
    requires f != []
    ensures Outline(f, d) == Outline([f[0]], d) + Outline(f[1..], d)
    ensures Preorder(f) == Preorder([f[0]]) + Preorder(f[1..])
  {
    UnfoldOutline(f, d);
    UnfoldPreorder(f);
  }

  lemma UnfoldOutline(f: Forest, d: nat)
    requires f != []
    ensures Outline(f, d) == Outline([f[0]], d) + Outline(f[1..], d)
  {
    OutlineSingle(f[0], d);
  }

  lemma OutlineSingle(n: Node, d: nat)
    ensures Outline([n], d) ==
      if n.Element? then [Entry(d, Tagged(n.tag, n.attrs))] + Outline(n.children, d + 1)
      else [Entry(d, Chars(n.data))]
  {
    var single := [n];
    assert single[1..] == [];
  }

  lemma UnfoldPreorder(f: Forest)
    requires f != []
    ensures Preorder(f) == Preorder([f[0]]) + Preorder(f[1..])
  {
    var n := f[0];
    var own := if n.Element? then [n] + Preorder(n.children) else [n];
    PreorderSingle(n);
    assert Preorder(f) == own + Preorder(f[1..]);
  }

  lemma PreorderSingle(n: Node)
    ensures Preorder([n]) == if n.Element? then [n] + Preorder(n.children) else [n]
  {
    var single := [n];
    assert single[1..] == [];
  }

  /** Case of `RemoveFirstFrame`: the first root is the match. */
  lemma RemoveFirstFrameHere(f: Forest, sel: Selector, d: nat)
    requires f != [] && Matches(sel, f[0])
    ensures RemovalFrame(f, sel, d)
  {
    UnfoldRoot(f, d);
    OutlineLength(f, d);
    OutlineLength([f[0]], d);
    var head := Outline([f[0]], d);
    assert head[0] == Entry(d, Tagged(f[0].tag, f[0].attrs));
    assert FirstMatch(Outline(f, d), sel) == 0;
    CutSuffix(head, Outline(f[1..], d), 0, |head|, head, []);
    assert [] + Outline(f[1..], d) == Outline(f[1..], d);
  }

  /**
   * Case of `RemoveFirstFrame`: the first root is an element that does not
   * match but holds the match; the cut happens inside its children.
   */
  lemma RemoveFirstFrameInside(f: Forest, sel: Selector, d: nat)
    requires f != [] && f[0].Element? && !Matches(sel, f[0]) && Find(f[0].children, sel).Some?
    requires var ch := f[0].children; var oc, ic := Outline(ch, d + 1), FirstMatch(Outline(ch, d + 1), sel);
      RemovalFrame(ch, sel, d + 1) && ic < |oc|
    ensures RemovalFrame(f, sel, d)
  {
    var ch := f[0].children;
    var oc, rest := Outline(ch, d + 1), Outline(f[1..], d);
    var ic := FirstMatch(oc, sel);
    var k := Size(Preorder(ch)[ic]);
    var sub := Outline([Preorder(ch)[ic]], oc[ic].depth);
    var oc2 := Outline(RemoveFirst(ch, sel), d + 1);
    assert CutAt(oc, ic, k, sub, oc2);
    OutlineLength(f, d);
    InsidePosition(f, sel, d);
    InsideRemoval(f, sel, d);
    var e := Outline(f, d)[0];
    CutSuffix(oc, rest, ic, k, sub, oc2);
    CutPrefix([e], oc + rest, ic, k, sub, oc2 + rest);
    FrameOfCut(f, sel, d, 1 + ic);
  }

  /** `RemovalFrame` when there is a match: the cut at the first match. */
  lemma FrameOfCut(f: Forest, sel: Selector, d: nat, i: nat)
    requires var o := Outline(f, d);
      |o| == |Preorder(f)| && i == FirstMatch(o, sel) && i < |o| &&
      CutAt(o, i, Size(Preorder(f)[i]), Outline([Preorder(f)[i]], o[i].depth), Outline(RemoveFirst(f, sel), d))
    ensures RemovalFrame(f, sel, d)
  {
  }

  /** Positions in `RemoveFirstFrameInside`: the match is the children's first match, one place later. */
  lemma InsidePosition(f: Forest, sel: Selector, d: nat)
    requires f != [] && f[0].Element? && !Matches(sel, f[0])
    requires var oc := Outline(f[0].children, d + 1);
      |oc| == |Preorder(f[0].children)| && FirstMatch(oc, sel) < |oc|
    ensures var ch, o := f[0].children, Outline(f, d);
      var ic := FirstMatch(Outline(ch, d + 1), sel);
      o == [o[0]] + (Outline(ch, d + 1) + Outline(f[1..], d)) &&
      FirstMatch(o, sel) == 1 + ic &&
      Preorder(f)[1 + ic] == Preorder(ch)[ic] &&
      o[1 + ic] == Outline(ch, d + 1)[ic]
  {
    var ch := f[0].children;
    var oc, rest := Outline(ch, d + 1), Outline(f[1..], d);
    var ic := FirstMatch(oc, sel);
    UnfoldElementRoot(f, d);
    var e := Outline(f, d)[0];
    FirstMatchAppend([e], oc + rest, sel);
    FirstMatchAppend(oc, rest, sel);
    PickAcross(f[0], Preorder(ch), Preorder(f[1..]), ic, 0);
    PickAcross(e, oc, rest, ic, 0);
  }

  /** The forest `RemoveFirstFrameInside` leaves: the first root with the match removed below it. */
  lemma InsideRemoval(f: Forest, sel: Selector, d: nat)
    requires f != [] && f[0].Element? && !Matches(sel, f[0]) && Find(f[0].children, sel).Some?
    ensures Outline(RemoveFirst(f, sel), d) ==
      [Outline(f, d)[0]] + (Outline(RemoveFirst(f[0].children, sel), d + 1) + Outline(f[1..], d))
  {
    var n := f[0];
    var r := [Element(n.tag, n.attrs, RemoveFirst(n.children, sel))] + f[1..];
    assert RemoveFirst(f, sel) == r;
    assert r[0] == Element(n.tag, n.attrs, RemoveFirst(n.children, sel)) && r[1..] == f[1..];
    UnfoldElementRoot(r, d);
    UnfoldElementRoot(f, d);
  }

  lemma PickRight<T>(a: seq<T>, b: seq<T>, j: nat)
    requires j < |b|
    ensures (a + b)[|a| + j] == b[j]
  {
  }

  /** No node of `n`'s subtree matches. */
  lemma NoMatchInRoot(n: Node, sel: Selector, d: nat)
    requires !Matches(sel, n)
    requires n.Element? ==> Find(n.children, sel).None?
    ensures FirstMatch(Outline([n], d), sel) == |Outline([n], d)| == Size(n)
  {
    assert [n][1..] == [];
    OutlineLength([n], d);
    match n {
      case Text(_) =>
      case Element(t, a, ch) =>
        FindIsFirstInDocumentOrder(ch, sel, d + 1);
        assert Outline([n], d) == [Entry(d, Tagged(t, a))] + Outline(ch, d + 1);
        FirstMatchAppend([Entry(d, Tagged(t, a))], Outline(ch, d + 1), sel);
    }
  }

  /**
   * Case of `RemoveFirstFrame`: the first root neither matches nor holds a
   * match; it is kept and the search goes on among its siblings.
   */
  lemma RemoveFirstFrameSkip(f: Forest, sel: Selector, d: nat)
    requires f != [] && !Matches(sel, f[0])
    requires f[0].Element? ==> Find(f[0].children, sel).None?
    ensures RemovalFrame(f, sel, d)
    decreases f, 0
  {
    var head, rest := Outline([f[0]], d), Outline(f[1..], d);
    NoMatchInRoot(f[0], sel, d);
    UnfoldRoot(f, d);
    OutlineLength(f, d);
    OutlineLength([f[0]], d);
    RemoveFirstFrame(f[1..], sel, d);
    FirstMatchAppend(head, rest, sel);
    SkipOutline(f, sel, d);
    var j := FirstMatch(rest, sel);
    if j < |rest| {
      ShiftedCut(head, rest, Preorder([f[0]]), Preorder(f[1..]), Outline(RemoveFirst(f[1..], sel), d), sel);
      FrameOfCut(f, sel, d, |head| + j);
    } else {
      assert RemoveFirst(f[1..], sel) == f[1..];
      SkipRemoval(f, sel);
      assert RemoveFirst(f, sel) == f;
      FrameOfNoMatch(f, sel, d);
    }
  }

  /** A cut behind a prefix without matches, seen from the whole outline. */
  lemma ShiftedCut(head: seq<Entry>, rest: seq<Entry>, ph: seq<Node>, pr: seq<Node>, rest2: seq<Entry>, sel: Selector)
    requires |head| == |ph| == FirstMatch(head, sel) && |rest| == |pr|
    requires var j := FirstMatch(rest, sel);
      j < |rest| && CutAt(rest, j, Size(pr[j]), Outline([pr[j]], rest[j].depth), rest2)
    ensures var i := FirstMatch(head + rest, sel);
      i == |head| + FirstMatch(rest, sel) && i < |head + rest| &&
      CutAt(head + rest, i, Size((ph + pr)[i]), Outline([(ph + pr)[i]], (head + rest)[i].depth), head + rest2)
  {
    var j := FirstMatch(rest, sel);
    FirstMatchAppend(head, rest, sel);
    PickRight(ph, pr, j);
    PickRight(head, rest, j);
    CutPrefix(head, rest, j, Size(pr[j]), Outline([pr[j]], rest[j].depth), rest2);
  }

  /** A root with no match in its subtree is kept, and the removal goes on among its siblings. */
  lemma SkipRemoval(f: Forest, sel: Selector)
    requires f != [] && !Matches(sel, f[0])
    requires f[0].Element? ==> Find(f[0].children, sel).None?
    ensures RemoveFirst(f, sel) == [f[0]] + RemoveFirst(f[1..], sel)
  {
  }

  lemma SkipOutline(f: Forest, sel: Selector, d: nat)
    requires f != [] && !Matches(sel, f[0])
    requires f[0].Element? ==> Find(f[0].children, sel).None?
    ensures Outline(RemoveFirst(f, sel), d) == Outline([f[0]], d) + Outline(RemoveFirst(f[1..], sel), d)
  {
    SkipRemoval(f, sel);
    var r := [f[0]] + RemoveFirst(f[1..], sel);
    assert r[0] == f[0] && r[1..] == RemoveFirst(f[1..], sel);
    UnfoldRoot(r, d);
  }

  /** `RemovalFrame` when nothing matches: the forest is left as it was. */
  lemma FrameOfNoMatch(f: Forest, sel: Selector, d: nat)
    requires var o := Outline(f, d);
      |o| == |Preorder(f)| && FirstMatch(o, sel) == |o| && RemoveFirst(f, sel) == f
    ensures RemovalFrame(f, sel, d)
  {
  }

  /** Cutting out a slice that starts at the first match moves the next match up by the slice's length. */
  lemma FirstMatchAfterCut(o: seq<Entry>, i: nat, k: nat, o2: seq<Entry>, sel: Selector)
    requires i == FirstMatch(o, sel) && i + k <= |o| && o2 == o[..i] + o[i + k..]
    ensures FirstMatch(o2, sel) == i + FirstMatch(o[i + k..], sel)
  {
    FirstMatchAppend(o[..i], o[i + k..], sel);
    assert FirstMatch(o[..i], sel) == i;
  }

  /**
   * Two removals in a row: the second finds the first match that lies after
   * the subtree the first one removed, at the same place in the original order.
   */
  lemma SecondMatchFollowsFirst(f: Forest, sel: Selector)
    requires Find(f, sel).Some?
    ensures |Outline(f, 0)| == |Preorder(f)|
    ensures var o, i := Outline(f, 0), FirstMatch(Outline(f, 0), sel);
      i < |o| &&
      var k := Size(Preorder(f)[i]);
      i + k <= |o| &&
      FirstMatch(Outline(RemoveFirst(f, sel), 0), sel) == i + FirstMatch(o[i + k..], sel)
  {
    RemovalCut(f, sel, 0);
    var o, i := Outline(f, 0), FirstMatch(Outline(f, 0), sel);
    FirstMatchAfterCut(o, i, Size(Preorder(f)[i]), Outline(RemoveFirst(f, sel), 0), sel);
  }

  /** When something matches, `remove()` cuts the first match's subtree out of the outline. */
  lemma RemovalCut(f: Forest, sel: Selector, d: nat)
    requires Find(f, sel).Some?
    ensures var o, i := Outline(f, d), FirstMatch(Outline(f, d), sel);
      |o| == |Preorder(f)| && i < |o| &&
      CutAt(o, i, Size(Preorder(f)[i]), Outline([Preorder(f)[i]], o[i].depth), Outline(RemoveFirst(f, sel), d))
  {
    FindIsFirstInDocumentOrder(f, sel, d);
    RemoveFirstFrame(f, sel, d);
  }

  // ----- the document element ------------------------------------------------

  /** `document.documentElement`: the first element among the document's children. */
  function DocumentElement(f: Forest): (r: Option<Node>)
    ensures r.Some? ==> r.value.Element? && r.value in f
    ensures r.None? <==> forall n :: n in f ==> !n.Element?
  {
    if f == [] then None
    else if f[0].Element? then Some(f[0])
    else DocumentElement(f[1..])
  }

  /** A document holds exactly one element among its children. */
  predicate IsDocument(f: Forest)
  {
    DocumentElement(f).Some? &&
    forall j, k :: 0 <= j < k < |f| && f[j].Element? ==> !f[k].Element?
  }

  /**
   * After removing the first match, the document still has an element
   * exactly when the match was not the document element itself.
   */
  lemma {:induction false} DocumentElementSurvives(f: Forest, sel: Selector)
    requires IsDocument(f)
    ensures DocumentElement(RemoveFirst(f, sel)).Some? <==> !Matches(sel, DocumentElement(f).value)
  {
    if !f[0].Element? {
      assert IsDocument(f[1..]) by {
        forall j, k | 0 <= j < k < |f[1..]| && f[1..][j].Element? ensures !f[1..][k].Element? {
          assert f[j + 1].Element?;
        }
      }
      DocumentElementSurvives(f[1..], sel);
      assert RemoveFirst(f, sel) == [f[0]] + RemoveFirst(f[1..], sel);
      assert ([f[0]] + RemoveFirst(f[1..], sel))[1..] == RemoveFirst(f[1..], sel);
    } else if Matches(sel, f[0]) {
      forall n | n in f[1..] ensures !n.Element? {
        var k :| 0 <= k < |f[1..]| && f[1..][k] == n;
        assert f[k + 1] == n;
      }
    } else {
      assert RemoveFirst(f, sel)[0].Element?;
    }
  }

  // ----- outerHTML --------------------------------------------------------

  /** Elements that never have an end tag and whose children are never written. */
  const VoidTags: set<string> :=
    {"area", "base", "basefont", "bgsound", "br", "col", "embed", "frame", "hr", "img", "input", "keygen",
     "link", "meta", "param", "source", "track", "wbr"}

  /**
   * `outerHTML` (without character escaping): character data as it is, an
   * element as its start tag, then (unless void) its children and end tag.
   */
  function OuterHtml(n: Node): (r: string)
    ensures n.Text? ==> r == n.data
    ensures n.Element? ==> |r| > |n.tag| && r[..|n.tag| + 1] == "<" + n.tag && r[|r| - 1] == '>'
  {
    match n
    case Text(s) => s
    case Element(t, a, ch) =>
      "<" + t + AttrsHtml(a) + ">" + (if t in VoidTags then "" else InnerHtml(ch) + "</" + t + ">")
  }

  /** `innerHTML`: the children's markup, in order. */
  function InnerHtml(f: Forest): string
  {
    if f == [] then "" else OuterHtml(f[0]) + InnerHtml(f[1..])
  }

  /** The attributes as they follow the tag name: each one after a space, its value quoted. */
  function AttrsHtml(attrs: seq<Attr>): (r: string)
    ensures r == "" <==> attrs == []
    ensures r != "" ==> r[0] == ' ' && r[|r| - 1] == '"'
  {
    if attrs == [] then ""
    else " " + attrs[0].name + "=\"" + attrs[0].value + "\"" + AttrsHtml(attrs[1..])
  }

  /** The markup of a forest is that of its parts, in order, wherever it is split. */
  lemma {:induction false} InnerHtmlAppend(a: Forest, b: Forest)
    ensures InnerHtml(a + b) == InnerHtml(a) + InnerHtml(b)
  {
    if a == [] {
      assert a + b == b;
    } else {
      assert (a + b)[0] == a[0];
      assert (a + b)[1..] == a[1..] + b;
      InnerHtmlAppend(a[1..], b);
    }
  }

  /** As a parser builds it: void elements have no children. */
  ghost predicate WellFormed(f: Forest)
  {
    forall n :: n in Preorder(f) && n.Element? && n.tag in VoidTags ==> n.children == []
  }

  /** Each node of a subtree is in the forest that holds the subtree's root. */
  lemma {:induction false} PreorderClosed(f: Forest, m: Node)
    requires m in Preorder(f)
    ensures forall x :: x in Preorder([m]) ==> x in Preorder(f)
  {
    match f[0]
    case Element(_, _, ch) =>
      if m == f[0] {
        assert [m][1..] == [];
      } else if m in Preorder(ch) {
        PreorderClosed(ch, m);
      } else {
        PreorderClosed(f[1..], m);
      }
    case Text(_) =>
      if m == f[0] {
        assert [m][1..] == [];
      } else {
        PreorderClosed(f[1..], m);
      }
  }

  /** The markup of every node of a well-formed forest occurs in the forest's markup. */
  lemma {:induction false} DescendantMarkupOccurs(f: Forest, x: Node)
    requires WellFormed(f) && x in Preorder(f)
    ensures Occurs(OuterHtml(x), InnerHtml(f))
  {
    PreorderCases(f, x);
    var head, tail := OuterHtml(f[0]), InnerHtml(f[1..]);
    assert InnerHtml(f) == head + tail;
    if x == f[0] {
      OccursAtStart(head, tail);
    } else if x in Preorder(f[1..]) {
      WellFormedParts(f);
      DescendantMarkupOccurs(f[1..], x);
      OccursAtEnd(tail, head);
      OccursTrans(OuterHtml(x), tail, head + tail);
    } else {
      WellFormedParts(f);
      var ch := f[0].children;
      DescendantMarkupOccurs(ch, x);
      ChildrenMarkupOccurs(f[0]);
      OccursTrans(OuterHtml(x), InnerHtml(ch), head);
      OccursAtStart(head, tail);
      OccursTrans(OuterHtml(x), head, head + tail);
    }
  }

  /** Where a node of a forest sits: the first root, among its siblings' nodes, or below the first root. */
  lemma PreorderCases(f: Forest, x: Node)
    requires x in Preorder(f)
    ensures f != []
    ensures x == f[0] || x in Preorder(f[1..]) || (f[0].Element? && x in Preorder(f[0].children))
  {
    UnfoldPreorder(f);
    PreorderSingle(f[0]);
  }

  /** The parts of a well-formed forest are well formed, and a void first root has no children. */
  lemma WellFormedParts(f: Forest)
    requires f != [] && WellFormed(f)
    ensures WellFormed(f[1..])
    ensures f[0].Element? ==> WellFormed(f[0].children) && (f[0].tag in VoidTags ==> f[0].children == [])
  {
    UnfoldPreorder(f);
    PreorderSingle(f[0]);
  }

  /** A non-void element's markup holds its children's markup. */
  lemma ChildrenMarkupOccurs(n: Node)
    requires n.Element? && n.tag !in VoidTags
    ensures Occurs(InnerHtml(n.children), OuterHtml(n))
  {
    OccursIn(InnerHtml(n.children), "<" + n.tag + AttrsHtml(n.attrs) + ">", "</" + n.tag + ">");
  }
}
