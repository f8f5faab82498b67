/**
  A parsed XML document as a tree of element and text nodes, with the three
  operations of the W3C DOM Level 3 Core that the configuration parser relies
  on: `getElementsByTagName` (matching elements in preorder, i.e. document
  order), `textContent` (the concatenation of all descendant text) and
  `normalize` (no empty text nodes and no two adjacent text nodes).
*/
module Dom {
  import opened Wrappers

  /** A node of the tree: an element with its tag name and child nodes, or a text node. */
  datatype Node = Element(tag: string, children: seq<Node>) | Text(data: string)

  /** A parsed document; `root` is its document element. */
  datatype Document = Document(root: Node)

  // ---------------------------------------------------------------------------
  // textContent
  // ---------------------------------------------------------------------------

  /** The text of a sequence of sibling nodes and all their descendants, in document order. */
  function TextOf(cs: seq<Node>): string
    decreases cs
  {
    if cs == [] then ""
    else
      (match cs[0]
       case Text(d) => d
       case Element(_, ch) => TextOf(ch))
      + TextOf(cs[1..])
  }

  /** `Node.textContent`: the data of a text node, the text of all descendants of an element. */
  function TextContent(n: Node): string
  {
    match n
    case Text(d) => d
    case Element(_, ch) => TextOf(ch)
  }

  /** The text of consecutive siblings is the text of the first ones followed by the text of the rest. */
  lemma {:induction false} TextOfAppend(a: seq<Node>, b: seq<Node>)
    ensures TextOf(a + b) == TextOf(a) + TextOf(b)
    decreases a
  {
    if a == [] {
      assert a + b == b;
    } else {
      assert (a + b)[1..] == a[1..] + b;
      TextOfAppend(a[1..], b);
    }
  }

  // ---------------------------------------------------------------------------
  // getElementsByTagName
  // ---------------------------------------------------------------------------

  /** Every element among `cs` and their descendants, in preorder (document order). */
  function Preorder(cs: seq<Node>): seq<Node>
    decreases cs
  {
    if cs == [] then []
    else
      (match cs[0]
       case Text(_) => []
       case Element(_, ch) => [cs[0]] + Preorder(ch))
      + Preorder(cs[1..])
  }

  /** The members of `s` that are elements named `tag`, in their order in `s`. */
  function WithTag(s: seq<Node>, tag: string): seq<Node>
  {
    if s == [] then []
    else (if s[0].Element? && s[0].tag == tag then [s[0]] else []) + WithTag(s[1..], tag)
  }

  /**
    The elements named `tag` among `cs` and their descendants, in document
    order, computed in one pass over the tree. Only element nodes are ever
    returned.
  */
  function Matching(cs: seq<Node>, tag: string): (r: seq<Node>)
    ensures forall i :: 0 <= i < |r| ==> r[i].Element? && r[i].tag == tag
    decreases cs
  {
    if cs == [] then []
    else
      (match cs[0]
       case Text(_) => []
       case Element(t, ch) => (if t == tag then [cs[0]] else []) + Matching(ch, tag))
      + Matching(cs[1..], tag)
  }

  /** Searching siblings that start with an element holding only text: that element, then the rest. */
  lemma MatchingTextElement(t: string, x: string, rest: seq<Node>, tag: string)
    ensures Matching([Element(t, [Text(x)])] + rest, tag)
         == (if t == tag then [Element(t, [Text(x)])] else []) + Matching(rest, tag)
    ensures TextContent(Element(t, [Text(x)])) == x
  {
    var e := Element(t, [Text(x)]);
    assert ([e] + rest)[1..] == rest;
    assert [Text(x)][1..] == [];
    assert Matching([Text(x)], tag) == [] + Matching([], tag);
    assert TextOf([Text(x)]) == x + TextOf([]);
    assert Matching([e] + rest, tag) == ((if t == tag then [e] else []) + Matching([Text(x)], tag)) + Matching(rest, tag);
  }

  /** `Document.getElementsByTagName`: the document element itself counts. */
  function DocumentElementsByTagName(doc: Document, tag: string): seq<Node>
  {
    Matching([doc.root], tag)
  }

  /** `Element.getElementsByTagName`: only proper descendants count; a text node has none. */
  function ElementsByTagName(n: Node, tag: string): seq<Node>
  {
    match n
    case Text(_) => []
    case Element(_, ch) => Matching(ch, tag)
  }

  /** `getElementsByTagName(tag).item(0)`: the first match, or `null`. */
  function FirstByTag(n: Node, tag: string): Option<Node>
  {
    var m := ElementsByTagName(n, tag);
    if |m| == 0 then None else Some(m[0])
  }

  /** An element's descendants named `tag` are its preorder listing filtered by tag; a text node has none. */
  lemma ElementsInDocumentOrder(n: Node, tag: string)
    ensures n.Text? ==> ElementsByTagName(n, tag) == []
    ensures n.Element? ==> ElementsByTagName(n, tag) == WithTag(Preorder(n.children), tag)
  {
    if n.Element? {
      MatchingIsPreorderFiltered(n.children, tag);
    }
  }

  /** A document's elements named `tag`, the document element included, are its preorder listing filtered by tag. */
  lemma DocumentElementsInDocumentOrder(doc: Document, tag: string)
    ensures DocumentElementsByTagName(doc, tag) == WithTag(Preorder([doc.root]), tag)
  {
    MatchingIsPreorderFiltered([doc.root], tag);
  }

  /** `item(0)` is `null` exactly when no descendant is named `tag`, and otherwise the first one in document order. */
  lemma FirstInDocumentOrder(n: Node, tag: string)
    ensures n.Text? ==> FirstByTag(n, tag).None?
    ensures n.Element? ==> (FirstByTag(n, tag).None? <==> WithTag(Preorder(n.children), tag) == [])
    ensures FirstByTag(n, tag).Some? ==>
              n.Element? && FirstByTag(n, tag).value == WithTag(Preorder(n.children), tag)[0]
  {
    ElementsInDocumentOrder(n, tag);
  }

  lemma WithTagAppend(a: seq<Node>, b: seq<Node>, tag: string)
    ensures WithTag(a + b, tag) == WithTag(a, tag) + WithTag(b, tag)
  {
    if a != [] {
      assert (a + b)[1..] == a[1..] + b;
      WithTagAppend(a[1..], b, tag);
    } else {
      assert a + b == b;
    }
  }

  /** The one-pass search agrees with "filter the preorder listing by tag name". */
  lemma {:induction false} MatchingIsPreorderFiltered(cs: seq<Node>, tag: string)
    ensures Matching(cs, tag) == WithTag(Preorder(cs), tag)
    decreases cs
  {
    if cs != [] {
      MatchingIsPreorderFiltered(cs[1..], tag);
      match cs[0]
      case Text(_) =>
        assert Matching(cs, tag) == Matching(cs[1..], tag);
        assert Preorder(cs) == Preorder(cs[1..]);
      case Element(t, ch) =>
        MatchingIsPreorderFiltered(ch, tag);
        var head := [cs[0]] + Preorder(ch);
        WithTagAppend(head, Preorder(cs[1..]), tag);
        WithTagAppend([cs[0]], Preorder(ch), tag);
    }
  }

  // ---------------------------------------------------------------------------
  // normalize
  // ---------------------------------------------------------------------------

  /**
    The normal form of section 1.4 of the W3C DOM Level 3 Core (`Node.normalize`):
    in the whole subtree there is no empty text node and no text node
    directly followed by another text node.
  */
  predicate NormalForm(cs: seq<Node>)
    decreases cs
  {
    cs == [] ||
    ((match cs[0]
      case Text(d) => d != "" && (|cs| > 1 ==> !cs[1].Text?)
      case Element(_, ch) => NormalForm(ch))
     && NormalForm(cs[1..]))
  }

  /** Normalizes a sequence of sibling nodes: drops empty text, merges adjacent text, recurses into elements. */
  function NormalizeChildren(cs: seq<Node>): (r: seq<Node>)
    ensures NormalForm(r)
    decreases cs
  {
    if cs == [] then []
    else
      var rest := NormalizeChildren(cs[1..]);
      match cs[0]
      case Element(t, ch) => [Element(t, NormalizeChildren(ch))] + rest
      case Text(d) =>
        if d == "" then rest
        else if rest != [] && rest[0].Text? then [Text(d + rest[0].data)] + rest[1..]
        else [Text(d)] + rest
  }

  /** `Node.normalize` applied to one node: an element keeps its tag and its subtree is put in normal form. */
  function Normalize(n: Node): (r: Node)
    ensures n.Text? ==> r == n
    ensures n.Element? ==> r.Element? && r.tag == n.tag && NormalForm(r.children)
  {
    match n
    case Text(_) => n
    case Element(t, ch) => Element(t, NormalizeChildren(ch))
  }

  /** Normalizing what is already in normal form changes nothing. */
  lemma {:induction false} NormalizeIdempotent(cs: seq<Node>)
    requires NormalForm(cs)
    ensures NormalizeChildren(cs) == cs
    decreases cs
  {
    if cs != [] {
      NormalizeIdempotent(cs[1..]);
      match cs[0]
      case Text(d) =>
      case Element(t, ch) =>
        NormalizeIdempotent(ch);
    }
  }

  /** Normalizing does not change the text content of a sequence of siblings. */
  lemma {:induction false} NormalizeKeepsText(cs: seq<Node>)
    ensures TextOf(NormalizeChildren(cs)) == TextOf(cs)
    decreases cs
  {
    if cs != [] {
      NormalizeKeepsText(cs[1..]);
      var rest := NormalizeChildren(cs[1..]);
      match cs[0]
      case Element(t, ch) =>
        NormalizeKeepsText(ch);
        assert ([Element(t, NormalizeChildren(ch))] + rest)[1..] == rest;
      case Text(d) =>
        if d == "" {
        } else if rest != [] && rest[0].Text? {
          assert ([Text(d + rest[0].data)] + rest[1..])[1..] == rest[1..];
        } else {
          assert ([Text(d)] + rest)[1..] == rest;
        }
    }
  }

  /** Normalizing does not change the text content of a node. */
  lemma NormalizeKeepsTextContent(n: Node)
    ensures TextContent(Normalize(n)) == TextContent(n)
  {
    if n.Element? {
      NormalizeKeepsText(n.children);
    }
  }

  /** Each node of `s`, normalized. */
  function NormalizeEach(s: seq<Node>): seq<Node>
  {
    seq(|s|, i requires 0 <= i < |s| => Normalize(s[i]))
  }

  lemma NormalizeEachAppend(a: seq<Node>, b: seq<Node>)
    ensures NormalizeEach(a + b) == NormalizeEach(a) + NormalizeEach(b)
  {
  }

  /**
    Searching the normalized siblings finds the normalized versions of the
    elements found in the original siblings, in the same order.
  */
  lemma {:induction false} NormalizeKeepsMatching(cs: seq<Node>, tag: string)
    ensures Matching(NormalizeChildren(cs), tag) == NormalizeEach(Matching(cs, tag))
    decreases cs
  {
    if cs != [] {
      NormalizeKeepsMatching(cs[1..], tag);
      var rest := NormalizeChildren(cs[1..]);
      match cs[0]
      case Element(t, ch) =>
        NormalizeKeepsMatching(ch, tag);
        var e := Element(t, NormalizeChildren(ch));
        assert ([e] + rest)[1..] == rest;
        var own := if t == tag then [cs[0]] else [];
        assert NormalizeEach(own) == if t == tag then [e] else [];
        NormalizeEachAppend(own, Matching(ch, tag));
        NormalizeEachAppend(own + Matching(ch, tag), Matching(cs[1..], tag));
      case Text(d) =>
        if d == "" {
        } else if rest != [] && rest[0].Text? {
          assert ([Text(d + rest[0].data)] + rest[1..])[1..] == rest[1..];
          assert Matching(rest, tag) == Matching(rest[1..], tag);
        } else {
          assert ([Text(d)] + rest)[1..] == rest;
        }
    }
  }

  /** The first descendant named `tag` of a normalized node is the normalized first descendant. */
  lemma NormalizeKeepsFirst(n: Node, tag: string)
    ensures FirstByTag(Normalize(n), tag) ==
            (match FirstByTag(n, tag) case None => None case Some(m) => Some(Normalize(m)))
  {
    if n.Element? {
      NormalizeKeepsMatching(n.children, tag);
    }
  }

  /** Searching a document whose element was normalized finds the normalized matches of the original. */
  lemma NormalizeKeepsDocumentMatching(root: Node, tag: string)
    ensures DocumentElementsByTagName(Document(Normalize(root)), tag)
         == NormalizeEach(DocumentElementsByTagName(Document(root), tag))
  {
    match root
    case Text(_) =>
      assert [root][1..] == [];
      assert Matching([root], tag) == [];
    case Element(t, ch) =>
      assert [root][1..] == [];
      assert NormalizeChildren([root]) == [Normalize(root)];
      NormalizeKeepsMatching([root], tag);
  }
}
