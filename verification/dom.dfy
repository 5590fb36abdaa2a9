/** `traversForHrefs`: the anchor targets of a parsed HTML document, in
    document order. The tree is the one `html.Parse` builds; the parser itself
    is not modelled, so a document is given as a `Node`. */
module Dom {
  import opened Wrappers

  /** The node kinds of golang.org/x/net/html. */
  datatype NodeType = ErrorNode | TextNode | DocumentNode | ElementNode | CommentNode | DoctypeNode | RawNode

  datatype Attribute = Attribute(namespace: string, key: string, val: string)

  /** A parsed node: its kind, its `Data` (the tag name of an element), its
      attributes in source order and its children in document order. */
  datatype Node = Node(kind: NodeType, data: string, attr: seq<Attribute>, children: seq<Node>)

  /** Position of the first `href` attribute, or `|attrs|` when there is none. */
  function HrefPosition(attrs: seq<Attribute>): (i: nat)
    ensures i <= |attrs|
    ensures i < |attrs| ==> attrs[i].key == "href"
    ensures forall j :: 0 <= j < i ==> attrs[j].key != "href"
  {
    if attrs == [] then 0
    else if attrs[0].key == "href" then 0
    else 1 + HrefPosition(attrs[1..])
  }

  /** Value of the first `href` attribute; later ones are ignored. */
  function FirstHref(attrs: seq<Attribute>): Option<string> {
    var i := HrefPosition(attrs);
    if i < |attrs| then Some(attrs[i].val) else None
  }

  /** An `a` element that carries an `href` attribute. */
  predicate IsHrefAnchor(n: Node) {
    n.kind == ElementNode && n.data == "a" && FirstHref(n.attr).Some?
  }

  /** What a node contributes on its own, before its children are visited. */
  function OwnHref(n: Node): (r: seq<string>)
    ensures |r| <= 1
    ensures |r| == 1 <==> IsHrefAnchor(n)
  {
    if n.kind == ElementNode && n.data == "a" then
      match FirstHref(n.attr)
      case Some(v) => [v]
      case None => []
    else []
  }

  /** The walk `f`: the node's own href, then those of its children in turn. */
  function TraversForHrefs(n: Node): seq<string>
    decreases n, 1
  {
    OwnHref(n) + ChildrenHrefs(n.children)
  }

  function ChildrenHrefs(cs: seq<Node>): seq<string>
    decreases cs, 0
  {
    if cs == [] then [] else TraversForHrefs(cs[0]) + ChildrenHrefs(cs[1..])
  }

  /** Pre-order list of all nodes of the tree: the reference order. */
  function PreOrder(n: Node): (ns: seq<Node>)
    decreases n, 1
    ensures |ns| >= 1 && ns[0] == n
  {
    [n] + PreOrderAll(n.children)
  }

  function PreOrderAll(cs: seq<Node>): seq<Node>
    decreases cs, 0
  {
    if cs == [] then [] else PreOrder(cs[0]) + PreOrderAll(cs[1..])
  }

  /** The hrefs of a flat list of nodes, node by node. */
  function HrefsOf(ns: seq<Node>): seq<string> {
    if ns == [] then [] else OwnHref(ns[0]) + HrefsOf(ns[1..])
  }

  /** Number of href-carrying anchors in a flat list of nodes. */
  function CountHrefAnchors(ns: seq<Node>): nat {
    if ns == [] then 0 else (if IsHrefAnchor(ns[0]) then 1 else 0) + CountHrefAnchors(ns[1..])
  }

  lemma {:induction false} HrefsOfAppend(a: seq<Node>, b: seq<Node>)
    ensures HrefsOf(a + b) == HrefsOf(a) + HrefsOf(b)
  {
    if a != [] {
      assert (a + b)[1..] == a[1..] + b;
      HrefsOfAppend(a[1..], b);
    } else {
      assert a + b == b;
    }
  }

  /** One href per href-carrying anchor of the list. */
  lemma {:induction false} HrefsOfCount(ns: seq<Node>)
    ensures |HrefsOf(ns)| == CountHrefAnchors(ns)
  {
    if ns != [] {
      HrefsOfCount(ns[1..]);
    }
  }

  /** The walk lists, in document pre-order, one href per `a` element that
      has one: it equals reading the pre-order node list node by node. */
  lemma {:induction false} TraversIsPreOrder(n: Node)
    ensures TraversForHrefs(n) == HrefsOf(PreOrder(n))
    decreases n, 1
  {
    ChildrenArePreOrder(n.children);
    HrefsOfAppend([n], PreOrderAll(n.children));
    assert HrefsOf([n]) == OwnHref(n);
  }

  lemma {:induction false} ChildrenArePreOrder(cs: seq<Node>)
    ensures ChildrenHrefs(cs) == HrefsOf(PreOrderAll(cs))
    decreases cs, 0
  {
    if cs != [] {
      TraversIsPreOrder(cs[0]);
      ChildrenArePreOrder(cs[1..]);
      HrefsOfAppend(PreOrder(cs[0]), PreOrderAll(cs[1..]));
    }
  }

  /** The number of hrefs found equals the number of `a` elements carrying
      an `href` attribute anywhere in the document. */
  lemma HrefCountMatchesAnchors(n: Node)
    ensures |TraversForHrefs(n)| == CountHrefAnchors(PreOrder(n))
  {
    TraversIsPreOrder(n);
    HrefsOfCount(PreOrder(n));
  }

  /** Only the first of several `href` attributes is reported. */
  lemma FirstHrefWins(x: string, y: string)
    ensures TraversForHrefs(Node(ElementNode, "a", [Attribute("", "href", x), Attribute("", "href", y)], []))
         == [x]
  {
  }

  /** An element that is not an anchor contributes nothing of its own, but
      the anchors below it are still found. */
  lemma ChildrenOfOtherNodesVisited(k: NodeType, tag: string, attrs: seq<Attribute>, x: string)
    requires k != ElementNode || tag != "a"
    ensures TraversForHrefs(Node(k, tag, attrs, [Node(ElementNode, "a", [Attribute("", "href", x)], [])]))
         == [x]
  {
    var child := Node(ElementNode, "a", [Attribute("", "href", x)], []);
    assert ChildrenHrefs([child]) == TraversForHrefs(child) + ChildrenHrefs([]);
  }

  /** An anchor without `href` is skipped silently. */
  lemma AnchorWithoutHrefSkipped(attrs: seq<Attribute>)
    requires forall j :: 0 <= j < |attrs| ==> attrs[j].key != "href"
    ensures TraversForHrefs(Node(ElementNode, "a", attrs, [])) == []
  {
    assert HrefPosition(attrs) == |attrs|;
  }

  /** An anchor as an "index of" listing writes it: `<a href="x">x</a>`. */
  function Anchor(href: string): Node {
    Node(ElementNode, "a", [Attribute("", "href", href)], [Node(TextNode, href, [], [])])
  }

  /** The text after an entry's anchor: its date and size, then a newline. */
  function Details(): Node {
    Node(TextNode, "   11-Sep-2001 21:21   -\n", [], [])
  }

  /** The contents of the `pre` block: each entry's anchor followed by its
      details text. */
  function Anchors(hrefs: seq<string>): seq<Node> {
    if hrefs == [] then [] else [Anchor(hrefs[0]), Details()] + Anchors(hrefs[1..])
  }

  /** The document tree the HTML parser builds for an "index of" page listing
      `hrefs`: a title, then a body holding a heading, a rule, the `pre`
      block of entries and a closing rule. Text nodes hold no anchors; the
      model keeps the ones inside `pre` and the newline between `head` and
      `body`, and omits the other white-space text. */
  function Listing(hrefs: seq<string>): Node {
    var text := Node(TextNode, "Index of", [], []);
    var newline := Node(TextNode, "\n", [], []);
    var head := Node(ElementNode, "head", [], [Node(ElementNode, "title", [], [text])]);
    var pre := Node(ElementNode, "pre", [], Anchors(hrefs));
    var hr := Node(ElementNode, "hr", [], []);
    var body := Node(ElementNode, "body", [Attribute("", "bgcolor", "white")],
                     [Node(ElementNode, "h1", [], [text]), hr, pre, hr]);
    Node(DocumentNode, "", [], [Node(ElementNode, "html", [], [head, newline, body])])
  }

  /** A listing anchor yields its own href, and nothing from its text. */
  lemma AnchorHref(href: string)
    ensures TraversForHrefs(Anchor(href)) == [href]
  {
    var a := Anchor(href);
    var t := a.children[0];
    assert ChildrenHrefs(t.children) == [];
    assert TraversForHrefs(t) == [];
    assert a.children[1..] == [];
    assert ChildrenHrefs(a.children) == TraversForHrefs(t) + ChildrenHrefs([]);
  }

  /** The hrefs of a node followed by more siblings. */
  lemma ChildrenHrefsCons(x: Node, rest: seq<Node>)
    ensures ChildrenHrefs([x] + rest) == TraversForHrefs(x) + ChildrenHrefs(rest)
  {
    assert ([x] + rest)[1..] == rest;
  }

  /** One entry of a `pre` block, its anchor and its details text, yields
      the entry's href ahead of whatever follows. */
  lemma EntryHrefs(href: string, rest: seq<Node>)
    ensures ChildrenHrefs([Anchor(href), Details()] + rest) == [href] + ChildrenHrefs(rest)
  {
    AnchorHref(href);
    assert TraversForHrefs(Details()) == [];
    ChildrenHrefsCons(Details(), rest);
    ChildrenHrefsCons(Anchor(href), [Details()] + rest);
    assert [Anchor(href), Details()] + rest == [Anchor(href)] + ([Details()] + rest);
  }

  lemma {:induction false} AnchorsHrefs(hrefs: seq<string>)
    ensures ChildrenHrefs(Anchors(hrefs)) == hrefs
  {
    if hrefs != [] {
      AnchorsHrefs(hrefs[1..]);
      EntryHrefs(hrefs[0], Anchors(hrefs[1..]));
    }
  }

  /** A node that is not an anchor passes its children's hrefs through. */
  lemma NonAnchorHrefs(n: Node)
    requires n.kind != ElementNode || n.data != "a"
    ensures TraversForHrefs(n) == ChildrenHrefs(n.children)
  {
  }

  lemma ChildrenHrefsPair(x: Node, y: Node)
    ensures ChildrenHrefs([x, y]) == TraversForHrefs(x) + TraversForHrefs(y)
  {
    assert [x, y][1..] == [y];
    assert [y][1..] == [];
    assert ChildrenHrefs([y]) == TraversForHrefs(y) + ChildrenHrefs([]);
    assert TraversForHrefs(y) + [] == TraversForHrefs(y);
  }

  lemma ChildrenHrefsTriple(x: Node, y: Node, z: Node)
    ensures ChildrenHrefs([x, y, z]) == TraversForHrefs(x) + TraversForHrefs(y) + TraversForHrefs(z)
  {
    assert [x, y, z][1..] == [y, z];
    ChildrenHrefsPair(y, z);
    assert ChildrenHrefs([x, y, z]) == TraversForHrefs(x) + ChildrenHrefs([y, z]);
    assert TraversForHrefs(x) + (TraversForHrefs(y) + TraversForHrefs(z))
        == TraversForHrefs(x) + TraversForHrefs(y) + TraversForHrefs(z);
  }

  /** A subtree without any `a` element yields nothing. */
  lemma TextOnlyHrefs(tag: string)
    requires tag != "a"
    ensures TraversForHrefs(Node(ElementNode, tag, [], [Node(TextNode, "Index of", [], [])])) == []
  {
    var t := Node(TextNode, "Index of", [], []);
    NonAnchorHrefs(t);
    assert TraversForHrefs(t) == [];
    assert ChildrenHrefs([t]) == TraversForHrefs(t) + ChildrenHrefs([]);
  }

  lemma ChildrenHrefsSingle(x: Node)
    ensures ChildrenHrefs([x]) == TraversForHrefs(x)
  {
    assert [x][1..] == [];
    assert ChildrenHrefs([x]) == TraversForHrefs(x) + ChildrenHrefs([]);
  }

  /** The `head` element of a listing holds no anchor. */
  lemma ListingHeadHrefs(hrefs: seq<string>)
    ensures TraversForHrefs(Listing(hrefs).children[0].children[0]) == []
  {
    var head := Listing(hrefs).children[0].children[0];
    var title := head.children[0];
    TextOnlyHrefs("title");
    NonAnchorHrefs(head);
    ChildrenHrefsSingle(title);
  }

  /** The `body` element of a listing yields the entries of its `pre` block. */
  lemma ListingBodyHrefs(hrefs: seq<string>)
    ensures TraversForHrefs(Listing(hrefs).children[0].children[2]) == hrefs
  {
    var body := Listing(hrefs).children[0].children[2];
    var h1 := body.children[0];
    var hr := body.children[1];
    var pre := body.children[2];
    AnchorsHrefs(hrefs);
    NonAnchorHrefs(pre);
    TextOnlyHrefs("h1");
    NonAnchorHrefs(hr);
    assert TraversForHrefs(hr) == [];
    NonAnchorHrefs(body);
    assert body.children[1..] == [hr, pre, hr];
    ChildrenHrefsTriple(hr, pre, hr);
    assert ChildrenHrefs(body.children) == TraversForHrefs(h1) + ChildrenHrefs([hr, pre, hr]);
  }

  /** Walking an "index of" page gives back exactly its entries, in order. */
  lemma ListingHrefs(hrefs: seq<string>)
    ensures TraversForHrefs(Listing(hrefs)) == hrefs
  {
    var doc := Listing(hrefs);
    var html := doc.children[0];
    var newline := html.children[1];
    ListingHeadHrefs(hrefs);
    ListingBodyHrefs(hrefs);
    NonAnchorHrefs(newline);
    assert TraversForHrefs(newline) == [];
    NonAnchorHrefs(html);
    ChildrenHrefsTriple(html.children[0], newline, html.children[2]);
    NonAnchorHrefs(doc);
    ChildrenHrefsSingle(html);
  }
}
