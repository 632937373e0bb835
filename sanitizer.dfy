/**
 * The HTML clean-up step applied to every entry's content, on a parsed element tree: banned
 * elements are removed together with everything inside them, then every remaining element
 * keeps only its safe attributes. Parsing the markup into the tree and writing the tree back
 * out as text belong to the HTML library and are not modelled.
 */
module Sanitizer {
  /** One attribute of an element, as the parser reports it. */
  datatype Attr = Attr(name: string, value: string)

  /** A node of the parsed document: character data or an element with ordered children.
      Tag and attribute names are lower-case, as the HTML parser delivers them. */
  datatype Node =
    | Text(text: string)
    | Element(tag: string, attrs: seq<Attr>, children: seq<Node>)

  /** A document (or a fragment): its top-level nodes, in order. */
  type Html = seq<Node>

  /** Elements that are removed with their whole subtree. */
  const BannedTags: set<string> := {"script", "style", "iframe", "object", "embed"}

  /** The only attribute names an element may keep. */
  const SafeAttrNames: set<string> := {"href", "src", "alt", "title", "class", "id"}

  predicate IsBanned(n: Node) {
    n.Element? && n.tag in BannedTags
  }

  /** No banned element occurs anywhere in the fragment, at any depth. */
  predicate NoBanned(ns: Html)
    decreases ns
  {
    ns == [] || (!IsBanned(ns[0]) && NoBannedBelow(ns[0]) && NoBanned(ns[1..]))
  }

  /** No banned element occurs below the node (the node itself is not considered). */
  predicate NoBannedBelow(n: Node)
    decreases n
  {
    match n
    case Text(_) => true
    case Element(_, _, children) => NoBanned(children)
  }

  /** Every attribute in the list has a safe name. */
  ghost predicate SafeAttrs(attrs: seq<Attr>) {
    forall i :: 0 <= i < |attrs| ==> attrs[i].name in SafeAttrNames
  }

  /** Every element of the fragment, at any depth, carries only safe attributes. */
  ghost predicate AttrsSafe(ns: Html)
    decreases ns
  {
    ns == [] || (AttrsSafeNode(ns[0]) && AttrsSafe(ns[1..]))
  }

  ghost predicate AttrsSafeNode(n: Node)
    decreases n
  {
    match n
    case Text(_) => true
    case Element(_, attrs, children) => SafeAttrs(attrs) && AttrsSafe(children)
  }

  /** The fragment with every attribute list emptied: its shape, tags and text. */
  function Erase(ns: Html): (r: Html)
    ensures |r| == |ns|
    decreases ns
  {
    if ns == [] then [] else [EraseNode(ns[0])] + Erase(ns[1..])
  }

  function EraseNode(n: Node): Node
    decreases n
  {
    match n
    case Text(_) => n
    case Element(tag, _, children) => Element(tag, [], Erase(children))
  }

  /** The character data of the fragment in document order. */
  function TextContent(ns: Html): string
    decreases ns
  {
    if ns == [] then [] else TextOf(ns[0]) + TextContent(ns[1..])
  }

  function TextOf(n: Node): string
    decreases n
  {
    match n
    case Text(t) => t
    case Element(_, _, children) => TextContent(children)
  }

  /** Reference definition of the text a reader sees once banned elements are gone: the
      character data of the fragment, skipping every banned subtree. */
  function VisibleText(ns: Html): string
    decreases ns
  {
    if ns == [] then []
    else (if IsBanned(ns[0]) then [] else VisibleTextOf(ns[0])) + VisibleText(ns[1..])
  }

  function VisibleTextOf(n: Node): string
    decreases n
  {
    match n
    case Text(t) => t
    case Element(_, _, children) => VisibleText(children)
  }

  /** The removal step: each banned element is taken out with its subtree; everything else
      stays in place, in order. */
  function Decompose(ns: Html): (r: Html)
    ensures NoBanned(r)
    ensures |r| <= |ns|
    decreases ns
  {
    if ns == [] then []
    else if IsBanned(ns[0]) then Decompose(ns[1..])
    else [DecomposeNode(ns[0])] + Decompose(ns[1..])
  }

  /** Removal below one node that is kept: the node keeps its kind, tag and attributes. */
  function DecomposeNode(n: Node): (r: Node)
    ensures NoBannedBelow(r)
    ensures r.Text? <==> n.Text?
    ensures r.Text? ==> r == n
    ensures r.Element? ==> r.tag == n.tag && r.attrs == n.attrs
    decreases n
  {
    match n
    case Text(_) => n
    case Element(tag, attrs, children) =>
      var kept := Decompose(children);
      assert NoBanned(kept);
      Element(tag, attrs, kept)
  }

  /** The attribute filter: the safe attributes of the list, in their order (the order by
      `KeepSafeAttrsAppend`). */
  function KeepSafeAttrs(attrs: seq<Attr>): (r: seq<Attr>)
    ensures SafeAttrs(r)
    ensures forall a :: a in r <==> a in attrs && a.name in SafeAttrNames
    ensures |r| <= |attrs|
  {
    if attrs == [] then []
    else (if attrs[0].name in SafeAttrNames then [attrs[0]] else []) + KeepSafeAttrs(attrs[1..])
  }

  /** The attribute step, on every element of the fragment at any depth. Only attribute lists
      change: the shape, the tags and the text stay as they were. */
  function StripAttrs(ns: Html): (r: Html)
    ensures AttrsSafe(r)
    ensures Erase(r) == Erase(ns)
    ensures |r| == |ns| && forall i :: 0 <= i < |r| ==> r[i] == StripAttrsNode(ns[i])
    decreases ns
  {
    if ns == [] then [] else [StripAttrsNode(ns[0])] + StripAttrs(ns[1..])
  }

  /** One node: an element keeps exactly the safe attributes of its own list, in order. */
  function StripAttrsNode(n: Node): (r: Node)
    ensures AttrsSafeNode(r)
    ensures EraseNode(r) == EraseNode(n)
    ensures r.Element? ==> r.attrs == KeepSafeAttrs(n.attrs)
    decreases n
  {
    match n
    case Text(_) => n
    case Element(tag, attrs, children) => Element(tag, KeepSafeAttrs(attrs), StripAttrs(children))
  }

  /** The attribute filter works piece by piece, so it keeps the safe attributes in the order
      of the list. */
  lemma {:induction false} KeepSafeAttrsAppend(a: seq<Attr>, b: seq<Attr>)
    ensures KeepSafeAttrs(a + b) == KeepSafeAttrs(a) + KeepSafeAttrs(b)
  {
    if a == [] {
      assert a + b == b;
    } else {
      assert (a + b)[0] == a[0] && (a + b)[1..] == a[1..] + b;
      KeepSafeAttrsAppend(a[1..], b);
    }
  }

  /** Reference listing of every attribute of a fragment, element by element in document
      order. */
  function Attributes(ns: Html): seq<Attr>
    decreases ns
  {
    if ns == [] then [] else AttributesOf(ns[0]) + Attributes(ns[1..])
  }

  function AttributesOf(n: Node): seq<Attr>
    decreases n
  {
    match n
    case Text(_) => []
    case Element(_, attrs, children) => attrs + Attributes(children)
  }

  /** The attribute step keeps exactly the safe attributes of the document, in document
      order: none is dropped but the unsafe ones, none is added or moved. */
  lemma {:induction false} AttributesOfStripped(ns: Html)
    ensures Attributes(StripAttrs(ns)) == KeepSafeAttrs(Attributes(ns))
    decreases ns
  {
    if ns != [] {
      var r := StripAttrs(ns);
      assert r[0] == StripAttrsNode(ns[0]) && r[1..] == StripAttrs(ns[1..]);
      AttributesOfStripped(ns[1..]);
      AttributesOfStrippedNode(ns[0]);
      KeepSafeAttrsAppend(AttributesOf(ns[0]), Attributes(ns[1..]));
    }
  }

  lemma {:induction false} AttributesOfStrippedNode(n: Node)
    ensures AttributesOf(StripAttrsNode(n)) == KeepSafeAttrs(AttributesOf(n))
    decreases n
  {
    if n.Element? {
      AttributesOfStripped(n.children);
      KeepSafeAttrsAppend(n.attrs, Attributes(n.children));
    }
  }

  /** Removal works node by node along a fragment. */
  lemma {:induction false} DecomposeAppend(a: Html, b: Html)
    ensures Decompose(a + b) == Decompose(a) + Decompose(b)
    decreases a
  {
    if a == [] {
      assert a + b == b;
    } else {
      assert (a + b)[0] == a[0] && (a + b)[1..] == a[1..] + b;
      DecomposeAppend(a[1..], b);
    }
  }

  /** Removal on one node: a banned element goes with its subtree; any other node stays, and
      an element that stays keeps its tag and attributes with removal applied to its
      children. Together with `DecomposeAppend` this says every node that is neither banned
      nor inside a banned element survives. */
  lemma DecomposeSingle(n: Node)
    ensures IsBanned(n) ==> Decompose([n]) == []
    ensures !IsBanned(n) ==> Decompose([n]) == [DecomposeNode(n)]
    ensures n.Text? ==> Decompose([n]) == [n]
    ensures n.Element? && !IsBanned(n)
        ==> Decompose([n]) == [Element(n.tag, n.attrs, Decompose(n.children))]
  {
    assert [n][1..] == [];
  }

  /** The clean-up as a whole: removal first, then the attribute filter. */
  function Clean(ns: Html): Html {
    StripAttrs(Decompose(ns))
  }

  /** Fragments with the same shape have the same banned elements. */
  lemma {:induction false} NoBannedErase(ns: Html, ms: Html)
    requires Erase(ns) == Erase(ms)
    ensures NoBanned(ns) <==> NoBanned(ms)
    decreases ns
  {
    if ns != [] {
      assert ms != [];
      assert EraseNode(ns[0]) == Erase(ns)[0] == Erase(ms)[0] == EraseNode(ms[0]);
      assert Erase(ns[1..]) == Erase(ns)[1..] == Erase(ms)[1..] == Erase(ms[1..]);
      NoBannedErase(ns[1..], ms[1..]);
      if ns[0].Element? {
        NoBannedErase(ns[0].children, ms[0].children);
      }
    }
  }

  /** Fragments with the same shape have the same text. */
  lemma {:induction false} TextContentErase(ns: Html, ms: Html)
    requires Erase(ns) == Erase(ms)
    ensures TextContent(ns) == TextContent(ms)
    decreases ns
  {
    if ns != [] {
      assert ms != [];
      assert EraseNode(ns[0]) == Erase(ns)[0] == Erase(ms)[0] == EraseNode(ms[0]);
      assert Erase(ns[1..]) == Erase(ns)[1..] == Erase(ms)[1..] == Erase(ms[1..]);
      TextContentErase(ns[1..], ms[1..]);
      if ns[0].Element? {
        TextContentErase(ns[0].children, ms[0].children);
      }
    }
  }

  /** The text of a fragment is the text of its first node followed by the rest. */
  lemma TextContentCons(n: Node, rest: Html)
    ensures TextContent([n] + rest) == TextOf(n) + TextContent(rest)
  {
    assert ([n] + rest)[0] == n;
    assert ([n] + rest)[1..] == rest;
  }

  /** Removal keeps exactly the visible text. */
  lemma {:induction false} DecomposeText(ns: Html)
    ensures TextContent(Decompose(ns)) == VisibleText(ns)
    decreases ns
  {
    if ns != [] {
      DecomposeText(ns[1..]);
      if !IsBanned(ns[0]) {
        TextContentCons(DecomposeNode(ns[0]), Decompose(ns[1..]));
        DecomposeNodeText(ns[0]);
      }
    }
  }

  lemma {:induction false} DecomposeNodeText(n: Node)
    ensures TextOf(DecomposeNode(n)) == VisibleTextOf(n)
    decreases n
  {
    if n.Element? {
      DecomposeText(n.children);
    }
  }

  /** The clean-up guarantees of the content that reaches the PDF: no banned element at any
      depth, only safe attributes on every element, and exactly the text outside banned
      elements. Empty content stays empty. */
  lemma CleanGuarantees(ns: Html)
    ensures NoBanned(Clean(ns))
    ensures AttrsSafe(Clean(ns))
    ensures TextContent(Clean(ns)) == VisibleText(ns)
    ensures Erase(Clean(ns)) == Erase(Decompose(ns))
    ensures ns == [] ==> Clean(ns) == []
  {
    var d := Decompose(ns);
    NoBannedErase(StripAttrs(d), d);
    TextContentErase(StripAttrs(d), d);
    DecomposeText(ns);
  }

  /** Removal changes nothing in a fragment without banned elements. */
  lemma {:induction false} DecomposeNoBanned(ns: Html)
    requires NoBanned(ns)
    ensures Decompose(ns) == ns
    decreases ns
  {
    if ns != [] {
      DecomposeNoBanned(ns[1..]);
      if ns[0].Element? {
        DecomposeNoBanned(ns[0].children);
      }
      assert [ns[0]] + ns[1..] == ns;
    }
  }

  /** The attribute filter changes nothing in a list of safe attributes. */
  lemma {:induction false} KeepSafeAttrsOfSafe(attrs: seq<Attr>)
    requires SafeAttrs(attrs)
    ensures KeepSafeAttrs(attrs) == attrs
  {
    if attrs != [] {
      KeepSafeAttrsOfSafe(attrs[1..]);
      assert [attrs[0]] + attrs[1..] == attrs;
    }
  }

  /** The attribute step changes nothing in a fragment whose attributes are all safe. */
  lemma {:induction false} StripAttrsOfSafe(ns: Html)
    requires AttrsSafe(ns)
    ensures StripAttrs(ns) == ns
    decreases ns
  {
    if ns != [] {
      StripAttrsOfSafe(ns[1..]);
      if ns[0].Element? {
        KeepSafeAttrsOfSafe(ns[0].attrs);
        StripAttrsOfSafe(ns[0].children);
      }
      assert [ns[0]] + ns[1..] == ns;
    }
  }

  /** Already-clean content is left exactly as it is, so cleaning twice is cleaning once. */
  lemma CleanIdempotent(ns: Html)
    ensures NoBanned(ns) && AttrsSafe(ns) ==> Clean(ns) == ns
    ensures Clean(Clean(ns)) == Clean(ns)
  {
    if NoBanned(ns) && AttrsSafe(ns) {
      DecomposeNoBanned(ns);
      StripAttrsOfSafe(ns);
    }
    CleanGuarantees(ns);
    DecomposeNoBanned(Clean(ns));
    StripAttrsOfSafe(Clean(ns));
  }

  /** The script example of the unit tests: the paragraph stays, the script goes. */
  lemma ScriptRemovedExample()
    ensures Clean([Element("p", [], [Text("Hello")]), Element("script", [], [Text("alert('xss')")])])
         == [Element("p", [], [Text("Hello")])]
  {
    var p := Element("p", [], [Text("Hello")]);
    var sc := Element("script", [], [Text("alert('xss')")]);
    var doc := [p, sc];
    assert IsBanned(sc) && !IsBanned(p);
    assert doc[1..] == [sc];
    assert Decompose([sc]) == [];
    assert Decompose([Text("Hello")]) == [Text("Hello")];
    assert DecomposeNode(p) == p;
    assert Decompose(doc) == [p];
    assert StripAttrs([Text("Hello")]) == [Text("Hello")];
    assert StripAttrsNode(p) == p;
  }
  /** The attribute example of the unit tests: the event handler goes, the class stays. */
  lemma UnsafeAttributeExample()
    ensures Clean([Element("p", [Attr("onclick", "evil()"), Attr("class", "ok")], [Text("Text")])])
         == [Element("p", [Attr("class", "ok")], [Text("Text")])]
  {
    var n := Element("p", [Attr("onclick", "evil()"), Attr("class", "ok")], [Text("Text")]);
    assert !IsBanned(n);
    assert Decompose([Text("Text")]) == [Text("Text")];
    assert Decompose([n]) == [n];
    assert "onclick" !in SafeAttrNames;
    assert KeepSafeAttrs([Attr("class", "ok")]) == [Attr("class", "ok")];
    assert KeepSafeAttrs(n.attrs) == [Attr("class", "ok")];
    assert StripAttrs([Text("Text")]) == [Text("Text")];
  }
}
