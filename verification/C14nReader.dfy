/** A reader of the tokens of a document: start tag, declarations, attributes whose prefixes are looked
    up in the declarations read so far, children, end tag. What it makes of a canonical form. */
module C14nReader {
  import opened ListSpec
  import opened XmlStrings
  import opened Options
  import opened C14nNamespaces
  import opened C14nAttributes
  import opened C14nTree

  // ---------------------------------------------------------------- the reader

  /** The declarations at the front. */
  function ReadDeclarations(ts: seq<Token>): (r: (seq<Ns>, seq<Token>))
    ensures |r.1| <= |ts|
  {
    if ts == [] || !ts[0].Xmlns? then ([], ts)
    else
      var (more, rest) := ReadDeclarations(ts[1..]);
      ([ts[0].ns] + more, rest)
  }

  /** What a prefix on an attribute stands for; without one the attribute has no namespace. */
  function Resolved(prefix: string, axis: seq<Ns>): Option<Option<AttrNs>> {
    if prefix == "" then Some(None)
    else if prefix == "xml" then Some(Some(AttrNs(0, prefix, XML_XML_NAMESPACE)))
    else
      match Binding(axis, prefix)
      case None => None
      case Some(href) => Some(Some(AttrNs(0, prefix, href)))
  }

  /** The attributes at the front, unless one has a prefix without a declaration. */
  function ReadAttributes(ts: seq<Token>, axis: seq<Ns>): (r: Option<(seq<Attr>, seq<Token>)>)
    ensures r.Some? ==> |r.value.1| <= |ts|
  {
    if ts == [] || !ts[0].Attribute? then Some(([], ts))
    else
      match (Resolved(ts[0].prefix, axis), ReadAttributes(ts[1..], axis))
      case (Some(ns), Some((more, rest))) => Some(([Attr(ns, ts[0].name, ts[0].value)] + more, rest))
      case _ => None
  }

  /** The node at the front, below these declarations, and what comes behind it. */
  function ReadNode(ts: seq<Token>, axis: seq<Ns>): (r: Option<(Node, seq<Token>)>)
    ensures r.Some? ==> |r.value.1| < |ts|
    decreases |ts|, 0
  {
    if ts == [] then None
    else
      match ts[0]
      case Characters(content) => Some((Text(content), ts[1..]))
      case StartTag(prefix, name) =>
        var (nsDef, rest) := ReadDeclarations(ts[1..]);
        (match ReadAttributes(rest, nsDef + axis)
         case None => None
         case Some((attrs, inside)) =>
           if inside == [] || inside[0] != StartTagEnd then None
           else
             var (children, end) := ReadNodes(inside[1..], nsDef + axis);
             if end == [] || end[0] != EndTag(prefix, name) then None
             else Some((Element(prefix, name, nsDef, attrs, children), end[1..])))
      case _ => None
  }

  /** As many nodes as there are. */
  function ReadNodes(ts: seq<Token>, axis: seq<Ns>): (r: (seq<Node>, seq<Token>))
    ensures |r.1| <= |ts|
    decreases |ts|, 1
  {
    match ReadNode(ts, axis)
    case None => ([], ts)
    case Some((n, rest)) =>
      var (ns, end) := ReadNodes(rest, axis);
      ([n] + ns, end)
  }

  // ---------------------------------------------------------------- tokens read back

  lemma {:induction false} DeclarationsReadBack(a: seq<Ns>, r: seq<Token>)
    requires r != [] && !r[0].Xmlns?
    ensures ReadDeclarations(XmlnsTokens(a) + r) == (a, r)
  {
    var ts := XmlnsTokens(a) + r;
    if a == [] {
      assert ts == r;
    } else {
      assert ts[0] == Xmlns(a[0]) && ts[1..] == XmlnsTokens(a[1..]) + r;
      DeclarationsReadBack(a[1..], r);
      assert a == [a[0]] + a[1..];
    }
  }

  /** In scope, the namespace of an attribute is what its prefix stands for. */
  lemma InScopeResolved(a: Attr, p: seq<Ns>, q: seq<Ns>)
    requires InScope(a, p) && SameBindings(p, q) && Anonymous(a) == a
    ensures Resolved(if a.ns.None? then "" else a.ns.value.prefix, q) == Some(a.ns)
  {
    hide Binding;
  }

  lemma {:induction false} AttributesReadBack(a: seq<Attr>, p: seq<Ns>, q: seq<Ns>, r: seq<Token>)
    requires AllInScope(a, p) && AllAnonymous(a) && SameBindings(p, q) && r != [] && !r[0].Attribute?
    ensures ReadAttributes(AttributeTokens(a) + r, q) == Some((a, r))
  {
    hide InScope, SameBindings, Resolved, Anonymous;
    var ts := AttributeTokens(a) + r;
    if a == [] {
      assert ts == r;
    } else {
      assert ts[0] == AttributeToken(a[0]) && ts[1..] == AttributeTokens(a[1..]) + r;
      InScopeResolved(a[0], p, q);
      AttributesReadBack(a[1..], p, q, r);
      assert a == [a[0]] + a[1..];
    }
  }

  function AfterChildren(n: Node, r: seq<Token>): seq<Token>
    requires n.Element?
  {
    [EndTag(n.prefix, n.name)] + r
  }

  /** The tokens of an element, part by part. */
  lemma TokensParts(n: Node, r: seq<Token>)
    requires n.Element?
    ensures Tokens(n) + r
         == [StartTag(n.prefix, n.name)] + (XmlnsTokens(n.nsDef) + (AttributeTokens(n.attrs)
            + ([StartTagEnd] + (TokensAll(n.children) + AfterChildren(n, r)))))
  {
    hide XmlnsTokens, AttributeTokens, TokensAll;
    var t4 := TokensAll(n.children) + [EndTag(n.prefix, n.name)];
    var t3 := [StartTagEnd] + t4;
    var t2 := AttributeTokens(n.attrs) + t3;
    var t1 := XmlnsTokens(n.nsDef) + t2;
    assert t4 + r == TokensAll(n.children) + AfterChildren(n, r);
    assert t3 + r == [StartTagEnd] + (t4 + r);
    assert t2 + r == AttributeTokens(n.attrs) + (t3 + r);
    assert t1 + r == XmlnsTokens(n.nsDef) + (t2 + r);
  }

  /** How an element is read whose parts are. */
  lemma ReadElement(n: Node, axis: seq<Ns>, t1: seq<Token>, t2: seq<Token>, t3: seq<Token>, r: seq<Token>)
    requires n.Element?
    requires ReadDeclarations(t1) == (n.nsDef, t2)
    requires ReadAttributes(t2, n.nsDef + axis) == Some((n.attrs, [StartTagEnd] + t3))
    requires ReadNodes(t3, n.nsDef + axis) == (n.children, AfterChildren(n, r))
    ensures ReadNode([StartTag(n.prefix, n.name)] + t1, axis) == Some((n, r))
  {
    hide ReadNodes, ReadDeclarations, ReadAttributes;
    var ts := [StartTag(n.prefix, n.name)] + t1;
    assert ts[1..] == t1 && ([StartTagEnd] + t3)[1..] == t3 && AfterChildren(n, r)[1..] == r;
  }

  /** A tree with declared prefixes reads back, below any declarations with the same bindings and
      whatever follows. */
  lemma {:induction false} TokensReadBack(n: Node, p: seq<Ns>, q: seq<Ns>, r: seq<Token>)
    requires ScopedTree(n, p) && AnonymousTree(n) && SameBindings(p, q)
    ensures ReadNode(Tokens(n) + r, q) == Some((n, r))
    decreases n, 0
  {
    if n.Text? {
      assert (Tokens(n) + r)[1..] == r;
    } else {
      hide Tokens, TokensAll, XmlnsTokens, AttributeTokens, SameBindings, AllInScope, AllAnonymous, ReadNode, ReadNodes;
      var own, end := n.nsDef + q, AfterChildren(n, r);
      var t3 := TokensAll(n.children) + end;
      var t2 := AttributeTokens(n.attrs) + ([StartTagEnd] + t3);
      TokensParts(n, r);
      AttributesStart(n.attrs, [StartTagEnd] + t3);
      DeclarationsReadBack(n.nsDef, t2);
      SameBelow(n.nsDef, p, q);
      AttributesReadBack(n.attrs, n.nsDef + p, own, [StartTagEnd] + t3);
      TokensAllReadBack(n.children, n.nsDef + p, own, end);
      ReadElement(n, q, XmlnsTokens(n.nsDef) + t2, t2, t3, r);
    }
  }

  lemma AttributesStart(attrs: seq<Attr>, r: seq<Token>)
    requires r != [] && r[0] == StartTagEnd
    ensures var t := AttributeTokens(attrs) + r; t != [] && !t[0].Xmlns?
  {
  }

  lemma ReadNodesFirst(ts: seq<Token>, axis: seq<Ns>, n: Node, rest: seq<Token>)
    requires ReadNode(ts, axis) == Some((n, rest))
    ensures ReadNodes(ts, axis) == ([n] + ReadNodes(rest, axis).0, ReadNodes(rest, axis).1)
  {
    hide ReadNode;
  }

  lemma ReadNoNodes(ts: seq<Token>, axis: seq<Ns>)
    requires ts == [] || ts[0].EndTag?
    ensures ReadNodes(ts, axis) == ([], ts)
  {
  }

  lemma {:induction false} TokensAllReadBack(ns: seq<Node>, p: seq<Ns>, q: seq<Ns>, r: seq<Token>)
    requires ScopedTrees(ns, p) && AnonymousTrees(ns) && SameBindings(p, q) && (r == [] || r[0].EndTag?)
    ensures ReadNodes(TokensAll(ns) + r, q) == (ns, r)
    decreases ns, 1
  {
    hide Tokens, SameBindings, ScopedTree, AnonymousTree, ReadNode, ReadNodes;
    if ns == [] {
      assert TokensAll(ns) + r == r;
      ReadNoNodes(r, q);
    } else {
      var rest := TokensAll(ns[1..]) + r;
      assert TokensAll(ns) + r == Tokens(ns[0]) + rest;
      TokensReadBack(ns[0], p, q, rest);
      ReadNodesFirst(TokensAll(ns) + r, q, ns[0], rest);
      TokensAllReadBack(ns[1..], p, q, r);
      assert ns == [ns[0]] + ns[1..];
    }
  }

  // ---------------------------------------------------------------- what is read is what is there

  /** Tokens from the front on. */
  lemma FromFront(ts: seq<Token>, a: seq<Token>, r: seq<Token>)
    requires ts != [] && ts[1..] == a + r
    ensures ts == ([ts[0]] + a) + r
  {
  }

  lemma XmlnsTokensFirst(a: Ns, more: seq<Ns>)
    ensures XmlnsTokens([a] + more) == [Xmlns(a)] + XmlnsTokens(more)
  {
  }

  lemma AttributeTokensFirst(a: Attr, more: seq<Attr>)
    ensures AttributeTokens([a] + more) == [AttributeToken(a)] + AttributeTokens(more)
  {
  }

  lemma {:induction false} DeclarationsAreTokens(ts: seq<Token>)
    ensures var (nsDef, rest) := ReadDeclarations(ts); ts == XmlnsTokens(nsDef) + rest
  {
    hide XmlnsTokens;
    if ts == [] || !ts[0].Xmlns? {
      assert XmlnsTokens([]) == [];
    } else {
      var (more, rest) := ReadDeclarations(ts[1..]);
      DeclarationsAreTokens(ts[1..]);
      XmlnsTokensFirst(ts[0].ns, more);
      FromFront(ts, XmlnsTokens(more), rest);
    }
  }

  lemma AttributeReadIs(t: Token, axis: seq<Ns>)
    requires t.Attribute? && Resolved(t.prefix, axis).Some?
    ensures AttributeToken(Attr(Resolved(t.prefix, axis).value, t.name, t.value)) == t
  {
    hide Binding;
  }

  lemma {:induction false} AttributesAreTokens(ts: seq<Token>, axis: seq<Ns>)
    requires ReadAttributes(ts, axis).Some?
    ensures var (attrs, rest) := ReadAttributes(ts, axis).value; ts == AttributeTokens(attrs) + rest
  {
    hide AttributeTokens, AttributeToken, Resolved;
    if ts == [] || !ts[0].Attribute? {
      assert AttributeTokens([]) == [];
    } else {
      var (more, rest) := ReadAttributes(ts[1..], axis).value;
      AttributesAreTokens(ts[1..], axis);
      AttributeReadIs(ts[0], axis);
      AttributeTokensFirst(Attr(Resolved(ts[0].prefix, axis).value, ts[0].name, ts[0].value), more);
      FromFront(ts, AttributeTokens(more), rest);
    }
  }

  /** An element is read part by part. */
  lemma ElementParts(ts: seq<Token>, axis: seq<Ns>)
      returns (t2: seq<Token>, inside: seq<Token>, end: seq<Token>)
    requires ReadNode(ts, axis).Some? && ReadNode(ts, axis).value.0.Element?
    ensures var (n, rest) := ReadNode(ts, axis).value;
      && ts != [] && ts[0] == StartTag(n.prefix, n.name) && ReadDeclarations(ts[1..]) == (n.nsDef, t2)
      && ReadAttributes(t2, n.nsDef + axis) == Some((n.attrs, inside)) && inside != [] && inside[0] == StartTagEnd
      && ReadNodes(inside[1..], n.nsDef + axis) == (n.children, end) && |inside[1..]| < |ts|
      && end != [] && end[0] == EndTag(n.prefix, n.name) && end[1..] == rest
  {
    hide ReadDeclarations, ReadAttributes, ReadNodes;
    t2 := ReadDeclarations(ts[1..]).1;
    var own := ReadDeclarations(ts[1..]).0 + axis;
    inside := ReadAttributes(t2, own).value.1;
    end := ReadNodes(inside[1..], own).1;
  }

  lemma {:induction false} ReadIsTokens(ts: seq<Token>, axis: seq<Ns>)
    requires ReadNode(ts, axis).Some?
    ensures var (n, rest) := ReadNode(ts, axis).value; ts == Tokens(n) + rest
    decreases |ts|, 0
  {
    var (n, rest) := ReadNode(ts, axis).value;
    hide ReadNode, ReadNodes, ReadDeclarations, ReadAttributes, Tokens, TokensAll, XmlnsTokens, AttributeTokens;
    if n.Text? {
      TextRead(ts, axis);
    } else {
      var t2, inside, end := ElementParts(ts, axis);
      DeclarationsAreTokens(ts[1..]);
      AttributesAreTokens(t2, n.nsDef + axis);
      ReadAllIsTokens(inside[1..], n.nsDef + axis);
      Front(end);
      Front(inside);
      Front(ts);
      TokensParts(n, rest);
    }
  }

  lemma Front(ts: seq<Token>)
    requires ts != []
    ensures ts == [ts[0]] + ts[1..]
  {
  }

  lemma TextRead(ts: seq<Token>, axis: seq<Ns>)
    requires ReadNode(ts, axis).Some? && ReadNode(ts, axis).value.0.Text?
    ensures var (n, rest) := ReadNode(ts, axis).value; ts == Tokens(n) + rest
  {
    hide ReadNodes, ReadDeclarations, ReadAttributes;
    assert ts == [ts[0]] + ts[1..];
  }

  lemma {:induction false} ReadAllIsTokens(ts: seq<Token>, axis: seq<Ns>)
    ensures var (ns, rest) := ReadNodes(ts, axis); ts == TokensAll(ns) + rest
    decreases |ts|, 1
  {
    hide Tokens, ReadNode;
    if ReadNode(ts, axis).Some? {
      ReadIsTokens(ts, axis);
      var (n, rest) := ReadNode(ts, axis).value;
      ReadAllIsTokens(rest, axis);
      var (ns, end) := ReadNodes(rest, axis);
      assert ([n] + ns)[1..] == ns;
      assert TokensAll([n] + ns) + end == Tokens(n) + (TokensAll(ns) + end);
    }
  }

  /** Two nodes below the same bindings, each with its prefixes declared. */
  ghost predicate Readable(n: Node, p: seq<Ns>, m: Node, q: seq<Ns>) {
    SameBindings(p, q) && ScopedTree(n, p) && ScopedTree(m, q) && AnonymousTree(n) && AnonymousTree(m)
  }

  /** Different trees with declared prefixes never have the same tokens, whatever follows. */
  lemma TokensApart(n: Node, p: seq<Ns>, m: Node, q: seq<Ns>, r: seq<Token>, s: seq<Token>)
    requires Tokens(n) + r == Tokens(m) + s && Readable(n, p, m, q)
    ensures n == m && r == s
  {
    hide Tokens, ReadNode, ScopedTree, AnonymousTree;
    TokensReadBack(n, p, q, r);
    TokensReadBack(m, q, q, s);
  }

  /** Two documents have the same canonical form exactly when they have the same meaning. */
  lemma CanonicalIff(n: Node, m: Node)
    requires WellFormedTree(n) && WellFormedTree(m) && ScopedTree(n, []) && ScopedTree(m, [])
    ensures Tokens(Render(n, [])) == Tokens(Render(m, [])) <==> SameMeaning(n, [], m, [])
  {
    hide Tokens, Render, SameMeaning, WellFormedTree, ScopedTree, AnonymousTree;
    var r, s := Render(n, []), Render(m, []);
    if Tokens(r) == Tokens(s) {
      RenderScoped(n, [], []);
      RenderScoped(m, [], []);
      TokensApart(r, [], s, [], [], []);
      RenderKeepsMeaning(n, [], []);
      RenderKeepsMeaning(m, [], []);
      MeaningJoin(n, [], m, [], r, []);
    }
    if SameMeaning(n, [], m, []) {
      RenderByMeaning(n, [], m, []);
    }
  }
}
