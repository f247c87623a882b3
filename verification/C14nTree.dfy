/** The tree of a document, the tree that Canonical XML 1.0 prints of it, and what trees mean. */
module C14nTree {
  import opened ListSpec
  import opened XmlStrings
  import opened Options
  import opened C14nNamespaces
  import opened C14nAttributes

  datatype Node =
    | Element(prefix: string, name: string, nsDef: seq<Ns>, attrs: seq<Attr>, children: seq<Node>)
    | Text(content: string)

  /** What is written to the output, name by name and value by value. */
  datatype Token =
    | StartTag(prefix: string, name: string)
    | Xmlns(ns: Ns)
    | Attribute(prefix: string, name: string, value: string)
    | StartTagEnd
    | Characters(content: string)
    | EndTag(prefix: string, name: string)

  // ---------------------------------------------------------------- the rendered tree

  function Anonymous(a: Attr): Attr {
    if a.ns.None? then a else a.(ns := Some(a.ns.value.(id := 0)))
  }

  function RenderedAttrs(attrs: seq<Attr>): seq<Attr> {
    Mapped(Anonymous, SortedAttrs(attrs))
  }

  function Render(n: Node, parent: seq<Ns>): Node {
    match n
    case Text(_) => n
    case Element(prefix, name, nsDef, attrs, children) =>
      Element(prefix, name, Printed(nsDef + parent, parent), RenderedAttrs(attrs),
              RenderAll(children, nsDef + parent))
  }

  function RenderAll(ns: seq<Node>, parent: seq<Ns>): (r: seq<Node>)
    ensures |r| == |ns|
  {
    if ns == [] then [] else [Render(ns[0], parent)] + RenderAll(ns[1..], parent)
  }

  function XmlnsTokens(ns: seq<Ns>): (t: seq<Token>)
    ensures |t| == |ns| && forall i :: 0 <= i < |t| ==> t[i] == Xmlns(ns[i])
  {
    seq(|ns|, i requires 0 <= i < |ns| => Xmlns(ns[i]))
  }

  /** An attribute is printed with the prefix of its namespace, if it has one. */
  function AttributeToken(a: Attr): Token {
    Attribute(if a.ns.None? then "" else a.ns.value.prefix, a.name, a.value)
  }

  function AttributeTokens(attrs: seq<Attr>): (t: seq<Token>)
    ensures |t| == |attrs| && forall i :: 0 <= i < |t| ==> t[i] == AttributeToken(attrs[i])
  {
    seq(|attrs|, i requires 0 <= i < |attrs| => AttributeToken(attrs[i]))
  }

  function Tokens(n: Node): seq<Token> {
    match n
    case Text(content) => [Characters(content)]
    case Element(prefix, name, nsDef, attrs, children) =>
      [StartTag(prefix, name)] + (XmlnsTokens(nsDef) + (AttributeTokens(attrs) + ([StartTagEnd]
      + (TokensAll(children) + [EndTag(prefix, name)]))))
  }

  function TokensAll(ns: seq<Node>): seq<Token> {
    if ns == [] then [] else Tokens(ns[0]) + TokensAll(ns[1..])
  }

  // ---------------------------------------------------------------- meaning

  /** Attributes are comparable and no element has the same expanded name twice. */
  ghost predicate WellFormedTree(n: Node) {
    n.Element? ==> WellFormed(n.attrs) && WellFormedTrees(n.children)
  }

  ghost predicate WellFormedTrees(ns: seq<Node>) {
    ns != [] ==> WellFormedTree(ns[0]) && WellFormedTrees(ns[1..])
  }

  /** The prefix of an attribute stands for its namespace on the element it is on. */
  predicate InScope(a: Attr, axis: seq<Ns>) {
    a.ns.Some? ==>
      var (prefix, href) := (a.ns.value.prefix, a.ns.value.href);
      prefix != "" && if prefix == "xml" then href == XML_XML_NAMESPACE else Binding(axis, prefix) == Some(href)
  }

  ghost predicate AllInScope(attrs: seq<Attr>, axis: seq<Ns>) {
    forall i :: 0 <= i < |attrs| ==> InScope(attrs[i], axis)
  }

  /** The prefixes of attributes are declared. */
  ghost predicate ScopedTree(n: Node, p: seq<Ns>) {
    n.Element? ==> AllInScope(n.attrs, n.nsDef + p) && ScopedTrees(n.children, n.nsDef + p)
  }

  ghost predicate ScopedTrees(ns: seq<Node>, p: seq<Ns>) {
    ns != [] ==> ScopedTree(ns[0], p) && ScopedTrees(ns[1..], p)
  }

  /** Two nodes say the same: the same names and text, the same bindings in scope for every
      prefix on every element, and the same attributes in any order. `p` and `q` are the
      declarations around the nodes. */
  ghost predicate SameMeaning(n: Node, p: seq<Ns>, m: Node, q: seq<Ns>)
    decreases n
  {
    match n
    case Text(_) => m == n
    case Element(prefix, name, nsDef, attrs, children) =>
      && m.Element? && m.prefix == prefix && m.name == name
      && SameBindings(nsDef + p, m.nsDef + q)
      && SameAttrs(attrs, m.attrs)
      && SameMeanings(children, nsDef + p, m.children, m.nsDef + q)
  }

  ghost predicate SameMeanings(ns: seq<Node>, p: seq<Ns>, ms: seq<Node>, q: seq<Ns>)
    decreases ns
  {
    && |ns| == |ms|
    && (ns != [] ==> SameMeaning(ns[0], p, ms[0], q) && SameMeanings(ns[1..], p, ms[1..], q))
  }

  ghost predicate SameAttrs(a: seq<Attr>, b: seq<Attr>) {
    multiset(Mapped(Anonymous, a)) == multiset(Mapped(Anonymous, b))
  }

  // ---------------------------------------------------------------- attributes without identity

  lemma AnonymousKeepsOrder(dom: set<Attr>)
    requires AllComparable(dom)
    ensures KeepsOrder(AttrsCompare, Anonymous, dom)
  {
    forall a, b | a in dom && b in dom
      ensures AttrsCompare(Anonymous(a), Anonymous(b)) >= 0 <==> AttrsCompare(a, b) >= 0
    {
      assert Comparable(a, b);
      CompareIsKeyOrder(a, b);
      CompareIsKeyOrder(Anonymous(a), Anonymous(b));
    }
  }

  lemma AnonymousSource(attrs: seq<Attr>, anon: seq<Attr>, a: Attr) returns (b: Attr)
    requires multiset(anon) == multiset(Mapped(Anonymous, attrs)) && a in anon
    ensures b in attrs && a == Anonymous(b)
  {
    assert a in multiset(anon);
    var i :| 0 <= i < |attrs| && Mapped(Anonymous, attrs)[i] == a;
    b := attrs[i];
  }

  lemma AnonymousWellFormed(attrs: seq<Attr>, anon: seq<Attr>)
    requires WellFormed(attrs) && multiset(anon) == multiset(Mapped(Anonymous, attrs))
    ensures WellFormed(anon)
  {
    var dom := set a | a in attrs;
    forall a, b | a in anon && b in anon
      ensures Comparable(a, b) && (KeyOf(a) == KeyOf(b) ==> a == b)
    {
      var a' := AnonymousSource(attrs, anon, a);
      var b' := AnonymousSource(attrs, anon, b);
      assert a' in dom && b' in dom;
      assert Comparable(a', b');
      assert KeyOf(a) == KeyOf(a') && KeyOf(b) == KeyOf(b');
    }
  }

  lemma RenderedAttrsAreSorted(attrs: seq<Attr>)
    requires WellFormed(attrs)
    ensures RenderedAttrs(attrs) == SortedAttrs(Mapped(Anonymous, attrs))
    ensures multiset(RenderedAttrs(attrs)) == multiset(Mapped(Anonymous, attrs))
  {
    var dom := set a | a in attrs;
    AnonymousKeepsOrder(dom);
    CopiedMapped(AttrsCompare, Anonymous, dom, [], attrs);
    assert Mapped(Anonymous, []) == [];
    CopiedIsPermutation(AttrsCompare, [], Mapped(Anonymous, attrs));
  }

  lemma AnonymousTwice(attrs: seq<Attr>)
    ensures Mapped(Anonymous, RenderedAttrs(attrs)) == RenderedAttrs(attrs)
  {
  }

  lemma AttrsBySet(attrs: seq<Attr>, attrs': seq<Attr>)
    requires WellFormed(attrs) && WellFormed(attrs') && SameAttrs(attrs, attrs')
    ensures RenderedAttrs(attrs) == RenderedAttrs(attrs')
  {
    RenderedAttrsAreSorted(attrs);
    RenderedAttrsAreSorted(attrs');
    AnonymousWellFormed(attrs, Mapped(Anonymous, attrs));
    AttrsIgnoreOrder(Mapped(Anonymous, attrs), Mapped(Anonymous, attrs'));
  }

  // ---------------------------------------------------------------- rendering keeps the meaning

  /** The rendered tree, read below declarations with the same bindings, says what the original
      says: every element has the same bindings in scope. */
  lemma {:induction false} RenderKeepsMeaning(n: Node, p: seq<Ns>, p': seq<Ns>)
    requires WellFormedTree(n) && SameBindings(p, p')
    ensures SameMeaning(n, p, Render(n, p), p')
    decreases n
  {
    hide SameBindings, Printed, WellFormed, RenderedAttrs;
    if n.Element? {
      var axis := n.nsDef + p;
      PrintedKeepsBindings(n.nsDef, p, p');
      RenderedAttrsAreSorted(n.attrs);
      AnonymousTwice(n.attrs);
      RenderAllKeepMeaning(n.children, axis, Printed(axis, p) + p');
    }
  }

  lemma {:induction false} RenderAllKeepMeaning(ns: seq<Node>, p: seq<Ns>, p': seq<Ns>)
    requires WellFormedTrees(ns) && SameBindings(p, p')
    ensures SameMeanings(ns, p, RenderAll(ns, p), p')
    decreases ns
  {
    hide SameBindings;
    if ns != [] {
      RenderKeepsMeaning(ns[0], p, p');
      RenderAllKeepMeaning(ns[1..], p, p');
      assert RenderAll(ns, p)[1..] == RenderAll(ns[1..], p);
    }
  }

  /** Documents with the same meaning have the same rendered tree. */
  lemma {:induction false} RenderByMeaning(n: Node, p: seq<Ns>, m: Node, q: seq<Ns>)
    requires WellFormedTree(n) && WellFormedTree(m) && SameBindings(p, q) && SameMeaning(n, p, m, q)
    ensures Render(n, p) == Render(m, q)
    decreases n
  {
    hide SameBindings, Printed, WellFormed, RenderedAttrs, SameAttrs;
    if n.Element? {
      PrintedByBindings(n.nsDef, p, m.nsDef, q);
      AttrsBySet(n.attrs, m.attrs);
      RenderAllByMeaning(n.children, n.nsDef + p, m.children, m.nsDef + q);
    }
  }

  lemma {:induction false} RenderAllByMeaning(ns: seq<Node>, p: seq<Ns>, ms: seq<Node>, q: seq<Ns>)
    requires WellFormedTrees(ns) && WellFormedTrees(ms) && SameBindings(p, q) && SameMeanings(ns, p, ms, q)
    ensures RenderAll(ns, p) == RenderAll(ms, q)
    decreases ns
  {
    hide SameBindings;
    if ns != [] {
      RenderByMeaning(ns[0], p, ms[0], q);
      RenderAllByMeaning(ns[1..], p, ms[1..], q);
    }
  }

  lemma {:induction false} MeaningJoin(n: Node, p: seq<Ns>, m: Node, q: seq<Ns>, r: Node, s: seq<Ns>)
    requires SameMeaning(n, p, r, s) && SameMeaning(m, q, r, s)
    ensures SameMeaning(n, p, m, q)
    decreases n
  {
    if n.Element? {
      MeaningsJoin(n.children, n.nsDef + p, m.children, m.nsDef + q, r.children, r.nsDef + s);
    }
  }

  lemma {:induction false} MeaningsJoin(ns: seq<Node>, p: seq<Ns>, ms: seq<Node>, q: seq<Ns>, rs: seq<Node>, s: seq<Ns>)
    requires SameMeanings(ns, p, rs, s) && SameMeanings(ms, q, rs, s)
    ensures SameMeanings(ns, p, ms, q)
    decreases ns
  {
    if ns != [] {
      MeaningJoin(ns[0], p, ms[0], q, rs[0], s);
      MeaningsJoin(ns[1..], p, ms[1..], q, rs[1..], s);
    }
  }

  lemma {:induction false} RenderWellFormed(n: Node, p: seq<Ns>)
    requires WellFormedTree(n)
    ensures WellFormedTree(Render(n, p))
    decreases n
  {
    hide Printed, WellFormed, RenderedAttrs;
    if n.Element? {
      RenderedAttrsAreSorted(n.attrs);
      AnonymousWellFormed(n.attrs, RenderedAttrs(n.attrs));
      RenderAllWellFormed(n.children, n.nsDef + p);
    }
  }

  lemma {:induction false} RenderAllWellFormed(ns: seq<Node>, p: seq<Ns>)
    requires WellFormedTrees(ns)
    ensures WellFormedTrees(RenderAll(ns, p))
    decreases ns
  {
    if ns != [] {
      RenderWellFormed(ns[0], p);
      RenderAllWellFormed(ns[1..], p);
    }
  }

  /** Canonicalizing the canonical form changes nothing. */
  lemma CanonicalIsFixed(n: Node)
    requires WellFormedTree(n)
    ensures Render(Render(n, []), []) == Render(n, [])
  {
    RenderKeepsMeaning(n, [], []);
    RenderWellFormed(n, []);
    RenderByMeaning(n, [], Render(n, []), []);
  }

  // ---------------------------------------------------------------- rendered prefixes are declared, too

  ghost predicate AllAnonymous(attrs: seq<Attr>) {
    forall i :: 0 <= i < |attrs| ==> Anonymous(attrs[i]) == attrs[i]
  }

  ghost predicate AnonymousTree(n: Node) {
    n.Element? ==> AllAnonymous(n.attrs) && AnonymousTrees(n.children)
  }

  ghost predicate AnonymousTrees(ns: seq<Node>) {
    ns != [] ==> AnonymousTree(ns[0]) && AnonymousTrees(ns[1..])
  }

  lemma RenderedInScope(attrs: seq<Attr>, axis: seq<Ns>, axis': seq<Ns>)
    requires WellFormed(attrs) && AllInScope(attrs, axis) && SameBindings(axis, axis')
    ensures AllInScope(RenderedAttrs(attrs), axis') && AllAnonymous(RenderedAttrs(attrs))
  {
    hide WellFormed, Binding;
    RenderedAttrsAreSorted(attrs);
    var r := RenderedAttrs(attrs);
    forall i | 0 <= i < |r| ensures InScope(r[i], axis') && Anonymous(r[i]) == r[i] {
      assert r[i] in r;
      var b := AnonymousSource(attrs, r, r[i]);
      var j :| 0 <= j < |attrs| && attrs[j] == b;
      assert InScope(attrs[j], axis);
    }
  }

  lemma {:induction false} RenderScoped(n: Node, p: seq<Ns>, p': seq<Ns>)
    requires WellFormedTree(n) && ScopedTree(n, p) && SameBindings(p, p')
    ensures ScopedTree(Render(n, p), p') && AnonymousTree(Render(n, p))
    decreases n
  {
    hide SameBindings, Printed, WellFormed, RenderedAttrs, AllInScope, AllAnonymous;
    if n.Element? {
      var axis := n.nsDef + p;
      PrintedKeepsBindings(n.nsDef, p, p');
      RenderedInScope(n.attrs, axis, Printed(axis, p) + p');
      RenderAllScoped(n.children, axis, Printed(axis, p) + p');
    }
  }

  lemma {:induction false} RenderAllScoped(ns: seq<Node>, p: seq<Ns>, p': seq<Ns>)
    requires WellFormedTrees(ns) && ScopedTrees(ns, p) && SameBindings(p, p')
    ensures ScopedTrees(RenderAll(ns, p), p') && AnonymousTrees(RenderAll(ns, p))
    decreases ns
  {
    hide SameBindings;
    if ns != [] {
      RenderScoped(ns[0], p, p');
      RenderAllScoped(ns[1..], p, p');
      assert RenderAll(ns, p)[1..] == RenderAll(ns[1..], p);
    }
  }

  /** The same declarations below the same bindings. */
  lemma SameBelow(own: seq<Ns>, p: seq<Ns>, q: seq<Ns>)
    requires SameBindings(p, q)
    ensures SameBindings(own + p, own + q)
  {
    forall prefix | prefix != "xml" ensures Binding(own + p, prefix) == Binding(own + q, prefix) {
      BindingInOuter(own, p, prefix);
      BindingInOuter(own, q, prefix);
    }
  }
}
