/** What the characters of the canonical form say about the document. */
module C14nDocument {
  import opened ListSpec
  import opened XmlStrings
  import opened Options
  import opened C14nNamespaces
  import opened C14nAttributes
  import opened C14nTree
  import opened C14nOrder
  import opened C14nReader
  import opened C14nText
  import opened C14nScanner

  /** The canonical form of a document element. */
  function Form(n: Node): string {
    TextOf(Tokens(Render(n, [])))
  }

  /** Reads a document from its characters. */
  function ReadDocument(s: string): Option<Node> {
    match Scan(s, false)
    case None => None
    case Some(ts) =>
      match ReadNode(ts, [])
      case None => None
      case Some((n, rest)) => if rest == [] then Some(n) else None
  }

  // ---------------------------------------------------------------- names

  predicate ProperNs(ns: seq<Ns>) {
    forall i :: 0 <= i < |ns| ==> PrefixOk(ns[i].prefix)
  }

  /** The names of attributes are names, and none is a declaration. */
  predicate ProperAttr(a: Attr) {
    && NameOk(a.name)
    && if a.ns.None? then a.name != "xmlns" else NameOk(a.ns.value.prefix) && a.ns.value.prefix != "xmlns"
  }

  predicate ProperAttrs(attrs: seq<Attr>) {
    forall i :: 0 <= i < |attrs| ==> ProperAttr(attrs[i])
  }

  ghost predicate ProperTree(n: Node) {
    n.Element? ==>
      PrefixOk(n.prefix) && NameOk(n.name) && ProperNs(n.nsDef) && ProperAttrs(n.attrs) && ProperTrees(n.children)
  }

  ghost predicate ProperTrees(ns: seq<Node>) {
    ns != [] ==> ProperTree(ns[0]) && ProperTrees(ns[1..])
  }

  lemma PrintedProper(own: seq<Ns>, parent: seq<Ns>)
    requires ProperNs(own + parent)
    ensures ProperNs(Printed(own + parent, parent))
  {
    hide Printed, PrefixOk;
    forall i | 0 <= i < |Printed(own + parent, parent)|
      ensures PrefixOk(Printed(own + parent, parent)[i].prefix)
    {
      PrintedSays(own, parent, i);
      var k := Search(own + parent, Printed(own + parent, parent)[i].prefix);
      EmptyPrefixOk();
    }
  }

  lemma EmptyPrefixOk()
    ensures PrefixOk("")
  {
  }

  lemma RenderedAttrsProper(attrs: seq<Attr>)
    requires WellFormed(attrs) && ProperAttrs(attrs)
    ensures ProperAttrs(RenderedAttrs(attrs))
  {
    hide WellFormed, NameOk;
    RenderedAttrsAreSorted(attrs);
    var r := RenderedAttrs(attrs);
    forall i | 0 <= i < |r| ensures ProperAttr(r[i]) {
      assert r[i] in r;
      var b := AnonymousSource(attrs, r, r[i]);
    }
  }

  lemma {:induction false} RenderProper(n: Node, p: seq<Ns>)
    requires WellFormedTree(n) && ProperTree(n) && ProperNs(p)
    ensures ProperTree(Render(n, p))
    decreases n
  {
    hide WellFormed, PrefixOk, NameOk, ProperAttr, Printed, RenderedAttrs;
    if n.Element? {
      PrintedProper(n.nsDef, p);
      RenderedAttrsProper(n.attrs);
      RenderAllProper(n.children, n.nsDef + p);
    }
  }

  lemma {:induction false} RenderAllProper(ns: seq<Node>, p: seq<Ns>)
    requires WellFormedTrees(ns) && ProperTrees(ns) && ProperNs(p)
    ensures ProperTrees(RenderAll(ns, p))
    decreases ns
  {
    hide WellFormedTree, ProperTree, Render;
    if ns != [] {
      RenderProper(ns[0], p);
      RenderAllProper(ns[1..], p);
      assert RenderAll(ns, p)[1..] == RenderAll(ns[1..], p);
    }
  }

  // ---------------------------------------------------------------- tokens of a tree

  lemma {:induction false} XmlnsProper(a: seq<Ns>, r: seq<Token>)
    requires ProperNs(a) && ProperTokens(r, true)
    ensures ProperTokens(XmlnsTokens(a) + r, true)
  {
    hide PrefixOk;
    var ts := XmlnsTokens(a) + r;
    if a == [] {
      assert ts == r;
    } else {
      assert ts[0] == Xmlns(a[0]) && ts[1..] == XmlnsTokens(a[1..]) + r;
      XmlnsProper(a[1..], r);
    }
  }

  lemma AttrProper(a: Attr)
    requires ProperAttr(a)
    ensures ProperToken(AttributeToken(a))
  {
  }

  lemma {:induction false} AttributesProper(a: seq<Attr>, r: seq<Token>)
    requires ProperAttrs(a) && ProperTokens(r, true)
    ensures ProperTokens(AttributeTokens(a) + r, true)
  {
    hide NameOk;
    var ts := AttributeTokens(a) + r;
    if a == [] {
      assert ts == r;
    } else {
      assert ts[0] == AttributeToken(a[0]) && ts[1..] == AttributeTokens(a[1..]) + r;
      AttrProper(a[0]);
      AttributesProper(a[1..], r);
    }
  }

  lemma ProperBefore(t: Token, r: seq<Token>, inTag: bool)
    requires ProperToken(t) && IsInTag(t) == inTag && ProperTokens(r, t.StartTag? || t.Xmlns? || t.Attribute?)
    ensures ProperTokens([t] + r, inTag)
  {
    assert ([t] + r)[1..] == r;
  }

  lemma {:induction false} TokensProper(n: Node, r: seq<Token>)
    requires ProperTree(n) && ProperTokens(r, false)
    ensures ProperTokens(Tokens(n) + r, false)
    decreases n, 0
  {
    hide ProperTokens, PrefixOk, NameOk, ProperAttr;
    if n.Text? {
      ProperBefore(Characters(n.content), r, false);
    } else {
      hide Tokens, TokensAll, XmlnsTokens, AttributeTokens;
      var t3 := TokensAll(n.children) + AfterChildren(n, r);
      TokensParts(n, r);
      ProperBefore(EndTag(n.prefix, n.name), r, false);
      TokensAllProper(n.children, AfterChildren(n, r));
      ProperBefore(StartTagEnd, t3, true);
      AttributesProper(n.attrs, [StartTagEnd] + t3);
      XmlnsProper(n.nsDef, AttributeTokens(n.attrs) + ([StartTagEnd] + t3));
      ProperBefore(StartTag(n.prefix, n.name), XmlnsTokens(n.nsDef) + (AttributeTokens(n.attrs) + ([StartTagEnd] + t3)), false);
    }
  }

  lemma {:induction false} TokensAllProper(ns: seq<Node>, r: seq<Token>)
    requires ProperTrees(ns) && ProperTokens(r, false)
    ensures ProperTokens(TokensAll(ns) + r, false)
    decreases ns, 1
  {
    hide Tokens, ProperTree, ProperTokens;
    if ns == [] {
      assert TokensAll(ns) + r == r;
    } else {
      assert TokensAll(ns) + r == Tokens(ns[0]) + (TokensAll(ns[1..]) + r);
      TokensAllProper(ns[1..], r);
      TokensProper(ns[0], TokensAll(ns[1..]) + r);
    }
  }

  // ---------------------------------------------------------------- namespace names

  predicate PlainNs(ns: seq<Ns>) {
    forall i :: 0 <= i < |ns| ==> Plain(ns[i].href)
  }

  ghost predicate PlainTree(n: Node) {
    n.Element? ==> PlainNs(n.nsDef) && PlainTrees(n.children)
  }

  ghost predicate PlainTrees(ns: seq<Node>) {
    ns != [] ==> PlainTree(ns[0]) && PlainTrees(ns[1..])
  }

  lemma PlainAppend(a: seq<Token>, b: seq<Token>)
    ensures PlainTokens(a + b) <==> PlainTokens(a) && PlainTokens(b)
  {
    hide Plain;
    var ts := a + b;
    assert forall i :: 0 <= i < |a| ==> ts[i] == a[i];
    assert forall i :: 0 <= i < |b| ==> ts[|a| + i] == b[i];
  }

  lemma PlainXmlns(a: seq<Ns>)
    ensures PlainTokens(XmlnsTokens(a)) <==> PlainNs(a)
  {
    hide Plain;
    var ts := XmlnsTokens(a);
    assert forall i :: 0 <= i < |a| ==> ts[i] == Xmlns(a[i]);
  }

  lemma PlainOthers(ts: seq<Token>)
    requires forall i :: 0 <= i < |ts| ==> !ts[i].Xmlns?
    ensures PlainTokens(ts)
  {
  }

  lemma {:induction false} TokensPlainIff(n: Node)
    ensures PlainTokens(Tokens(n)) <==> PlainTree(n)
    decreases n, 0
  {
    hide PlainTokens, PlainNs;
    if n.Text? {
      PlainOthers(Tokens(n));
    } else {
      hide Tokens, TokensAll, XmlnsTokens, AttributeTokens;
      TokensParts(n, []);
      var t1 := [StartTag(n.prefix, n.name)];
      var t5 := AfterChildren(n, []);
      assert Tokens(n) + [] == Tokens(n);
      PlainOthers(t1);
      PlainXmlns(n.nsDef);
      PlainOthers(AttributeTokens(n.attrs));
      PlainOthers([StartTagEnd]);
      TokensAllPlainIff(n.children);
      PlainOthers(t5);
      PlainAppend(TokensAll(n.children), t5);
      PlainAppend([StartTagEnd], TokensAll(n.children) + t5);
      PlainAppend(AttributeTokens(n.attrs), [StartTagEnd] + (TokensAll(n.children) + t5));
      PlainAppend(XmlnsTokens(n.nsDef), AttributeTokens(n.attrs) + ([StartTagEnd] + (TokensAll(n.children) + t5)));
      PlainAppend(t1, XmlnsTokens(n.nsDef) + (AttributeTokens(n.attrs) + ([StartTagEnd] + (TokensAll(n.children) + t5))));
    }
  }

  lemma {:induction false} TokensAllPlainIff(ns: seq<Node>)
    ensures PlainTokens(TokensAll(ns)) <==> PlainTrees(ns)
    decreases ns, 1
  {
    hide Tokens, PlainTree, PlainTokens;
    if ns == [] {
      PlainOthers([]);
    } else {
      TokensPlainIff(ns[0]);
      TokensAllPlainIff(ns[1..]);
      PlainAppend(Tokens(ns[0]), TokensAll(ns[1..]));
    }
  }

  /** No prefix is bound to a name that needs a reference. */
  ghost predicate PlainBindings(axis: seq<Ns>) {
    forall prefix :: prefix != "xml" && Binding(axis, prefix).Some? ==> Plain(Binding(axis, prefix).value)
  }

  /** The same for every element. */
  ghost predicate BindingsPlain(n: Node, p: seq<Ns>) {
    n.Element? ==> PlainBindings(n.nsDef + p) && AllBindingsPlain(n.children, n.nsDef + p)
  }

  ghost predicate AllBindingsPlain(ns: seq<Node>, p: seq<Ns>) {
    ns != [] ==> BindingsPlain(ns[0], p) && AllBindingsPlain(ns[1..], p)
  }

  lemma PrintedPlainIff(own: seq<Ns>, parent: seq<Ns>)
    requires PlainBindings(parent)
    ensures PlainNs(Printed(own + parent, parent)) <==> PlainBindings(own + parent)
  {
    hide Printed, Search, Binding, Equals, Plain;
    var printed := Printed(own + parent, parent);
    if PlainBindings(own + parent) {
      forall i | 0 <= i < |printed| ensures Plain(printed[i].href) {
        PrintedSays(own, parent, i);
      }
    }
    if PlainNs(printed) {
      forall prefix | prefix != "xml" && Binding(own + parent, prefix).Some?
        ensures Plain(Binding(own + parent, prefix).value)
      {
        var ns := Ns(prefix, "");
        PrintedExactly(own, parent, ns);
        if Binding(own + parent, prefix) != Binding(parent, prefix) {
          SearchByEquals(printed, ns);
        }
      }
    }
  }

  lemma {:induction false} RenderPlainIff(n: Node, p: seq<Ns>)
    requires PlainBindings(p)
    ensures PlainTree(Render(n, p)) <==> BindingsPlain(n, p)
    decreases n
  {
    hide PlainBindings, PlainNs, Printed, RenderedAttrs;
    if n.Element? {
      PrintedPlainIff(n.nsDef, p);
      if PlainBindings(n.nsDef + p) {
        RenderAllPlainIff(n.children, n.nsDef + p);
      }
    }
  }

  lemma {:induction false} RenderAllPlainIff(ns: seq<Node>, p: seq<Ns>)
    requires PlainBindings(p)
    ensures PlainTrees(RenderAll(ns, p)) <==> AllBindingsPlain(ns, p)
    decreases ns
  {
    hide PlainTree, BindingsPlain, Render, PlainBindings;
    if ns != [] {
      RenderPlainIff(ns[0], p);
      RenderAllPlainIff(ns[1..], p);
      assert RenderAll(ns, p)[1..] == RenderAll(ns[1..], p);
    }
  }

  // ---------------------------------------------------------------- texts next to each other

  /** Text in front of other nodes. */
  function WithTextNode(content: string, ns: seq<Node>): seq<Node> {
    if content == "" then ns
    else if ns != [] && ns[0].Text? then [Text(content + ns[0].content)] + ns[1..]
    else [Text(content)] + ns
  }

  /** The tree in which texts next to each other are one, and empty ones none. */
  function Merged(n: Node): Node {
    match n
    case Text(_) => n
    case Element(prefix, name, nsDef, attrs, children) => Element(prefix, name, nsDef, attrs, MergedAll(children))
  }

  function MergedAll(ns: seq<Node>): seq<Node> {
    if ns == [] then []
    else if ns[0].Text? then WithTextNode(ns[0].content, MergedAll(ns[1..]))
    else [Merged(ns[0])] + MergedAll(ns[1..])
  }

  lemma {:induction false} RenderMerged(n: Node, p: seq<Ns>)
    ensures Render(Merged(n), p) == Merged(Render(n, p))
    decreases n
  {
    hide Printed, RenderedAttrs;
    if n.Element? {
      RenderAllMerged(n.children, n.nsDef + p);
    }
  }

  lemma RenderWithText(content: string, ns: seq<Node>, p: seq<Ns>)
    ensures RenderAll(WithTextNode(content, ns), p) == WithTextNode(content, RenderAll(ns, p))
  {
    hide Printed, RenderedAttrs;
    var w := WithTextNode(content, ns);
    if content != "" {
      if ns != [] && ns[0].Text? {
        assert w[1..] == ns[1..] && RenderAll(ns, p)[1..] == RenderAll(ns[1..], p);
      } else {
        assert w[1..] == ns;
      }
    }
  }

  lemma {:induction false} RenderAllMerged(ns: seq<Node>, p: seq<Ns>)
    ensures RenderAll(MergedAll(ns), p) == MergedAll(RenderAll(ns, p))
    decreases ns
  {
    hide WithTextNode, Merged;
    if ns != [] {
      RenderAllMerged(ns[1..], p);
      assert RenderAll(ns, p)[1..] == RenderAll(ns[1..], p);
      if ns[0].Text? {
        RenderWithText(ns[0].content, MergedAll(ns[1..]), p);
      } else {
        RenderMerged(ns[0], p);
        assert ([Merged(ns[0])] + MergedAll(ns[1..]))[1..] == MergedAll(ns[1..]);
      }
    }
  }

  lemma {:induction false} MergedKeeps(n: Node, p: seq<Ns>)
    requires WellFormedTree(n) && ScopedTree(n, p)
    ensures WellFormedTree(Merged(n)) && ScopedTree(Merged(n), p)
    decreases n
  {
    hide WellFormed, AllInScope;
    if n.Element? {
      MergedAllKeep(n.children, n.nsDef + p);
    }
  }

  lemma WithTextKeeps(content: string, ns: seq<Node>, p: seq<Ns>)
    requires WellFormedTrees(ns) && ScopedTrees(ns, p)
    ensures WellFormedTrees(WithTextNode(content, ns)) && ScopedTrees(WithTextNode(content, ns), p)
  {
    var w := WithTextNode(content, ns);
    if content != "" {
      assert w[1..] == if ns != [] && ns[0].Text? then ns[1..] else ns;
    }
  }

  lemma {:induction false} MergedAllKeep(ns: seq<Node>, p: seq<Ns>)
    requires WellFormedTrees(ns) && ScopedTrees(ns, p)
    ensures WellFormedTrees(MergedAll(ns)) && ScopedTrees(MergedAll(ns), p)
    decreases ns
  {
    hide WithTextNode, Merged, WellFormedTree, ScopedTree;
    if ns != [] {
      MergedAllKeep(ns[1..], p);
      if ns[0].Text? {
        WithTextKeeps(ns[0].content, MergedAll(ns[1..]), p);
      } else {
        MergedKeeps(ns[0], p);
        assert ([Merged(ns[0])] + MergedAll(ns[1..]))[1..] == MergedAll(ns[1..]);
      }
    }
  }

  lemma {:induction false} JoinedPast(a: seq<Token>, r: seq<Token>)
    requires forall i :: 0 <= i < |a| ==> !a[i].Characters?
    ensures Joined(a + r) == a + Joined(r)
  {
    if a == [] {
      assert a + r == r;
    } else {
      assert (a + r)[1..] == a[1..] + r && a == [a[0]] + a[1..];
      JoinedPast(a[1..], r);
    }
  }

  lemma WithTextTokens(content: string, ns: seq<Node>, r: seq<Token>)
    requires r == [] || !r[0].Characters?
    ensures WithText(content, TokensAll(ns) + r) == TokensAll(WithTextNode(content, ns)) + r
  {
    if content != "" {
      var ts := TokensAll(ns) + r;
      if ns == [] {
        assert ts == r;
      } else if ns[0].Text? {
        var d := ns[0].content;
        assert ts == [Characters(d)] + (TokensAll(ns[1..]) + r);
        var w := [Text(content + d)] + ns[1..];
        assert w[1..] == ns[1..];
        assert TokensAll(w) + r == [Characters(content + d)] + (TokensAll(ns[1..]) + r);
      } else {
        assert ([Text(content)] + ns)[1..] == ns;
        assert ts[0] == Tokens(ns[0])[0];
      }
    }
  }

  lemma {:induction false} TokensJoined(n: Node, r: seq<Token>)
    requires n.Element?
    ensures Joined(Tokens(n) + r) == Tokens(Merged(n)) + Joined(r)
    decreases n, 0
  {
    hide Tokens, TokensAll, XmlnsTokens, AttributeTokens, Joined;
    var t1, t2, t3 := [StartTag(n.prefix, n.name)], XmlnsTokens(n.nsDef), AttributeTokens(n.attrs);
    var end := [EndTag(n.prefix, n.name)];
    var t4 := TokensAll(n.children) + AfterChildren(n, r);
    TokensParts(n, r);
    TokensParts(Merged(n), Joined(r));
    JoinedPast(t1, t2 + (t3 + ([StartTagEnd] + t4)));
    JoinedPast(t2, t3 + ([StartTagEnd] + t4));
    JoinedPast(t3, [StartTagEnd] + t4);
    JoinedPast([StartTagEnd], t4);
    TokensAllJoined(n.children, AfterChildren(n, r));
    JoinedPast(end, r);
  }

  lemma JoinedText(content: string, r: seq<Token>)
    ensures Joined([Characters(content)] + r) == WithText(content, Joined(r))
  {
    assert ([Characters(content)] + r)[1..] == r;
  }

  lemma JoinedStart(r: seq<Token>)
    requires r == [] || !r[0].Characters?
    ensures Joined(r) == [] || !Joined(r)[0].Characters?
  {
  }

  lemma {:induction false} TokensAllJoined(ns: seq<Node>, r: seq<Token>)
    requires r == [] || !r[0].Characters?
    ensures Joined(TokensAll(ns) + r) == TokensAll(MergedAll(ns)) + Joined(r)
    decreases ns, 1
  {
    hide WithText, WithTextNode, Merged, Joined, Tokens;
    if ns == [] {
      assert TokensAll(ns) + r == r;
    } else {
      var rest := TokensAll(ns[1..]) + r;
      assert TokensAll(ns) + r == Tokens(ns[0]) + rest;
      TokensAllJoined(ns[1..], r);
      if ns[0].Text? {
        TextToken(ns[0]);
        JoinedText(ns[0].content, rest);
        JoinedStart(r);
        WithTextTokens(ns[0].content, MergedAll(ns[1..]), Joined(r));
      } else {
        TokensJoined(ns[0], rest);
        assert ([Merged(ns[0])] + MergedAll(ns[1..]))[1..] == MergedAll(ns[1..]);
      }
    }
  }

  lemma TextToken(n: Node)
    requires n.Text?
    ensures Tokens(n) == [Characters(n.content)]
  {
  }

  lemma {:induction false} TextOfJoined(ts: seq<Token>)
    ensures TextOf(Joined(ts)) == TextOf(ts)
  {
    hide TokenText, WithText;
    if ts != [] {
      TextOfJoined(ts[1..]);
      if ts[0].Characters? {
        TextOfWithText(ts[0].content, Joined(ts[1..]));
      } else {
        assert ([ts[0]] + Joined(ts[1..]))[1..] == Joined(ts[1..]);
      }
    }
  }

  lemma TextOfWithText(content: string, ts: seq<Token>)
    ensures TextOf(WithText(content, ts)) == TokenText(Characters(content)) + TextOf(ts)
  {
    if content != "" {
      if ts != [] && ts[0].Characters? {
        NormalizedAppend(content, ts[0].content, InText);
        assert ([Characters(content + ts[0].content)] + ts[1..])[1..] == ts[1..];
      } else {
        assert ([Characters(content)] + ts)[1..] == ts;
      }
    }
  }

  // ---------------------------------------------------------------- the document read back

  /** The documents this is about: names are names, and attributes are distinct and have declared
      prefixes. */
  ghost predicate Sound(n: Node) {
    n.Element? && ProperTree(n) && WellFormedTree(n) && ScopedTree(n, [])
  }

  /** The canonical tree of a document. */
  function CanonicalTree(n: Node): Node {
    Render(Merged(n), [])
  }

  /** It is the one tree in order that means what the document means. */
  lemma CanonicalTreeIs(n: Node, r: Node)
    requires Sound(n) && WellFormedTree(r) && AnonymousTree(r)
    ensures r == CanonicalTree(n) <==> OrderedTree(r, []) && SameMeaning(Merged(n), [], r, [])
  {
    hide Render, Merged, SameMeaning, OrderedTree, WellFormedTree, AnonymousTree, ScopedTree;
    var c := CanonicalTree(n);
    MergedKeeps(n, []);
    CanonicalTreeMeans(n);
    RenderOrdered(Merged(n), [], []);
    if OrderedTree(r, []) && SameMeaning(Merged(n), [], r, []) {
      RenderByMeaning(Merged(n), [], r, []);
      OrderedIsRendered(r, []);
    }
  }

  lemma CanonicalTreeMeans(n: Node)
    requires Sound(n)
    ensures WellFormedTree(CanonicalTree(n)) && AnonymousTree(CanonicalTree(n)) && ScopedTree(CanonicalTree(n), [])
    ensures SameMeaning(Merged(n), [], CanonicalTree(n), [])
  {
    hide Render, Merged, SameMeaning, WellFormedTree, AnonymousTree, ScopedTree;
    MergedKeeps(n, []);
    RenderKeepsMeaning(Merged(n), [], []);
    RenderWellFormed(Merged(n), []);
    RenderScoped(Merged(n), [], []);
  }

  lemma NothingBound()
    ensures PlainBindings([])
  {
  }

  lemma NoTokensProper()
    ensures ProperTokens([], false) && Joined([]) == []
  {
  }

  /** The characters written are the tokens of this tree again exactly when no prefix is bound to a name
      that needs a reference. */
  lemma FormScansBackIff(n: Node)
    requires Sound(n)
    ensures Scan(Form(n), false) == Some(Tokens(CanonicalTree(n))) <==> BindingsPlain(n, [])
  {
    hide ProperTree, WellFormedTree, ScopedTree, Tokens, Scan, TextOf, Merged, Joined, ProperTokens, PlainTokens;
    hide PlainTree, BindingsPlain, PlainBindings;
    var r := Render(n, []);
    RenderProper(n, []);
    NoTokensProper();
    TokensProper(r, []);
    assert Tokens(r) + [] == Tokens(r);
    ScansBackIff(Tokens(r), false);
    TokensJoined(r, []);
    RenderMerged(n, []);
    assert Tokens(Merged(r)) + [] == Tokens(Merged(r));
    TokensPlainIff(r);
    NothingBound();
    RenderPlainIff(n, []);
  }

  /** The canonical form reads back, as the canonical tree, exactly when no prefix is bound to a name
      that needs a reference: names of namespaces are written as they are. */
  lemma FormReadsBackIff(n: Node)
    requires Sound(n)
    ensures ReadDocument(Form(n)) == Some(CanonicalTree(n)) <==> BindingsPlain(n, [])
  {
    hide ProperTree, WellFormedTree, ScopedTree, AnonymousTree, Tokens, Scan, Render, Form, Merged, BindingsPlain, ReadNode;
    var c := CanonicalTree(n);
    FormScansBackIff(n);
    CanonicalTreeMeans(n);
    TokensReadBack(c, [], [], []);
    assert Tokens(c) + [] == Tokens(c);
    if ReadDocument(Form(n)) == Some(c) {
      ReadIsTokens(Scan(Form(n), false).value, []);
    }
  }

  /** Documents with the same meaning have the same canonical form, character by character; and only
      those, when names of namespaces need no references. */
  lemma FormsAgree(n: Node, m: Node)
    requires Sound(n) && Sound(m)
    ensures SameMeaning(Merged(n), [], Merged(m), []) ==> Form(n) == Form(m)
    ensures BindingsPlain(n, []) && BindingsPlain(m, []) && Form(n) == Form(m) ==> SameMeaning(Merged(n), [], Merged(m), [])
  {
    hide ProperTree, WellFormedTree, ScopedTree, SameMeaning, Form, Merged, BindingsPlain, ReadDocument, Render;
    MergedKeeps(n, []);
    MergedKeeps(m, []);
    if SameMeaning(Merged(n), [], Merged(m), []) {
      RenderByMeaning(Merged(n), [], Merged(m), []);
      FormOfTree(n);
      FormOfTree(m);
    }
    if BindingsPlain(n, []) && BindingsPlain(m, []) && Form(n) == Form(m) {
      FormReadsBackIff(n);
      FormReadsBackIff(m);
      CanonicalTreeMeans(n);
      CanonicalTreeMeans(m);
      MeaningJoin(Merged(n), [], Merged(m), [], CanonicalTree(n), []);
    }
  }

  lemma FormOfTree(n: Node)
    requires n.Element?
    ensures Form(n) == TextOf(Tokens(CanonicalTree(n)))
  {
    hide Tokens, TextOf, Joined, Merged;
    var r := Render(n, []);
    TextOfJoined(Tokens(r));
    TokensJoined(r, []);
    RenderMerged(n, []);
    NoTokensProper();
    assert Tokens(r) + [] == Tokens(r) && Tokens(Merged(r)) + [] == Tokens(Merged(r));
  }

  // ---------------------------------------------------------------- a name that breaks out

  /** A document of one element, with a default namespace and these attributes. */
  function Single(href: string, attrs: seq<Attr>): Node {
    Element("", "e", [Ns("", href)], attrs, [])
  }

  lemma PrintedSingle(href: string)
    requires href != ""
    ensures Printed([Ns("", href)] + [], []) == [Ns("", href)]
  {
    var axis := [Ns("", href)] + [];
    assert axis == [Ns("", href)];
    assert NewUpTo(axis, 0, []) == [];
    assert NewUpTo(axis, 1, []) == axis;
    assert Lower(NsCompare, [], axis[0]) == 0;
    assert Inserted(NsCompare, [], axis[0]) == axis;
    assert Copied(NsCompare, axis, axis[1..]) == axis;
  }

  lemma AttrsSingle(attrs: seq<Attr>)
    requires |attrs| <= 1 && forall i :: 0 <= i < |attrs| ==> attrs[i].ns.None?
    ensures RenderedAttrs(attrs) == attrs
  {
    if attrs != [] {
      assert Lower(AttrsCompare, [], attrs[0]) == 0;
      assert Inserted(AttrsCompare, [], attrs[0]) == attrs;
      assert Copied(AttrsCompare, attrs, attrs[1..]) == attrs;
    }
    assert SortedAttrs(attrs) == attrs;
  }

  lemma FormSingle(href: string, attrs: seq<Attr>)
    requires href != "" && |attrs| <= 1 && forall i :: 0 <= i < |attrs| ==> attrs[i].ns.None?
    ensures Form(Single(href, attrs))
         == "<e" + (" xmlns=\"" + href + "\"" + (TextOf(AttributeTokens(attrs)) + "></e>"))
  {
    hide Printed, RenderedAttrs, AttributeTokens;
    PrintedSingle(href);
    AttrsSingle(attrs);
    var r := Render(Single(href, attrs), []);
    assert r == Single(href, attrs);
    var end := [StartTagEnd, EndTag("", "e")];
    var ts := [StartTag("", "e")] + (XmlnsTokens(r.nsDef) + (AttributeTokens(attrs) + end));
    assert [StartTagEnd] + ([] + [EndTag("", "e")]) == end;
    assert Tokens(r) == ts;
    TextAppend([StartTag("", "e")], XmlnsTokens(r.nsDef) + (AttributeTokens(attrs) + end));
    TextAppend(XmlnsTokens(r.nsDef), AttributeTokens(attrs) + end);
    TextAppend(AttributeTokens(attrs), end);
    TextOfEnds(href);
  }

  lemma TextOfEnds(href: string)
    ensures TextOf([StartTag("", "e")]) == "<e" && TextOf([StartTagEnd, EndTag("", "e")]) == "></e>"
    ensures TextOf(XmlnsTokens([Ns("", href)])) == " xmlns=\"" + href + "\""
  {
    assert [StartTagEnd, EndTag("", "e")][1..] == [EndTag("", "e")];
    assert " xmlns" + "" + "=\"" + href + "\"" == " xmlns=\"" + href + "\"";
  }

  lemma SingleOk(href: string, attrs: seq<Attr>)
    requires attrs == [] || attrs == [Attr(None, "b", "v")]
    ensures var n := Single(href, attrs); Sound(n) && Merged(n) == n
  {
  }

  /** A namespace name with a quote in it can write an attribute that is not there. */
  lemma NameBreaksOut()
    ensures var n, m := Single("u\" b=\"v", []), Single("u", [Attr(None, "b", "v")]);
      Sound(n) && Sound(m) && Form(n) == Form(m) && !SameMeaning(Merged(n), [], Merged(m), [])
  {
    hide Sound, Merged, Form, SameBindings, Normalized;
    var b := [Attr(None, "b", "v")];
    FormSingle("u\" b=\"v", []);
    FormSingle("u", b);
    SingleOk("u\" b=\"v", []);
    SingleOk("u", b);
    TextOfAttribute();
    assert |Mapped(Anonymous, b)| == 1 && |multiset(Mapped(Anonymous, b))| == 1;
  }

  lemma TextOfAttribute()
    ensures TextOf(AttributeTokens([Attr(None, "b", "v")])) == " b=\"v\""
    ensures TextOf(AttributeTokens([])) == ""
  {
    assert "v"[1..] == "";
    assert Normalized("v", InAttr) == "v";
  }
}
