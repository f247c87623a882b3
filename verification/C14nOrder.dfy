/** The order of a canonical tree: of all trees with the same meaning it is the only one in which
    declarations and attributes are in order and no declaration is superfluous. */
module C14nOrder {
  import opened ListSpec
  import opened XmlStrings
  import opened Options
  import opened C14nNamespaces
  import opened C14nAttributes
  import opened C14nTree

  /** Declarations by prefix, each one for something that is not so around them. */
  ghost predicate DeclarationsOrdered(ns: seq<Ns>, p: seq<Ns>) {
    && (forall i, j :: 0 <= i < j < |ns| ==> Strcmp(ns[i].prefix, ns[j].prefix) < 0)
    && forall i :: 0 <= i < |ns| ==> ns[i].prefix != "xml" && Binding(p, ns[i].prefix) != Some(ns[i].href)
  }

  /** Attributes without a namespace first, then by namespace name, then by local name. */
  ghost predicate AttrsOrdered(attrs: seq<Attr>) {
    forall i, j :: 0 <= i < j < |attrs| ==> KeyCompare(KeyOf(attrs[i]), KeyOf(attrs[j])) <= 0
  }

  ghost predicate OrderedTree(n: Node, p: seq<Ns>) {
    n.Element? ==> DeclarationsOrdered(n.nsDef, p) && AttrsOrdered(n.attrs) && OrderedTrees(n.children, n.nsDef + p)
  }

  ghost predicate OrderedTrees(ns: seq<Node>, p: seq<Ns>) {
    ns != [] ==> OrderedTree(ns[0], p) && OrderedTrees(ns[1..], p)
  }

  // ---------------------------------------------------------------- the rendered tree is in order

  lemma {:induction false} InEquals(s: seq<Ns>, i: nat)
    requires i < |s|
    ensures s[i] in Equals(NsCompare, s, s[i])
  {
    SamePrefix(s[i], s[i]);
    if i > 0 {
      InEquals(s[1..], i - 1);
    }
  }

  lemma {:induction false} TwiceInEquals(s: seq<Ns>, i: nat, j: nat)
    requires i < j < |s| && s[i].prefix == s[j].prefix
    ensures |Equals(NsCompare, s, s[j])| >= 2
  {
    SamePrefix(s[i], s[j]);
    if i > 0 {
      TwiceInEquals(s[1..], i - 1, j - 1);
    } else {
      InEquals(s[1..], j - 1);
    }
  }

  /** A printed declaration says what its prefix is bound to, and what it is not bound to outside. */
  lemma PrintedSays(own: seq<Ns>, parent: seq<Ns>, i: nat)
    requires i < |Printed(own + parent, parent)|
    ensures var ns := Printed(own + parent, parent)[i];
      && ns.prefix != "xml" && Binding(own + parent, ns.prefix) == Some(ns.href)
      && Binding(own + parent, ns.prefix) != Binding(parent, ns.prefix)
  {
    hide Printed, Search, Binding, Equals;
    var printed := Printed(own + parent, parent);
    PrintedIsSorted(own + parent, parent);
    PrintedExactly(own, parent, printed[i]);
    InEquals(printed, i);
  }

  lemma PrintedOrdered(own: seq<Ns>, parent: seq<Ns>, parent': seq<Ns>)
    requires SameBindings(parent, parent')
    ensures DeclarationsOrdered(Printed(own + parent, parent), parent')
  {
    hide Printed, Search, Binding, Equals;
    var printed := Printed(own + parent, parent);
    PrintedIsSorted(own + parent, parent);
    forall i, j | 0 <= i < j < |printed| ensures Strcmp(printed[i].prefix, printed[j].prefix) < 0 {
      assert NsCompare(printed[i], printed[j]) <= 0;
      StrcmpFlip(printed[i].prefix, printed[j].prefix);
      if printed[i].prefix == printed[j].prefix {
        PrintedExactly(own, parent, printed[j]);
        TwiceInEquals(printed, i, j);
      }
    }
    forall i | 0 <= i < |printed|
      ensures printed[i].prefix != "xml" && Binding(parent', printed[i].prefix) != Some(printed[i].href)
    {
      PrintedSays(own, parent, i);
    }
  }

  lemma RenderedAttrsOrdered(attrs: seq<Attr>)
    requires WellFormed(attrs)
    ensures AttrsOrdered(RenderedAttrs(attrs))
  {
    var anon := Mapped(Anonymous, attrs);
    RenderedAttrsAreSorted(attrs);
    AnonymousWellFormed(attrs, anon);
    var dom := set a | a in anon;
    CompareIsOrderIff(dom);
    CopySorts(AttrsCompare, dom, [], anon);
    CopiedIsPermutation(AttrsCompare, [], anon);
    var r := RenderedAttrs(attrs);
    hide WellFormed, AttrsCompare, KeyOf, KeyCompare, Comparable;
    forall i, j | 0 <= i < j < |r| ensures KeyCompare(KeyOf(r[i]), KeyOf(r[j])) <= 0 {
      assert r[i] in multiset(r) && r[j] in multiset(r);
      assert r[i] in dom && r[j] in dom;
      CompareIsKeyOrder(r[i], r[j]);
    }
  }

  lemma {:induction false} RenderOrdered(n: Node, p: seq<Ns>, p': seq<Ns>)
    requires WellFormedTree(n) && SameBindings(p, p')
    ensures OrderedTree(Render(n, p), p')
    decreases n
  {
    hide SameBindings, Printed, WellFormed, RenderedAttrs, DeclarationsOrdered, AttrsOrdered;
    if n.Element? {
      PrintedOrdered(n.nsDef, p, p');
      RenderedAttrsOrdered(n.attrs);
      PrintedKeepsBindings(n.nsDef, p, p');
      RenderAllOrdered(n.children, n.nsDef + p, Printed(n.nsDef + p, p) + p');
    }
  }

  lemma {:induction false} RenderAllOrdered(ns: seq<Node>, p: seq<Ns>, p': seq<Ns>)
    requires WellFormedTrees(ns) && SameBindings(p, p')
    ensures OrderedTrees(RenderAll(ns, p), p')
    decreases ns
  {
    hide SameBindings, WellFormedTree, OrderedTree, Render;
    if ns != [] {
      RenderOrdered(ns[0], p, p');
      RenderAllOrdered(ns[1..], p, p');
      assert RenderAll(ns, p)[1..] == RenderAll(ns[1..], p);
    }
  }

  // ---------------------------------------------------------------- a tree in order is its own rendering

  lemma {:induction false} EqualsOnce(s: seq<Ns>, x: Ns)
    requires forall i, j :: 0 <= i < j < |s| ==> Strcmp(s[i].prefix, s[j].prefix) < 0
    ensures var k := Search(s, x.prefix); Equals(NsCompare, s, x) == if k < |s| then [s[k]] else []
  {
    if s != [] {
      SamePrefix(s[0], x);
      StrcmpFlip(x.prefix, x.prefix);
      EqualsOnce(s[1..], x);
    }
  }

  lemma OrderedPrinted(own: seq<Ns>, parent: seq<Ns>)
    requires DeclarationsOrdered(own, parent)
    ensures Printed(own + parent, parent) == own
  {
    hide OrderOn, Printed, Binding, Equals, Search, Strcmp;
    var printed := Printed(own + parent, parent);
    PrintedIsSorted(own + parent, parent);
    var dom := (set x | x in printed) + set x | x in own;
    PrefixOrder(dom);
    forall x | x in dom ensures Equals(NsCompare, printed, x) == Equals(NsCompare, own, x) {
      assert x.prefix != "xml";
      PrintedExactly(own, parent, x);
      EqualsOnce(own, x);
      BindingInOuter(own, parent, x.prefix);
    }
    SortedIsUnique(NsCompare, dom, printed, own);
  }

  lemma {:induction false} ReversedSame<T>(s: seq<T>, x: T)
    requires forall i :: 0 <= i < |s| ==> s[i] == x
    ensures Reversed(s) == s
  {
    if s != [] {
      ReversedSame(s[1..], x);
    }
  }

  lemma {:induction false} EqualsSame(dom: set<Attr>, s: seq<Attr>, x: Attr)
    requires StrictOn(AttrsCompare, dom) && Within(s, dom) && x in dom
    ensures forall i :: 0 <= i < |Equals(AttrsCompare, s, x)| ==> Equals(AttrsCompare, s, x)[i] == x
  {
    hide AttrsCompare;
    if s != [] {
      EqualsSame(dom, s[1..], x);
      assert s[0] in dom;
    }
  }

  lemma OrderedAttrs(attrs: seq<Attr>)
    requires WellFormed(attrs) && AttrsOrdered(attrs) && AllAnonymous(attrs)
    ensures RenderedAttrs(attrs) == attrs
  {
    RenderedAttrsAreSorted(attrs);
    assert Mapped(Anonymous, attrs) == attrs;
    var dom := set a | a in attrs;
    CompareIsOrderIff(dom);
    StrictWhenUnique(dom);
    CopySorts(AttrsCompare, dom, [], attrs);
    CopiedIsPermutation(AttrsCompare, [], attrs);
    var r := SortedAttrs(attrs);
    forall i | 0 <= i < |r| ensures r[i] in dom {
      assert r[i] in multiset(r);
    }
    assert Sorted(AttrsCompare, attrs) by {
      hide AttrsCompare, KeyOf, KeyCompare, Comparable;
      forall i, j | 0 <= i < j < |attrs| ensures AttrsCompare(attrs[i], attrs[j]) <= 0 {
        assert attrs[i] in dom && attrs[j] in dom;
        CompareIsKeyOrder(attrs[i], attrs[j]);
      }
    }
    hide AttrsCompare, Copied, OrderOn, StrictOn;
    forall x | x in dom ensures Equals(AttrsCompare, r, x) == Equals(AttrsCompare, attrs, x) {
      CopyReversesRuns(AttrsCompare, dom, [], attrs, x);
      EqualsSame(dom, attrs, x);
      ReversedSame(Equals(AttrsCompare, attrs, x), x);
    }
    SortedIsUnique(AttrsCompare, dom, r, attrs);
  }

  lemma {:induction false} OrderedIsRendered(n: Node, p: seq<Ns>)
    requires WellFormedTree(n) && AnonymousTree(n) && OrderedTree(n, p)
    ensures Render(n, p) == n
    decreases n
  {
    hide Printed, WellFormed, RenderedAttrs, DeclarationsOrdered, AttrsOrdered, AllAnonymous;
    if n.Element? {
      OrderedPrinted(n.nsDef, p);
      OrderedAttrs(n.attrs);
      OrderedAreRendered(n.children, n.nsDef + p);
    }
  }

  lemma {:induction false} OrderedAreRendered(ns: seq<Node>, p: seq<Ns>)
    requires WellFormedTrees(ns) && AnonymousTrees(ns) && OrderedTrees(ns, p)
    ensures RenderAll(ns, p) == ns
    decreases ns
  {
    hide WellFormedTree, AnonymousTree, OrderedTree, Render;
    if ns != [] {
      OrderedIsRendered(ns[0], p);
      OrderedAreRendered(ns[1..], p);
      assert ns == [ns[0]] + ns[1..];
    }
  }

  /** Two trees in order that have the same meaning are the same tree. */
  lemma OrderedIsUnique(n: Node, m: Node)
    requires WellFormedTree(n) && AnonymousTree(n) && OrderedTree(n, [])
    requires WellFormedTree(m) && AnonymousTree(m) && OrderedTree(m, []) && SameMeaning(n, [], m, [])
    ensures n == m
  {
    hide WellFormedTree, AnonymousTree, OrderedTree, Render, SameMeaning;
    OrderedIsRendered(n, []);
    OrderedIsRendered(m, []);
    RenderByMeaning(n, [], m, []);
  }
}
