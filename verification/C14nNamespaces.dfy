/** Which namespace declarations Canonical XML prints on an element: the stack of rendered
    declarations, the walk over the namespace axis, and their meaning. */
module C14nNamespaces {
  import opened ListSpec
  import opened LinkedList
  import opened XmlStrings
  import opened Options

  /** A declaration. The default namespace has the empty prefix. */
  datatype Ns = Ns(prefix: string, href: string)

  const XML_NAMESPACES_DEFAULT := 16
  const XML_XML_NAMESPACE := "http://www.w3.org/XML/1998/namespace"

  predicate IsXmlNs(ns: Ns) {
    ns.prefix == "xml" && ns.href == XML_XML_NAMESPACE
  }

  function NsCompare(a: Ns, b: Ns): int {
    Strcmp(a.prefix, b.prefix)
  }

  // ---------------------------------------------------------------- bindings

  /** An axis is the declarations of an element, then those of its parent, and so on outwards.
      The declaration a prefix refers to is the nearest. */
  function Search(axis: seq<Ns>, prefix: string): (k: nat)
    ensures k <= |axis|
    ensures k < |axis| ==> axis[k].prefix == prefix
    ensures forall j :: 0 <= j < k ==> axis[j].prefix != prefix
  {
    if axis == [] || axis[0].prefix == prefix then 0 else 1 + Search(axis[1..], prefix)
  }

  /** What a prefix is bound to. No default namespace is the same as an empty one. */
  function Binding(axis: seq<Ns>, prefix: string): Option<string> {
    var k := Search(axis, prefix);
    if k < |axis| then Some(axis[k].href) else if prefix == "" then Some("") else None
  }

  /** Two elements with these axes see the same bindings, the reserved prefix aside. */
  ghost predicate SameBindings(a: seq<Ns>, b: seq<Ns>) {
    forall p :: p != "xml" ==> Binding(a, p) == Binding(b, p)
  }

  // ---------------------------------------------------------------- visible declarations

  /** The document itself holds the declaration of the prefix xml, so no element's declaration
      of it is the one found. */
  predicate IsNearest(axis: seq<Ns>, k: nat)
    requires k < |axis|
  {
    axis[k].prefix != "xml" && Search(axis, axis[k].prefix) == k
  }

  function VisibleUpTo(axis: seq<Ns>, n: nat): seq<Ns>
    requires n <= |axis|
  {
    if n == 0 then []
    else VisibleUpTo(axis, n - 1) + (if IsNearest(axis, n - 1) then [axis[n - 1]] else [])
  }

  function Visible(axis: seq<Ns>): seq<Ns> {
    VisibleUpTo(axis, |axis|)
  }

  /** The declarations of `ns` whose binding is not already that of the parent. */
  function NewUpTo(axis: seq<Ns>, n: nat, parent: seq<Ns>): seq<Ns>
    requires n <= |axis|
  {
    if n == 0 then []
    else
      NewUpTo(axis, n - 1, parent)
      + (if IsNearest(axis, n - 1) && Binding(parent, axis[n - 1].prefix) != Some(axis[n - 1].href)
         then [axis[n - 1]] else [])
  }

  /** What is printed on an element with this axis below a parent with that one. */
  function Printed(axis: seq<Ns>, parent: seq<Ns>): seq<Ns> {
    Copied(NsCompare, [], NewUpTo(axis, |axis|, parent))
  }

  lemma {:induction false} VisibleSource(axis: seq<Ns>, n: nat, i: nat) returns (k: nat)
    requires n <= |axis| && i < |VisibleUpTo(axis, n)|
    ensures k < n && IsNearest(axis, k) && VisibleUpTo(axis, n)[i] == axis[k]
  {
    if i < |VisibleUpTo(axis, n - 1)| {
      k := VisibleSource(axis, n - 1, i);
    } else {
      k := n - 1;
    }
  }

  lemma {:induction false} VisibleTarget(axis: seq<Ns>, n: nat, k: nat)
    requires k < n <= |axis| && IsNearest(axis, k)
    ensures axis[k] in VisibleUpTo(axis, n)
  {
    if k < n - 1 {
      VisibleTarget(axis, n - 1, k);
    }
  }

  /** The visible declarations are exactly the bindings in force, one for each prefix. */
  lemma VisibleAreBindings(axis: seq<Ns>, ns: Ns)
    requires ns.prefix != "xml"
    ensures ns in Visible(axis) <==> Search(axis, ns.prefix) < |axis| && Binding(axis, ns.prefix) == Some(ns.href)
  {
    var k := Search(axis, ns.prefix);
    if ns in Visible(axis) {
      var i :| 0 <= i < |Visible(axis)| && Visible(axis)[i] == ns;
      var j := VisibleSource(axis, |axis|, i);
    }
    if k < |axis| && axis[k].href == ns.href {
      VisibleTarget(axis, |axis|, k);
      assert axis[k] == ns;
    }
  }

  // ---------------------------------------------------------------- the rendered stack

  predicate IsEmptyDefault(ns: Ns) {
    ns.prefix == "" && ns.href == ""
  }

  /** Whether a declaration is already rendered, looking from the top of the stack. An empty
      default namespace counts as rendered when no default namespace is there at all. */
  function Rendered(entries: seq<Ns>, ns: Ns): bool
    decreases |entries|
  {
    if entries == [] then IsEmptyDefault(ns)
    else
      var top := entries[|entries| - 1];
      if top.prefix == ns.prefix then top.href == ns.href else Rendered(entries[..|entries| - 1], ns)
  }

  lemma {:induction false} RenderedBelow(a: seq<Ns>, b: seq<Ns>, ns: Ns)
    requires forall i :: 0 <= i < |b| ==> b[i].prefix != ns.prefix
    ensures Rendered(a + b, ns) == Rendered(a, ns)
    decreases |b|
  {
    if b == [] {
      assert a + b == a;
    } else {
      assert (a + b)[..|a + b| - 1] == a + b[..|b| - 1];
      RenderedBelow(a, b[..|b| - 1], ns);
    }
  }

  lemma {:induction false} RenderedAbove(a: seq<Ns>, b: seq<Ns>, ns: Ns)
    requires exists i :: 0 <= i < |b| && b[i].prefix == ns.prefix
    ensures Rendered(a + b, ns) == Rendered(b, ns)
    decreases |b|
  {
    var n := |b| - 1;
    assert (a + b)[..|a + b| - 1] == a + b[..n];
    if b[n].prefix != ns.prefix {
      var i :| 0 <= i < |b| && b[i].prefix == ns.prefix;
      assert b[..n][i].prefix == ns.prefix;
      RenderedAbove(a, b[..n], ns);
    }
  }

  lemma {:induction false} RenderedInVisible(axis: seq<Ns>, n: nat, ns: Ns)
    requires n <= |axis| && ns.prefix != "xml"
    ensures var k := Search(axis, ns.prefix);
      Rendered(VisibleUpTo(axis, n), ns) == if k < n then axis[k].href == ns.href else IsEmptyDefault(ns)
  {
    if n > 0 {
      RenderedInVisible(axis, n - 1, ns);
      var before := VisibleUpTo(axis, n - 1);
      var k := Search(axis, ns.prefix);
      assert k == n - 1 ==> IsNearest(axis, n - 1);
      if IsNearest(axis, n - 1) {
        var all := before + [axis[n - 1]];
        assert all[..|all| - 1] == before;
        assert axis[n - 1].prefix == ns.prefix ==> k == n - 1;
      } else {
        assert before + [] == before;
      }
    }
  }

  /** Looking among the parent's declarations answers whether the parent has the binding. */
  lemma RenderedIsBinding(parent: seq<Ns>, ns: Ns)
    requires ns.prefix != "xml"
    ensures Rendered(Visible(parent), ns) <==> Binding(parent, ns.prefix) == Some(ns.href)
  {
    RenderedInVisible(parent, |parent|, ns);
  }

  /** The stack on arrival at an element: the parent's visible declarations from `start` on,
      and below them a default namespace only if the parent has one. */
  ghost predicate StackFor(entries: seq<Ns>, start: nat, parent: seq<Ns>) {
    && start <= |entries| && entries[start..] == Visible(parent)
    && ((exists i :: 0 <= i < start && entries[i].prefix == "") ==> Search(parent, "") < |parent|)
  }

  lemma {:induction false} VisibleDiffer(axis: seq<Ns>, n: nat, k: nat)
    requires n <= k < |axis| && IsNearest(axis, k)
    ensures forall i :: 0 <= i < |VisibleUpTo(axis, n)| ==> VisibleUpTo(axis, n)[i].prefix != axis[k].prefix
  {
    if n > 0 {
      VisibleDiffer(axis, n - 1, k);
    }
  }

  /** What the search through the stack answers while the axis is being walked. */
  lemma FoundIsBinding(entries: seq<Ns>, start: nat, parent: seq<Ns>, axis: seq<Ns>, k: nat)
    requires StackFor(entries, start, parent) && k < |axis| && IsNearest(axis, k)
    ensures var from := if IsEmptyDefault(axis[k]) then 0 else start;
      var all := entries + VisibleUpTo(axis, k);
      Rendered(all[from..], axis[k]) <==> Binding(parent, axis[k].prefix) == Some(axis[k].href)
  {
    hide VisibleUpTo, Rendered, Search;
    var ns, more := axis[k], VisibleUpTo(axis, k);
    var from := if IsEmptyDefault(ns) then 0 else start;
    VisibleDiffer(axis, k, k);
    assert (entries + more)[from..] == entries[from..] + more;
    RenderedBelow(entries[from..], more, ns);
    FoundFrom(entries, start, parent, ns, from);
  }

  lemma FoundFrom(entries: seq<Ns>, start: nat, parent: seq<Ns>, ns: Ns, from: nat)
    requires StackFor(entries, start, parent) && ns.prefix != "xml"
    requires from == if IsEmptyDefault(ns) then 0 else start
    ensures Rendered(entries[from..], ns) <==> Binding(parent, ns.prefix) == Some(ns.href)
  {
    RenderedIsBinding(parent, ns);
    if from < start {
      assert entries[from..] == entries[..start] + entries[start..];
      var k := Search(parent, ns.prefix);
      if k < |parent| {
        VisibleTarget(parent, |parent|, k);
        var i :| 0 <= i < |Visible(parent)| && Visible(parent)[i] == parent[k];
        RenderedAbove(entries[..start], entries[start..], ns);
      } else {
        assert forall i :: 0 <= i < |entries| ==> entries[i].prefix != "" by {
          NoDefault(entries, start, parent);
        }
        RenderedBelow([], entries, ns);
        assert [] + entries == entries;
      }
    }
  }

  lemma NoDefaultVisible(axis: seq<Ns>)
    requires Search(axis, "") == |axis|
    ensures forall i :: 0 <= i < |Visible(axis)| ==> Visible(axis)[i].prefix != ""
  {
    hide VisibleUpTo;
    forall i | 0 <= i < |Visible(axis)| ensures Visible(axis)[i].prefix != "" {
      var j := VisibleSource(axis, |axis|, i);
    }
  }

  lemma NoDefault(entries: seq<Ns>, start: nat, parent: seq<Ns>)
    requires StackFor(entries, start, parent) && Search(parent, "") == |parent|
    ensures forall i :: 0 <= i < |entries| ==> entries[i].prefix != ""
  {
    hide Visible, Search;
    NoDefaultVisible(parent);
    forall i | start <= i < |entries| ensures entries[i].prefix != "" {
      assert entries[i] == Visible(parent)[i - start];
    }
  }

  lemma {:induction false} SearchInOuter(own: seq<Ns>, outer: seq<Ns>, prefix: string)
    ensures Search(own + outer, prefix)
         == if Search(own, prefix) < |own| then Search(own, prefix) else |own| + Search(outer, prefix)
  {
    if own == [] {
      assert own + outer == outer;
    } else {
      assert (own + outer)[1..] == own[1..] + outer;
      SearchInOuter(own[1..], outer, prefix);
    }
  }

  /** After an element's declarations are pushed and the stack is shifted, it is the stack its
      children expect. */
  lemma StackForChildren(entries: seq<Ns>, start: nat, own: seq<Ns>, parent: seq<Ns>)
    requires StackFor(entries, start, parent)
    ensures StackFor(entries + Visible(own + parent), |entries|, own + parent)
  {
    SearchInOuter(own, parent, "");
    if Search(own + parent, "") == |own + parent| {
      NoDefault(entries, start, parent);
    }
  }

  // ---------------------------------------------------------------- what the printed declarations mean

  lemma PrefixOrder(dom: set<Ns>)
    ensures OrderOn(NsCompare, dom)
  {
    forall a, b | a in dom && b in dom
      ensures NsCompare(a, b) < 0 <==> NsCompare(b, a) > 0
    {
      StrcmpFlip(a.prefix, b.prefix);
    }
    forall a, b, c | a in dom && b in dom && c in dom && NsCompare(a, b) <= 0 && NsCompare(b, c) <= 0
      ensures NsCompare(a, c) <= 0
    {
      StrcmpTrans(a.prefix, b.prefix, c.prefix);
    }
  }

  lemma NextUpTo(entries: seq<Ns>, axis: seq<Ns>, k: nat, parent: seq<Ns>)
    requires k < |axis|
    ensures entries + VisibleUpTo(axis, k + 1)
         == if IsNearest(axis, k) then entries + VisibleUpTo(axis, k) + [axis[k]] else entries + VisibleUpTo(axis, k)
    ensures NewUpTo(axis, k + 1, parent)
         == if IsNearest(axis, k) && Binding(parent, axis[k].prefix) != Some(axis[k].href)
            then NewUpTo(axis, k, parent) + [axis[k]] else NewUpTo(axis, k, parent)
  {
    assert entries + VisibleUpTo(axis, k) + [axis[k]] == entries + (VisibleUpTo(axis, k) + [axis[k]]);
  }

  lemma NearestIs(axis: seq<Ns>, k: nat, prefix: string)
    requires k < |axis| && prefix != "xml"
    ensures axis[k].prefix == prefix ==> (IsNearest(axis, k) <==> Search(axis, prefix) == k)
    ensures Search(axis, prefix) == k ==> axis[k].prefix == prefix
  {
  }

  lemma NearestTest(axis: seq<Ns>, k: nat)
    requires k < |axis|
    ensures axis[k].prefix != "xml" && Search(axis, axis[k].prefix) == k && !IsXmlNs(axis[k]) <==> IsNearest(axis, k)
  {
  }

  lemma SamePrefix(a: Ns, b: Ns)
    ensures NsCompare(a, b) == 0 <==> a.prefix == b.prefix
  {
    StrcmpFlip(a.prefix, b.prefix);
  }

  lemma {:induction false} NewWithPrefix(axis: seq<Ns>, n: nat, parent: seq<Ns>, ns: Ns)
    requires n <= |axis| && ns.prefix != "xml"
    ensures var k := Search(axis, ns.prefix);
      Equals(NsCompare, NewUpTo(axis, n, parent), ns)
      == if k < n && Binding(parent, ns.prefix) != Some(axis[k].href) then [axis[k]] else []
  {
    hide Equals, Binding, Search, IsNearest, NewUpTo, NsCompare;
    if n == 0 {
      NoneNew(axis, parent);
      NoEquals(NsCompare, [], ns);
    } else {
      var before, last := NewUpTo(axis, n - 1, parent), axis[n - 1];
      NewWithPrefix(axis, n - 1, parent, ns);
      NextUpTo([], axis, n - 1, parent);
      NearestIs(axis, n - 1, ns.prefix);
      SamePrefix(last, ns);
      EqualsOfOne(NsCompare, last, ns);
      EqualsAppend(NsCompare, before, [last], ns);
    }
  }

  lemma NoneNew(axis: seq<Ns>, parent: seq<Ns>)
    ensures NewUpTo(axis, 0, parent) == []
  {
  }

  lemma {:induction false} NewAreNotXml(axis: seq<Ns>, n: nat, parent: seq<Ns>)
    requires n <= |axis|
    ensures forall i :: 0 <= i < |NewUpTo(axis, n, parent)| ==> NewUpTo(axis, n, parent)[i].prefix != "xml"
  {
    if n > 0 {
      NewAreNotXml(axis, n - 1, parent);
    }
  }

  /** The binding of a prefix on an element whose own declarations are `own`. */
  lemma BindingInOuter(own: seq<Ns>, parent: seq<Ns>, prefix: string)
    ensures Binding(own + parent, prefix)
         == if Search(own, prefix) < |own| then Some(own[Search(own, prefix)].href) else Binding(parent, prefix)
  {
    SearchInOuter(own, parent, prefix);
  }

  /** A declaration for a prefix is printed exactly when the element and its parent disagree on
      what it is bound to; then it is printed once, and says what the element binds it to. */
  lemma PrintedExactly(own: seq<Ns>, parent: seq<Ns>, ns: Ns)
    requires ns.prefix != "xml"
    ensures var inner, outer := Binding(own + parent, ns.prefix), Binding(parent, ns.prefix);
      && (inner != outer ==> inner.Some?)
      && Equals(NsCompare, Printed(own + parent, parent), ns)
         == if inner == outer then [] else [Ns(ns.prefix, inner.value)]
  {
    hide OrderOn, Equals, NewUpTo;
    var axis := own + parent;
    var fresh_ := NewUpTo(axis, |axis|, parent);
    var dom := {ns} + set x | x in fresh_;
    PrefixOrder(dom);
    CopyReversesRuns(NsCompare, dom, [], fresh_, ns);
    NoEquals(NsCompare, [], ns);
    NewWithPrefix(axis, |axis|, parent, ns);
    SearchInOuter(own, parent, ns.prefix);
    var k := Search(axis, ns.prefix);
    assert k < |axis| ==> axis[k] == Ns(ns.prefix, axis[k].href);
    assert k == |axis| ==> Binding(axis, ns.prefix) == Binding(parent, ns.prefix);
    var run := Equals(NsCompare, fresh_, ns);
    assert Reversed(run) + [] == Reversed(run) == run;
  }

  lemma PrintedIsSorted(axis: seq<Ns>, parent: seq<Ns>)
    ensures Sorted(NsCompare, Printed(axis, parent))
    ensures forall i :: 0 <= i < |Printed(axis, parent)| ==> Printed(axis, parent)[i].prefix != "xml"
  {
    hide OrderOn, NewUpTo, Copied;
    var fresh_ := NewUpTo(axis, |axis|, parent);
    var dom := set x | x in fresh_;
    PrefixOrder(dom);
    CopySorts(NsCompare, dom, [], fresh_);
    NewAreNotXml(axis, |axis|, parent);
  }

  lemma {:induction false} SearchByEquals(s: seq<Ns>, ns: Ns)
    ensures var k, run := Search(s, ns.prefix), Equals(NsCompare, s, ns);
      if run == [] then k == |s| else k < |s| && s[k] == run[0]
  {
    if s != [] {
      StrcmpFlip(s[0].prefix, ns.prefix);
      SearchByEquals(s[1..], ns);
    }
  }

  /** Reading the printed declarations back gives the bindings of the original element. */
  lemma PrintedKeepsBindings(own: seq<Ns>, parent: seq<Ns>, parent': seq<Ns>)
    requires SameBindings(parent, parent')
    ensures SameBindings(own + parent, Printed(own + parent, parent) + parent')
  {
    hide Printed, Search, Binding, Equals;
    var printed := Printed(own + parent, parent);
    forall p | p != "xml" ensures Binding(own + parent, p) == Binding(printed + parent', p) {
      var ns := Ns(p, "");
      PrintedExactly(own, parent, ns);
      SearchByEquals(printed, ns);
      BindingInOuter(printed, parent', p);
    }
  }

  /** What is printed depends on the bindings only, not on how they were declared. */
  lemma PrintedByBindings(own: seq<Ns>, parent: seq<Ns>, own': seq<Ns>, parent': seq<Ns>)
    requires SameBindings(parent, parent') && SameBindings(own + parent, own' + parent')
    ensures Printed(own + parent, parent) == Printed(own' + parent', parent')
  {
    hide OrderOn, Printed, Sorted, Binding, Equals;
    var a, b := Printed(own + parent, parent), Printed(own' + parent', parent');
    PrintedIsSorted(own + parent, parent);
    PrintedIsSorted(own' + parent', parent');
    var dom := (set x | x in a) + set x | x in b;
    PrefixOrder(dom);
    forall x | x in dom ensures Equals(NsCompare, a, x) == Equals(NsCompare, b, x) {
      PrintedExactly(own, parent, x);
      PrintedExactly(own', parent', x);
    }
    SortedIsUnique(NsCompare, dom, a, b);
  }

  class VisibleNsStack {
    var nsTab: array<Ns>
    var nsCurEnd: nat      // number of entries in use
    var nsPrevStart: nat   // where the entries of the parent element start
    var nsPrevEnd: nat     // where they end

    ghost predicate Valid()
      reads this
    {
      nsPrevStart <= nsPrevEnd <= nsCurEnd <= nsTab.Length
    }

    ghost function Entries(): seq<Ns>
      requires Valid()
      reads this, nsTab
    {
      nsTab[..nsCurEnd]
    }

    constructor ()
      ensures Valid() && Entries() == [] && nsPrevStart == nsPrevEnd == nsCurEnd == 0 && fresh(nsTab)
    {
      nsTab := new Ns[0];
      nsCurEnd, nsPrevStart, nsPrevEnd := 0, 0, 0;
    }

    method Add(ns: Ns)
      requires Valid()
      modifies this`nsTab, this`nsCurEnd, nsTab
      ensures Valid() && Entries() == old(Entries()) + [ns]
      ensures nsTab == old(nsTab) || fresh(nsTab)
    {
      if nsTab.Length == 0 {
        nsTab := new Ns[XML_NAMESPACES_DEFAULT](_ => Ns("", ""));
      } else if nsTab.Length == nsCurEnd {
        var tmp := new Ns[2 * nsTab.Length](_ => Ns("", ""));
        forall i | 0 <= i < nsCurEnd {
          tmp[i] := nsTab[i];
        }
        nsTab := tmp;
      }
      nsTab[nsCurEnd] := ns;
      nsCurEnd := nsCurEnd + 1;
    }

    method Shift()
      requires Valid()
      modifies this`nsPrevStart, this`nsPrevEnd
      ensures Valid() && nsPrevStart == old(nsPrevEnd) && nsPrevEnd == nsCurEnd
    {
      nsPrevStart := nsPrevEnd;
      nsPrevEnd := nsCurEnd;
    }

    method Save() returns (curEnd: nat, prevStart: nat, prevEnd: nat)
      ensures curEnd == nsCurEnd && prevStart == nsPrevStart && prevEnd == nsPrevEnd
    {
      curEnd, prevStart, prevEnd := nsCurEnd, nsPrevStart, nsPrevEnd;
    }

    method Restore(curEnd: nat, prevStart: nat, prevEnd: nat)
      requires Valid() && prevStart <= prevEnd <= curEnd <= nsCurEnd
      modifies this`nsCurEnd, this`nsPrevStart, this`nsPrevEnd
      ensures Valid() && Entries() == old(Entries())[..curEnd]
      ensures nsPrevStart == prevStart && nsPrevEnd == prevEnd
    {
      nsCurEnd, nsPrevStart, nsPrevEnd := curEnd, prevStart, prevEnd;
    }

    /** Walks down from the top, to the start of the parent's entries or, for an empty default
        namespace, to the bottom. */
    method Find(ns: Ns) returns (found: bool)
      requires Valid()
      ensures var from := if IsEmptyDefault(ns) then 0 else nsPrevStart;
        found == Rendered(Entries()[from..], ns)
    {
      var hasEmptyNs := ns.prefix == "" && ns.href == "";
      var start := if hasEmptyNs then 0 else nsPrevStart;
      ghost var all := Entries()[start..];
      var i := nsCurEnd;
      assert all == nsTab[start..i];
      while i > start
        invariant start <= i <= nsCurEnd
        invariant Rendered(all, ns) == Rendered(nsTab[start..i], ns)
      {
        i := i - 1;
        assert nsTab[start..i + 1][..i - start] == nsTab[start..i];
        if nsTab[i].prefix == ns.prefix {
          return nsTab[i].href == ns.href;
        }
      }
      found := hasEmptyNs;
    }
  }

  // ---------------------------------------------------------------- the namespace axis

  /** One declaration of the axis: it is pushed if it is the one in force, and listed for
      printing if the parent does not have it. */
  method ProcessNs(stack: VisibleNsStack, list: XmlList<Ns>, axis: seq<Ns>, k: nat,
                   ghost entries: seq<Ns>, ghost parent: seq<Ns>)
      returns (isDefault: bool)
    requires stack.Valid() && list.Valid() && list.linkCompare == NsCompare
    requires {stack, stack.nsTab} !! list.Repr()
    requires k < |axis| && StackFor(entries, stack.nsPrevStart, parent)
    requires stack.Entries() == entries + VisibleUpTo(axis, k)
    requires list.contents == Copied(NsCompare, [], NewUpTo(axis, k, parent))
    modifies stack`nsTab, stack`nsCurEnd, stack.nsTab, list.Repr()
    ensures stack.Valid() && stack.Entries() == entries + VisibleUpTo(axis, k + 1)
    ensures stack.nsTab == old(stack.nsTab) || fresh(stack.nsTab)
    ensures list.Valid() && fresh(list.Repr() - old(list.Repr())) && list.linkCompare == NsCompare
    ensures list.contents == Copied(NsCompare, [], NewUpTo(axis, k + 1, parent))
    ensures isDefault <==> axis[k].prefix == "" && IsNearest(axis, k)
  {
    hide Copied, Rendered, StackFor, VisibleUpTo, NewUpTo, Visible, Linked, Distinct, Binding, Search, IsNearest, IsXmlNs;
    NextUpTo(entries, axis, k, parent);
    NearestTest(axis, k);
    var ns := axis[k];
    isDefault := false;
    if ns.prefix != "xml" && Search(axis, ns.prefix) == k && !IsXmlNs(ns) {
      FoundIsBinding(entries, stack.nsPrevStart, parent, axis, k);
      var alreadyRendered := stack.Find(ns);
      stack.Add(ns);
      if !alreadyRendered {
        CopiedSnoc(NsCompare, [], NewUpTo(axis, k, parent), ns);
        list.Insert(ns);
      }
      isDefault := ns.prefix == "";
    }
  }

  /** Pushes the visible declarations of an element and prints the new ones, in prefix order.
      The explicit xmlns="" after the walk never has to be printed: an element that loses the
      default namespace has a declaration of its own that says so. */
  method ProcessNamespacesAxis(stack: VisibleNsStack, axis: seq<Ns>, ghost parent: seq<Ns>) returns (printed: seq<Ns>)
    requires stack.Valid() && StackFor(stack.Entries(), stack.nsPrevStart, parent)
    requires Search(parent, "") < |parent| ==> Search(axis, "") < |axis|
    modifies stack`nsTab, stack`nsCurEnd, stack.nsTab
    ensures stack.Valid() && stack.Entries() == old(stack.Entries()) + Visible(axis)
    ensures stack.nsTab == old(stack.nsTab) || fresh(stack.nsTab)
    ensures printed == Printed(axis, parent)
  {
    hide Copied, Rendered, StackFor, VisibleUpTo, NewUpTo, IsNearest, Linked, Distinct, Search;
    ghost var entries := stack.Entries();
    var list := new XmlList<Ns>(NsCompare);
    var hasEmptyNs := false;
    NothingYet(entries, axis, parent);
    for k := 0 to |axis|
      invariant stack.Valid() && stack.Entries() == entries + VisibleUpTo(axis, k)
      invariant stack.nsTab == old(stack.nsTab) || fresh(stack.nsTab)
      invariant list.Valid() && list.linkCompare == NsCompare && fresh(list.Repr())
      invariant {stack, stack.nsTab} !! list.Repr()
      invariant list.contents == Copied(NsCompare, [], NewUpTo(axis, k, parent))
      invariant hasEmptyNs <==> Search(axis, "") < k
    {
      var isDefault := ProcessNs(stack, list, axis, k, entries, parent);
      DefaultSeen(axis, k);
      hasEmptyNs := hasEmptyNs || isDefault;
    }
    printed := [];
    if !hasEmptyNs {
      var nsDefault := Ns("", "");
      NoDefaultAnywhere(entries, stack.nsPrevStart, parent, axis);
      var alreadyRendered := stack.Find(nsDefault);
      assert alreadyRendered;
      if !alreadyRendered {
        printed := [nsDefault];
      }
    }
    var sorted := list.Walk(_ => true);
    printed := printed + sorted;
  }

  lemma NothingYet(entries: seq<Ns>, axis: seq<Ns>, parent: seq<Ns>)
    ensures entries + VisibleUpTo(axis, 0) == entries
    ensures Copied(NsCompare, [], NewUpTo(axis, 0, parent)) == []
  {
  }

  lemma DefaultSeen(axis: seq<Ns>, k: nat)
    requires k < |axis|
    ensures Search(axis, "") < k + 1 <==> Search(axis, "") < k || (axis[k].prefix == "" && IsNearest(axis, k))
  {
  }

  lemma NoDefaultAnywhere(entries: seq<Ns>, start: nat, parent: seq<Ns>, axis: seq<Ns>)
    requires StackFor(entries, start, parent) && Search(parent, "") == |parent| && Search(axis, "") == |axis|
    ensures Rendered((entries + Visible(axis))[0..], Ns("", ""))
  {
    var all := entries + Visible(axis);
    NoDefault(entries, start, parent);
    NoDefaultVisible(axis);
    RenderedBelow([], all, Ns("", ""));
    assert [] + all == all == all[0..];
  }
}
