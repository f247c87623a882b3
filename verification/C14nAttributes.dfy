/** The order in which Canonical XML prints the attributes of an element. */
module C14nAttributes {
  import opened ListSpec
  import opened LinkedList
  import opened XmlStrings
  import opened Options

  /** A namespace object: two objects with the same contents differ in `id`, as two pointers
      do. A NULL prefix is the empty prefix. */
  datatype AttrNs = AttrNs(id: nat, prefix: string, href: string)

  datatype Attr = Attr(ns: Option<AttrNs>, name: string, value: string)

  function AttrsCompare(a: Attr, b: Attr): int {
    if a == b then 0
    else if a.ns == b.ns then Strcmp(a.name, b.name)
    else if a.ns.None? then -1
    else if b.ns.None? then 1
    else if a.ns.value.prefix == "" then -1
    else if b.ns.value.prefix == "" then 1
    else
      var ret := Strcmp(a.ns.value.href, b.ns.value.href);
      if ret == 0 then Strcmp(a.name, b.name) else ret
  }

  /** The order Canonical XML asks for: attributes without a namespace first, then by namespace
      name, then by local name. A namespace without a prefix ranks between. */
  datatype Key = Key(rank: nat, href: string, name: string)

  function KeyOf(a: Attr): Key {
    if a.ns.None? then Key(0, "", a.name)
    else if a.ns.value.prefix == "" then Key(1, "", a.name)
    else Key(2, a.ns.value.href, a.name)
  }

  function KeyCompare(k: Key, l: Key): int {
    if k.rank != l.rank then k.rank - l.rank
    else if Strcmp(k.href, l.href) != 0 then Strcmp(k.href, l.href)
    else Strcmp(k.name, l.name)
  }

  lemma KeyFlip(k: Key, l: Key)
    ensures KeyCompare(k, l) < 0 <==> KeyCompare(l, k) > 0
    ensures KeyCompare(k, l) == 0 <==> k == l
  {
    StrcmpFlip(k.href, l.href);
    StrcmpFlip(l.href, k.href);
    StrcmpFlip(k.name, l.name);
    StrcmpFlip(l.name, k.name);
  }

  lemma KeyTrans(k: Key, l: Key, m: Key)
    requires KeyCompare(k, l) <= 0 && KeyCompare(l, m) <= 0
    ensures KeyCompare(k, m) <= 0
  {
    if k.rank == l.rank == m.rank {
      StrcmpFlip(k.href, l.href);
      StrcmpFlip(l.href, m.href);
      StrcmpFlip(k.href, m.href);
      StrcmpTrans(k.href, l.href, m.href);
      if k.href == l.href == m.href {
        StrcmpTrans(k.name, l.name, m.name);
      }
    }
  }

  /** No two different namespace objects without a prefix. A parsed document has none at all on
      its attributes, since the default namespace does not apply to them. */
  predicate Comparable(a: Attr, b: Attr) {
    a.ns.Some? && b.ns.Some? && a.ns.value.prefix == "" && b.ns.value.prefix == "" ==> a.ns == b.ns
  }

  ghost predicate AllComparable(dom: set<Attr>) {
    forall a, b :: a in dom && b in dom ==> Comparable(a, b)
  }

  lemma CompareIsKeyOrder(a: Attr, b: Attr)
    requires Comparable(a, b)
    ensures AttrsCompare(a, b) < 0 <==> KeyCompare(KeyOf(a), KeyOf(b)) < 0
    ensures AttrsCompare(a, b) > 0 <==> KeyCompare(KeyOf(a), KeyOf(b)) > 0
  {
    StrcmpFlip(a.name, a.name);
    StrcmpFlip("", "");
    if a.ns.Some? {
      StrcmpFlip(a.ns.value.href, a.ns.value.href);
    }
  }

  /** The comparator orders a set of attributes exactly when no two of them have different
      namespaces without a prefix: on those it says "smaller" in both directions. */
  lemma CompareIsOrderIff(dom: set<Attr>)
    ensures OrderOn(AttrsCompare, dom) <==> AllComparable(dom)
  {
    if AllComparable(dom) {
      forall a, b | a in dom && b in dom
        ensures AttrsCompare(a, b) < 0 <==> AttrsCompare(b, a) > 0
      {
        CompareIsKeyOrder(a, b);
        CompareIsKeyOrder(b, a);
        KeyFlip(KeyOf(a), KeyOf(b));
      }
      forall a, b, c | a in dom && b in dom && c in dom && AttrsCompare(a, b) <= 0 && AttrsCompare(b, c) <= 0
        ensures AttrsCompare(a, c) <= 0
      {
        CompareIsKeyOrder(a, b);
        CompareIsKeyOrder(b, c);
        CompareIsKeyOrder(a, c);
        KeyTrans(KeyOf(a), KeyOf(b), KeyOf(c));
      }
    }
    if !AllComparable(dom) {
      var a, b :| a in dom && b in dom && !Comparable(a, b);
      assert AttrsCompare(a, b) == -1 && AttrsCompare(b, a) == -1;
    }
  }

  /** The attributes of one element of a well-formed document: no expanded name twice. */
  ghost predicate Unique(dom: set<Attr>) {
    forall a, b :: a in dom && b in dom && KeyOf(a) == KeyOf(b) ==> a == b
  }

  ghost predicate WellFormed(attrs: seq<Attr>) {
    var dom := set a | a in attrs;
    AllComparable(dom) && Unique(dom)
  }

  function SortedAttrs(attrs: seq<Attr>): seq<Attr> {
    Copied(AttrsCompare, [], attrs)
  }

  lemma StrictWhenUnique(dom: set<Attr>)
    requires AllComparable(dom) && Unique(dom)
    ensures StrictOn(AttrsCompare, dom)
  {
    forall a, b | a in dom && b in dom && AttrsCompare(a, b) == 0
      ensures a == b
    {
      CompareIsKeyOrder(a, b);
      KeyFlip(KeyOf(a), KeyOf(b));
    }
  }

  /** The printed sequence does not depend on the order of the attribute list. */
  lemma AttrsIgnoreOrder(attrs: seq<Attr>, attrs': seq<Attr>)
    requires WellFormed(attrs) && multiset(attrs) == multiset(attrs')
    ensures SortedAttrs(attrs) == SortedAttrs(attrs')
  {
    var dom := set a | a in attrs;
    CompareIsOrderIff(dom);
    StrictWhenUnique(dom);
    CopyIgnoresOrder(AttrsCompare, dom, attrs, attrs');
  }

  /** It is the attributes in strictly increasing order of their keys. */
  lemma AttrsAreSorted(attrs: seq<Attr>, i: nat, j: nat)
    requires WellFormed(attrs) && i < j < |attrs|
    requires forall k, l :: 0 <= k < l < |attrs| ==> attrs[k] != attrs[l]
    ensures var s := SortedAttrs(attrs);
      multiset(s) == multiset(attrs) && |s| == |attrs| && KeyCompare(KeyOf(s[i]), KeyOf(s[j])) < 0
  {
    var dom := set a | a in attrs;
    var s := SortedAttrs(attrs);
    CompareIsOrderIff(dom);
    CopySorts(AttrsCompare, dom, [], attrs);
    CopiedIsPermutation(AttrsCompare, [], attrs);
    assert |multiset(s)| == |multiset(attrs)|;
    assert s[i] in dom && s[j] in dom;
    CompareIsKeyOrder(s[i], s[j]);
    KeyFlip(KeyOf(s[i]), KeyOf(s[j]));
    if s[i] == s[j] {
      TwiceInMultiset(s, i, j);
      OnceInMultiset(attrs, s[i]);
    }
  }

  lemma TwiceInMultiset<T>(s: seq<T>, i: nat, j: nat)
    requires i < j < |s| && s[i] == s[j]
    ensures multiset(s)[s[i]] >= 2
  {
    assert s == s[..j] + [s[j]] + s[j + 1..];
    assert s[i] in multiset(s[..j]);
  }

  lemma {:induction false} OnceInMultiset<T>(s: seq<T>, x: T)
    requires forall k, l :: 0 <= k < l < |s| ==> s[k] != s[l]
    ensures multiset(s)[x] <= 1
  {
    if s != [] {
      OnceInMultiset(s[1..], x);
      assert s == [s[0]] + s[1..];
      assert forall k :: 0 <= k < |s[1..]| ==> s[1..][k] == s[k + 1] != s[0];
    }
  }

  /** The attribute axis: every attribute is inserted into a sorted list, then the list is
      walked. */
  method ProcessAttrsAxis(properties: seq<Attr>) returns (printed: seq<Attr>)
    ensures printed == SortedAttrs(properties)
  {
    hide Linked, Distinct, AttrsCompare, Inserted;
    var list := new XmlList<Attr>(AttrsCompare);
    for k := 0 to |properties|
      invariant list.Valid() && list.linkCompare == AttrsCompare && fresh(list.Repr())
      invariant list.contents == SortedAttrs(properties[..k])
    {
      CopiedSnoc(AttrsCompare, [], properties[..k], properties[k]);
      assert properties[..k + 1] == properties[..k] + [properties[k]];
      list.Insert(properties[k]);
    }
    assert properties[..|properties|] == properties;
    printed := list.Walk(_ => true);
  }
}
