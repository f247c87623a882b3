/** What a search of the catalogs comes to: in terms of the lists that lead to each other, whatever
    the order in which files are fetched and depths counted. */
module CatalogWalks {
  import opened Options
  import opened CatalogIds
  import opened CatalogSearch

  // ---------------------------------------------------------------- which list leads to which

  /** The catalogs that come next, and with `all` the delegates, too. */
  predicate Follows(kind: Kind, all: bool) {
    kind == IsNext || (all && (kind == IsDelegatePublic || kind == IsDelegateSystem))
  }

  /** One of the catalogs in list `c` has the list of entries with number `e`. */
  ghost predicate ListLeads(g: Graph, b: State, c: Entry?, e: nat)
    requires Ready(g, b) && KnownOrNull(g, c)
  {
    exists i :: 0 <= i < |g.entries| && CatalogLeads(g, b, c, g.entries[i], e)
  }

  ghost predicate CatalogLeads(g: Graph, b: State, c: Entry?, x: Entry, e: nat)
    requires Ready(g, b) && KnownOrNull(g, c)
  {
    Known(g, x) && InList(g, c, x) && x.kind == IsCatalog && Child(g, b, x) != null && Child(g, b, x).id == e
  }

  /** Entry `x` of list `d` leads to list `e`. */
  ghost predicate EntryLeads(g: Graph, b: State, d: nat, x: Entry, e: nat)
    requires Ready(g, b) && d < |g.entries|
  {
    Known(g, x) && InList(g, g.entries[d], x) && Child(g, b, x) != null && ListLeads(g, b, Child(g, b, x), e)
  }

  ghost predicate Link(g: Graph, b: State, all: bool, d: nat, e: nat)
    requires Ready(g, b) && d < |g.entries|
  {
    exists i :: 0 <= i < |g.entries| && Follows(g.entries[i].kind, all) && EntryLeads(g, b, d, g.entries[i], e)
  }

  /** Lists by number, each of which leads to the next. */
  ghost predicate Walk(g: Graph, b: State, all: bool, w: seq<nat>)
    requires Ready(g, b)
  {
    && w != [] && (forall k :: 0 <= k < |w| ==> w[k] < |g.entries|)
    && (forall k :: 0 <= k < |w| - 1 ==> Link(g, b, all, w[k], w[k + 1]))
  }

  ghost predicate Distinct(w: seq<nat>) {
    forall i, j :: 0 <= i < j < |w| ==> w[i] != w[j]
  }

  /** However the walk `p` goes on, it comes to no list twice. */
  ghost predicate OnceOnly(g: Graph, b: State, all: bool, p: seq<nat>)
    requires Ready(g, b)
  {
    Walk(g, b, all, p) && forall w :: Walk(g, b, all, w) && p <= w ==> Distinct(w)
  }

  /** All lists of the catalogs in `c` that the walk `p` can go on to. */
  ghost predicate Opens(g: Graph, b: State, all: bool, p: seq<nat>, c: Entry?)
    requires Ready(g, b) && KnownOrNull(g, c)
  {
    forall e :: ListLeads(g, b, c, e) ==> OnceOnly(g, b, all, p + [e])
  }

  lemma WalkOn(g: Graph, b: State, all: bool, w: seq<nat>, e: nat)
    requires Ready(g, b) && Walk(g, b, all, w) && e < |g.entries| && Link(g, b, all, w[|w| - 1], e)
    ensures Walk(g, b, all, w + [e])
  {
    hide Link;
  }

  lemma ListLeadsKnown(g: Graph, b: State, c: Entry?, e: nat)
    requires Ready(g, b) && KnownOrNull(g, c) && ListLeads(g, b, c, e)
    ensures e < |g.entries|
  {
  }

  lemma LinkBy(g: Graph, b: State, all: bool, d: nat, x: Entry, e: nat)
    requires Ready(g, b) && d < |g.entries| && EntryLeads(g, b, d, x, e) && Follows(x.kind, all)
    ensures Link(g, b, all, d, e) && e < |g.entries|
  {
    ListLeadsKnown(g, b, Child(g, b, x), e);
    assert g.entries[x.id] == x;
  }

  lemma {:induction false} InListTrans(g: Graph, e: Entry?, cur: Entry, x: Entry)
    requires WellFormed(g) && KnownOrNull(g, e) && Known(g, cur) && InList(g, e, cur) && InList(g, cur, x)
    ensures InList(g, e, x)
    decreases Length(e)
  {
    if e != cur {
      InListTrans(g, e.next, cur, x);
    }
  }

  lemma NextInList(g: Graph, e: Entry?, cur: Entry)
    requires WellFormed(g) && KnownOrNull(g, e) && Known(g, cur) && InList(g, e, cur)
    ensures KnownOrNull(g, cur.next) && (cur.next != null ==> InList(g, e, cur.next))
  {
    if cur.next != null {
      assert InList(g, cur, cur.next);
      InListTrans(g, e, cur, cur.next);
    }
  }

  lemma FewerLead(g: Graph, b: State, cur: Entry, e: nat)
    requires Ready(g, b) && Known(g, cur) && KnownOrNull(g, cur.next) && ListLeads(g, b, cur.next, e)
    ensures ListLeads(g, b, cur, e)
  {
    var i :| 0 <= i < |g.entries| && CatalogLeads(g, b, cur.next, g.entries[i], e);
    assert CatalogLeads(g, b, cur, g.entries[i], e);
  }

  lemma FirstLeads(g: Graph, b: State, cur: Entry)
    requires Ready(g, b) && Known(g, cur) && cur.kind == IsCatalog && Child(g, b, cur) != null
    ensures ListLeads(g, b, cur, Child(g, b, cur).id)
  {
    assert CatalogLeads(g, b, cur, g.entries[cur.id], Child(g, b, cur).id);
  }

  /** A state of a search that began in `b`. */
  ghost predicate Since(g: Graph, b: State, st: State) {
    Ready(g, b) && Ready(g, st) && OnePreference(g) && SameChildren(g, b, st)
  }

  ghost predicate StillBroken(a: State, b: State) {
    |a.broken| == |b.broken| && forall i :: 0 <= i < |a.broken| && a.broken[i] ==> b.broken[i]
  }

  lemma SinceKept(g: Graph, b: State, st: State, out: State)
    requires Since(g, b, st) && Ready(g, out) && Kept(g, st, out)
    ensures Since(g, b, out)
  {
    hide OnePreference, Child;
  }

  lemma SinceEntered(g: Graph, b: State, st: State, i: nat)
    requires Since(g, b, st) && i < |st.depths|
    ensures Since(g, b, CountedIn(st, i))
  {
    ChildrenIgnoreDepths(g, st, CountedIn(st, i).depths);
    hide OnePreference, Child;
  }

  lemma SinceChild(g: Graph, b: State, st: State, x: Entry)
    requires Since(g, b, st) && Known(g, x) && Refers(x.kind)
    ensures Child(g, b, x) == Child(g, st, x)
  {
    assert g.entries[x.id] == x;
    hide OnePreference, Child;
  }

  // ---------------------------------------------------------------- without a way back depths are restored

  /** The next search of a list cannot be one too many, but for those on the way here. */
  ghost predicate Calm(depths: seq<nat>, p: seq<nat>) {
    forall i :: 0 <= i < |depths| ==> depths[i] <= MAX_CATAL_DEPTH && (depths[i] == MAX_CATAL_DEPTH ==> i in p)
  }

  lemma CalmEntered(depths: seq<nat>, p: seq<nat>, i: nat)
    requires i < |depths| && Calm(depths, p) && i !in p
    ensures depths[i] < MAX_CATAL_DEPTH && Calm(depths[i := depths[i] + 1], p + [i])
  {
  }

  lemma OnceOnlyIs(g: Graph, b: State, all: bool, p: seq<nat>, e: nat)
    requires Ready(g, b) && OnceOnly(g, b, all, p + [e])
    ensures e !in p
  {
    var w := p + [e];
    assert Walk(g, b, all, w) && p + [e] <= w;
    assert Distinct(w);
    forall i | 0 <= i < |p| ensures p[i] != e {
      assert w[i] != w[|p|];
    }
  }

  lemma OpensFurther(g: Graph, b: State, all: bool, p: seq<nat>, x: Entry)
    requires Ready(g, b) && p != [] && OnceOnly(g, b, all, p) && Known(g, x)
    requires p[|p| - 1] < |g.entries| && InList(g, g.entries[p[|p| - 1]], x) && Follows(x.kind, all)
    ensures Opens(g, b, all, p, Child(g, b, x))
  {
    hide InList, Child, WellFormed, Link, Follows, ListLeads, Distinct;
    var c := Child(g, b, x);
    forall e | ListLeads(g, b, c, e)
      ensures OnceOnly(g, b, all, p + [e])
    {
      ListLeadsKnown(g, b, c, e);
      if c != null {
        LinkBy(g, b, all, p[|p| - 1], x, e);
        WalkOn(g, b, all, p, e);
        forall w | Walk(g, b, all, w) && p + [e] <= w ensures Distinct(w) {
          assert p <= w;
        }
      } else {
        NullLeadsNowhere(g, b, e);
      }
    }
  }

  lemma NullLeadsNowhere(g: Graph, b: State, e: nat)
    requires Ready(g, b)
    ensures !ListLeads(g, b, null, e)
  {
  }

  lemma OpensRest(g: Graph, b: State, all: bool, p: seq<nat>, cur: Entry)
    requires Ready(g, b) && Known(g, cur) && KnownOrNull(g, cur.next) && Opens(g, b, all, p, cur)
    ensures Opens(g, b, all, p, cur.next)
  {
    hide ListLeads, OnceOnly;
    forall e | ListLeads(g, b, cur.next, e)
      ensures OnceOnly(g, b, all, p + [e])
    {
      FewerLead(g, b, cur, e);
    }
  }

  /** A list that is not on the way to itself. With `all` any result will do, else the search must
      be one that finds nothing. */
  lemma {:induction false} XMLRestores(g: Graph, b: State, st: State, e: Entry, pubID: Option<string>, sysID: Option<string>,
                                       all: bool, p: seq<nat>)
    requires Since(g, b, st) && Known(g, e) && OnceOnly(g, b, all, p + [e.id]) && Calm(st.depths, p)
    requires all || XMLResolve(g, st, e, pubID, sysID).0 == NotFound
    ensures XMLResolve(g, st, e, pubID, sysID).1.depths == st.depths
    decreases Budget(st.depths), 0, 0
  {
    hide SameChildren, OnePreference, OnceOnly, Calm, VerdictOn, Budget;
    OnceOnlyIs(g, b, all, p, e.id);
    CalmEntered(st.depths, p, e.id);
    EnterFalls(g, st, e.id);
    SinceEntered(g, b, st, e.id);
    var in_ := CountedIn(st, e.id);
    match VerdictOn(g, in_, e, pubID, sysID)
    case Answer(_) =>
    case Delegate(kind, id) => DelegatesRestore(g, b, in_, e, kind, id, [], p + [e.id]);
    case Proceed =>
      if pubID.Some? || sysID.Some? {
        NextRestores(g, b, in_, e, e, pubID, sysID, all, p + [e.id]);
      }
  }

  lemma {:induction false} AllRestore(g: Graph, b: State, st: State, cur: Entry?, pubID: Option<string>, sysID: Option<string>,
                                      all: bool, p: seq<nat>)
    requires Since(g, b, st) && KnownOrNull(g, cur) && Opens(g, b, all, p, cur) && Calm(st.depths, p)
    requires all || SearchAll(g, st, cur, pubID, sysID).0 == NotFound
    ensures SearchAll(g, st, cur, pubID, sysID).1.depths == st.depths
    decreases Budget(st.depths), 1, Length(cur)
  {
    if cur == null {
      return;
    }
    hide SameChildren, OnePreference, Calm, Opens, Budget, SearchAll, XMLResolve, Fetched, Kept, OnceOnly, WellFormed;
    if cur != null {
      NextIs(g, cur);
      OpensRest(g, b, all, p, cur);
      SearchAllFirst(g, st, cur, pubID, sysID);
      if !st.broken[cur.id] && cur.kind == IsCatalog {
        var f := Fetched(g, st, cur);
        var c := f.children[cur.id];
        SinceKept(g, b, st, f);
        SinceChild(g, b, st, cur);
        KeptBudget(g, st, f);
        if c != null {
          FirstLeads(g, b, cur);
          OpensFirst(g, b, all, p, cur, c);
          XMLRestores(g, b, f, c, pubID, sysID, all, p);
          var (ret, out) := XMLResolve(g, f, c, pubID, sysID);
          if ret == NotFound {
            CalmBound(out.depths, p, c.id);
            SinceKept(g, b, f, out);
            KeptBudget(g, f, out);
            AllRestore(g, b, out, cur.next, pubID, sysID, all, p);
          }
        } else {
          AllRestore(g, b, f, cur.next, pubID, sysID, all, p);
        }
      } else {
        AllRestore(g, b, st, cur.next, pubID, sysID, all, p);
      }
    }
  }

  lemma OpensFirst(g: Graph, b: State, all: bool, p: seq<nat>, cur: Entry, c: Entry)
    requires Ready(g, b) && Known(g, cur) && cur.kind == IsCatalog && Child(g, b, cur) == c && Opens(g, b, all, p, cur)
    ensures OnceOnly(g, b, all, p + [c.id])
  {
    hide OnceOnly, ListLeads;
    FirstLeads(g, b, cur);
  }

  lemma {:induction false} OneRestores(g: Graph, b: State, st: State, cur: Entry, pubID: Option<string>, sysID: Option<string>,
                                       all: bool, p: seq<nat>)
    requires Since(g, b, st) && MayFetch(g, st, cur) && Follows(cur.kind, all) && Calm(st.depths, p)
    requires p != [] && OnceOnly(g, b, all, p) && p[|p| - 1] < |g.entries| && InList(g, g.entries[p[|p| - 1]], cur)
    requires all || TryOne(g, st, cur, pubID, sysID).0 == NotFound
    ensures TryOne(g, st, cur, pubID, sysID).1.depths == st.depths
    decreases Budget(st.depths), 2, 1
  {
    hide SameChildren, OnePreference, Calm, Opens, Budget, SearchAll, Fetched, Kept, OnceOnly, InList, Target;
    var f := Fetched(g, st, cur);
    SinceKept(g, b, st, f);
    SinceChild(g, b, st, cur);
    KeptBudget(g, st, f);
    var c := f.children[cur.id];
    if c != null && (pubID.Some? || sysID.Some?) {
      OpensFurther(g, b, all, p, cur);
      var (public, system) := Target(pubID, sysID);
      AllRestore(g, b, f, c, public, system, all, p);
    }
  }

  lemma {:induction false} NextRestores(g: Graph, b: State, st: State, e: Entry, cur: Entry?, pubID: Option<string>,
                                        sysID: Option<string>, all: bool, p: seq<nat>)
    requires Since(g, b, st) && Known(g, e) && KnownOrNull(g, cur) && Calm(st.depths, p)
    requires p != [] && OnceOnly(g, b, all, p) && p[|p| - 1] == e.id && (cur != null ==> InList(g, e, cur))
    requires all || TryNext(g, st, e, cur, pubID, sysID).0 == NotFound
    ensures var r := TryNext(g, st, e, cur, pubID, sysID); !r.1 && r.2.depths == st.depths
    decreases Budget(st.depths), 3, Length(cur)
  {
    hide SameChildren, OnePreference, Calm, Budget, TryOne, Kept, OnceOnly, InList;
    if cur != null {
      NextInList(g, e, cur);
      if !st.broken[cur.id] && cur.kind == IsNext {
        OneRestores(g, b, st, cur, pubID, sysID, all, p);
        var (ret, out) := TryOne(g, st, cur, pubID, sysID);
        if ret == NotFound {
          SinceKept(g, b, st, out);
          KeptBudget(g, st, out);
          CalmBound(st.depths, p, e.id);
          NextRestores(g, b, out, e, cur.next, pubID, sysID, all, p);
        }
      } else {
        NextRestores(g, b, st, e, cur.next, pubID, sysID, all, p);
      }
    }
  }

  lemma CalmBound(depths: seq<nat>, p: seq<nat>, i: nat)
    requires i < |depths| && Calm(depths, p)
    ensures depths[i] <= MAX_CATAL_DEPTH
  {
  }

  lemma {:induction false} DelegatesRestore(g: Graph, b: State, st: State, cur: Entry?, kind: Kind, id: string,
                                            tried: seq<Option<string>>, p: seq<nat>)
    requires Since(g, b, st) && KnownOrNull(g, cur) && Calm(st.depths, p)
    requires p != [] && OnceOnly(g, b, true, p) && (cur != null ==> p[|p| - 1] < |g.entries| && InList(g, g.entries[p[|p| - 1]], cur))
    requires kind == IsDelegateSystem || kind == IsDelegatePublic
    ensures TryDelegates(g, st, cur, kind, id, tried).1.depths == st.depths
    decreases Budget(st.depths), 3, Length(cur)
  {
    hide SameChildren, OnePreference, Calm, Budget, TryOne, Kept, OnceOnly, InList;
    if cur != null {
      LastKnown(g, b, true, p);
      NextInList(g, g.entries[p[|p| - 1]], cur);
      if !st.broken[cur.id] && Refers(cur.kind) && IsDelegate(cur, kind, id) && cur.url !in tried {
        var tried' := if |tried| < MAX_DELEGATE then tried + [cur.url] else tried;
        OneRestores(g, b, st, cur, Delegated(kind, id).0, Delegated(kind, id).1, true, p);
        var (ret, out) := TryOne(g, st, cur, Delegated(kind, id).0, Delegated(kind, id).1);
        if ret == NotFound {
          SinceKept(g, b, st, out);
          KeptBudget(g, st, out);
          DelegatesRestore(g, b, out, cur.next, kind, id, tried', p);
        }
      } else {
        DelegatesRestore(g, b, st, cur.next, kind, id, tried, p);
      }
    }
  }

  lemma LastKnown(g: Graph, b: State, all: bool, p: seq<nat>)
    requires Ready(g, b) && OnceOnly(g, b, all, p)
    ensures p != [] && p[|p| - 1] < |g.entries| && Known(g, g.entries[p[|p| - 1]])
  {
  }

  // ---------------------------------------------------------------- what the entries say stays said

  lemma {:induction false} FewerDelegates(g: Graph, a: State, b: State, e: Entry?, kind: Kind, id: string)
    requires Ready(g, a) && Ready(g, b) && KnownOrNull(g, e) && StillBroken(a, b)
    ensures AnyDelegate(g, b, e, kind, id) ==> AnyDelegate(g, a, e, kind, id)
    decreases Length(e)
  {
    if e != null {
      NextIs(g, e);
      FewerDelegates(g, a, b, e.next, kind, id);
    }
  }

  lemma VerdictStays(g: Graph, a: State, b: State, e: Entry, pubID: Option<string>, sysID: Option<string>)
    requires Ready(g, a) && Ready(g, b) && Known(g, e) && StillBroken(a, b)
    ensures var v := VerdictOn(g, a, e, pubID, sysID); !v.Delegate? ==> VerdictOn(g, b, e, pubID, sysID) == v
  {
    hide FirstMatch, LongestRewrite, AnyDelegate;
    if sysID.Some? {
      FewerDelegates(g, a, b, e, IsDelegateSystem, sysID.value);
    }
    if pubID.Some? {
      FewerDelegates(g, a, b, e, IsDelegatePublic, pubID.value);
    }
  }

  // ---------------------------------------------------------------- where no entry matches nothing is found

  /** No list that next catalogs lead to from list `e` has anything to say. */
  ghost predicate Quiet(g: Graph, b: State, e: nat, pubID: Option<string>, sysID: Option<string>)
    requires Ready(g, b)
  {
    forall w :: Walk(g, b, false, w) && w[0] == e ==> Proceeds(g, b, w, pubID, sysID)
  }

  ghost predicate Proceeds(g: Graph, b: State, w: seq<nat>, pubID: Option<string>, sysID: Option<string>)
    requires Ready(g, b)
  {
    w != [] && w[|w| - 1] < |g.entries| && VerdictOn(g, b, g.entries[w[|w| - 1]], pubID, sysID) == Proceed
  }

  ghost predicate QuietAll(g: Graph, b: State, c: Entry?, pubID: Option<string>, sysID: Option<string>)
    requires Ready(g, b) && KnownOrNull(g, c)
  {
    forall e :: ListLeads(g, b, c, e) ==> Quiet(g, b, e, pubID, sysID)
  }

  lemma QuietHere(g: Graph, b: State, st: State, e: Entry, pubID: Option<string>, sysID: Option<string>)
    requires Since(g, b, st) && StillBroken(b, st) && Known(g, e) && Quiet(g, b, e.id, pubID, sysID)
    ensures VerdictOn(g, st, e, pubID, sysID) == Proceed
  {
    assert Walk(g, b, false, [e.id]);
    assert Proceeds(g, b, [e.id], pubID, sysID);
    VerdictStays(g, b, st, e, pubID, sysID);
  }

  lemma BrokenKept(g: Graph, b: State, st: State, out: State)
    requires Ready(g, st) && Ready(g, out) && StillBroken(b, st) && Kept(g, st, out)
    ensures StillBroken(b, out)
  {
    hide SameChildren, OnePreference;
  }

  lemma BrokenCounted(b: State, st: State, i: nat)
    requires StillBroken(b, st) && i < |st.depths|
    ensures StillBroken(b, CountedIn(st, i))
  {
  }

  lemma WalkBefore(g: Graph, b: State, all: bool, d: nat, w: seq<nat>)
    requires Ready(g, b) && d < |g.entries| && Walk(g, b, all, w) && Link(g, b, all, d, w[0])
    ensures Walk(g, b, all, [d] + w)
  {
    hide Link;
  }

  lemma QuietFurther(g: Graph, b: State, d: nat, x: Entry, pubID: Option<string>, sysID: Option<string>)
    requires Ready(g, b) && d < |g.entries| && Quiet(g, b, d, pubID, sysID)
    requires Known(g, x) && InList(g, g.entries[d], x) && x.kind == IsNext
    ensures QuietAll(g, b, Child(g, b, x), pubID, sysID)
  {
    hide InList, Child, WellFormed, Link, ListLeads, VerdictOn;
    var c := Child(g, b, x);
    forall e | ListLeads(g, b, c, e)
      ensures Quiet(g, b, e, pubID, sysID)
    {
      if c == null {
        NullLeadsNowhere(g, b, e);
      } else {
        LinkBy(g, b, false, d, x, e);
        forall w | Walk(g, b, false, w) && w[0] == e ensures Proceeds(g, b, w, pubID, sysID) {
          WalkBefore(g, b, false, d, w);
          var v := [d] + w;
          assert v[0] == d && v[|v| - 1] == w[|w| - 1];
          assert Proceeds(g, b, v, pubID, sysID);
        }
      }
    }
  }

  lemma QuietRest(g: Graph, b: State, cur: Entry, pubID: Option<string>, sysID: Option<string>)
    requires Ready(g, b) && Known(g, cur) && KnownOrNull(g, cur.next) && QuietAll(g, b, cur, pubID, sysID)
    ensures QuietAll(g, b, cur.next, pubID, sysID)
  {
    hide ListLeads, Quiet;
    forall e | ListLeads(g, b, cur.next, e)
      ensures Quiet(g, b, e, pubID, sysID)
    {
      FewerLead(g, b, cur, e);
    }
  }

  lemma {:induction false} XMLFindsNothing(g: Graph, b: State, st: State, e: Entry, pubID: Option<string>, sysID: Option<string>)
    requires Since(g, b, st) && StillBroken(b, st) && Known(g, e) && Final(pubID, sysID) && Quiet(g, b, e.id, pubID, sysID)
    ensures XMLResolve(g, st, e, pubID, sysID).0 == NotFound
    decreases Budget(st.depths), 0, 0
  {
    hide SameChildren, OnePreference, Quiet, VerdictOn, Budget, StillBroken, Final;
    if st.depths[e.id] <= MAX_CATAL_DEPTH {
      EnterFalls(g, st, e.id);
      SinceEntered(g, b, st, e.id);
      BrokenCounted(b, st, e.id);
      QuietHere(g, b, CountedIn(st, e.id), e, pubID, sysID);
      if pubID.Some? || sysID.Some? {
        NextFindsNothing(g, b, CountedIn(st, e.id), e, e, pubID, sysID);
      }
    }
  }

  lemma {:induction false} NextFindsNothing(g: Graph, b: State, st: State, e: Entry, cur: Entry?,
                                            pubID: Option<string>, sysID: Option<string>)
    requires Since(g, b, st) && StillBroken(b, st) && Known(g, e) && KnownOrNull(g, cur) && (cur != null ==> InList(g, e, cur))
    requires Final(pubID, sysID) && (pubID.Some? || sysID.Some?) && Quiet(g, b, e.id, pubID, sysID)
    ensures TryNext(g, st, e, cur, pubID, sysID).0 == NotFound
    decreases Budget(st.depths), 3, Length(cur)
  {
    hide SameChildren, OnePreference, Budget, Kept, InList, Quiet, StillBroken, Final, SearchAll, Fetched, TryOne;
    if cur != null {
      NextInList(g, e, cur);
      NextIs(g, cur);
      if !st.broken[cur.id] && cur.kind == IsNext {
        var f := Fetched(g, st, cur);
        var c := f.children[cur.id];
        SinceKept(g, b, st, f);
        BrokenKept(g, b, st, f);
        SinceChild(g, b, st, cur);
        KeptBudget(g, st, f);
        TryOneIs(g, st, cur, pubID, sysID);
        if c != null {
          QuietFurther(g, b, e.id, cur, pubID, sysID);
          AllFindNothing(g, b, f, c, pubID, sysID);
        }
        var out := TryOne(g, st, cur, pubID, sysID).1;
        SinceKept(g, b, st, out);
        BrokenKept(g, b, st, out);
        KeptBudget(g, st, out);
        NextFindsNothing(g, b, out, e, cur.next, pubID, sysID);
      } else {
        NextFindsNothing(g, b, st, e, cur.next, pubID, sysID);
      }
    }
  }

  /** Identifiers in their final form are handed on as they are. */
  lemma TryOneIs(g: Graph, st: State, cur: Entry, pubID: Option<string>, sysID: Option<string>)
    requires MayFetch(g, st, cur) && Final(pubID, sysID) && (pubID.Some? || sysID.Some?)
    ensures var f := Fetched(g, st, cur);
      TryOne(g, st, cur, pubID, sysID)
      == if f.children[cur.id] == null then (NotFound, f) else SearchAll(g, f, f.children[cur.id], pubID, sysID)
  {
    FinalStays(pubID, sysID);
    hide Final, Target, SearchAll, Fetched;
  }

  lemma {:induction false} AllFindNothing(g: Graph, b: State, st: State, cur: Entry?, pubID: Option<string>, sysID: Option<string>)
    requires Since(g, b, st) && StillBroken(b, st) && KnownOrNull(g, cur) && Final(pubID, sysID) && QuietAll(g, b, cur, pubID, sysID)
    ensures SearchAll(g, st, cur, pubID, sysID).0 == NotFound
    decreases Budget(st.depths), 1, Length(cur)
  {
    if cur == null {
      return;
    }
    hide SameChildren, OnePreference, Budget, SearchAll, XMLResolve, Fetched, Kept, QuietAll, Quiet, WellFormed, StillBroken, Final;
    NextIs(g, cur);
    QuietRest(g, b, cur, pubID, sysID);
    SearchAllFirst(g, st, cur, pubID, sysID);
    if !st.broken[cur.id] && cur.kind == IsCatalog {
      var f := Fetched(g, st, cur);
      var c := f.children[cur.id];
      SinceKept(g, b, st, f);
      BrokenKept(g, b, st, f);
      SinceChild(g, b, st, cur);
      KeptBudget(g, st, f);
      if c != null {
        QuietFirst(g, b, cur, c, pubID, sysID);
        XMLFindsNothing(g, b, f, c, pubID, sysID);
        var out := XMLResolve(g, f, c, pubID, sysID).1;
        SinceKept(g, b, f, out);
        BrokenKept(g, b, f, out);
        KeptBudget(g, f, out);
        AllFindNothing(g, b, out, cur.next, pubID, sysID);
      } else {
        AllFindNothing(g, b, f, cur.next, pubID, sysID);
      }
    } else {
      AllFindNothing(g, b, st, cur.next, pubID, sysID);
    }
  }

  lemma QuietFirst(g: Graph, b: State, cur: Entry, c: Entry, pubID: Option<string>, sysID: Option<string>)
    requires Ready(g, b) && Known(g, cur) && cur.kind == IsCatalog && Child(g, b, cur) == c && QuietAll(g, b, cur, pubID, sysID)
    ensures Quiet(g, b, c.id, pubID, sysID)
  {
    hide Quiet, ListLeads;
    FirstLeads(g, b, cur);
  }
}
