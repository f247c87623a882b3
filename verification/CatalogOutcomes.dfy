/** What a search has done when it gives an answer, and when it gives none and has taken all its
    counts back. */
module CatalogOutcomes {
  import opened Options
  import opened CatalogIds
  import opened CatalogSearch
  import opened CatalogWalks

  // ---------------------------------------------------------------- an answer rests on a list searched for it

  /** A list of entries and the identifiers it is searched for. */
  datatype Place = Place(list: nat, pubID: Option<string>, sysID: Option<string>)

  /** Entry `x` hands the identifiers of `c` on as those of `d`: all of them to the catalogs that
      come next, one of them to a delegate for it. */
  predicate HandsOn(x: Entry, c: Place, d: Place) {
    || (x.kind == IsNext && d.pubID == c.pubID && d.sysID == c.sysID)
    || (c.sysID.Some? && IsDelegate(x, IsDelegateSystem, c.sysID.value) && d.pubID == None && d.sysID == c.sysID)
    || (c.pubID.Some? && IsDelegate(x, IsDelegatePublic, c.pubID.value) && d.pubID == c.pubID && d.sysID == None)
  }

  ghost predicate Step(g: Graph, b: State, c: Place, d: Place)
    requires Ready(g, b)
  {
    c.list < |g.entries| && exists i :: 0 <= i < |g.entries| && StepBy(g, b, c, g.entries[i], d)
  }

  ghost predicate StepBy(g: Graph, b: State, c: Place, x: Entry, d: Place)
    requires Ready(g, b) && c.list < |g.entries|
  {
    HandsOn(x, c, d) && EntryLeads(g, b, c.list, x, d.list)
  }

  ghost predicate Trail(g: Graph, b: State, t: seq<Place>)
    requires Ready(g, b)
  {
    && t != [] && (forall k :: 0 <= k < |t| ==> t[k].list < |g.entries|)
    && forall k :: 0 <= k < |t| - 1 ==> Step(g, b, t[k], t[k + 1])
  }

  /** The entries of a list say that this is the URI. */
  ghost predicate Says(g: Graph, b: State, p: Place, uri: string)
    requires Ready(g, b)
  {
    p.list < |g.entries| && VerdictOn(g, b, g.entries[p.list], p.pubID, p.sysID) == Answer(Uri(uri))
  }

  lemma TrailBefore(g: Graph, b: State, c: Place, x: Entry, t: seq<Place>)
    requires Ready(g, b) && c.list < |g.entries| && Trail(g, b, t) && Known(g, x) && StepBy(g, b, c, x, t[0])
    ensures Trail(g, b, [c] + t)
  {
    assert g.entries[x.id] == x;
    hide StepBy;
  }

  /** Later in the search, for what entries refer to and whether they are broken. */
  ghost predicate Onward(g: Graph, a: State, b: State) {
    && Ready(g, a) && Ready(g, b) && StillBroken(a, b)
    && forall i :: 0 <= i < |g.entries| && a.children[i] != null ==> b.children[i] == a.children[i]
  }

  lemma OnwardReady(g: Graph, a: State, b: State)
    requires Onward(g, a, b)
    ensures Ready(g, b)
  {
  }

  lemma KeptOnward(g: Graph, a: State, b: State, c: State)
    requires Ready(g, a) && Ready(g, b) && Kept(g, a, b) && Onward(g, b, c)
    ensures Onward(g, a, c)
  {
    hide SameChildren, OnePreference;
  }

  lemma CountedOnward(g: Graph, a: State, i: nat, b: State)
    requires Ready(g, a) && i < |a.depths| && a.depths[i] > 0 && Ready(g, CountedOut(a, i)) && Onward(g, CountedOut(a, i), b)
    ensures Onward(g, a, b)
  {
  }

  lemma VerdictDelegates(g: Graph, st: State, e: Entry, pubID: Option<string>, sysID: Option<string>)
    requires Ready(g, st) && Known(g, e)
    ensures var v := VerdictOn(g, st, e, pubID, sysID);
      v.Delegate? ==> (if v.kind == IsDelegateSystem then sysID else pubID) == Some(v.id)
  {
    hide FirstMatch, LongestRewrite, AnyDelegate;
  }

  lemma {:induction false} XMLAnswers(g: Graph, st: State, e: Entry, pubID: Option<string>, sysID: Option<string>,
                                      uri: string, fin: State) returns (t: seq<Place>)
    requires Ready(g, st) && Known(g, e) && Final(pubID, sysID) && XMLResolve(g, st, e, pubID, sysID).0 == Uri(uri)
    requires Onward(g, XMLResolve(g, st, e, pubID, sysID).1, fin)
    ensures t != [] && Trail(g, fin, t) && t[0] == Place(e.id, pubID, sysID) && Says(g, fin, t[|t| - 1], uri)
    decreases Budget(st.depths), 0, 0
  {
    hide SameChildren, OnePreference, Budget, Final, Step, VerdictOn, Onward, TryDelegates, TryNext, Kept;
    EnterFalls(g, st, e.id);
    var in_ := CountedIn(st, e.id);
    var (_, spent, out) := SearchEntries(g, in_, e, pubID, sysID);
    SearchKeeps(g, st, e.id, out);
    if !spent {
      CountedOnward(g, out, e.id, fin);
    }
    KeptOnward(g, in_, out, fin);
    assert g.entries[e.id] == e;
    match VerdictOn(g, in_, e, pubID, sysID)
    case Answer(_) =>
      AnswerStays(g, in_, fin, e, pubID, sysID, uri);
      t := [Place(e.id, pubID, sysID)];
    case Delegate(kind, id) =>
      VerdictDelegates(g, in_, e, pubID, sysID);
      t := DelegatesAnswer(g, in_, e, e, pubID, sysID, kind, id, [], uri, fin);
    case Proceed =>
      t := NextAnswers(g, in_, e, e, pubID, sysID, uri, fin);
  }

  lemma AnswerStays(g: Graph, a: State, b: State, e: Entry, pubID: Option<string>, sysID: Option<string>, uri: string)
    requires Onward(g, a, b) && Known(g, e) && VerdictOn(g, a, e, pubID, sysID) == Answer(Uri(uri))
    ensures Says(g, b, Place(e.id, pubID, sysID), uri)
  {
    assert g.entries[e.id] == e;
    VerdictStays(g, a, b, e, pubID, sysID);
  }

  lemma {:induction false} NextAnswers(g: Graph, st: State, e: Entry, cur: Entry?, pubID: Option<string>, sysID: Option<string>,
                                       uri: string, fin: State) returns (t: seq<Place>)
    requires Ready(g, st) && Known(g, e) && KnownOrNull(g, cur) && (cur != null ==> InList(g, e, cur))
    requires Final(pubID, sysID) && (pubID.Some? || sysID.Some?) && TryNext(g, st, e, cur, pubID, sysID).0 == Uri(uri)
    requires Onward(g, TryNext(g, st, e, cur, pubID, sysID).2, fin)
    ensures t != [] && Trail(g, fin, t) && t[0] == Place(e.id, pubID, sysID) && Says(g, fin, t[|t| - 1], uri)
    decreases Budget(st.depths), 3, Length(cur)
  {
    hide SameChildren, OnePreference, Budget, Final, Onward, TryOne, Kept, InList, Trail, Says;
    NextInList(g, e, cur);
    NextIs(g, cur);
    if !st.broken[cur.id] && cur.kind == IsNext {
      var (ret, out) := TryOne(g, st, cur, pubID, sysID);
      if ret != NotFound {
        t := OneAnswers(g, st, cur, pubID, sysID, uri, fin);
        t := From(g, fin, Place(e.id, pubID, sysID), cur, t, uri);
      } else {
        KeptBudget(g, st, out);
        t := NextAnswers(g, out, e, cur.next, pubID, sysID, uri, fin);
      }
    } else {
      t := NextAnswers(g, st, e, cur.next, pubID, sysID, uri, fin);
    }
  }

  /** A trail that starts in a list entry `x` of place `c` leads to, begun in `c`. */
  lemma From(g: Graph, b: State, c: Place, x: Entry, t: seq<Place>, uri: string) returns (u: seq<Place>)
    requires Ready(g, b) && c.list < |g.entries| && Known(g, x) && InList(g, g.entries[c.list], x)
    requires t != [] && Trail(g, b, t) && Says(g, b, t[|t| - 1], uri) && HandsOn(x, c, t[0])
    requires Child(g, b, x) != null && ListLeads(g, b, Child(g, b, x), t[0].list)
    ensures u != [] && Trail(g, b, u) && u[0] == c && Says(g, b, u[|u| - 1], uri)
  {
    hide Says, ListLeads, InList, Child;
    TrailBefore(g, b, c, x, t);
    u := [c] + t;
    assert u[|u| - 1] == t[|t| - 1];
  }

  lemma {:induction false} DelegatesAnswer(g: Graph, st: State, e: Entry, cur: Entry?, pubID: Option<string>, sysID: Option<string>,
                                           kind: Kind, id: string, tried: seq<Option<string>>, uri: string, fin: State)
      returns (t: seq<Place>)
    requires Ready(g, st) && Known(g, e) && KnownOrNull(g, cur) && (cur != null ==> InList(g, e, cur))
    requires kind == IsDelegateSystem || kind == IsDelegatePublic
    requires Final(pubID, sysID) && (if kind == IsDelegateSystem then sysID else pubID) == Some(id)
    requires TryDelegates(g, st, cur, kind, id, tried).0 == Uri(uri)
    requires Onward(g, TryDelegates(g, st, cur, kind, id, tried).1, fin)
    ensures t != [] && Trail(g, fin, t) && t[0] == Place(e.id, pubID, sysID) && Says(g, fin, t[|t| - 1], uri)
    decreases Budget(st.depths), 3, Length(cur)
  {
    hide SameChildren, OnePreference, Budget, Final, Onward, TryOne, Kept, InList, Trail, Says;
    FinalParts(pubID, sysID);
    NextInList(g, e, cur);
    NextIs(g, cur);
    if !st.broken[cur.id] && Refers(cur.kind) && IsDelegate(cur, kind, id) && cur.url !in tried {
      var tried' := if |tried| < MAX_DELEGATE then tried + [cur.url] else tried;
      var (public, system) := Delegated(kind, id);
      var (ret, out) := TryOne(g, st, cur, public, system);
      if ret != NotFound {
        t := OneAnswers(g, st, cur, public, system, uri, fin);
        t := From(g, fin, Place(e.id, pubID, sysID), cur, t, uri);
      } else {
        KeptBudget(g, st, out);
        t := DelegatesAnswer(g, out, e, cur.next, pubID, sysID, kind, id, tried', uri, fin);
      }
    } else {
      t := DelegatesAnswer(g, st, e, cur.next, pubID, sysID, kind, id, tried, uri, fin);
    }
  }

  lemma FinalParts(pubID: Option<string>, sysID: Option<string>)
    requires Final(pubID, sysID)
    ensures Final(pubID, None) && Final(None, sysID)
  {
  }

  lemma {:induction false} OneAnswers(g: Graph, st: State, cur: Entry, pubID: Option<string>, sysID: Option<string>,
                                      uri: string, fin: State) returns (t: seq<Place>)
    requires MayFetch(g, st, cur) && Final(pubID, sysID) && (pubID.Some? || sysID.Some?)
    requires TryOne(g, st, cur, pubID, sysID).0 == Uri(uri) && Onward(g, TryOne(g, st, cur, pubID, sysID).1, fin)
    ensures Ready(g, fin)
    ensures t != [] && Trail(g, fin, t) && t[0].pubID == pubID && t[0].sysID == sysID && Says(g, fin, t[|t| - 1], uri)
    ensures Child(g, fin, cur) != null && ListLeads(g, fin, Child(g, fin, cur), t[0].list)
    decreases Budget(st.depths), 2, 1
  {
    hide SameChildren, OnePreference, Budget, Final, SearchAll, TryOne, Kept, Trail, Says, ListLeads;
    TryOneIs(g, st, cur, pubID, sysID);
    var f := Fetched(g, st, cur);
    var c := f.children[cur.id];
    KeptBudget(g, st, f);
    t := AllAnswers(g, f, c, pubID, sysID, uri, fin);
    KeptOnward(g, f, SearchAll(g, f, c, pubID, sysID).1, fin);
  }

  lemma {:induction false} AllAnswers(g: Graph, st: State, cur: Entry?, pubID: Option<string>, sysID: Option<string>,
                                      uri: string, fin: State) returns (t: seq<Place>)
    requires Ready(g, st) && KnownOrNull(g, cur) && Final(pubID, sysID) && SearchAll(g, st, cur, pubID, sysID).0 == Uri(uri)
    requires Onward(g, SearchAll(g, st, cur, pubID, sysID).1, fin)
    ensures t != [] && Trail(g, fin, t) && t[0].pubID == pubID && t[0].sysID == sysID && Says(g, fin, t[|t| - 1], uri)
    ensures ListLeads(g, fin, cur, t[0].list)
    decreases Budget(st.depths), 1, Length(cur)
  {
    hide SameChildren, OnePreference, Budget, SearchAll, XMLResolve, Fetched, Kept, WellFormed, Final, Onward, Trail, Says, ListLeads;
    OnwardReady(g, SearchAll(g, st, cur, pubID, sysID).1, fin);
    SearchAllNone(g, st, pubID, sysID);
    NextIs(g, cur);
    SearchAllFirst(g, st, cur, pubID, sysID);
    if !st.broken[cur.id] && cur.kind == IsCatalog {
      t := FetchedAnswers(g, st, cur, pubID, sysID, uri, fin);
    } else {
      t := AllAnswers(g, st, cur.next, pubID, sysID, uri, fin);
      FewerLead(g, fin, cur, t[0].list);
    }
  }

  lemma {:induction false} FetchedAnswers(g: Graph, st: State, cur: Entry, pubID: Option<string>, sysID: Option<string>,
                                          uri: string, fin: State) returns (t: seq<Place>)
    requires Ready(g, st) && Known(g, cur) && Final(pubID, sysID) && SearchAll(g, st, cur, pubID, sysID).0 == Uri(uri)
    requires Onward(g, SearchAll(g, st, cur, pubID, sysID).1, fin)
    requires !st.broken[cur.id] && cur.kind == IsCatalog
    ensures t != [] && Trail(g, fin, t) && t[0].pubID == pubID && t[0].sysID == sysID && Says(g, fin, t[|t| - 1], uri)
    ensures ListLeads(g, fin, cur, t[0].list)
    decreases Budget(st.depths), 1, Length(cur), 0
  {
    hide SameChildren, OnePreference, Budget, SearchAll, XMLResolve, Fetched, Kept, WellFormed, Final, Onward, Trail, Says, ListLeads;
    OnwardReady(g, SearchAll(g, st, cur, pubID, sysID).1, fin);
    NextIs(g, cur);
    SearchAllFirst(g, st, cur, pubID, sysID);
    var f := Fetched(g, st, cur);
    var c := f.children[cur.id];
    KeptBudget(g, st, f);
    if c != null {
      var (ret, out) := XMLResolve(g, f, c, pubID, sysID);
      if ret != NotFound {
        t := XMLAnswers(g, f, c, pubID, sysID, uri, fin);
        FetchedLeads(g, f, out, fin, cur, c);
      } else {
        KeptBudget(g, f, out);
        t := AllAnswers(g, out, cur.next, pubID, sysID, uri, fin);
        FewerLead(g, fin, cur, t[0].list);
      }
    } else {
      t := AllAnswers(g, f, cur.next, pubID, sysID, uri, fin);
      FewerLead(g, fin, cur, t[0].list);
    }
  }

  lemma FetchedLeads(g: Graph, f: State, out: State, fin: State, cur: Entry, c: Entry)
    requires Ready(g, f) && Ready(g, out) && Kept(g, f, out) && Onward(g, out, fin)
    requires Known(g, cur) && cur.kind == IsCatalog && f.children[cur.id] == c
    ensures ListLeads(g, fin, cur, c.id)
  {
    KeptOnward(g, f, out, fin);
    FirstLeads(g, fin, cur);
    hide OnePreference, SameChildren;
  }

  // ---------------------------------------------------------------- finding nothing, with all counts taken back

  /** Entries that answer have a URI to answer with. */
  ghost predicate Addressed(g: Graph) {
    forall i :: 0 <= i < |g.entries| && AnswersBy(g.entries[i].kind) ==> g.entries[i].url.Some?
  }

  predicate AnswersBy(kind: Kind) {
    kind == IsSystem || kind == IsPublic || kind == IsRewrite
  }

  lemma MatchAnswers(g: Graph, e: Entry, kind: Kind, id: string)
    requires WellFormed(g) && Known(g, e) && Addressed(g) && (kind == IsSystem || kind == IsPublic)
    ensures var found := FirstMatch(g, e, kind, id); found != null ==> UriOf(found.url) != NotFound
  {
    FirstMatchIs(g, e, kind, id);
    var found := FirstMatch(g, e, kind, id);
    if found != null {
      InListKnown(g, e, found);
      assert g.entries[found.id] == found;
    }
  }

  lemma RewriteAnswers(g: Graph, e: Entry, id: string)
    requires WellFormed(g) && Known(g, e) && Addressed(g)
    ensures var rule := LongestRewrite(g, e, id, null); rule != null ==> RewrittenUri(rule, id) != NotFound
  {
    LongestIsLongest(g, e, id, null);
    var rule := LongestRewrite(g, e, id, null);
    if rule != null {
      InListKnown(g, e, rule);
      assert g.entries[rule.id] == rule;
    }
  }

  lemma VerdictAnswers(g: Graph, st: State, e: Entry, pubID: Option<string>, sysID: Option<string>)
    requires Ready(g, st) && Known(g, e) && Addressed(g)
    ensures VerdictOn(g, st, e, pubID, sysID) != Answer(NotFound)
  {
    hide FirstMatch, LongestRewrite, AnyDelegate, Addressed, RewrittenUri, UriOf;
    if sysID.Some? {
      MatchAnswers(g, e, IsSystem, sysID.value);
      RewriteAnswers(g, e, sysID.value);
    }
    if pubID.Some? {
      MatchAnswers(g, e, IsPublic, pubID.value);
    }
  }

  /** How often a walk comes to a list. */
  function Visits(w: seq<nat>, i: nat): nat {
    if w == [] then 0 else (if w[0] == i then 1 else 0) + Visits(w[1..], i)
  }

  /** No list is counted in beyond the limit by a walk that goes on from it. */
  ghost predicate Room(depths: seq<nat>, w: seq<nat>) {
    forall k :: 0 <= k < |w| - 1 ==> w[k] < |depths| && depths[w[k]] + Visits(w[..k + 1], w[k]) <= MAX_CATAL_DEPTH
  }

  lemma RoomBefore(depths: seq<nat>, w: seq<nat>)
    requires |w| > 1 && w[0] < |depths| && depths[w[0]] < MAX_CATAL_DEPTH
    requires Room(depths[w[0] := depths[w[0]] + 1], w[1..])
    ensures Room(depths, w)
  {
    var d := depths[w[0] := depths[w[0]] + 1];
    forall k | 0 <= k < |w| - 1
      ensures w[k] < |depths| && depths[w[k]] + Visits(w[..k + 1], w[k]) <= MAX_CATAL_DEPTH
    {
      assert w[..k + 1][1..] == w[1..][..k];
      if k > 0 {
        assert w[1..][k - 1] == w[k] && w[1..][..k] == w[1..][..(k - 1) + 1];
        assert d[w[k]] + Visits(w[1..][..k], w[k]) <= MAX_CATAL_DEPTH;
      } else {
        assert Visits(w[..1][1..], w[0]) == 0;
      }
    }
  }

  /** Every list may still be searched. */
  ghost predicate NoneOver(depths: seq<nat>) {
    forall i :: 0 <= i < |depths| ==> depths[i] <= MAX_CATAL_DEPTH
  }

  lemma SameDepths(g: Graph, a: State, b: State, c: State)
    requires Ready(g, a) && Ready(g, b) && Ready(g, c) && Kept(g, a, b) && Kept(g, b, c) && c.depths == a.depths
    ensures b.depths == a.depths
  {
    hide SameChildren, OnePreference;
    assert forall i :: 0 <= i < |a.depths| ==> a.depths[i] <= b.depths[i] <= c.depths[i];
  }

  /** What a search that finds nothing and restores all depths has done: it has been to the end of
      every walk from its list, and there is room for the counting on it. */
  lemma {:induction false} XMLComplete(g: Graph, b: State, st: State, e: Entry, pubID: Option<string>, sysID: Option<string>,
                                       fin: State, w: seq<nat>)
    requires Since(g, b, st) && Known(g, e) && NoneOver(st.depths) && Addressed(g)
    requires Final(pubID, sysID) && (pubID.Some? || sysID.Some?)
    requires XMLResolve(g, st, e, pubID, sysID).0 == NotFound && XMLResolve(g, st, e, pubID, sysID).1.depths == st.depths
    requires Onward(g, XMLResolve(g, st, e, pubID, sysID).1, fin)
    requires w != [] && Walk(g, b, false, w) && w[0] == e.id
    ensures Proceeds(g, fin, w, pubID, sysID) && Room(st.depths, w)
    decreases Budget(st.depths), 0, 0
  {
    hide SameChildren, OnePreference, Budget, Final, Onward, TryNext, XMLResolve, Addressed, Walk, Room, Proceeds, NoneOver;
    hide Ready, OthersUnder;
    PassesOn(g, b, st, e, pubID, sysID, fin);
    if |w| > 1 {
      FurtherComplete(g, b, st.depths, CountedIn(st, e.id), e, pubID, sysID, fin, w);
    } else {
      assert w == [e.id];
      ShortRoom(st.depths, w);
    }
  }

  /** The same, once the list is counted in, for a walk that goes on from it. */
  lemma {:induction false} FurtherComplete(g: Graph, b: State, depths: seq<nat>, st: State, e: Entry,
                                           pubID: Option<string>, sysID: Option<string>, fin: State, w: seq<nat>)
    requires Since(g, b, st) && Known(g, e) && Addressed(g) && OthersUnder(st.depths, e.id)
    requires e.id < |depths| && st.depths == depths[e.id := depths[e.id] + 1]
    requires Final(pubID, sysID) && (pubID.Some? || sysID.Some?)
    requires var r := TryNext(g, st, e, e, pubID, sysID);
      r.0 == NotFound && !r.1 && r.2.depths == st.depths && Onward(g, r.2, fin)
    requires w != [] && Walk(g, b, false, w) && |w| > 1 && w[0] == e.id
    ensures Proceeds(g, fin, w, pubID, sysID) && Room(depths, w)
    decreases Budget(st.depths), 4, 0
  {
    hide SameChildren, OnePreference, Budget, Final, TryNext, Addressed, Walk, Room, Proceeds, OthersUnder;
    hide InList, Child, ListLeads;
    var x := WalkFirst(g, b, e, w);
    NextComplete(g, b, st, e, e, x, pubID, sysID, fin, w[1..]);
    WithFirst(g, depths, fin, w, pubID, sysID);
  }

  /** Such a search only counted its list in, searched the next catalogs and counted it out. */
  lemma PassesOn(g: Graph, b: State, st: State, e: Entry, pubID: Option<string>, sysID: Option<string>, fin: State)
    requires Since(g, b, st) && Known(g, e) && NoneOver(st.depths) && Addressed(g)
    requires pubID.Some? || sysID.Some?
    requires XMLResolve(g, st, e, pubID, sysID).0 == NotFound && XMLResolve(g, st, e, pubID, sysID).1.depths == st.depths
    requires Onward(g, XMLResolve(g, st, e, pubID, sysID).1, fin)
    ensures e.id < |st.depths| && Ready(g, fin)
    ensures var in_ := CountedIn(st, e.id);
      && Since(g, b, in_) && OthersUnder(in_.depths, e.id) && Budget(in_.depths) < Budget(st.depths)
      && in_.depths == st.depths[e.id := st.depths[e.id] + 1]
      && var r := TryNext(g, in_, e, e, pubID, sysID);
        && r.0 == NotFound && !r.1 && r.2.depths == in_.depths && Onward(g, r.2, fin)
    ensures Proceeds(g, fin, [e.id], pubID, sysID)
  {
    hide SameChildren, OnePreference, Budget, VerdictOn, Onward, TryNext, XMLResolve, Kept, Addressed, Proceeds;
    hide InList, Child, ListLeads, WellFormed;
    var in_ := CountedIn(st, e.id);
    OthersUnderEntered(st.depths, e.id);
    EnterFalls(g, st, e.id);
    SinceEntered(g, b, st, e.id);
    PassedOver(g, st, e, pubID, sysID);
    var out := TryNext(g, in_, e, e, pubID, sysID).2;
    CountedOnward(g, out, e.id, fin);
    KeptOnward(g, in_, out, fin);
    ProceedStays(g, in_, fin, e, [e.id], pubID, sysID);
  }

  /** A search that finds nothing and restores all depths was one of the catalogs that come next. */
  lemma PassedOver(g: Graph, st: State, e: Entry, pubID: Option<string>, sysID: Option<string>)
    requires Ready(g, st) && Known(g, e) && st.depths[e.id] <= MAX_CATAL_DEPTH && Addressed(g)
    requires pubID.Some? || sysID.Some?
    requires XMLResolve(g, st, e, pubID, sysID).0 == NotFound && XMLResolve(g, st, e, pubID, sysID).1.depths == st.depths
    ensures var in_ := CountedIn(st, e.id);
      && Ready(g, in_) && VerdictOn(g, in_, e, pubID, sysID) == Proceed
      && var r := TryNext(g, in_, e, e, pubID, sysID);
        && r.0 == NotFound && !r.1 && r.2.depths == in_.depths
        && XMLResolve(g, st, e, pubID, sysID).1 == CountedOut(r.2, e.id) && Ready(g, CountedOut(r.2, e.id))
  {
    hide SameChildren, OnePreference, Budget, VerdictOn, TryDelegates, TryNext, Kept, Addressed;
    EnterFalls(g, st, e.id);
    var in_ := CountedIn(st, e.id);
    var (_, spent, out) := SearchEntries(g, in_, e, pubID, sysID);
    SearchKeeps(g, st, e.id, out);
    NotSpent(g, st, e.id, out, spent);
    VerdictAnswers(g, in_, e, pubID, sysID);
  }

  lemma ShortRoom(depths: seq<nat>, w: seq<nat>)
    requires |w| <= 1
    ensures Room(depths, w)
  {
  }

  lemma WithFirst(g: Graph, depths: seq<nat>, fin: State, w: seq<nat>, pubID: Option<string>, sysID: Option<string>)
    requires Ready(g, fin) && |w| > 1 && w[0] < |depths| && depths[w[0]] < MAX_CATAL_DEPTH
    requires Proceeds(g, fin, w[1..], pubID, sysID) && Room(depths[w[0] := depths[w[0]] + 1], w[1..])
    ensures Proceeds(g, fin, w, pubID, sysID) && Room(depths, w)
  {
    assert w[1..][|w| - 2] == w[|w| - 1];
    RoomBefore(depths, w);
  }

  lemma ProceedStays(g: Graph, a: State, b: State, e: Entry, w: seq<nat>, pubID: Option<string>, sysID: Option<string>)
    requires Onward(g, a, b) && Known(g, e) && VerdictOn(g, a, e, pubID, sysID) == Proceed
    ensures w == [e.id] ==> Proceeds(g, b, w, pubID, sysID)
  {
    assert g.entries[e.id] == e;
    VerdictStays(g, a, b, e, pubID, sysID);
  }

  lemma NotSpent(g: Graph, st: State, i: nat, out: State, spent: bool)
    requires Ready(g, st) && i < |st.depths| && Ready(g, CountedIn(st, i)) && Ready(g, out)
    requires Kept(g, CountedIn(st, i), out) && out.depths[i] > 0
    requires (if spent then out else CountedOut(out, i)).depths == st.depths
    ensures !spent && out.depths == CountedIn(st, i).depths
  {
    hide SameChildren, OnePreference;
    assert CountedIn(st, i).depths[i] <= out.depths[i];
    if !spent {
      assert CountedOut(out, i).depths[i] == st.depths[i];
      forall j | 0 <= j < |out.depths| ensures out.depths[j] == CountedIn(st, i).depths[j] {
        assert CountedOut(out, i).depths[j] == st.depths[j];
      }
    }
  }

  lemma WalkFirst(g: Graph, b: State, e: Entry, w: seq<nat>) returns (x: Entry)
    requires Ready(g, b) && Known(g, e) && Walk(g, b, false, w) && |w| > 1 && w[0] == e.id
    ensures Known(g, x) && InList(g, e, x) && x.kind == IsNext && Child(g, b, x) != null
    ensures ListLeads(g, b, Child(g, b, x), w[1]) && Walk(g, b, false, w[1..])
  {
    assert Link(g, b, false, w[0], w[1]);
    var i :| 0 <= i < |g.entries| && Follows(g.entries[i].kind, false) && EntryLeads(g, b, w[0], g.entries[i], w[1]);
    x := g.entries[i];
    hide EntryLeads, Link;
    forall k | 0 <= k < |w[1..]| - 1 ensures Link(g, b, false, w[1..][k], w[1..][k + 1]) {
      assert Link(g, b, false, w[k + 1], w[k + 2]);
    }
  }

  /** Every list but this one may still be searched. */
  ghost predicate OthersUnder(depths: seq<nat>, i: nat) {
    forall j :: 0 <= j < |depths| && j != i ==> depths[j] <= MAX_CATAL_DEPTH
  }

  lemma OthersUnderEntered(depths: seq<nat>, i: nat)
    requires i < |depths| && NoneOver(depths)
    ensures depths[i] <= MAX_CATAL_DEPTH && OthersUnder(depths[i := depths[i] + 1], i)
  {
  }

  lemma {:induction false} NextComplete(g: Graph, b: State, st: State, e: Entry, cur: Entry, x: Entry,
                                        pubID: Option<string>, sysID: Option<string>, fin: State, w: seq<nat>)
    requires Since(g, b, st) && Known(g, e) && Known(g, cur) && Known(g, x) && Addressed(g)
    requires OthersUnder(st.depths, e.id)
    requires Final(pubID, sysID) && (pubID.Some? || sysID.Some?)
    requires var r := TryNext(g, st, e, cur, pubID, sysID);
      r.0 == NotFound && !r.1 && r.2.depths == st.depths && Onward(g, r.2, fin)
    requires InList(g, cur, x) && x.kind == IsNext && Child(g, b, x) != null
    requires w != [] && Walk(g, b, false, w) && ListLeads(g, b, Child(g, b, x), w[0])
    ensures st.depths[e.id] <= MAX_CATAL_DEPTH && Proceeds(g, fin, w, pubID, sysID) && Room(st.depths, w)
    decreases Budget(st.depths), 3, Length(cur)
  {
    hide SameChildren, OnePreference, Budget, Final, Onward, TryOne, TryNext, Kept, Walk, Proceeds, Room, Addressed, ListLeads;
    NextIs(g, cur);
    TryNextFirst(g, st, e, cur, pubID, sysID);
    SinceChild(g, b, st, x);
    if !st.broken[cur.id] && cur.kind == IsNext {
      var (_, out) := TryOne(g, st, cur, pubID, sysID);
      var rest := TryNext(g, out, e, cur.next, pubID, sysID).2;
      SameDepths(g, st, out, rest);
      SinceKept(g, b, st, out);
      KeptBudget(g, st, out);
      if cur == x {
        KeptOnward(g, out, rest, fin);
        OneFetches(g, st, cur, pubID, sysID);
        OneComplete(g, b, st, cur, pubID, sysID, fin, w);
      } else {
        NextComplete(g, b, out, e, cur.next, x, pubID, sysID, fin, w);
      }
    } else {
      NextComplete(g, b, st, e, cur.next, x, pubID, sysID, fin, w);
    }
  }

  lemma OneFetches(g: Graph, st: State, cur: Entry, pubID: Option<string>, sysID: Option<string>)
    requires MayFetch(g, st, cur) && Final(pubID, sysID) && (pubID.Some? || sysID.Some?) && Child(g, st, cur) != null
    ensures TryOne(g, st, cur, pubID, sysID).1.children[cur.id] != null
  {
    hide Final, TryOne, Fetched, SearchAll, Kept, Child;
    TryOneIs(g, st, cur, pubID, sysID);
    var f := Fetched(g, st, cur);
    StillTheSame(g, f, SearchAll(g, f, f.children[cur.id], pubID, sysID).1, cur);
  }

  lemma {:induction false} OneComplete(g: Graph, b: State, st: State, cur: Entry, pubID: Option<string>, sysID: Option<string>,
                                       fin: State, w: seq<nat>)
    requires Since(g, b, st) && MayFetch(g, st, cur) && NoneOver(st.depths) && Addressed(g)
    requires Final(pubID, sysID) && (pubID.Some? || sysID.Some?)
    requires var r := TryOne(g, st, cur, pubID, sysID);
      r.0 == NotFound && r.1.depths == st.depths && Onward(g, r.1, fin)
    requires Child(g, st, cur) != null && Child(g, st, cur) == Child(g, b, cur)
    requires w != [] && Walk(g, b, false, w) && ListLeads(g, b, Child(g, b, cur), w[0])
    ensures Proceeds(g, fin, w, pubID, sysID) && Room(st.depths, w)
    decreases Budget(st.depths), 2, 1
  {
    hide SameChildren, OnePreference, Budget, Final, Onward, TryOne, SearchAll, Kept, Walk, Proceeds, Room, Addressed, ListLeads;
    TryOneIs(g, st, cur, pubID, sysID);
    var f := Fetched(g, st, cur);
    KeptBudget(g, st, f);
    SinceKept(g, b, st, f);
    var i := WhichLeads(g, b, f.children[cur.id], w[0]);
    AllComplete(g, b, f, f.children[cur.id], g.entries[i], pubID, sysID, fin, w);
  }

  lemma WhichLeads(g: Graph, b: State, c: Entry?, e: nat) returns (i: nat)
    requires Ready(g, b) && KnownOrNull(g, c) && ListLeads(g, b, c, e)
    ensures i < |g.entries| && CatalogLeads(g, b, c, g.entries[i], e)
  {
    i :| 0 <= i < |g.entries| && CatalogLeads(g, b, c, g.entries[i], e);
  }

  lemma {:induction false} AllComplete(g: Graph, b: State, st: State, cur: Entry, y: Entry,
                                       pubID: Option<string>, sysID: Option<string>, fin: State, w: seq<nat>)
    requires Since(g, b, st) && Known(g, cur) && Known(g, y) && Addressed(g) && NoneOver(st.depths)
    requires Final(pubID, sysID) && (pubID.Some? || sysID.Some?)
    requires var r := SearchAll(g, st, cur, pubID, sysID);
      r.0 == NotFound && r.1.depths == st.depths && Onward(g, r.1, fin)
    requires InList(g, cur, y) && y.kind == IsCatalog && Child(g, b, y) != null
    requires w != [] && Walk(g, b, false, w) && w[0] == Child(g, b, y).id
    ensures Proceeds(g, fin, w, pubID, sysID) && Room(st.depths, w)
    decreases Budget(st.depths), 1, Length(cur)
  {
    hide SameChildren, OnePreference, Budget, SearchAll, XMLResolve, Fetched, Kept, Final, Onward, Walk, Proceeds, Room, Addressed;
    NextIs(g, cur);
    SearchAllFirst(g, st, cur, pubID, sysID);
    SinceChild(g, b, st, y);
    if !st.broken[cur.id] && cur.kind == IsCatalog {
      var f := Fetched(g, st, cur);
      var c := f.children[cur.id];
      KeptBudget(g, st, f);
      SinceKept(g, b, st, f);
      if c != null {
        var (ret, out) := XMLResolve(g, f, c, pubID, sysID);
        var rest := if out.depths[c.id] > MAX_CATAL_DEPTH then out else SearchAll(g, out, cur.next, pubID, sysID).1;
        KeptNothing(g, out);
        SameDepths(g, f, out, rest);
        SinceKept(g, b, f, out);
        KeptBudget(g, f, out);
        if cur == y {
          KeptOnward(g, out, rest, fin);
          XMLComplete(g, b, f, c, pubID, sysID, fin, w);
        } else {
          AllComplete(g, b, out, cur.next, y, pubID, sysID, fin, w);
        }
      } else {
        AllComplete(g, b, f, cur.next, y, pubID, sysID, fin, w);
      }
    } else {
      AllComplete(g, b, st, cur.next, y, pubID, sysID, fin, w);
    }
  }
}
