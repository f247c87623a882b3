/** Main results about resolution: what an answer rests on, that nothing is missed, and when exactly
    the depths of the lists come back. */
module CatalogResults {
  import opened Options
  import opened CatalogIds
  import opened CatalogSearch
  import opened CatalogWalks
  import opened CatalogOutcomes
  import opened CatalogSays

  // ---------------------------------------------------------------- a way back uses the room up

  /** A walk round, `n` times. */
  function Times(c: seq<nat>, n: nat): seq<nat> {
    if n == 0 then [] else c + Times(c, n - 1)
  }

  lemma {:induction false} VisitsAppend(u: seq<nat>, v: seq<nat>, i: nat)
    ensures Visits(u + v, i) == Visits(u, i) + Visits(v, i)
  {
    if u == [] {
      assert u + v == v;
    } else {
      assert (u + v)[1..] == u[1..] + v;
      VisitsAppend(u[1..], v, i);
    }
  }

  lemma {:induction false} VisitsTimes(c: seq<nat>, n: nat)
    requires c != []
    ensures Visits(Times(c, n), c[0]) >= n
  {
    if n > 0 {
      VisitsTimes(c, n - 1);
      VisitsAppend(c, Times(c, n - 1), c[0]);
    }
  }

  lemma WalkJoin(g: Graph, b: State, all: bool, u: seq<nat>, v: seq<nat>)
    requires Ready(g, b) && Walk(g, b, all, u) && Walk(g, b, all, v) && Link(g, b, all, u[|u| - 1], v[0])
    ensures Walk(g, b, all, u + v)
  {
    hide Link;
  }

  lemma {:induction false} WalkTimes(g: Graph, b: State, all: bool, c: seq<nat>, n: nat)
    requires Ready(g, b) && Walk(g, b, all, c) && Link(g, b, all, c[|c| - 1], c[0]) && n > 0
    ensures Walk(g, b, all, Times(c, n)) && Times(c, n)[0] == c[0] && Times(c, n)[|Times(c, n)| - 1] == c[|c| - 1]
  {
    assert c != [];
    hide Link, Walk;
    if n == 1 {
      assert Times(c, 1) == c + Times(c, 0) == c;
    } else {
      WalkTimes(g, b, all, c, n - 1);
      WalkJoin(g, b, all, c, Times(c, n - 1));
    }
  }

  lemma WalkPart(g: Graph, b: State, w: seq<nat>, i: nat, j: nat)
    requires Ready(g, b) && Walk(g, b, false, w) && i < j <= |w|
    ensures Walk(g, b, false, w[i..j]) && (j < |w| ==> Link(g, b, false, w[i..j][j - i - 1], w[j]))
  {
    hide Link;
    forall k | 0 <= k < |w[i..j]| - 1 ensures Link(g, b, false, w[i..j][k], w[i..j][k + 1]) {
      assert Link(g, b, false, w[i + k], w[i + k + 1]);
    }
  }

  lemma {:induction false} TimesSnoc(c: seq<nat>, n: nat)
    ensures Times(c, n + 1) == Times(c, n) + c
  {
    if n == 0 {
      assert Times(c, 1) == c + [] && Times(c, 0) == [];
    } else {
      TimesSnoc(c, n - 1);
      assert c + (Times(c, n - 1) + c) == (c + Times(c, n - 1)) + c;
    }
  }

  lemma ManyVisits(a: seq<nat>, c: seq<nat>, n: nat)
    requires c != []
    ensures Visits(a + Times(c, n) + [c[0]], c[0]) > n
  {
    assert Visits([c[0]], c[0]) == 1 + Visits([c[0]][1..], c[0]);
    VisitsTimes(c, n);
    hide Times, Visits;
    VisitsAppend(a + Times(c, n), [c[0]], c[0]);
    VisitsAppend(a, Times(c, n), c[0]);
  }

  /** More turns than there is room for. */
  lemma TurnsLeaveNoRoom(depths: seq<nat>, a: seq<nat>, c: seq<nat>, n: nat)
    requires c != [] && n >= MAX_CATAL_DEPTH
    ensures !Room(depths, a + Times(c, n + 2))
  {
    TimesSnoc(c, n);
    TimesSnoc(c, n + 1);
    ManyVisits(a, c, n);
    hide Times, Visits;
    NoRoomThere(depths, a + Times(c, n), c);
    assert a + Times(c, n + 2) == a + Times(c, n) + (c + c);
  }

  lemma NoRoomThere(depths: seq<nat>, a: seq<nat>, c: seq<nat>)
    requires c != [] && Visits(a + [c[0]], c[0]) > MAX_CATAL_DEPTH
    ensures !Room(depths, a + (c + c))
  {
    hide Visits;
    var k, v := |a|, a + (c + c);
    assert v[..k + 1] == a + [c[0]] && v[k] == c[0] && k < |v| - 1;
  }

  /** A walk that comes to a list twice can be taken round until there is no room for the counting. */
  lemma WayBackTaken(g: Graph, b: State, depths: seq<nat>, w: seq<nat>, i: nat, j: nat, turns: nat) returns (v: seq<nat>)
    requires Ready(g, b) && Walk(g, b, false, w) && i < j < |w| && w[i] == w[j] && turns == MAX_CATAL_DEPTH + 2
    ensures Walk(g, b, false, v) && v[0] == w[0] && !Room(depths, v)
  {
    hide Times, Link, Room;
    var c := w[i..j];
    WalkPart(g, b, w, i, j);
    WalkTimes(g, b, false, c, turns);
    TurnsLeaveNoRoom(depths, w[..i], c, turns - 2);
    v := w[..i] + Times(c, turns);
    if i == 0 {
      assert v == Times(c, turns);
    } else {
      WalkPart(g, b, w, 0, i);
      assert w[0..i] == w[..i];
      WalkJoin(g, b, false, w[..i], Times(c, turns));
    }
  }

  // ---------------------------------------------------------------- the depths

  /** No walk from a catalog of the list comes to a list twice. */
  ghost predicate NoWayBack(g: Graph, b: State, all: bool, first: Entry?)
    requires Ready(g, b) && KnownOrNull(g, first)
  {
    forall w :: Walk(g, b, all, w) && ListLeads(g, b, first, w[0]) ==> Distinct(w)
  }

  /** Every depth is one that a search can begin with. */
  ghost predicate AllBelow(depths: seq<nat>) {
    forall i :: 0 <= i < |depths| ==> depths[i] < MAX_CATAL_DEPTH
  }

  lemma OpensAtFirst(g: Graph, b: State, all: bool, first: Entry?)
    requires Ready(g, b) && KnownOrNull(g, first) && NoWayBack(g, b, all, first)
    ensures Opens(g, b, all, [], first)
  {
    hide Link, ListLeads, Distinct;
    forall e | ListLeads(g, b, first, e)
      ensures OnceOnly(g, b, all, [] + [e])
    {
      ListLeadsKnown(g, b, first, e);
      assert [] + [e] == [e];
      assert Walk(g, b, all, [e]);
      forall w | Walk(g, b, all, w) && [e] <= w ensures Distinct(w) {
        assert w[0] == [e][0];
      }
    }
  }

  /** Where no catalog leads back to a list, by next catalogs or delegates, every resolution restores
      all depths, whatever it finds. */
  lemma NoWayBackRestores(g: Graph, st: State, first: Entry?, pubID: Option<string>, sysID: Option<string>)
    requires Ready(g, st) && OnePreference(g) && KnownOrNull(g, first)
    requires AllBelow(st.depths) && NoWayBack(g, st, true, first)
    ensures ListXMLResolve(g, st, first, pubID, sysID).1.depths == st.depths
  {
    hide SearchAll, Target, NoWayBack;
    OpensAtFirst(g, st, true, first);
    if first != null && (pubID.Some? || sysID.Some?) {
      var (public, system) := Target(pubID, sysID);
      AllRestore(g, st, st, first, public, system, true, []);
    }
  }

  /** A resolution that restores all depths without having found anything has missed nothing: no list
      that the catalogs lead to has an entry for the identifiers. */
  lemma NothingMissed(g: Graph, st: State, first: Entry, pubID: Option<string>, sysID: Option<string>)
    requires Ready(g, st) && OnePreference(g) && Addressed(g) && Known(g, first) && NoneOver(st.depths)
    requires pubID.Some? || sysID.Some?
    requires Target(pubID, sysID).0.Some? || Target(pubID, sysID).1.Some?
    requires ListXMLResolve(g, st, first, pubID, sysID).0 == NotFound
    requires ListXMLResolve(g, st, first, pubID, sysID).1.depths == st.depths
    ensures var (p, s) := Target(pubID, sysID); var out := ListXMLResolve(g, st, first, pubID, sysID).1;
      && QuietAll(g, out, first, p, s)
      && forall w :: Walk(g, out, false, w) && ListLeads(g, out, first, w[0]) ==>
           w[|w| - 1] < |g.entries| && Silent(g, out, g.entries[w[|w| - 1]], p, s)
  {
    TargetIsFinal(pubID, sysID);
    var (p, s) := Target(pubID, sysID);
    var fin := SearchAll(g, st, first, p, s).1;
    hide SearchAll, Target, Final, OnePreference, Addressed, ListLeads, Walk, Proceeds, Link;
    SameChildrenBack(g, st, fin);
    forall e, w | ListLeads(g, fin, first, e) && Walk(g, fin, false, w) && w[0] == e
      ensures Proceeds(g, fin, w, p, s)
    {
      var i := WhichLeads(g, fin, first, e);
      AllComplete(g, fin, st, first, g.entries[i], p, s, fin, w);
    }
    QuietIsSilent(g, fin, first, p, s);
  }

  /** Nothing is said about the identifiers by any list that these catalogs lead to. */
  lemma QuietIsSilent(g: Graph, b: State, first: Entry, pubID: Option<string>, sysID: Option<string>)
    requires Ready(g, b) && Known(g, first)
    ensures QuietAll(g, b, first, pubID, sysID)
       <==> forall w :: Walk(g, b, false, w) && ListLeads(g, b, first, w[0]) ==>
              w[|w| - 1] < |g.entries| && Silent(g, b, g.entries[w[|w| - 1]], pubID, sysID)
  {
    hide ListLeads, Link, VerdictOn, Silent;
    forall w | Walk(g, b, false, w) && ListLeads(g, b, first, w[0])
      ensures Proceeds(g, b, w, pubID, sysID)
         <==> w[|w| - 1] < |g.entries| && Silent(g, b, g.entries[w[|w| - 1]], pubID, sysID)
    {
      if w[|w| - 1] < |g.entries| {
        VerdictIff(g, b, g.entries[w[|w| - 1]], pubID, sysID);
      }
    }
  }

  lemma SameChildrenBack(g: Graph, st: State, fin: State)
    requires Ready(g, st) && Ready(g, fin) && OnePreference(g) && Kept(g, st, fin)
    ensures Since(g, fin, st) && Onward(g, fin, fin)
  {
  }

  /** Where no entry of any list matches, nothing is found; and then all depths come back exactly when
      no walk along next catalogs comes to a list twice. */
  lemma DepthsRestoredIff(g: Graph, st: State, first: Entry, pubID: Option<string>, sysID: Option<string>)
    requires Ready(g, st) && OnePreference(g) && Addressed(g) && Known(g, first) && AllBelow(st.depths)
    requires pubID.Some? || sysID.Some?
    requires var (p, s) := Target(pubID, sysID); (p.Some? || s.Some?) && QuietAll(g, st, first, p, s)
    ensures ListXMLResolve(g, st, first, pubID, sysID).0 == NotFound
    ensures ListXMLResolve(g, st, first, pubID, sysID).1.depths == st.depths <==> NoWayBack(g, st, false, first)
  {
    TargetIsFinal(pubID, sysID);
    var (p, s) := Target(pubID, sysID);
    hide SearchAll, Target, Final, NoWayBack, QuietAll, Opens, Addressed;
    AllFindNothing(g, st, st, first, p, s);
    var out := SearchAll(g, st, first, p, s).1;
    if NoWayBack(g, st, false, first) {
      OpensAtFirst(g, st, false, first);
      AllRestore(g, st, st, first, p, s, false, []);
    } else if out.depths == st.depths {
      var w, i, j := WayBack(g, st, first);
      var v := WayBackTaken(g, st, st.depths, w, i, j, MAX_CATAL_DEPTH + 2);
      var k := WhichLeads(g, st, first, w[0]);
      OnwardSelf(g, out);
      AllComplete(g, st, st, first, g.entries[k], p, s, out, v);
    }
  }

  lemma OnwardSelf(g: Graph, st: State)
    requires Ready(g, st)
    ensures Onward(g, st, st)
  {
  }

  lemma WayBack(g: Graph, b: State, first: Entry) returns (w: seq<nat>, i: nat, j: nat)
    requires Ready(g, b) && Known(g, first) && !NoWayBack(g, b, false, first)
    ensures Walk(g, b, false, w) && ListLeads(g, b, first, w[0]) && i < j < |w| && w[i] == w[j]
  {
    w :| Walk(g, b, false, w) && ListLeads(g, b, first, w[0]) && !Distinct(w);
    i, j :| 0 <= i < j < |w| && w[i] == w[j];
  }

  // ---------------------------------------------------------------- answers

  /** A URI is what the entries of some list say about identifiers that this list is searched for:
      those asked for in their final form, handed on from list to list. */
  lemma AnswerIsSaid(g: Graph, st: State, first: Entry?, pubID: Option<string>, sysID: Option<string>, uri: string)
      returns (t: seq<Place>)
    requires Ready(g, st) && KnownOrNull(g, first) && ListXMLResolve(g, st, first, pubID, sysID).0 == Uri(uri)
    ensures var out := ListXMLResolve(g, st, first, pubID, sysID).1;
      && Trail(g, out, t) && ListLeads(g, out, first, t[0].list)
      && (t[0].pubID, t[0].sysID) == Target(pubID, sysID)
      && var last := t[|t| - 1]; SaysUri(g, out, g.entries[last.list], last.pubID, last.sysID, uri)
  {
    TargetIsFinal(pubID, sysID);
    var (p, s) := Target(pubID, sysID);
    hide SearchAll, Target, Final, Trail, Says, ListLeads;
    OnwardSelf(g, SearchAll(g, st, first, p, s).1);
    var out := SearchAll(g, st, first, p, s).1;
    t := AllAnswers(g, st, first, p, s, uri, out);
    SaidByEntries(g, out, t[|t| - 1], uri);
  }

  lemma SaidByEntries(g: Graph, st: State, p: Place, uri: string)
    requires Ready(g, st) && Says(g, st, p, uri)
    ensures p.list < |g.entries| && SaysUri(g, st, g.entries[p.list], p.pubID, p.sysID, uri)
  {
    hide VerdictOn, SaysUri;
    VerdictIff(g, st, g.entries[p.list], p.pubID, p.sysID);
  }

  /** An identifier that a list delegates is looked for nowhere else: without an answer of a delegate the search
      of all catalogs is cut off. */
  lemma DelegationDecides(g: Graph, st: State, e: Entry, pubID: Option<string>, sysID: Option<string>, kind: Kind, id: string)
    requires Ready(g, st) && Known(g, e) && st.depths[e.id] <= MAX_CATAL_DEPTH
    requires Ready(g, CountedIn(st, e.id)) && VerdictOn(g, CountedIn(st, e.id), e, pubID, sysID) == Delegate(kind, id)
    ensures var ret := TryDelegates(g, CountedIn(st, e.id), e, kind, id, []).0;
      XMLResolve(g, st, e, pubID, sysID).0 == if ret == NotFound then Cut else ret
  {
    hide VerdictOn, TryDelegates, SameChildren, OnePreference, Kept;
    EnterFalls(g, st, e.id);
  }

  // ---------------------------------------------------------------- a list that leads straight back

  /** A next catalog that comes first in its list and has this very list. */
  ghost predicate LeadsBack(g: Graph, st: State, e: Entry, c: Entry)
    requires Ready(g, st)
  {
    && Known(g, e) && e.kind == IsNext && Child(g, st, e) == c
    && Known(g, c) && c.kind == IsCatalog && Child(g, st, c) == e
  }

  lemma LeadsBackKept(g: Graph, st: State, out: State, e: Entry, c: Entry)
    requires Ready(g, st) && Ready(g, out) && OnePreference(g) && Kept(g, st, out) && LeadsBack(g, st, e, c)
    ensures LeadsBack(g, out, e, c)
  {
    assert g.entries[e.id] == e && g.entries[c.id] == c;
    hide OnePreference, Child;
  }

  lemma NotBroken(g: Graph, st: State, e: Entry)
    requires Ready(g, st) && Known(g, e) && Child(g, st, e) != null
    ensures !st.broken[e.id]
  {
  }

  /** A search of such a list for what it does not have leaves its depth beyond the limit. */
  lemma {:induction false} LoopSticks(g: Graph, st: State, e: Entry, c: Entry, pubID: Option<string>, sysID: Option<string>)
    requires Ready(g, st) && OnePreference(g) && LeadsBack(g, st, e, c) && st.depths[e.id] <= MAX_CATAL_DEPTH
    requires Final(pubID, sysID) && (pubID.Some? || sysID.Some?) && VerdictOn(g, st, e, pubID, sysID) == Proceed
    ensures var r := XMLResolve(g, st, e, pubID, sysID);
      r.0 == NotFound && r.1.depths == st.depths[e.id := MAX_CATAL_DEPTH + 1]
    decreases MAX_CATAL_DEPTH - st.depths[e.id]
  {
    hide Final, VerdictOn, SearchAll, TryNext, TryOne, Budget, OnePreference, SameChildren, Kept, Child, Fetched, WellFormed;
    var in_ := CountedIn(st, e.id);
    EnterFalls(g, st, e.id);
    CountedKept(g, st, e.id);
    LeadsBackKept(g, st, in_, e, c);
    VerdictKept(g, st, in_, e, pubID, sysID);
    NotBroken(g, in_, e);
    NextIs(g, e);
    TryNextFirst(g, in_, e, e, pubID, sysID);
    LoopTurn(g, in_, e, c, pubID, sysID);
    var f := Fetched(g, in_, e);
    var f' := Fetched(g, f, c);
    if in_.depths[e.id] <= MAX_CATAL_DEPTH {
      KeptTrans(g, in_, f, f');
      LeadsBackKept(g, in_, f', e, c);
      VerdictKept(g, in_, f', e, pubID, sysID);
      LoopSticks(g, f', e, c, pubID, sysID);
    }
    var r := XMLResolve(g, f', e, pubID, sysID);
    assert r.1.depths == in_.depths[e.id := MAX_CATAL_DEPTH + 1];
    assert r.1.depths == st.depths[e.id := MAX_CATAL_DEPTH + 1];
  }

  lemma CountedKept(g: Graph, st: State, i: nat)
    requires Ready(g, st) && i < |st.depths| && st.depths[i] <= MAX_CATAL_DEPTH
    ensures Ready(g, CountedIn(st, i)) && Kept(g, st, CountedIn(st, i))
  {
    ChildrenIgnoreDepths(g, st, CountedIn(st, i).depths);
    hide Child, OnePreference;
  }

  lemma VerdictKept(g: Graph, a: State, b: State, e: Entry, pubID: Option<string>, sysID: Option<string>)
    requires Ready(g, a) && Ready(g, b) && Kept(g, a, b) && Known(g, e) && VerdictOn(g, a, e, pubID, sysID) == Proceed
    ensures VerdictOn(g, b, e, pubID, sysID) == Proceed
  {
    hide VerdictOn, SameChildren, OnePreference;
    VerdictStays(g, a, b, e, pubID, sysID);
  }

  /** One turn of the loop: from the list to itself, and the end of it when it is refused. */
  lemma LoopTurn(g: Graph, st: State, e: Entry, c: Entry, pubID: Option<string>, sysID: Option<string>)
    requires Ready(g, st) && OnePreference(g) && LeadsBack(g, st, e, c) && Final(pubID, sysID) && (pubID.Some? || sysID.Some?)
    ensures MayFetch(g, st, e) && MayFetch(g, Fetched(g, st, e), c)
    ensures var f := Fetched(g, Fetched(g, st, e), c); var r := XMLResolve(g, f, e, pubID, sysID);
      r.0 == NotFound && r.1.depths[e.id] > MAX_CATAL_DEPTH ==>
        TryOne(g, st, e, pubID, sysID) == (NotFound, r.1) && r.1.children[e.id] != null
  {
    hide Final, SearchAll, TryOne, XMLResolve, OnePreference, SameChildren, Kept, Child, Fetched, WellFormed;
    NotBroken(g, st, e);
    var f := Fetched(g, st, e);
    LeadsBackKept(g, st, f, e, c);
    NotBroken(g, f, c);
    TryOneIs(g, st, e, pubID, sysID);
    NextIs(g, c);
    SearchAllFirst(g, f, c, pubID, sysID);
    var f' := Fetched(g, f, c);
    StillTheSame(g, f, f', e);
    StillTheSame(g, f', XMLResolve(g, f', e, pubID, sysID).1, e);
  }

  /** From then on it is never searched again, for anything. */
  lemma StuckForGood(g: Graph, st: State, later: State, e: Entry, pubID: Option<string>, sysID: Option<string>)
    requires Ready(g, st) && Ready(g, later) && Kept(g, st, later) && Known(g, e) && st.depths[e.id] > MAX_CATAL_DEPTH
    ensures XMLResolve(g, later, e, pubID, sysID) == (NotFound, later)
  {
    hide SameChildren, OnePreference;
  }

  /** A list of catalogs that begins with one whose entries are stuck finds nothing any more, for any
      identifiers and whatever its other catalogs have. */
  lemma StuckFindsNothing(g: Graph, st: State, cur: Entry, e: Entry, pubID: Option<string>, sysID: Option<string>)
    requires Ready(g, st) && Known(g, cur) && cur.kind == IsCatalog && Child(g, st, cur) == e && st.depths[e.id] > MAX_CATAL_DEPTH
    ensures ListXMLResolve(g, st, cur, pubID, sysID).0 == NotFound
  {
    NotBroken(g, st, cur);
    NextIs(g, cur);
    if pubID.Some? || sysID.Some? {
      var (public, system) := Target(pubID, sysID);
      hide SearchAll, Target;
      SearchAllFirst(g, st, cur, public, system);
    }
  }

  /** The first lookup of something that is not there gets it stuck. */
  lemma LookupSticks(g: Graph, st: State, cur: Entry, e: Entry, c: Entry, pubID: Option<string>, sysID: Option<string>)
    requires Ready(g, st) && OnePreference(g) && Known(g, cur) && cur.kind == IsCatalog && Child(g, st, cur) == e
    requires LeadsBack(g, st, e, c) && st.depths[e.id] <= MAX_CATAL_DEPTH
    requires Final(pubID, sysID) && (pubID.Some? || sysID.Some?) && VerdictOn(g, st, e, pubID, sysID) == Proceed
    ensures var (ret, out) := ListXMLResolve(g, st, cur, pubID, sysID);
      ret == NotFound && out.depths == st.depths[e.id := MAX_CATAL_DEPTH + 1] && Child(g, out, cur) == e
  {
    assert g.entries[cur.id] == cur;
    hide Final, SearchAll, Target, VerdictOn, OnePreference, LeadsBack, Child, XMLResolve, Fetched;
    NotBroken(g, st, cur);
    NextIs(g, cur);
    FinalStays(pubID, sysID);
    SearchAllFirst(g, st, cur, pubID, sysID);
    var f := Fetched(g, st, cur);
    LeadsBackKept(g, st, f, e, c);
    VerdictKept(g, st, f, e, pubID, sysID);
    LoopSticks(g, f, e, c, pubID, sysID);
  }

  /** A lookup of what the first catalog of a list has. */
  lemma LookupFinds(g: Graph, st: State, cur: Entry, e: Entry, sysID: string, uri: string)
    requires Ready(g, st) && Known(g, cur) && cur.kind == IsCatalog && Child(g, st, cur) == e && Known(g, e)
    requires st.depths[e.id] <= MAX_CATAL_DEPTH && !IsUrn(sysID)
    requires VerdictOn(g, st, e, None, Some(sysID)) == Answer(Uri(uri))
    ensures ListXMLResolve(g, st, cur, None, Some(sysID)).0 == Uri(uri)
  {
    hide SearchAll, VerdictOn, OnePreference, SameChildren, Child, Fetched;
    NotBroken(g, st, cur);
    NextIs(g, cur);
    FinalStays(None, Some(sysID));
    SearchAllFirst(g, st, cur, None, Some(sysID));
    var f := Fetched(g, st, cur);
    EnterFalls(g, f, e.id);
    VerdictStays(g, st, CountedIn(f, e.id), e, None, Some(sysID));
  }

  // ---------------------------------------------------------------- many resolutions

  /** One resolution after the other. */
  ghost function Run(g: Graph, st: State, first: Entry?, asked: seq<(Option<string>, Option<string>)>)
      : (r: (seq<Resolved>, State))
    requires Ready(g, st) && KnownOrNull(g, first)
    ensures Ready(g, r.1) && |r.0| == |asked|
    decreases |asked|
  {
    if asked == [] then ([], st)
    else
      var (ret, out) := ListXMLResolve(g, st, first, asked[0].0, asked[0].1);
      var (rets, end) := Run(g, out, first, asked[1..]);
      ([ret] + rets, end)
  }

  lemma RunFirst(g: Graph, st: State, first: Entry?, asked: seq<(Option<string>, Option<string>)>)
    requires Ready(g, st) && KnownOrNull(g, first)
    ensures Run(g, st, first, asked)
         == if asked == [] then ([], st)
            else
              var (ret, out) := ListXMLResolve(g, st, first, asked[0].0, asked[0].1);
              var (rets, end) := Run(g, out, first, asked[1..]);
              ([ret] + rets, end)
  {
    hide ListXMLResolve;
  }

  lemma SameLeads(g: Graph, a: State, b: State, c: Entry?, e: nat)
    requires Ready(g, a) && Ready(g, b) && SameChildren(g, a, b) && KnownOrNull(g, c) && ListLeads(g, a, c, e)
    ensures ListLeads(g, b, c, e)
  {
    hide Child;
    var i :| 0 <= i < |g.entries| && CatalogLeads(g, a, c, g.entries[i], e);
    assert CatalogLeads(g, b, c, g.entries[i], e);
  }

  lemma SameLinks(g: Graph, a: State, b: State, all: bool, d: nat, e: nat)
    requires Ready(g, a) && Ready(g, b) && SameChildren(g, a, b) && d < |g.entries| && Link(g, a, all, d, e)
    ensures Link(g, b, all, d, e)
  {
    hide Child, ListLeads;
    var i :| 0 <= i < |g.entries| && Follows(g.entries[i].kind, all) && EntryLeads(g, a, d, g.entries[i], e);
    SameLeads(g, a, b, Child(g, a, g.entries[i]), e);
    assert EntryLeads(g, b, d, g.entries[i], e);
  }

  lemma SameWays(g: Graph, a: State, b: State, all: bool, first: Entry?)
    requires Ready(g, a) && Ready(g, b) && SameChildren(g, a, b) && KnownOrNull(g, first) && NoWayBack(g, a, all, first)
    ensures NoWayBack(g, b, all, first)
  {
    hide Child, ListLeads, Link, Distinct, SameChildren;
    forall w | Walk(g, b, all, w) && ListLeads(g, b, first, w[0])
      ensures Distinct(w)
    {
      SameBackwards(g, a, b);
      SameLeads(g, b, a, first, w[0]);
      forall k | 0 <= k < |w| - 1 ensures Link(g, a, all, w[k], w[k + 1]) {
        SameLinks(g, b, a, all, w[k], w[k + 1]);
      }
      assert Walk(g, a, all, w);
    }
  }

  lemma SameBackwards(g: Graph, a: State, b: State)
    requires Ready(g, a) && Ready(g, b) && SameChildren(g, a, b)
    ensures SameChildren(g, b, a)
  {
    hide Child;
  }

  /** However many resolutions there are, with catalogs that do not lead back all depths stay what
      they were before the first. */
  lemma {:induction false} RunRestores(g: Graph, st: State, first: Entry?, asked: seq<(Option<string>, Option<string>)>)
    requires Ready(g, st) && OnePreference(g) && KnownOrNull(g, first)
    requires AllBelow(st.depths) && NoWayBack(g, st, true, first)
    ensures Run(g, st, first, asked).1.depths == st.depths
    decreases |asked|
  {
    hide ListXMLResolve, NoWayBack, AllBelow;
    if asked != [] {
      NoWayBackRestores(g, st, first, asked[0].0, asked[0].1);
      var out := ListXMLResolve(g, st, first, asked[0].0, asked[0].1).1;
      SameWays(g, st, out, true, first);
      RunRestores(g, out, first, asked[1..]);
    }
  }
}
