/** What resolving an external identifier through XML catalogs computes, as functions on values:
    lists of entries that refer to further catalogs, which are fetched when first needed and may
    refer back. */
module CatalogSearch {
  import opened Options
  import opened XmlStrings
  import opened CatalogIds

  const MAX_CATAL_DEPTH := 50
  const MAX_DELEGATE := 50

  datatype Prefer = PreferNone | PreferPublic | PreferSystem

  datatype Kind = IsCatalog | IsNext | IsPublic | IsSystem | IsRewrite | IsDelegatePublic | IsDelegateSystem | IsOther

  /** `Cut`: delegates were tried and found nothing, which ends the whole search. */
  datatype Resolved = NotFound | Cut | Uri(uri: string)

  class Entry {
    const id: nat                // its place among all entries
    const kind: Kind
    const name: Option<string>
    const url: Option<string>
    const prefer: Prefer
    const next: Entry?
    ghost const left: nat        // entries that follow it in its list
    var broken: bool             // its catalog could not be fetched
    var children: Entry?         // the list it refers to, once fetched
    var depth: nat               // how often the list it heads is being searched

    constructor (id: nat, kind: Kind, name: Option<string>, url: Option<string>, prefer: Prefer,
                 next: Entry?, children: Entry?)
      ensures this.id == id && this.kind == kind && this.name == name && this.url == url && this.prefer == prefer
      ensures this.next == next && left == (if next == null then 0 else next.left + 1)
      ensures !broken && this.children == children && depth == 0
    {
      this.id, this.kind, this.name, this.url, this.prefer := id, kind, name, url, prefer;
      this.next, left := next, if next == null then 0 else next.left + 1;
      broken, this.children, depth := false, children, 0;
    }
  }

  // ---------------------------------------------------------------- the catalogs and their state

  /** All entries, of fetched files or not, and what a file at a URL parses into: a catalog entry
      whose children are the entries of the file. */
  datatype Graph = Graph(entries: seq<Entry>, world: map<(Prefer, string), Entry>)

  /** What searches change, entry by entry, and the files fetched so far. */
  datatype State = State(depths: seq<nat>, children: seq<Entry?>, broken: seq<bool>, files: map<string, Entry>)

  ghost predicate Known(g: Graph, e: Entry) {
    e.id < |g.entries| && g.entries[e.id] == e
  }

  ghost predicate KnownOrNull(g: Graph, e: Entry?) {
    e != null ==> Known(g, e)
  }

  ghost function Length(e: Entry?): nat {
    if e == null then 0 else e.left + 1
  }

  ghost predicate WellFormed(g: Graph) {
    && (forall i :: 0 <= i < |g.entries| ==>
          var e := g.entries[i]; e.id == i && (e.next != null ==> Known(g, e.next) && e.next.left < e.left))
    && (forall k :: k in g.world ==>
          var doc := g.world[k]; Known(g, doc) && doc.kind == IsCatalog && doc.url == Some(k.1) && doc.prefer == k.0)
  }

  ghost predicate Sized(g: Graph, st: State) {
    |st.depths| == |st.children| == |st.broken| == |g.entries|
  }

  /** Entries that lead to another catalog. */
  predicate Refers(kind: Kind) {
    kind == IsCatalog || kind == IsNext || kind == IsDelegatePublic || kind == IsDelegateSystem
  }

  ghost predicate Ready(g: Graph, st: State) {
    && WellFormed(g) && Sized(g, st)
    && (forall i :: 0 <= i < |g.entries| ==> KnownOrNull(g, st.children[i]))
    && (forall i :: 0 <= i < |g.entries| && st.broken[i] ==> Refers(g.entries[i].kind) && st.children[i] == null)
    && (forall u :: u in st.files ==> FileFromWorld(g, st.files[u], u))
  }

  ghost predicate FileFromWorld(g: Graph, doc: Entry, url: string) {
    (doc.prefer, url) in g.world && g.world[(doc.prefer, url)] == doc
  }

  /** Entries that refer to the same URL do so with the same preference. Otherwise which of them is
      fetched first decides what the file is parsed into. */
  ghost predicate OnePreference(g: Graph) {
    forall i, j :: 0 <= i < |g.entries| && 0 <= j < |g.entries| && SameFile(g.entries[i], g.entries[j]) ==>
      g.entries[i].prefer == g.entries[j].prefer
  }

  predicate SameFile(e: Entry, d: Entry) {
    Refers(e.kind) && Refers(d.kind) && e.url.Some? && e.url == d.url
  }

  /** The file at the URL of an entry. */
  ghost function FileOf(g: Graph, st: State, e: Entry): Entry? {
    if e.url.None? then null
    else if e.url.value in st.files then st.files[e.url.value]
    else if (e.prefer, e.url.value) in g.world then g.world[(e.prefer, e.url.value)]
    else null
  }

  /** The catalog an entry refers to, or would refer to after being fetched. */
  ghost function Child(g: Graph, st: State, e: Entry): (c: Entry?)
    requires Ready(g, st) && Known(g, e)
    ensures KnownOrNull(g, c)
  {
    if st.children[e.id] != null then st.children[e.id]
    else if st.broken[e.id] || FileOf(g, st, e) == null then null
    else Contents(st, e, FileOf(g, st, e))
  }

  /** The list of catalogs a file is for most entries; its entries for one that is itself a catalog. */
  ghost function Contents(st: State, e: Entry, doc: Entry): Entry? {
    if e.kind != IsCatalog then doc else if doc.id < |st.children| then st.children[doc.id] else null
  }

  ghost predicate SameChildren(g: Graph, a: State, b: State)
    requires Ready(g, a) && Ready(g, b)
  {
    forall i :: 0 <= i < |g.entries| && Refers(g.entries[i].kind) ==>
      Child(g, a, g.entries[i]) == Child(g, b, g.entries[i])
  }

  /** No search lowers a depth, takes it beyond the limit, undoes a fetch, or changes what an entry
      refers to. */
  ghost predicate Kept(g: Graph, a: State, b: State)
    requires Ready(g, a) && Ready(g, b)
  {
    && (forall i :: 0 <= i < |a.depths| ==> a.depths[i] <= b.depths[i])
    && (forall i :: 0 <= i < |a.depths| && a.depths[i] <= MAX_CATAL_DEPTH + 1 ==> b.depths[i] <= MAX_CATAL_DEPTH + 1)
    && (forall i :: 0 <= i < |a.children| && a.children[i] != null ==> b.children[i] == a.children[i])
    && (forall i :: 0 <= i < |a.broken| && a.broken[i] ==> b.broken[i])
    && (OnePreference(g) ==> SameChildren(g, a, b))
  }

  lemma KeptNothing(g: Graph, a: State)
    requires Ready(g, a)
    ensures Kept(g, a, a)
  {
  }

  lemma KeptTrans(g: Graph, a: State, b: State, c: State)
    requires Ready(g, a) && Ready(g, b) && Ready(g, c) && Kept(g, a, b) && Kept(g, b, c)
    ensures Kept(g, a, c)
  {
    hide Child, OnePreference;
  }

  // ---------------------------------------------------------------- the search budget

  /** How often the lists with these depths can still be entered, one inside the other. */
  ghost function Budget(depths: seq<nat>): nat {
    if depths == [] then 0
    else Budget(depths[1..]) + if depths[0] <= MAX_CATAL_DEPTH then MAX_CATAL_DEPTH + 1 - depths[0] else 0
  }

  lemma {:induction false} BudgetFalls(a: seq<nat>, b: seq<nat>)
    requires |a| == |b| && forall i :: 0 <= i < |a| ==> a[i] <= b[i]
    ensures Budget(b) <= Budget(a)
    ensures (exists i :: 0 <= i < |a| && a[i] < b[i] && a[i] <= MAX_CATAL_DEPTH) ==> Budget(b) < Budget(a)
  {
    if a != [] {
      BudgetFalls(a[1..], b[1..]);
      if i :| 0 <= i < |a| && a[i] < b[i] && a[i] <= MAX_CATAL_DEPTH {
        if i > 0 {
          assert a[1..][i - 1] < b[1..][i - 1];
        }
      }
    }
  }

  lemma KeptBudget(g: Graph, a: State, b: State)
    requires Ready(g, a) && Ready(g, b) && Kept(g, a, b)
    ensures Budget(b.depths) <= Budget(a.depths)
  {
    BudgetFalls(a.depths, b.depths);
  }

  ghost function CountedIn(st: State, i: nat): State
    requires i < |st.depths|
  {
    st.(depths := st.depths[i := st.depths[i] + 1])
  }

  ghost function CountedOut(st: State, i: nat): State
    requires i < |st.depths| && st.depths[i] > 0
  {
    st.(depths := st.depths[i := st.depths[i] - 1])
  }

  lemma EnterFalls(g: Graph, st: State, i: nat)
    requires Ready(g, st) && i < |st.depths| && st.depths[i] <= MAX_CATAL_DEPTH
    ensures Ready(g, CountedIn(st, i)) && Budget(CountedIn(st, i).depths) < Budget(st.depths)
  {
    BudgetFalls(st.depths, CountedIn(st, i).depths);
  }

  /** What an entry refers to has nothing to do with the depths. */
  lemma ChildrenIgnoreDepths(g: Graph, st: State, depths: seq<nat>)
    requires Ready(g, st) && |depths| == |st.depths|
    ensures Ready(g, st.(depths := depths)) && SameChildren(g, st, st.(depths := depths))
  {
  }

  /** A search of a list, with or without counting out at its end. */
  lemma SearchKeeps(g: Graph, st: State, i: nat, out: State)
    requires Ready(g, st) && i < |st.depths| && st.depths[i] <= MAX_CATAL_DEPTH
    requires Ready(g, CountedIn(st, i)) && Ready(g, out) && Kept(g, CountedIn(st, i), out)
    ensures Kept(g, st, out) && out.depths[i] > 0
    ensures Ready(g, CountedOut(out, i)) && Kept(g, st, CountedOut(out, i))
  {
    hide Child, OnePreference;
    var a := CountedIn(st, i);
    assert forall j :: 0 <= j < |st.depths| && j != i ==> a.depths[j] == st.depths[j];
    ChildrenIgnoreDepths(g, st, a.depths);
    assert out.depths[i] > 0;
    ChildrenIgnoreDepths(g, out, CountedOut(out, i).depths);
  }

  // ---------------------------------------------------------------- fetching

  ghost predicate MayFetch(g: Graph, st: State, e: Entry) {
    Ready(g, st) && Known(g, e) && Refers(e.kind) && !st.broken[e.id]
  }

  /** The state after fetching, if need be: a file that does not parse breaks its entry. */
  ghost function FetchedState(g: Graph, st: State, e: Entry): State
    requires MayFetch(g, st, e)
  {
    if st.children[e.id] != null || e.url.None? then st
    else if FileOf(g, st, e) != null then
      st.(children := st.children[e.id := Child(g, st, e)], files := st.files[e.url.value := FileOf(g, st, e)])
    else st.(broken := st.broken[e.id := true])
  }

  lemma FetchReady(g: Graph, st: State, e: Entry)
    requires MayFetch(g, st, e)
    ensures var out := FetchedState(g, st, e);
      Ready(g, out) && out.depths == st.depths && out.children[e.id] == Child(g, st, e)
  {
  }

  lemma FetchKeepsOwn(g: Graph, st: State, e: Entry)
    requires MayFetch(g, st, e) && Ready(g, FetchedState(g, st, e))
    ensures Child(g, FetchedState(g, st, e), e) == Child(g, st, e)
  {
  }

  lemma FetchKeepsFile(g: Graph, st: State, e: Entry, x: Entry)
    requires MayFetch(g, st, e) && OnePreference(g) && Known(g, x) && Refers(x.kind)
    ensures FileOf(g, FetchedState(g, st, e), x) == FileOf(g, st, x)
  {
    assert g.entries[e.id] == e && g.entries[x.id] == x;
    assert SameFile(e, x) ==> e.prefer == x.prefer;
    hide OnePreference, Child, WellFormed;
  }

  /** A catalog that is fetched as an entry of its own gets what it has. */
  lemma FetchOfFile(g: Graph, st: State, e: Entry, x: Entry)
    requires MayFetch(g, st, e) && OnePreference(g) && Known(g, x) && Refers(x.kind) && FileOf(g, st, x) == e
    ensures FetchedState(g, st, e).children[e.id] == st.children[e.id]
  {
    assert g.entries[e.id] == e && g.entries[x.id] == x;
    assert SameFile(e, x);
    assert e.prefer == x.prefer;
    hide OnePreference;
  }

  /** Another entry goes on referring to the same. */
  lemma FetchKeepsOther(g: Graph, st: State, e: Entry, x: Entry)
    requires MayFetch(g, st, e) && Ready(g, FetchedState(g, st, e)) && OnePreference(g)
    requires Known(g, x) && Refers(x.kind) && x != e
    ensures Child(g, FetchedState(g, st, e), x) == Child(g, st, x)
  {
    FetchKeepsFile(g, st, e, x);
    if FileOf(g, st, x) == e {
      FetchOfFile(g, st, e, x);
    }
    assert g.entries[e.id] == e && g.entries[x.id] == x;
    hide OnePreference, FileOf, WellFormed;
  }

  ghost function Fetched(g: Graph, st: State, e: Entry): (out: State)
    requires MayFetch(g, st, e)
    ensures Ready(g, out) && Kept(g, st, out) && out.depths == st.depths && out.children[e.id] == Child(g, st, e)
  {
    FetchReady(g, st, e);
    FetchKeeps(g, st, e);
    FetchedState(g, st, e)
  }

  lemma FetchKeepsChildren(g: Graph, st: State, e: Entry)
    requires MayFetch(g, st, e) && Ready(g, FetchedState(g, st, e)) && OnePreference(g)
    ensures SameChildren(g, st, FetchedState(g, st, e))
  {
    hide Child, OnePreference, FetchedState;
    var out := FetchedState(g, st, e);
    forall i | 0 <= i < |g.entries| && Refers(g.entries[i].kind)
      ensures Child(g, st, g.entries[i]) == Child(g, out, g.entries[i])
    {
      if g.entries[i] == e {
        FetchKeepsOwn(g, st, e);
      } else {
        FetchKeepsOther(g, st, e, g.entries[i]);
      }
    }
  }

  lemma FetchKeeps(g: Graph, st: State, e: Entry)
    requires MayFetch(g, st, e) && Ready(g, FetchedState(g, st, e))
    ensures Kept(g, st, FetchedState(g, st, e))
  {
    hide Child, OnePreference, SameChildren;
    if OnePreference(g) {
      FetchKeepsChildren(g, st, e);
    }
  }

  // ---------------------------------------------------------------- one list

  predicate NamePrefixes(e: Entry, id: string) {
    e.name.Some? ==> HasPrefix(id, e.name.value)
  }

  function NameLength(e: Entry?): nat {
    if e == null || e.name.None? then 0 else |e.name.value|
  }

  ghost predicate InList(g: Graph, e: Entry?, x: Entry)
    requires WellFormed(g) && KnownOrNull(g, e)
    decreases Length(e)
  {
    e != null && (e == x || InList(g, e.next, x))
  }

  lemma {:induction false} InListKnown(g: Graph, e: Entry?, x: Entry)
    requires WellFormed(g) && KnownOrNull(g, e) && InList(g, e, x)
    ensures Known(g, x)
    decreases Length(e)
  {
    if e != x {
      InListKnown(g, e.next, x);
    }
  }

  /** The first entry of this kind and name. */
  ghost function FirstMatch(g: Graph, e: Entry?, kind: Kind, id: string): Entry?
    requires WellFormed(g) && KnownOrNull(g, e)
    decreases Length(e)
  {
    if e == null then null
    else if e.kind == kind && e.name == Some(id) then e
    else FirstMatch(g, e.next, kind, id)
  }

  /** The first of the rewriting rules with the longest prefix, starting from the best so far. */
  ghost function LongestRewrite(g: Graph, e: Entry?, id: string, best: Entry?): Entry?
    requires WellFormed(g) && KnownOrNull(g, e)
    decreases Length(e)
  {
    if e == null then best
    else LongestRewrite(g, e.next, id,
                        if e.kind == IsRewrite && NameLength(e) > NameLength(best) && NamePrefixes(e, id) then e else best)
  }

  /** The first match is a match, and without one there is none in the list. */
  lemma {:induction false} FirstMatchIs(g: Graph, e: Entry?, kind: Kind, id: string)
    requires WellFormed(g) && KnownOrNull(g, e)
    ensures var r := FirstMatch(g, e, kind, id);
      if r != null then InList(g, e, r) && r.kind == kind && r.name == Some(id)
      else forall x :: InList(g, e, x) && x.kind == kind ==> x.name != Some(id)
    decreases Length(e)
  {
    if e != null {
      FirstMatchIs(g, e.next, kind, id);
    }
  }

  /** The rule chosen applies, and no rule in the list that applies has a longer prefix. */
  lemma {:induction false} LongestIsLongest(g: Graph, e: Entry?, id: string, best: Entry?)
    requires WellFormed(g) && KnownOrNull(g, e)
    ensures var r := LongestRewrite(g, e, id, best);
      && (r != best ==> r != null && InList(g, e, r) && r.kind == IsRewrite && NamePrefixes(r, id) && NameLength(r) > NameLength(best))
      && forall x :: InList(g, e, x) && x.kind == IsRewrite && NamePrefixes(x, id) ==> NameLength(x) <= NameLength(r)
    decreases Length(e)
  {
    if e != null {
      var better := e.kind == IsRewrite && NameLength(e) > NameLength(best) && NamePrefixes(e, id);
      LongestIsLongest(g, e.next, id, if better then e else best);
      LongestGrows(g, e.next, id, if better then e else best);
    }
  }

  lemma {:induction false} LongestGrows(g: Graph, e: Entry?, id: string, best: Entry?)
    requires WellFormed(g) && KnownOrNull(g, e)
    ensures NameLength(best) <= NameLength(LongestRewrite(g, e, id, best))
    decreases Length(e)
  {
    if e != null {
      var better := e.kind == IsRewrite && NameLength(e) > NameLength(best) && NamePrefixes(e, id);
      LongestGrows(g, e.next, id, if better then e else best);
    }
  }

  /** Whether an entry delegates the search for an identifier. */
  predicate IsDelegate(e: Entry, kind: Kind, id: string) {
    e.kind == kind && (kind == IsDelegatePublic ==> e.prefer == PreferPublic) && NamePrefixes(e, id)
  }

  ghost predicate AnyDelegate(g: Graph, st: State, e: Entry?, kind: Kind, id: string)
    requires Ready(g, st) && KnownOrNull(g, e)
    decreases Length(e)
  {
    e != null && ((!st.broken[e.id] && IsDelegate(e, kind, id)) || AnyDelegate(g, st, e.next, kind, id))
  }

  ghost predicate AnyNext(g: Graph, st: State, e: Entry?)
    requires Ready(g, st) && KnownOrNull(g, e)
    decreases Length(e)
  {
    e != null && ((!st.broken[e.id] && e.kind == IsNext) || AnyNext(g, st, e.next))
  }

  function UriOf(url: Option<string>): Resolved {
    if url.None? then NotFound else Uri(url.value)
  }

  function RewrittenUri(e: Entry, id: string): Resolved {
    if e.url.None? then NotFound else if NameLength(e) <= |id| then Uri(e.url.value + id[NameLength(e)..]) else NotFound
  }

  /** What the entries of a list say about a pair of identifiers. */
  datatype Verdict = Answer(ret: Resolved) | Delegate(kind: Kind, id: string) | Proceed

  /** For a system identifier: a match, else the longest rewriting rule, else delegates. */
  ghost function SystemVerdict(g: Graph, st: State, e: Entry, id: string): (v: Verdict)
    requires Ready(g, st) && Known(g, e)
    ensures v.Delegate? ==> v.kind == IsDelegateSystem || v.kind == IsDelegatePublic
  {
    var found, rule := FirstMatch(g, e, IsSystem, id), LongestRewrite(g, e, id, null);
    if found != null then Answer(UriOf(found.url))
    else if rule != null then Answer(RewrittenUri(rule, id))
    else if AnyDelegate(g, st, e, IsDelegateSystem, id) then Delegate(IsDelegateSystem, id)
    else Proceed
  }

  /** For a public identifier: a match, else delegates. */
  ghost function PublicVerdict(g: Graph, st: State, e: Entry, id: string): (v: Verdict)
    requires Ready(g, st) && Known(g, e)
    ensures v.Delegate? ==> v.kind == IsDelegateSystem || v.kind == IsDelegatePublic
  {
    var found := FirstMatch(g, e, IsPublic, id);
    if found != null then Answer(UriOf(found.url))
    else if AnyDelegate(g, st, e, IsDelegatePublic, id) then Delegate(IsDelegatePublic, id)
    else Proceed
  }

  ghost function VerdictOn(g: Graph, st: State, e: Entry, pubID: Option<string>, sysID: Option<string>): (v: Verdict)
    requires Ready(g, st) && Known(g, e)
    ensures v.Delegate? ==> v.kind == IsDelegateSystem || v.kind == IsDelegatePublic
  {
    var first := if sysID.Some? then SystemVerdict(g, st, e, sysID.value) else Proceed;
    if first != Proceed then first
    else if pubID.Some? then PublicVerdict(g, st, e, pubID.value)
    else Proceed
  }

  // ---------------------------------------------------------------- the identifiers searched for

  /** A public identifier as it is searched for. */
  function Effective(pubID: Option<string>): Option<string> {
    if pubID.None? || Normal(pubID.value) == "" then None else Some(Normal(pubID.value))
  }

  function WrappingsOf(id: Option<string>): nat {
    if id.None? then 0 else Wrappings(id.value)
  }

  function Unwrappings(pubID: Option<string>, sysID: Option<string>): nat {
    WrappingsOf(Effective(pubID)) + WrappingsOf(sysID)
  }

  lemma EffectiveNormal(pubID: Option<string>)
    ensures Effective(Effective(pubID)) == Effective(pubID)
  {
    if Effective(pubID).Some? {
      NormalTwice(pubID.value);
    }
  }

  lemma UnwrapPublic(pubID: Option<string>, sysID: Option<string>)
    requires Effective(pubID).Some? && IsUrn(Effective(pubID).value)
    ensures Unwrappings(Some(UnWrap(Effective(pubID).value)), sysID) < Unwrappings(pubID, sysID)
  {
    UnWrapDescends(Effective(pubID).value);
  }

  lemma UnwrapSystem(pubID: Option<string>, sysID: string)
    requires IsUrn(sysID) && (Effective(pubID).Some? ==> !IsUrn(Effective(pubID).value))
    ensures Unwrappings(Some(UnWrap(sysID)), None) < Unwrappings(pubID, Some(sysID))
    ensures Unwrappings(Effective(pubID), None) < Unwrappings(pubID, Some(sysID))
    ensures Unwrappings(Effective(pubID), Some(UnWrap(sysID))) < Unwrappings(pubID, Some(sysID))
  {
    UnWrapDescends(sysID);
    EffectiveNormal(pubID);
  }

  /** The identifiers a list of catalogs is searched for: normalized, and unwrapped as long as one
      of them is a URN. */
  function Target(pubID: Option<string>, sysID: Option<string>): (Option<string>, Option<string>)
    decreases Unwrappings(pubID, sysID)
  {
    var public := Effective(pubID);
    if public.Some? && IsUrn(public.value) then
      UnwrapPublic(pubID, sysID);
      Target(Some(UnWrap(public.value)), sysID)
    else if sysID.Some? && IsUrn(sysID.value) then
      UnwrapSystem(pubID, sysID.value);
      var urnID := Some(UnWrap(sysID.value));
      if public.None? then Target(urnID, None)
      else if public == urnID then Target(public, None)
      else Target(public, urnID)
    else (public, sysID)
  }

  /** Identifiers that are searched for as they are. */
  predicate Final(pubID: Option<string>, sysID: Option<string>) {
    && Effective(pubID) == pubID && (pubID.Some? ==> !IsUrn(pubID.value))
    && (sysID.Some? ==> !IsUrn(sysID.value))
  }

  lemma {:induction false} TargetIsFinal(pubID: Option<string>, sysID: Option<string>)
    ensures Final(Target(pubID, sysID).0, Target(pubID, sysID).1)
    decreases Unwrappings(pubID, sysID)
  {
    hide Unwrappings, Effective, UnWrap, IsUrn;
    var public := Effective(pubID);
    EffectiveNormal(pubID);
    if public.Some? && IsUrn(public.value) {
      UnwrapPublic(pubID, sysID);
      TargetIsFinal(Some(UnWrap(public.value)), sysID);
    } else if sysID.Some? && IsUrn(sysID.value) {
      UnwrapSystem(pubID, sysID.value);
      var urnID := Some(UnWrap(sysID.value));
      if public.None? {
        TargetIsFinal(urnID, None);
      } else if public == urnID {
        TargetIsFinal(public, None);
      } else {
        TargetIsFinal(public, urnID);
      }
    }
  }

  lemma FinalStays(pubID: Option<string>, sysID: Option<string>)
    requires Final(pubID, sysID)
    ensures Target(pubID, sysID) == (pubID, sysID)
  {
  }

  /** A public identifier normalized and unwrapped as often as it can be; nothing if it comes to be empty. */
  function FinalPublic(pubID: Option<string>): (r: Option<string>)
    decreases WrappingsOf(Effective(pubID))
  {
    if pubID.None? || Normal(pubID.value) == "" then None
    else if !IsUrn(Normal(pubID.value)) then Some(Normal(pubID.value))
    else
      UnwrapPublic(pubID, None);
      FinalPublic(Some(UnWrap(Normal(pubID.value))))
  }

  /** Which identifiers are searched for. The public one in its final form, always. A system identifier that is
      no URN as it is. One that is takes the place of a missing public identifier, is left out when it
      carries the public one, and otherwise is unwrapped and looked at again. */
  lemma {:induction false} TargetCases(pubID: Option<string>, sysID: Option<string>)
    ensures var public := FinalPublic(pubID);
      Target(pubID, sysID)
      == if sysID.None? || !IsUrn(sysID.value) then (public, sysID)
         else if public.None? then (FinalPublic(Some(UnWrap(sysID.value))), None)
         else if public == Some(UnWrap(sysID.value)) then (public, None)
         else Target(public, Some(UnWrap(sysID.value)))
    decreases Unwrappings(pubID, sysID)
  {
    hide Unwrappings, Effective, UnWrap, IsUrn;
    EffectiveIs(pubID);
    var public := Effective(pubID);
    if public.Some? && IsUrn(public.value) {
      UnwrapPublic(pubID, sysID);
      TargetCases(Some(UnWrap(public.value)), sysID);
    } else if sysID.Some? && IsUrn(sysID.value) {
      UnwrapSystem(pubID, sysID.value);
      EffectiveNormal(pubID);
      var urnID := Some(UnWrap(sysID.value));
      if public.None? {
        TargetCases(urnID, None);
      } else if public == urnID {
        TargetCases(public, None);
        EffectiveIs(public);
      }
    }
  }

  lemma EffectiveIs(pubID: Option<string>)
    ensures Effective(pubID) == if pubID.None? || Normal(pubID.value) == "" then None else Some(Normal(pubID.value))
  {
  }

  // ---------------------------------------------------------------- the search

  /** The identifiers a delegate is asked for. */
  function Delegated(kind: Kind, id: string): (Option<string>, Option<string>) {
    if kind == IsDelegateSystem then (None, Some(id)) else (Some(id), None)
  }

  /** One list of entries: refused when it is being searched too often, else counted in and
      searched. The count is taken back, except when a catalog that comes next has led back here
      too often (`spent`). */
  ghost function XMLResolve(g: Graph, st: State, e: Entry, pubID: Option<string>, sysID: Option<string>)
      : (r: (Resolved, State))
    requires Ready(g, st) && Known(g, e)
    ensures Ready(g, r.1) && Kept(g, st, r.1)
    decreases Budget(st.depths), 0, 0
  {
    KeptNothing(g, st);
    if st.depths[e.id] > MAX_CATAL_DEPTH then (NotFound, st)
    else
      EnterFalls(g, st, e.id);
      var (ret, spent, out) := SearchEntries(g, CountedIn(st, e.id), e, pubID, sysID);
      SearchKeeps(g, st, e.id, out);
      (ret, if spent then out else CountedOut(out, e.id))
  }

  /** The entries decide; if they do not, the catalogs that come next. Delegates that find nothing
      end the search. */
  ghost function SearchEntries(g: Graph, st: State, e: Entry, pubID: Option<string>, sysID: Option<string>)
      : (r: (Resolved, bool, State))
    requires Ready(g, st) && Known(g, e)
    ensures Ready(g, r.2) && Kept(g, st, r.2)
    decreases Budget(st.depths), 4, 0
  {
    KeptNothing(g, st);
    match VerdictOn(g, st, e, pubID, sysID)
    case Answer(ret) => (ret, false, st)
    case Delegate(kind, id) =>
      var (ret, out) := TryDelegates(g, st, e, kind, id, []);
      (if ret == NotFound then Cut else ret, false, out)
    case Proceed =>
      if pubID.None? && sysID.None? then (NotFound, false, st) else TryNext(g, st, e, e, pubID, sysID)
  }

  /** The delegates of a list, from `cur` on, in order, each URL once as long as there are no more
      than 50 of them. */
  ghost function TryDelegates(g: Graph, st: State, cur: Entry?, kind: Kind, id: string, tried: seq<Option<string>>)
      : (r: (Resolved, State))
    requires Ready(g, st) && KnownOrNull(g, cur)
    ensures Ready(g, r.1) && Kept(g, st, r.1)
    decreases Budget(st.depths), 3, Length(cur)
  {
    KeptNothing(g, st);
    if cur == null then (NotFound, st)
    else if !st.broken[cur.id] && Refers(cur.kind) && IsDelegate(cur, kind, id) && cur.url !in tried then
      var tried' := if |tried| < MAX_DELEGATE then tried + [cur.url] else tried;
      var (ret, out) := TryOne(g, st, cur, Delegated(kind, id).0, Delegated(kind, id).1);
      if ret != NotFound then (ret, out)
      else
        KeptBudget(g, st, out);
        var r := TryDelegates(g, out, cur.next, kind, id, tried');
        KeptTrans(g, st, out, r.1);
        r
    else TryDelegates(g, st, cur.next, kind, id, tried)
  }

  /** The catalogs that come next, from `cur` on, for the list `e`. */
  ghost function TryNext(g: Graph, st: State, e: Entry, cur: Entry?, pubID: Option<string>, sysID: Option<string>)
      : (r: (Resolved, bool, State))
    requires Ready(g, st) && Known(g, e) && KnownOrNull(g, cur)
    ensures Ready(g, r.2) && Kept(g, st, r.2)
    decreases Budget(st.depths), 3, Length(cur)
  {
    KeptNothing(g, st);
    if cur == null then (NotFound, false, st)
    else if !st.broken[cur.id] && cur.kind == IsNext then
      var (ret, out) := TryOne(g, st, cur, pubID, sysID);
      if ret != NotFound then (ret, false, out)
      else if out.children[cur.id] != null && out.depths[e.id] > MAX_CATAL_DEPTH then (NotFound, true, out)
      else
        KeptBudget(g, st, out);
        var r := TryNext(g, out, e, cur.next, pubID, sysID);
        KeptTrans(g, st, out, r.2);
        r
    else TryNext(g, st, e, cur.next, pubID, sysID)
  }

  /** Fetches what an entry refers to and searches it. */
  ghost function TryOne(g: Graph, st: State, cur: Entry, pubID: Option<string>, sysID: Option<string>)
      : (r: (Resolved, State))
    requires Ready(g, st) && Known(g, cur) && Refers(cur.kind) && !st.broken[cur.id]
    ensures Ready(g, r.1) && Kept(g, st, r.1)
    decreases Budget(st.depths), 2, 1
  {
    var f := Fetched(g, st, cur);
    if f.children[cur.id] == null then (NotFound, f)
    else
      KeptBudget(g, st, f);
      var r := ListXMLResolve(g, f, f.children[cur.id], pubID, sysID);
      KeptTrans(g, st, f, r.1);
      r
  }

  /** A list of catalogs, for the identifiers in their final form. */
  ghost function ListXMLResolve(g: Graph, st: State, first: Entry?, pubID: Option<string>, sysID: Option<string>)
      : (r: (Resolved, State))
    requires Ready(g, st) && KnownOrNull(g, first)
    ensures Ready(g, r.1) && Kept(g, st, r.1)
    decreases Budget(st.depths), 2, 0
  {
    KeptNothing(g, st);
    if first == null || (pubID.None? && sysID.None?) then (NotFound, st)
    else var (p, s) := Target(pubID, sysID); SearchAll(g, st, first, p, s)
  }

  /** The catalogs of a list, from `cur` on, in order, until something is found or one of them is
      being searched too often. */
  ghost function SearchAll(g: Graph, st: State, cur: Entry?, pubID: Option<string>, sysID: Option<string>)
      : (r: (Resolved, State))
    requires Ready(g, st) && KnownOrNull(g, cur)
    ensures Ready(g, r.1) && Kept(g, st, r.1)
    decreases Budget(st.depths), 1, Length(cur)
  {
    KeptNothing(g, st);
    if cur == null then (NotFound, st)
    else if !st.broken[cur.id] && cur.kind == IsCatalog then
      var f := Fetched(g, st, cur);
      var c := f.children[cur.id];
      KeptBudget(g, st, f);
      var (ret, out) := if c == null then (NotFound, f) else XMLResolve(g, f, c, pubID, sysID);
      KeptNothing(g, f);
      KeptTrans(g, st, f, out);
      if ret != NotFound || (c != null && out.depths[c.id] > MAX_CATAL_DEPTH) then (ret, out)
      else
        KeptBudget(g, st, out);
        var r := SearchAll(g, out, cur.next, pubID, sysID);
        KeptTrans(g, st, out, r.1);
        r
    else SearchAll(g, st, cur.next, pubID, sysID)
  }

  lemma NextIs(g: Graph, cur: Entry)
    requires WellFormed(g) && Known(g, cur)
    ensures KnownOrNull(g, cur.next) && Length(cur.next) < Length(cur)
  {
    assert g.entries[cur.id] == cur;
  }

  /** How the search of a list of catalogs begins. */
  lemma SearchAllFirst(g: Graph, st: State, cur: Entry, pubID: Option<string>, sysID: Option<string>)
    requires Ready(g, st) && Known(g, cur) && KnownOrNull(g, cur.next)
    ensures SearchAll(g, st, cur, pubID, sysID)
         == if st.broken[cur.id] || cur.kind != IsCatalog then SearchAll(g, st, cur.next, pubID, sysID)
            else
              var f := Fetched(g, st, cur);
              var c := f.children[cur.id];
              if c == null then SearchAll(g, f, cur.next, pubID, sysID)
              else
                var r := XMLResolve(g, f, c, pubID, sysID);
                if r.0 != NotFound || r.1.depths[c.id] > MAX_CATAL_DEPTH then r
                else SearchAll(g, r.1, cur.next, pubID, sysID)
  {
    hide XMLResolve, Fetched, Kept, WellFormed;
  }

  /** How the search of the catalogs that come next begins. */
  lemma TryNextFirst(g: Graph, st: State, e: Entry, cur: Entry, pubID: Option<string>, sysID: Option<string>)
    requires Ready(g, st) && Known(g, e) && Known(g, cur) && KnownOrNull(g, cur.next)
    ensures TryNext(g, st, e, cur, pubID, sysID)
         == if st.broken[cur.id] || cur.kind != IsNext then TryNext(g, st, e, cur.next, pubID, sysID)
            else
              var (ret, out) := TryOne(g, st, cur, pubID, sysID);
              if ret != NotFound then (ret, false, out)
              else if out.children[cur.id] != null && out.depths[e.id] > MAX_CATAL_DEPTH then (NotFound, true, out)
              else TryNext(g, out, e, cur.next, pubID, sysID)
  {
    hide TryOne, Kept, WellFormed;
  }

  lemma SearchAllNone(g: Graph, st: State, pubID: Option<string>, sysID: Option<string>)
    requires Ready(g, st)
    ensures SearchAll(g, st, null, pubID, sysID) == (NotFound, st)
  {
  }

  /** Without catalogs that come next there is nothing to try. */
  lemma {:induction false} NoneNext(g: Graph, st: State, e: Entry, cur: Entry?, pubID: Option<string>, sysID: Option<string>)
    requires Ready(g, st) && Known(g, e) && KnownOrNull(g, cur) && !AnyNext(g, st, cur)
    ensures TryNext(g, st, e, cur, pubID, sysID) == (NotFound, false, st)
    decreases Length(cur)
  {
    if cur != null {
      NextIs(g, cur);
      TryNextFirst(g, st, e, cur, pubID, sysID);
      NoneNext(g, st, e, cur.next, pubID, sysID);
    }
  }

  lemma StillTheSame(g: Graph, a: State, b: State, cur: Entry)
    requires Ready(g, a) && Ready(g, b) && Kept(g, a, b) && Known(g, cur)
    ensures a.children[cur.id] != null ==> b.children[cur.id] == a.children[cur.id]
  {
    hide SameChildren, OnePreference;
  }

  lemma FetchedIs(g: Graph, st: State, e: Entry)
    requires MayFetch(g, st, e) && st.children[e.id] == null
    ensures var out, doc := Fetched(g, st, e), FileOf(g, st, e);
      if e.url.None? then out == st
      else if doc == null then out == st.(broken := st.broken[e.id := true])
      else
        && Known(g, doc)
        && out == st.(children := st.children[e.id := if e.kind == IsCatalog then st.children[doc.id] else doc],
                      files := st.files[e.url.value := doc])
  {
    hide SameChildren, OnePreference, Kept;
  }

  lemma SizedIs(g: Graph, st: State)
    requires Ready(g, st)
    ensures Sized(g, st) && forall i :: 0 <= i < |g.entries| ==> g.entries[i].id == i
  {
  }
}
