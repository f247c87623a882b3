/** What the entries of one list say about identifiers, told entry by entry; and which entries a
    search follows, in which order. */
module CatalogSays {
  import opened Options
  import opened XmlStrings
  import opened CatalogIds
  import opened CatalogSearch

  // ---------------------------------------------------------------- what a list says

  /** The entries of a list by their numbers. */
  ghost predicate Has(g: Graph, e: Entry, i: int)
    requires WellFormed(g) && Known(g, e)
  {
    0 <= i < |g.entries| && InList(g, e, g.entries[i])
  }

  /** Entry `i` of a list comes before entry `j`. */
  ghost predicate Before(g: Graph, i: int, j: int)
    requires WellFormed(g) && 0 <= i < |g.entries| && 0 <= j < |g.entries|
  {
    KnownOrNull(g, g.entries[i].next) && InList(g, g.entries[i].next, g.entries[j])
  }

  predicate Matches(x: Entry, kind: Kind, id: string) {
    x.kind == kind && x.name == Some(id)
  }

  /** The URL of the first entry that is about this identifier. */
  ghost predicate MatchSays(g: Graph, e: Entry, kind: Kind, id: string, uri: string)
    requires WellFormed(g) && Known(g, e)
  {
    exists i :: Has(g, e, i) && Matches(g.entries[i], kind, id) && g.entries[i].url == Some(uri)
                && forall j :: Has(g, e, j) && Matches(g.entries[j], kind, id) ==> i == j || Before(g, i, j)
  }

  ghost predicate NoMatch(g: Graph, e: Entry, kind: Kind, id: string)
    requires WellFormed(g) && Known(g, e)
  {
    forall i :: Has(g, e, i) ==> !Matches(g.entries[i], kind, id)
  }

  /** A rewriting rule for identifiers that begin like this one. */
  predicate Applies(x: Entry, id: string) {
    x.kind == IsRewrite && x.name.Some? && x.name.value != "" && x.name.value <= id
  }

  /** The identifier with the name of a rule for its beginning replaced by the URL of the rule. */
  predicate Rewrites(x: Entry, id: string, uri: string)
    requires x.name.Some?
  {
    x.url.Some? && x.url.value <= uri && x.name.value + uri[|x.url.value|..] == id
  }

  /** What the rule with the longest name that applies makes of the identifier. */
  ghost predicate RuleSays(g: Graph, e: Entry, id: string, uri: string)
    requires WellFormed(g) && Known(g, e)
  {
    exists i :: Has(g, e, i) && Applies(g.entries[i], id) && Rewrites(g.entries[i], id, uri)
                && forall j :: Has(g, e, j) && Applies(g.entries[j], id) ==>
                     || |g.entries[j].name.value| < |g.entries[i].name.value|
                     || (|g.entries[j].name.value| == |g.entries[i].name.value| && (i == j || Before(g, i, j)))
  }

  ghost predicate NoRule(g: Graph, e: Entry, id: string)
    requires WellFormed(g) && Known(g, e)
  {
    forall i :: Has(g, e, i) ==> !Applies(g.entries[i], id)
  }

  /** An entry that is not broken delegates the identifier; a public one only where public identifiers are
      preferred. */
  ghost predicate Delegates(g: Graph, st: State, e: Entry, kind: Kind, id: string)
    requires Ready(g, st) && Known(g, e)
  {
    exists i :: Has(g, e, i) && !st.broken[i] && g.entries[i].kind == kind
                && (kind == IsDelegatePublic ==> g.entries[i].prefer == PreferPublic)
                && (g.entries[i].name.Some? ==> g.entries[i].name.value <= id)
  }

  /** Nothing is said about a system identifier. */
  ghost predicate SilentOnSystem(g: Graph, st: State, e: Entry, id: string)
    requires Ready(g, st) && Known(g, e)
  {
    NoMatch(g, e, IsSystem, id) && NoRule(g, e, id) && !Delegates(g, st, e, IsDelegateSystem, id)
  }

  ghost predicate SilentOnPublic(g: Graph, st: State, e: Entry, id: string)
    requires Ready(g, st) && Known(g, e)
  {
    NoMatch(g, e, IsPublic, id) && !Delegates(g, st, e, IsDelegatePublic, id)
  }

  ghost predicate Silent(g: Graph, st: State, e: Entry, pubID: Option<string>, sysID: Option<string>)
    requires Ready(g, st) && Known(g, e)
  {
    && (sysID.Some? ==> SilentOnSystem(g, st, e, sysID.value))
    && (pubID.Some? ==> SilentOnPublic(g, st, e, pubID.value))
  }

  /** A list says that this is the URI: for the system identifier, or for the public one when the system
      identifier has decided nothing. */
  ghost predicate SaysUri(g: Graph, st: State, e: Entry, pubID: Option<string>, sysID: Option<string>, uri: string)
    requires Ready(g, st) && Known(g, e)
  {
    || (sysID.Some? && MatchSays(g, e, IsSystem, sysID.value, uri))
    || (sysID.Some? && NoMatch(g, e, IsSystem, sysID.value) && RuleSays(g, e, sysID.value, uri))
    || (pubID.Some? && (sysID.Some? ==> SilentOnSystem(g, st, e, sysID.value)) && MatchSays(g, e, IsPublic, pubID.value, uri))
  }

  // ---------------------------------------------------------------- that is what the search goes by

  lemma {:induction false} FirstMatchBefore(g: Graph, e: Entry?, kind: Kind, id: string, y: Entry)
    requires WellFormed(g) && KnownOrNull(g, e) && InList(g, e, y) && Matches(y, kind, id)
    ensures var x := FirstMatch(g, e, kind, id);
      x != null && KnownOrNull(g, x.next) && (x == y || InList(g, x.next, y))
    decreases Length(e)
  {
    if e != y && !Matches(e, kind, id) {
      FirstMatchBefore(g, e.next, kind, id, y);
    }
  }

  lemma MatchIs(g: Graph, e: Entry, kind: Kind, id: string)
    requires WellFormed(g) && Known(g, e)
    ensures var x := FirstMatch(g, e, kind, id);
      && (x == null <==> NoMatch(g, e, kind, id))
      && (x != null ==> forall uri :: MatchSays(g, e, kind, id, uri) <==> x.url == Some(uri))
  {
    hide FirstMatch, InList;
    var x := FirstMatch(g, e, kind, id);
    FirstMatchIs(g, e, kind, id);
    if x != null {
      InListKnown(g, e, x);
      assert Has(g, e, x.id) && g.entries[x.id] == x;
      forall j | Has(g, e, j) && Matches(g.entries[j], kind, id) ensures x.id == j || Before(g, x.id, j) {
        FirstMatchBefore(g, e, kind, id, g.entries[j]);
      }
      forall uri ensures MatchSays(g, e, kind, id, uri) <==> x.url == Some(uri) {
        if MatchSays(g, e, kind, id, uri) {
          var i :| Has(g, e, i) && Matches(g.entries[i], kind, id) && g.entries[i].url == Some(uri)
            && forall j :: Has(g, e, j) && Matches(g.entries[j], kind, id) ==> i == j || Before(g, i, j);
          if i != x.id {
            NotBothBefore(g, i, x.id);
          }
        }
      }
    }
  }

  /** Entries come one after the other. */
  lemma NotBothBefore(g: Graph, i: int, j: int)
    requires WellFormed(g) && 0 <= i < |g.entries| && 0 <= j < |g.entries| && Before(g, i, j)
    ensures i != j && !Before(g, j, i)
  {
    LaterIsShorter(g, g.entries[i].next, g.entries[j]);
    NextIs(g, g.entries[i]);
    if Before(g, j, i) {
      LaterIsShorter(g, g.entries[j].next, g.entries[i]);
      NextIs(g, g.entries[j]);
    }
  }

  lemma {:induction false} LaterIsShorter(g: Graph, e: Entry?, x: Entry)
    requires WellFormed(g) && KnownOrNull(g, e) && InList(g, e, x)
    ensures Length(x) <= Length(e)
    decreases Length(e)
  {
    if e != x {
      NextIs(g, e);
      LaterIsShorter(g, e.next, x);
    }
  }

  /** Of two rules, whether the first is chosen. */
  ghost predicate Beats(g: Graph, x: Entry, y: Entry)
    requires WellFormed(g) && Known(g, x) && Known(g, y)
  {
    || NameLength(y) < NameLength(x)
    || (NameLength(y) == NameLength(x) && (x == y || Before(g, x.id, y.id)))
  }

  lemma {:induction false} LongestBeats(g: Graph, e: Entry?, id: string, best: Entry?, y: Entry)
    requires WellFormed(g) && KnownOrNull(g, e) && InList(g, e, y) && Applies(y, id) && NameLength(y) > NameLength(best)
    ensures var x := LongestRewrite(g, e, id, best);
      x != null && Known(g, x) && Known(g, y) && InList(g, e, x) && Applies(x, id) && Beats(g, x, y)
    decreases Length(e)
  {
    InListKnown(g, e, y);
    RuleApplies(y, id);
    RuleApplies(e, id);
    LongestIsLongest(g, e, id, best);
    var better := e.kind == IsRewrite && NameLength(e) > NameLength(best) && NamePrefixes(e, id);
    var best' := if better then e else best;
    LongestIsLongest(g, e.next, id, best');
    LongestGrows(g, e.next, id, best');
    var x := LongestRewrite(g, e, id, best);
    InListKnown(g, e, x);
    RuleApplies(x, id);
    if e != y && NameLength(y) > NameLength(best') {
      LongestBeats(g, e.next, id, best', y);
    }
  }

  lemma RuleApplies(x: Entry, id: string)
    ensures Applies(x, id) <==> x.kind == IsRewrite && NameLength(x) > 0 && NamePrefixes(x, id)
  {
  }

  lemma {:induction false} NoneLongest(g: Graph, e: Entry?, id: string)
    requires WellFormed(g) && KnownOrNull(g, e)
    ensures LongestRewrite(g, e, id, null) == null <==> forall x :: InList(g, e, x) ==> !Applies(x, id)
  {
    LongestIsLongest(g, e, id, null);
    var r := LongestRewrite(g, e, id, null);
    if r != null {
      RuleApplies(r, id);
      assert InList(g, e, r) && Applies(r, id);
    } else {
      forall x | InList(g, e, x) ensures !Applies(x, id) {
        RuleApplies(x, id);
        if Applies(x, id) {
          LongestBeats(g, e, id, null, x);
        }
      }
    }
  }

  lemma RewriteIs(x: Entry, id: string)
    requires Applies(x, id)
    ensures RewrittenUri(x, id) == NotFound <==> x.url.None?
    ensures forall uri :: Rewrites(x, id, uri) <==> RewrittenUri(x, id) == Uri(uri)
  {
    forall uri ensures Rewrites(x, id, uri) <==> RewrittenUri(x, id) == Uri(uri) {
      if x.url.Some? {
        var n, r := x.name.value, x.url.value;
        assert id == n + id[|n|..];
        if Rewrites(x, id, uri) {
          assert id[|n|..] == uri[|r|..] && uri == r + uri[|r|..];
        }
        if RewrittenUri(x, id) == Uri(uri) {
          assert uri[|r|..] == id[|n|..];
        }
      }
    }
  }

  lemma RuleIs(g: Graph, e: Entry, id: string)
    requires WellFormed(g) && Known(g, e)
    ensures var x := LongestRewrite(g, e, id, null);
      && (x == null <==> NoRule(g, e, id))
      && (x != null ==> forall uri :: RuleSays(g, e, id, uri) <==> RewrittenUri(x, id) == Uri(uri))
  {
    hide LongestRewrite, InList, Applies, Rewrites, RewrittenUri;
    var x := LongestRewrite(g, e, id, null);
    NoneLongest(g, e, id);
    if x == null {
      forall i | Has(g, e, i) ensures !Applies(g.entries[i], id) {
      }
    } else {
      var y :| InList(g, e, y) && Applies(y, id);
      AppliesLength(y, id);
      LongestBeats(g, e, id, null, y);
      assert Has(g, e, x.id) && g.entries[x.id] == x;
      AppliesLength(x, id);
      forall j | Has(g, e, j) && Applies(g.entries[j], id) ensures Beats(g, x, g.entries[j]) && Known(g, g.entries[j]) {
        AppliesLength(g.entries[j], id);
        LongestBeats(g, e, id, null, g.entries[j]);
      }
      RewriteIs(x, id);
      forall uri ensures RuleSays(g, e, id, uri) <==> RewrittenUri(x, id) == Uri(uri) {
        RuleUnique(g, e, id, uri, x);
      }
    }
  }

  lemma AppliesLength(x: Entry, id: string)
    requires Applies(x, id)
    ensures x.name.Some? && NameLength(x) == |x.name.value| > 0
  {
  }

  /** The rule that beats all others is the one that counts. */
  lemma RuleUnique(g: Graph, e: Entry, id: string, uri: string, x: Entry)
    requires WellFormed(g) && Known(g, e) && Known(g, x) && Has(g, e, x.id) && Applies(x, id)
    requires forall j :: Has(g, e, j) && Applies(g.entries[j], id) ==> Known(g, g.entries[j]) && Beats(g, x, g.entries[j])
    ensures RuleSays(g, e, id, uri) <==> Rewrites(x, id, uri)
  {
    hide InList, Rewrites, Before;
    forall j | Has(g, e, j) && Applies(g.entries[j], id) ensures g.entries[j].id == j {
      assert Known(g, g.entries[j]);
      SizedIndex(g, j);
    }
    if RuleSays(g, e, id, uri) {
      var i :| Has(g, e, i) && Applies(g.entries[i], id) && Rewrites(g.entries[i], id, uri)
        && forall j :: Has(g, e, j) && Applies(g.entries[j], id) ==>
             || |g.entries[j].name.value| < |g.entries[i].name.value|
             || (|g.entries[j].name.value| == |g.entries[i].name.value| && (i == j || Before(g, i, j)));
      if i != x.id {
        assert Beats(g, x, g.entries[i]);
        if Before(g, i, x.id) {
          NotBothBefore(g, i, x.id);
        }
      }
    }
  }

  lemma SizedIndex(g: Graph, j: int)
    requires WellFormed(g) && 0 <= j < |g.entries|
    ensures g.entries[j].id == j
  {
  }

  lemma {:induction false} DelegatesIs(g: Graph, st: State, e: Entry, kind: Kind, id: string)
    requires Ready(g, st) && Known(g, e)
    ensures AnyDelegate(g, st, e, kind, id) <==> Delegates(g, st, e, kind, id)
  {
    hide Ready, InList, AnyDelegate, WellFormed;
    ReadyWell(g, st);
    if AnyDelegate(g, st, e, kind, id) {
      var x := SomeDelegate(g, st, e, kind, id);
      assert Has(g, e, x.id) && g.entries[x.id] == x;
    }
    if Delegates(g, st, e, kind, id) {
      var i :| Has(g, e, i) && !st.broken[i] && g.entries[i].kind == kind
        && (kind == IsDelegatePublic ==> g.entries[i].prefer == PreferPublic)
        && (g.entries[i].name.Some? ==> g.entries[i].name.value <= id);
      SizedIndex(g, i);
      DelegateAny(g, st, e, kind, id, g.entries[i]);
    }
  }

  lemma ReadyWell(g: Graph, st: State)
    requires Ready(g, st)
    ensures WellFormed(g) && |st.broken| == |g.entries|
  {
  }

  lemma {:induction false} SomeDelegate(g: Graph, st: State, e: Entry?, kind: Kind, id: string) returns (x: Entry)
    requires Ready(g, st) && KnownOrNull(g, e) && AnyDelegate(g, st, e, kind, id)
    ensures Known(g, x) && InList(g, e, x) && !st.broken[x.id] && IsDelegate(x, kind, id)
    decreases Length(e)
  {
    if !st.broken[e.id] && IsDelegate(e, kind, id) {
      x := e;
    } else {
      x := SomeDelegate(g, st, e.next, kind, id);
    }
  }

  lemma {:induction false} DelegateAny(g: Graph, st: State, e: Entry?, kind: Kind, id: string, x: Entry)
    requires Ready(g, st) && KnownOrNull(g, e) && InList(g, e, x) && Known(g, x) && !st.broken[x.id] && IsDelegate(x, kind, id)
    ensures AnyDelegate(g, st, e, kind, id)
    decreases Length(e)
  {
    if e != x {
      DelegateAny(g, st, e.next, kind, id, x);
    }
  }

  /** The verdict, entry by entry: which URI, whether nothing is said, and which identifier is delegated. */
  lemma VerdictIff(g: Graph, st: State, e: Entry, pubID: Option<string>, sysID: Option<string>)
    requires Ready(g, st) && Known(g, e)
    ensures var v := VerdictOn(g, st, e, pubID, sysID);
      && (forall uri :: v == Answer(Uri(uri)) <==> SaysUri(g, st, e, pubID, sysID, uri))
      && (v == Proceed <==> Silent(g, st, e, pubID, sysID))
      && (v.Delegate? ==> Delegates(g, st, e, v.kind, v.id)
                          && if v.kind == IsDelegateSystem then sysID == Some(v.id) else pubID == Some(v.id))
  {
    hide Ready, FirstMatch, LongestRewrite, AnyDelegate, Delegates, RuleSays, NoRule, RewrittenUri;
    hide MatchSays, NoMatch;
    ReadyWell(g, st);
    if sysID.Some? {
      MatchIs(g, e, IsSystem, sysID.value);
      RuleIs(g, e, sysID.value);
      DelegatesIs(g, st, e, IsDelegateSystem, sysID.value);
      NotBothSaid(g, e, IsSystem, sysID.value);
      NoRuleSaid(g, e, sysID.value);
    }
    if pubID.Some? {
      MatchIs(g, e, IsPublic, pubID.value);
      DelegatesIs(g, st, e, IsDelegatePublic, pubID.value);
      NotBothSaid(g, e, IsPublic, pubID.value);
    }
  }

  lemma NotBothSaid(g: Graph, e: Entry, kind: Kind, id: string)
    requires WellFormed(g) && Known(g, e)
    ensures NoMatch(g, e, kind, id) ==> forall uri :: !MatchSays(g, e, kind, id, uri)
  {
  }

  lemma NoRuleSaid(g: Graph, e: Entry, id: string)
    requires WellFormed(g) && Known(g, e)
    ensures NoRule(g, e, id) ==> forall uri :: !RuleSays(g, e, id, uri)
  {
  }

  // ---------------------------------------------------------------- which entries are followed

  /** What following an entry gives: the search of the entries of a catalog, or of the catalogs that a delegate
      or next catalog refers to. */
  ghost function Following(g: Graph, st: State, x: Entry, pubID: Option<string>, sysID: Option<string>): (r: (Resolved, State))
    requires MayFetch(g, st, x)
    ensures Ready(g, r.1)
  {
    if x.kind != IsCatalog then TryOne(g, st, x, pubID, sysID)
    else
      var f := Fetched(g, st, x);
      if f.children[x.id] == null then (NotFound, f) else XMLResolve(g, f, f.children[x.id], pubID, sysID)
  }

  /** One entry after the other, each in the state the one before has left. */
  ghost predicate Followed(g: Graph, xs: seq<Entry>, sts: seq<State>, pubID: Option<string>, sysID: Option<string>) {
    && |sts| == |xs| + 1 && (forall k :: 0 <= k < |sts| ==> Ready(g, sts[k]))
    && forall k :: 0 <= k < |xs| ==>
         && MayFetch(g, sts[k], xs[k])
         && Following(g, sts[k], xs[k], pubID, sysID).1 == sts[k + 1]
         && (k < |xs| - 1 ==> Following(g, sts[k], xs[k], pubID, sysID).0 == NotFound)
  }

  /** What the last of them gave. */
  ghost function LastOf(g: Graph, xs: seq<Entry>, sts: seq<State>, pubID: Option<string>, sysID: Option<string>): Resolved
    requires Followed(g, xs, sts, pubID, sysID)
  {
    if xs == [] then NotFound else Following(g, sts[|xs| - 1], xs[|xs| - 1], pubID, sysID).0
  }

  /** Entries of a list, in its order. */
  ghost predicate InOrder(g: Graph, cur: Entry?, xs: seq<Entry>)
    requires WellFormed(g) && KnownOrNull(g, cur)
  {
    && (forall k :: 0 <= k < |xs| ==> InList(g, cur, xs[k]) && Known(g, xs[k]) && KnownOrNull(g, xs[k].next))
    && forall j, k :: 0 <= j < k < |xs| ==> InList(g, xs[j].next, xs[k])
  }

  /** One entry that may be followed, and what following it gives. */
  ghost predicate Follow(g: Graph, st: State, x: Entry, pubID: Option<string>, sysID: Option<string>, r: Resolved, out: State) {
    Ready(g, st) && Ready(g, out) && MayFetch(g, st, x) && Following(g, st, x, pubID, sysID) == (r, out)
  }

  lemma FollowedNone(g: Graph, st: State, pubID: Option<string>, sysID: Option<string>)
    requires Ready(g, st)
    ensures Followed(g, [], [st], pubID, sysID) && LastOf(g, [], [st], pubID, sysID) == NotFound
  {
    hide Ready;
  }

  lemma FollowedOne(g: Graph, st: State, x: Entry, pubID: Option<string>, sysID: Option<string>, r: Resolved, out: State)
    requires Follow(g, st, x, pubID, sysID, r, out)
    ensures Followed(g, [x], [st, out], pubID, sysID) && LastOf(g, [x], [st, out], pubID, sysID) == r
  {
    hide Following;
  }

  lemma FollowedFirst(g: Graph, st: State, x: Entry, xs: seq<Entry>, sts: seq<State>, pubID: Option<string>, sysID: Option<string>)
    requires Followed(g, xs, sts, pubID, sysID) && Follow(g, st, x, pubID, sysID, NotFound, sts[0])
    ensures Followed(g, [x] + xs, [st] + sts, pubID, sysID)
    ensures LastOf(g, [x] + xs, [st] + sts, pubID, sysID) == LastOf(g, xs, sts, pubID, sysID)
  {
    hide Following, MayFetch, Ready;
    var ys, us := [x] + xs, [st] + sts;
    assert forall k :: 1 <= k < |us| ==> us[k] == sts[k - 1];
    assert forall k :: 1 <= k < |ys| ==> ys[k] == xs[k - 1];
  }

  lemma {:induction false} InListLater(g: Graph, cur: Entry, x: Entry)
    requires WellFormed(g) && Known(g, cur) && KnownOrNull(g, cur.next) && InList(g, cur.next, x)
    ensures InList(g, cur, x)
  {
  }

  lemma OrderFirst(g: Graph, cur: Entry, xs: seq<Entry>)
    requires WellFormed(g) && Known(g, cur) && KnownOrNull(g, cur.next) && InOrder(g, cur.next, xs)
    ensures InOrder(g, cur, xs) && InOrder(g, cur, [cur] + xs)
  {
    hide WellFormed;
    forall k | 0 <= k < |xs| ensures InList(g, cur, xs[k]) {
      InListLater(g, cur, xs[k]);
    }
    var ys := [cur] + xs;
    assert forall k :: 1 <= k < |ys| ==> ys[k] == xs[k - 1];
    assert InList(g, cur, cur);
  }

  /** How the search of delegates begins. */
  lemma TryDelegatesFirst(g: Graph, st: State, cur: Entry, kind: Kind, id: string, tried: seq<Option<string>>)
    requires Ready(g, st) && Known(g, cur) && KnownOrNull(g, cur.next)
    ensures TryDelegates(g, st, cur, kind, id, tried)
         == if st.broken[cur.id] || !Refers(cur.kind) || !IsDelegate(cur, kind, id) || cur.url in tried
            then TryDelegates(g, st, cur.next, kind, id, tried)
            else
              var (ret, out) := TryOne(g, st, cur, Delegated(kind, id).0, Delegated(kind, id).1);
              if ret != NotFound then (ret, out)
              else TryDelegates(g, out, cur.next, kind, id, if |tried| < MAX_DELEGATE then tried + [cur.url] else tried)
  {
    hide TryOne, Kept, WellFormed;
  }

  lemma TryNoDelegates(g: Graph, st: State, kind: Kind, id: string, tried: seq<Option<string>>)
    requires Ready(g, st)
    ensures TryDelegates(g, st, null, kind, id, tried) == (NotFound, st)
  {
  }

  /** A URL that was followed earlier or is among these. */
  ghost predicate UrlFollowed(x: Entry, tried: seq<Option<string>>, xs: seq<Entry>) {
    x.url in tried || exists k :: 0 <= k < |xs| && xs[k].url == x.url
  }

  /** The first URLs are different ones, and none of those followed earlier. */
  ghost predicate UrlsApart(tried: seq<Option<string>>, xs: seq<Entry>) {
    && (forall k :: 0 <= k < |xs| ==> xs[k].url !in tried)
    && forall j, k :: 0 <= j < k < |xs| && |tried| + j < MAX_DELEGATE ==> xs[j].url != xs[k].url
  }

  lemma UrlsMore(tried: seq<Option<string>>, x: Entry, xs: seq<Entry>)
    requires x.url !in tried && UrlsApart(if |tried| < MAX_DELEGATE then tried + [x.url] else tried, xs)
    ensures UrlsApart(tried, [x] + xs)
    ensures forall y :: UrlFollowed(y, if |tried| < MAX_DELEGATE then tried + [x.url] else tried, xs) ==> UrlFollowed(y, tried, [x] + xs)
  {
    var ys := [x] + xs;
    assert ys[0] == x && forall k :: 1 <= k < |ys| ==> ys[k] == xs[k - 1];
    forall y | UrlFollowed(y, if |tried| < MAX_DELEGATE then tried + [x.url] else tried, xs)
      ensures UrlFollowed(y, tried, ys)
    {
      if y.url !in tried && y.url != x.url {
        var k :| 0 <= k < |xs| && xs[k].url == y.url;
        assert ys[k + 1].url == y.url;
      }
    }
  }

  /** The delegates that are followed: in the order of the list, no URL twice among the first of them, until one
      gives something; and if none does, every delegate that is not broken by then has had its URL followed. */
  lemma {:induction false} DelegatesFollowed(g: Graph, st: State, cur: Entry?, kind: Kind, id: string, tried: seq<Option<string>>)
      returns (xs: seq<Entry>, sts: seq<State>)
    requires Ready(g, st) && KnownOrNull(g, cur) && (kind == IsDelegateSystem || kind == IsDelegatePublic)
    ensures var (public, system) := Delegated(kind, id);
      var r := TryDelegates(g, st, cur, kind, id, tried);
      && Followed(g, xs, sts, public, system) && sts[0] == st && sts[|xs|] == r.1 && LastOf(g, xs, sts, public, system) == r.0
    ensures InOrder(g, cur, xs) && UrlsApart(tried, xs) && forall k :: 0 <= k < |xs| ==> IsDelegate(xs[k], kind, id)
    ensures var r := TryDelegates(g, st, cur, kind, id, tried);
      r.0 == NotFound ==> forall x :: InList(g, cur, x) && Known(g, x) && IsDelegate(x, kind, id) && !r.1.broken[x.id] ==>
        UrlFollowed(x, tried, xs)
    decreases Length(cur)
  {
    hide TryDelegates, Following, TryOne, Kept, Followed, LastOf, UrlsApart, UrlFollowed, InOrder;
    var (public, system) := Delegated(kind, id);
    if cur == null {
      xs, sts := [], [st];
      TryNoDelegates(g, st, kind, id, tried);
      FollowedNone(g, st, public, system);
      NoneInOrder(g, cur, tried);
    } else {
      NextIs(g, cur);
      TryDelegatesFirst(g, st, cur, kind, id, tried);
      if st.broken[cur.id] || !Refers(cur.kind) || !IsDelegate(cur, kind, id) || cur.url in tried {
        xs, sts := DelegatesFollowed(g, st, cur.next, kind, id, tried);
        OrderFirst(g, cur, xs);
        BrokenStays(g, st, TryDelegates(g, st, cur.next, kind, id, tried).1, cur);
        TriedFollowed(cur, tried, xs);
      } else {
        var (ret, out) := Following(g, st, cur, public, system);
        FollowingOther(g, st, cur, public, system);
        if ret != NotFound {
          xs, sts := [cur], [st, out];
          FollowedOne(g, st, cur, public, system, ret, out);
          NoneInOrder(g, cur.next, tried);
          OrderFirst(g, cur, []);
          OneApart(tried, cur);
          assert [cur] + [] == [cur];
        } else {
          var tried' := if |tried| < MAX_DELEGATE then tried + [cur.url] else tried;
          xs, sts := DelegatesFollowed(g, out, cur.next, kind, id, tried');
          FollowedFirst(g, st, cur, xs, sts, public, system);
          OrderFirst(g, cur, xs);
          UrlsMore(tried, cur, xs);
          FirstFollowed(cur, tried, xs);
          xs, sts := [cur] + xs, [st] + sts;
        }
      }
    }
  }

  lemma NoneInOrder(g: Graph, cur: Entry?, tried: seq<Option<string>>)
    requires WellFormed(g) && KnownOrNull(g, cur)
    ensures InOrder(g, cur, []) && UrlsApart(tried, [])
  {
    hide WellFormed;
  }

  lemma OneApart(tried: seq<Option<string>>, x: Entry)
    requires x.url !in tried
    ensures UrlsApart(tried, [x])
  {
  }

  lemma BrokenStays(g: Graph, a: State, b: State, x: Entry)
    requires Ready(g, a) && Ready(g, b) && Kept(g, a, b) && Known(g, x)
    ensures a.broken[x.id] ==> b.broken[x.id]
  {
    hide SameChildren, OnePreference;
  }

  lemma TriedFollowed(x: Entry, tried: seq<Option<string>>, xs: seq<Entry>)
    ensures x.url in tried ==> UrlFollowed(x, tried, xs)
  {
  }

  lemma FirstFollowed(x: Entry, tried: seq<Option<string>>, xs: seq<Entry>)
    ensures UrlFollowed(x, tried, [x] + xs)
  {
    assert ([x] + xs)[0] == x;
  }

  lemma NoNext(g: Graph, st: State, e: Entry, pubID: Option<string>, sysID: Option<string>)
    requires Ready(g, st) && Known(g, e)
    ensures TryNext(g, st, e, null, pubID, sysID) == (NotFound, false, st)
  {
  }

  /** The list `e` is being searched too often, and the entry did refer to something. */
  predicate Spent(st: State, e: Entry, x: Entry) {
    && x.id < |st.children| && st.children[x.id] != null
    && e.id < |st.depths| && st.depths[e.id] > MAX_CATAL_DEPTH
  }

  /** Next catalogs, none of which but perhaps the last has led back to `e` too often. */
  ghost predicate NextOnes(e: Entry, xs: seq<Entry>, sts: seq<State>, ret: Resolved, spent: bool) {
    && |sts| == |xs| + 1 && (forall k :: 0 <= k < |xs| ==> xs[k].kind == IsNext)
    && (forall k :: 0 <= k < |xs| - 1 ==> !Spent(sts[k + 1], e, xs[k]))
    && (xs == [] ==> !spent) && (xs != [] && ret == NotFound ==> (spent <==> Spent(sts[|xs|], e, xs[|xs| - 1])))
    && (spent ==> ret == NotFound)
  }

  ghost predicate AllNext(g: Graph, cur: Entry?, st: State, xs: seq<Entry>)
    requires Ready(g, st) && KnownOrNull(g, cur)
  {
    forall i :: 0 <= i < |g.entries| && InList(g, cur, g.entries[i]) && g.entries[i].kind == IsNext && !st.broken[i] ==>
      g.entries[i] in xs
  }

  lemma NextMore(e: Entry, x: Entry, st: State, xs: seq<Entry>, sts: seq<State>, ret: Resolved, spent: bool)
    requires NextOnes(e, xs, sts, ret, spent) && x.kind == IsNext && !Spent(sts[0], e, x)
    ensures NextOnes(e, [x] + xs, [st] + sts, ret, spent)
  {
    hide Spent;
    var ys, us := [x] + xs, [st] + sts;
    assert us[1] == sts[0];
    forall k | 0 < k < |ys| ensures ys[k].kind == IsNext && (k < |ys| - 1 ==> !Spent(us[k + 1], e, ys[k])) {
      assert ys[k] == xs[k - 1] && us[k + 1] == sts[k];
    }
    assert us[|ys|] == sts[|xs|] && (xs != [] ==> ys[|ys| - 1] == xs[|xs| - 1]);
  }

  lemma AllNextMore(g: Graph, cur: Entry, st: State, xs: seq<Entry>)
    requires Ready(g, st) && Known(g, cur) && KnownOrNull(g, cur.next) && AllNext(g, cur.next, st, xs)
    ensures AllNext(g, cur, st, [cur] + xs)
    ensures st.broken[cur.id] || cur.kind != IsNext ==> AllNext(g, cur, st, xs)
  {
  }

  /** The next catalogs that are followed: in the order of the list, until one gives something or has led back
      here too often; else all that are not broken. */
  lemma {:induction false} NextFollowed(g: Graph, st: State, e: Entry, cur: Entry?, pubID: Option<string>, sysID: Option<string>)
      returns (xs: seq<Entry>, sts: seq<State>)
    requires Ready(g, st) && Known(g, e) && KnownOrNull(g, cur)
    ensures var r := TryNext(g, st, e, cur, pubID, sysID);
      && Followed(g, xs, sts, pubID, sysID) && sts[0] == st && sts[|xs|] == r.2 && LastOf(g, xs, sts, pubID, sysID) == r.0
      && InOrder(g, cur, xs) && NextOnes(e, xs, sts, r.0, r.1) && (r.0 == NotFound && !r.1 ==> AllNext(g, cur, r.2, xs))
    decreases Length(cur)
  {
    hide TryNext, Following, TryOne, Kept, Followed, LastOf, InOrder, NextOnes, AllNext;
    if cur == null {
      xs, sts := [], [st];
      NoNext(g, st, e, pubID, sysID);
      FollowedNone(g, st, pubID, sysID);
      NoneInOrder(g, cur, []);
      NoNextOnes(g, e, st);
    } else {
      NextIs(g, cur);
      TryNextFirst(g, st, e, cur, pubID, sysID);
      if st.broken[cur.id] || cur.kind != IsNext {
        xs, sts := NextFollowed(g, st, e, cur.next, pubID, sysID);
        var r := TryNext(g, st, e, cur.next, pubID, sysID);
        OrderFirst(g, cur, xs);
        BrokenStays(g, st, r.2, cur);
        if r.0 == NotFound && !r.1 {
          AllNextMore(g, cur, r.2, xs);
        }
      } else {
        var (ret, out) := Following(g, st, cur, pubID, sysID);
        FollowingOther(g, st, cur, pubID, sysID);
        if ret != NotFound || Spent(out, e, cur) {
          xs, sts := [cur], [st, out];
          FollowedOne(g, st, cur, pubID, sysID, ret, out);
          NoneInOrder(g, cur.next, []);
          OrderFirst(g, cur, []);
          OneNext(e, cur, st, out, ret);
          assert [cur] + [] == [cur];
        } else {
          xs, sts := NextFollowed(g, out, e, cur.next, pubID, sysID);
          var r := TryNext(g, out, e, cur.next, pubID, sysID);
          FollowedFirst(g, st, cur, xs, sts, pubID, sysID);
          OrderFirst(g, cur, xs);
          NextMore(e, cur, st, xs, sts, r.0, r.1);
          if r.0 == NotFound && !r.1 {
            AllNextMore(g, cur, r.2, xs);
          }
          xs, sts := [cur] + xs, [st] + sts;
        }
      }
    }
  }

  lemma NoNextOnes(g: Graph, e: Entry, st: State)
    requires Ready(g, st)
    ensures NextOnes(e, [], [st], NotFound, false) && AllNext(g, null, st, [])
  {
  }

  lemma OneNext(e: Entry, x: Entry, st: State, out: State, ret: Resolved)
    requires x.kind == IsNext && (ret != NotFound || Spent(out, e, x))
    ensures NextOnes(e, [x], [st, out], ret, ret == NotFound)
  {
  }

  lemma FollowingOther(g: Graph, st: State, x: Entry, pubID: Option<string>, sysID: Option<string>)
    requires MayFetch(g, st, x) && x.kind != IsCatalog
    ensures Following(g, st, x, pubID, sysID) == TryOne(g, st, x, pubID, sysID)
  {
  }

  /** The entries of a catalog are being searched too often. */
  predicate Over(st: State, x: Entry) {
    && x.id < |st.children| && st.children[x.id] != null
    && st.children[x.id].id < |st.depths| && st.depths[st.children[x.id].id] > MAX_CATAL_DEPTH
  }

  /** Catalogs, none of which but perhaps the last is being searched too often. */
  ghost predicate CatalogOnes(xs: seq<Entry>, sts: seq<State>) {
    && |sts| == |xs| + 1 && (forall k :: 0 <= k < |xs| ==> xs[k].kind == IsCatalog)
    && forall k :: 0 <= k < |xs| - 1 ==> !Over(sts[k + 1], xs[k])
  }

  ghost predicate LastOver(xs: seq<Entry>, st: State) {
    xs != [] && Over(st, xs[|xs| - 1])
  }

  ghost predicate AllCatalogs(g: Graph, cur: Entry?, st: State, xs: seq<Entry>)
    requires Ready(g, st) && KnownOrNull(g, cur)
  {
    forall i :: 0 <= i < |g.entries| && InList(g, cur, g.entries[i]) && g.entries[i].kind == IsCatalog && !st.broken[i] ==>
      g.entries[i] in xs
  }

  lemma CatalogMore(x: Entry, st: State, xs: seq<Entry>, sts: seq<State>)
    requires CatalogOnes(xs, sts) && x.kind == IsCatalog && (xs != [] ==> !Over(sts[0], x))
    ensures CatalogOnes([x] + xs, [st] + sts) && (xs != [] ==> forall s :: LastOver([x] + xs, s) <==> LastOver(xs, s))
  {
    hide Over;
    var ys, us := [x] + xs, [st] + sts;
    assert us[1] == sts[0];
    forall k | 0 < k < |ys| ensures ys[k].kind == IsCatalog && (k < |ys| - 1 ==> !Over(us[k + 1], ys[k])) {
      assert ys[k] == xs[k - 1] && us[k + 1] == sts[k];
    }
    assert xs != [] ==> ys[|ys| - 1] == xs[|xs| - 1];
  }

  lemma AllCatalogsMore(g: Graph, cur: Entry, st: State, xs: seq<Entry>)
    requires Ready(g, st) && Known(g, cur) && KnownOrNull(g, cur.next) && AllCatalogs(g, cur.next, st, xs)
    ensures AllCatalogs(g, cur, st, [cur] + xs)
    ensures st.broken[cur.id] || cur.kind != IsCatalog ==> AllCatalogs(g, cur, st, xs)
  {
  }

  /** What follows a catalog in the search of a list of them. */
  lemma CatalogFirst(g: Graph, st: State, cur: Entry, pubID: Option<string>, sysID: Option<string>)
    requires Ready(g, st) && Known(g, cur) && KnownOrNull(g, cur.next)
    ensures SearchAll(g, st, cur, pubID, sysID)
         == if st.broken[cur.id] || cur.kind != IsCatalog then SearchAll(g, st, cur.next, pubID, sysID)
            else
              var (ret, out) := Following(g, st, cur, pubID, sysID);
              if ret != NotFound || Over(out, cur) then (ret, out) else SearchAll(g, out, cur.next, pubID, sysID)
  {
    hide SearchAll, XMLResolve, Fetched, Kept, WellFormed;
    SearchAllFirst(g, st, cur, pubID, sysID);
    if !st.broken[cur.id] && cur.kind == IsCatalog {
      var f := Fetched(g, st, cur);
      var c := f.children[cur.id];
      if c != null {
        StillTheSame(g, f, XMLResolve(g, f, c, pubID, sysID).1, cur);
      }
    }
  }

  /** The catalogs of a list that are searched: in its order, until one gives something or is being searched
      too often; else all that are not broken. */
  lemma {:induction false} CatalogsFollowed(g: Graph, st: State, cur: Entry?, pubID: Option<string>, sysID: Option<string>)
      returns (xs: seq<Entry>, sts: seq<State>)
    requires Ready(g, st) && KnownOrNull(g, cur)
    ensures var r := SearchAll(g, st, cur, pubID, sysID);
      && Followed(g, xs, sts, pubID, sysID) && sts[0] == st && sts[|xs|] == r.1 && LastOf(g, xs, sts, pubID, sysID) == r.0
      && InOrder(g, cur, xs) && CatalogOnes(xs, sts)
      && (r.0 == NotFound && !LastOver(xs, r.1) ==> AllCatalogs(g, cur, r.1, xs))
    decreases Length(cur)
  {
    hide SearchAll, Following, Kept, Followed, LastOf, InOrder, CatalogOnes, AllCatalogs, LastOver, Over;
    if cur == null {
      xs, sts := [], [st];
      SearchAllNone(g, st, pubID, sysID);
      FollowedNone(g, st, pubID, sysID);
      NoneInOrder(g, cur, []);
      NoCatalogs(g, st);
    } else {
      NextIs(g, cur);
      CatalogFirst(g, st, cur, pubID, sysID);
      if st.broken[cur.id] || cur.kind != IsCatalog {
        xs, sts := CatalogsFollowed(g, st, cur.next, pubID, sysID);
        var out := SearchAll(g, st, cur.next, pubID, sysID).1;
        OrderFirst(g, cur, xs);
        BrokenStays(g, st, out, cur);
        if AllCatalogs(g, cur.next, out, xs) {
          AllCatalogsMore(g, cur, out, xs);
        }
      } else {
        var (ret, out) := Following(g, st, cur, pubID, sysID);
        if ret != NotFound || Over(out, cur) {
          xs, sts := [cur], [st, out];
          FollowedOne(g, st, cur, pubID, sysID, ret, out);
          NoneInOrder(g, cur.next, []);
          OrderFirst(g, cur, []);
          OneCatalog(cur, st, out);
          assert [cur] + [] == [cur];
        } else {
          xs, sts := CatalogsFollowed(g, out, cur.next, pubID, sysID);
          var end := SearchAll(g, out, cur.next, pubID, sysID).1;
          FollowedFirst(g, st, cur, xs, sts, pubID, sysID);
          OrderFirst(g, cur, xs);
          CatalogMore(cur, st, xs, sts);
          NoneLeftOut(xs, end);
          if AllCatalogs(g, cur.next, end, xs) {
            AllCatalogsMore(g, cur, end, xs);
          }
          xs, sts := [cur] + xs, [st] + sts;
        }
      }
    }
  }

  lemma NoneLeftOut(xs: seq<Entry>, st: State)
    ensures xs == [] ==> !LastOver(xs, st)
  {
  }

  lemma NoCatalogs(g: Graph, st: State)
    requires Ready(g, st)
    ensures CatalogOnes([], [st]) && AllCatalogs(g, null, st, [])
  {
  }

  lemma OneCatalog(x: Entry, st: State, out: State)
    requires x.kind == IsCatalog
    ensures CatalogOnes([x], [st, out]) && (LastOver([x], out) <==> Over(out, x))
  {
  }
}
