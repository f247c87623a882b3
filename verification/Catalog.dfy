/** Resolving an external identifier through XML catalogs, on entries that are updated in place:
    depths counted, files fetched when first needed. */
module Catalog {
  import opened Options
  import opened CatalogIds
  import opened CatalogSearch
  import opened CatalogWalks
  import opened CatalogOutcomes
  import opened CatalogResults

  class Catalogs {
    const entries: seq<Entry>                    // of all catalogs, fetched or not
    const world: map<(Prefer, string), Entry>    // what a file at a URL parses into
    var files: map<string, Entry>                // the files fetched so far
    ghost var state: State

    ghost function Map(): Graph {
      Graph(entries, world)
    }

    ghost predicate Valid()
      reads this, entries
    {
      && Ready(Map(), state) && state.files == files
      && forall i :: 0 <= i < |entries| ==>
           && entries[i].depth == state.depths[i] && entries[i].broken == state.broken[i]
           && entries[i].children == state.children[i]
    }

    /** Nothing is fetched yet but what the entries come with. */
    constructor (entries: seq<Entry>, world: map<(Prefer, string), Entry>)
      requires WellFormed(Graph(entries, world))
      requires forall i :: 0 <= i < |entries| ==>
        && entries[i].depth == 0 && !entries[i].broken
        && KnownOrNull(Graph(entries, world), entries[i].children)
      ensures Valid() && this.entries == entries && this.world == world && files == map[]
      ensures forall i :: 0 <= i < |entries| ==> state.depths[i] == 0
    {
      this.entries, this.world, files := entries, world, map[];
      state := State(seq(|entries|, _ => 0),
                           seq(|entries|, i requires 0 <= i < |entries| reads entries => entries[i].children),
                           seq(|entries|, _ => false), map[]);
    }

    // -------------------------------------------------------------- one entry

    /** Counts a list as being searched. */
    method Enter(catal: Entry)
      requires Valid() && Known(Map(), catal)
      modifies this`state, catal`depth
      ensures Valid() && state == CountedIn(old(state), catal.id)
    {
      ChildrenIgnoreDepths(Map(), state, CountedIn(state, catal.id).depths);
      catal.depth := catal.depth + 1;
      state := CountedIn(state, catal.id);
    }

    method Leave(catal: Entry)
      requires Valid() && Known(Map(), catal) && catal.depth > 0
      modifies this`state, catal`depth
      ensures Valid() && state == CountedOut(old(state), catal.id)
    {
      ChildrenIgnoreDepths(Map(), state, CountedOut(state, catal.id).depths);
      catal.depth := catal.depth - 1;
      state := CountedOut(state, catal.id);
    }

    /** The file at a URL is found among those parsed before, or parsed. */
    method ParseXMLCatalogFile(catal: Entry) returns (doc: Entry?)
      requires Valid()
      ensures doc == FileOf(Map(), state, catal)
    {
      if catal.url.None? {
        return null;
      }
      var url := catal.url.value;
      if url in files {
        doc := files[url];
      } else if (catal.prefer, url) in world {
        doc := world[(catal.prefer, url)];
      } else {
        doc := null;
      }
    }

    method SetBroken(catal: Entry)
      requires Valid() && Known(Map(), catal)
      requires Ready(Map(), state.(broken := state.broken[catal.id := true]))
      modifies this`state, catal`broken
      ensures Valid() && state == old(state).(broken := old(state).broken[catal.id := true])
    {
      hide Ready;
      SizedIs(Map(), state);
      catal.broken := true;
      state := state.(broken := state.broken[catal.id := true]);
    }

    method SetChildren(catal: Entry, first: Entry?, url: string, doc: Entry)
      requires Valid() && Known(Map(), catal)
      requires Ready(Map(), state.(children := state.children[catal.id := first], files := state.files[url := doc]))
      modifies this`state, this`files, catal`children
      ensures Valid()
      ensures state == old(state).(children := old(state).children[catal.id := first], files := old(state).files[url := doc])
    {
      hide Ready;
      SizedIs(Map(), state);
      catal.children := first;
      files := files[url := doc];
      state := state.(children := state.children[catal.id := first], files := state.files[url := doc]);
    }

    /** An entry gets what its file has for it. A file that does not parse makes it a broken one. */
    method FetchXMLCatalogFile(catal: Entry)
      requires Valid() && MayFetch(Map(), state, catal) && catal.children == null
      modifies this`files, this`state, catal`children, catal`broken
      ensures Valid() && state == Fetched(Map(), old(state), catal)
    {
      FetchedIs(Map(), state, catal);
      if catal.url.None? {
        return;
      }
      var doc := ParseXMLCatalogFile(catal);
      hide Fetched, FileOf, WellFormed, FileFromWorld, Refers;
      if doc == null {
        SetBroken(catal);
      } else {
        SetChildren(catal, if catal.kind == IsCatalog then doc.children else doc, catal.url.value, doc);
      }
    }

    // -------------------------------------------------------------- one list

    /** The first pass over a list, for a system identifier. */
    method ScanSystem(catal: Entry, sysID: string)
        returns (found: Entry?, rewrite: Entry?, haveDelegate: bool, haveNext: bool)
      requires Valid() && Known(Map(), catal)
      ensures found == FirstMatch(Map(), catal, IsSystem, sysID)
      ensures found == null ==> rewrite == LongestRewrite(Map(), catal, sysID, null)
      ensures found == null ==> (haveDelegate <==> AnyDelegate(Map(), state, catal, IsDelegateSystem, sysID))
      ensures found == null ==> (haveNext <==> AnyNext(Map(), state, catal))
    {
      ghost var g := Map();
      found, rewrite, haveDelegate, haveNext := null, null, false, false;
      var cur: Entry? := catal;
      var lenrewrite := 0;
      while cur != null
        invariant KnownOrNull(g, cur) && lenrewrite == NameLength(rewrite)
        invariant FirstMatch(g, cur, IsSystem, sysID) == FirstMatch(g, catal, IsSystem, sysID)
        invariant LongestRewrite(g, cur, sysID, rewrite) == LongestRewrite(g, catal, sysID, null)
        invariant haveDelegate || AnyDelegate(g, state, cur, IsDelegateSystem, sysID)
             <==> AnyDelegate(g, state, catal, IsDelegateSystem, sysID)
        invariant haveNext || AnyNext(g, state, cur) <==> AnyNext(g, state, catal)
        decreases Length(cur)
      {
        NextIs(g, cur);
        if !cur.broken {
          match cur.kind
          case IsSystem =>
            if cur.name == Some(sysID) {
              found := cur;
              return;
            }
          case IsRewrite =>
            var len := NameLength(cur);
            if len > lenrewrite && NamePrefixes(cur, sysID) {
              lenrewrite := len;
              rewrite := cur;
            }
          case IsDelegateSystem =>
            if NamePrefixes(cur, sysID) {
              haveDelegate := true;
            }
          case IsNext =>
            haveNext := true;
          case _ =>
        }
        cur := cur.next;
      }
    }

    /** The same for a public identifier. */
    method ScanPublic(catal: Entry, pubID: string) returns (found: Entry?, haveDelegate: bool, haveNext: bool)
      requires Valid() && Known(Map(), catal)
      ensures found == FirstMatch(Map(), catal, IsPublic, pubID)
      ensures found == null ==> (haveDelegate <==> AnyDelegate(Map(), state, catal, IsDelegatePublic, pubID))
      ensures found == null ==> (haveNext <==> AnyNext(Map(), state, catal))
    {
      ghost var g := Map();
      found, haveDelegate, haveNext := null, false, false;
      var cur: Entry? := catal;
      while cur != null
        invariant KnownOrNull(g, cur)
        invariant FirstMatch(g, cur, IsPublic, pubID) == FirstMatch(g, catal, IsPublic, pubID)
        invariant haveDelegate || AnyDelegate(g, state, cur, IsDelegatePublic, pubID)
             <==> AnyDelegate(g, state, catal, IsDelegatePublic, pubID)
        invariant haveNext || AnyNext(g, state, cur) <==> AnyNext(g, state, catal)
        decreases Length(cur)
      {
        NextIs(g, cur);
        if !cur.broken {
          match cur.kind
          case IsPublic =>
            if cur.name == Some(pubID) {
              found := cur;
              return;
            }
          case IsDelegatePublic =>
            if NamePrefixes(cur, pubID) && cur.prefer == PreferPublic {
              haveDelegate := true;
            }
          case IsNext =>
            haveNext := true;
          case _ =>
        }
        cur := cur.next;
      }
    }

    // -------------------------------------------------------------- the search

    /** Fetches the catalog an entry refers to, if need be, and searches it. `tried`: there is one. */
    method TryOne(cur: Entry, pubID: Option<string>, sysID: Option<string>) returns (ret: Resolved, tried: bool)
      requires Valid() && MayFetch(Map(), state, cur)
      modifies this, entries
      ensures Valid() && (ret, state) == CatalogSearch.TryOne(Map(), old(state), cur, pubID, sysID)
      ensures tried <==> state.children[cur.id] != null
      decreases Budget(state.depths), 2, 1
    {
      hide SameChildren, OnePreference, Budget, CatalogSearch.ListXMLResolve;
      ghost var g, st := Map(), state;
      if cur.children == null {
        FetchXMLCatalogFile(cur);
      }
      ghost var f := Fetched(g, st, cur);
      assert state == f;
      ret, tried := NotFound, false;
      if cur.children != null {
        KeptBudget(g, st, f);
        ret := ListXMLResolve(cur.children, pubID, sysID);
        tried := true;
      }
    }

    /** The delegates of a list are tried in order, each URL once as long as there are no more than
        50 of them. */
    method TryDelegates(catal: Entry, kind: Kind, id: string) returns (ret: Resolved)
      requires Valid() && Known(Map(), catal) && (kind == IsDelegateSystem || kind == IsDelegatePublic)
      modifies this, entries
      ensures Valid() && (ret, state) == CatalogSearch.TryDelegates(Map(), old(state), catal, kind, id, [])
      decreases Budget(state.depths), 3, 0
    {
      hide SameChildren, OnePreference, Budget, CatalogSearch.TryOne, Kept;
      ghost var g, st := Map(), state;
      ret := NotFound;
      var delegates: seq<Option<string>> := [];
      var cur: Entry? := catal;
      KeptNothing(g, st);
      while cur != null
        invariant Valid() && KnownOrNull(g, cur) && ret == NotFound && Kept(g, st, state)
        invariant CatalogSearch.TryDelegates(g, state, cur, kind, id, delegates)
               == CatalogSearch.TryDelegates(g, st, catal, kind, id, [])
        decreases Length(cur)
      {
        NextIs(g, cur);
        if !cur.broken && IsDelegate(cur, kind, id) && cur.url !in delegates {
          if |delegates| < MAX_DELEGATE {
            delegates := delegates + [cur.url];
          }
          KeptBudget(g, st, state);
          ghost var before := state;
          var tried;
          if kind == IsDelegateSystem {
            ret, tried := TryOne(cur, None, Some(id));
          } else {
            ret, tried := TryOne(cur, Some(id), None);
          }
          KeptTrans(g, st, before, state);
          if ret != NotFound {
            return;
          }
        }
        cur := cur.next;
      }
    }

    /** The catalogs to try next. `spent`: one of them has led back here too often. */
    method TryNext(catal: Entry, pubID: Option<string>, sysID: Option<string>) returns (ret: Resolved, spent: bool)
      requires Valid() && Known(Map(), catal)
      modifies this, entries
      ensures Valid() && (ret, spent, state) == CatalogSearch.TryNext(Map(), old(state), catal, catal, pubID, sysID)
      decreases Budget(state.depths), 3, 0
    {
      hide SameChildren, OnePreference, Budget, CatalogSearch.TryOne, Kept;
      ghost var g, st := Map(), state;
      ret, spent := NotFound, false;
      var cur: Entry? := catal;
      KeptNothing(g, st);
      while cur != null
        invariant Valid() && KnownOrNull(g, cur) && ret == NotFound && Kept(g, st, state)
        invariant CatalogSearch.TryNext(g, state, catal, cur, pubID, sysID)
               == CatalogSearch.TryNext(g, st, catal, catal, pubID, sysID)
        decreases Length(cur)
      {
        NextIs(g, cur);
        if !cur.broken && cur.kind == IsNext {
          KeptBudget(g, st, state);
          ghost var before := state;
          var tried;
          ret, tried := TryOne(cur, pubID, sysID);
          KeptTrans(g, st, before, state);
          if ret != NotFound {
            return;
          } else if tried && catal.depth > MAX_CATAL_DEPTH {
            spent := true;
            return;
          }
        }
        cur := cur.next;
      }
    }

    /** A list of catalogs: the identifiers are normalized and unwrapped first, then the catalogs
        are searched in order. */
    method ListXMLResolve(catal: Entry?, pubID: Option<string>, sysID: Option<string>) returns (ret: Resolved)
      requires Valid() && KnownOrNull(Map(), catal)
      modifies this, entries
      ensures Valid() && (ret, state) == CatalogSearch.ListXMLResolve(Map(), old(state), catal, pubID, sysID)
      decreases Budget(state.depths), 2, 0, Unwrappings(pubID, sysID)
    {
      hide SameChildren, OnePreference, Budget, CatalogSearch.SearchAll, Unwrappings, Effective, UnWrap, IsUrn;
      if catal == null || (pubID.None? && sysID.None?) {
        return NotFound;
      }
      var public := NormalizeForSearch(pubID);
      if public.Some? && IsUrn(public.value) {
        UnwrapPublic(pubID, sysID);
        var urnID := UnWrapURN(public.value);
        ret := ListXMLResolve(catal, urnID, sysID);
        return;
      }
      if sysID.Some? && IsUrn(sysID.value) {
        UnwrapSystem(pubID, sysID.value);
        var urnID := UnWrapURN(sysID.value);
        if public.None? {
          ret := ListXMLResolve(catal, urnID, None);
        } else if public == urnID {
          ret := ListXMLResolve(catal, public, None);
        } else {
          ret := ListXMLResolve(catal, public, urnID);
        }
        return;
      }
      ret := SearchAll(catal, public, sysID);
    }

    method NormalizeForSearch(pubID: Option<string>) returns (public: Option<string>)
      ensures public == Effective(pubID)
    {
      public := pubID;
      if pubID.Some? {
        var normid := NormalizePublic(pubID.value);
        NormalIff(pubID.value);
        if normid.Some? {
          public := if normid.value == "" then None else normid;
        }
      }
    }

    /** Fetches the list of entries of a catalog, if need be, and searches it. `stop`: it is being
        searched too often. */
    method SearchOne(catal: Entry, pubID: Option<string>, sysID: Option<string>) returns (ret: Resolved, stop: bool)
      requires Valid() && MayFetch(Map(), state, catal)
      modifies this, entries
      ensures Valid()
      ensures var f := Fetched(Map(), old(state), catal); var c := f.children[catal.id];
        if c == null then (ret, stop, state) == (NotFound, false, f)
        else
          && (ret, state) == CatalogSearch.XMLResolve(Map(), f, c, pubID, sysID)
          && (stop <==> ret == NotFound && state.depths[c.id] > MAX_CATAL_DEPTH)
      decreases Budget(state.depths), 1, 0
    {
      hide SameChildren, OnePreference, Budget, Kept, CatalogSearch.XMLResolve;
      ghost var g, st := Map(), state;
      ret, stop := NotFound, false;
      if catal.children == null {
        FetchXMLCatalogFile(catal);
      }
      ghost var f := Fetched(g, st, catal);
      assert state == f;
      if catal.children != null {
        KeptBudget(g, st, f);
        ret := XMLResolve(catal.children, pubID, sysID);
        StillTheSame(g, f, state, catal);
        stop := ret == NotFound && catal.children != null && catal.children.depth > MAX_CATAL_DEPTH;
      }
    }

    /** The catalogs of a list are searched in order, until something is found or one of them is
        being searched too often. */
    method SearchAll(first: Entry, pubID: Option<string>, sysID: Option<string>) returns (ret: Resolved)
      requires Valid() && Known(Map(), first)
      modifies this, entries
      ensures Valid() && (ret, state) == CatalogSearch.SearchAll(Map(), old(state), first, pubID, sysID)
      decreases Budget(state.depths), 1, 1
    {
      hide SameChildren, OnePreference, Budget, Kept, CatalogSearch.SearchAll, CatalogSearch.XMLResolve, Fetched;
      ghost var g, st := Map(), state;
      ret := NotFound;
      var catal: Entry? := first;
      KeptNothing(g, st);
      while catal != null
        invariant Valid() && KnownOrNull(g, catal) && ret == NotFound && Kept(g, st, state)
        invariant CatalogSearch.SearchAll(g, state, catal, pubID, sysID)
               == CatalogSearch.SearchAll(g, st, first, pubID, sysID)
        decreases Length(catal)
      {
        NextIs(g, catal);
        SearchAllFirst(g, state, catal, pubID, sysID);
        if !catal.broken && catal.kind == IsCatalog {
          KeptBudget(g, st, state);
          ghost var before := state;
          var stop;
          ret, stop := SearchOne(catal, pubID, sysID);
          ghost var f := Fetched(g, before, catal);
          KeptTrans(g, st, before, f);
          if f.children[catal.id] != null {
            KeptTrans(g, st, f, state);
          }
          if ret != NotFound || stop {
            return;
          }
        }
        catal := catal.next;
      }
      SearchAllNone(g, state, pubID, sysID);
    }

    /** System matches first, then rewriting rules, then delegates, which end the search; the same
        with the public identifier; then the catalogs that come next. */
    method SearchEntries(catal: Entry, pubID: Option<string>, sysID: Option<string>) returns (ret: Resolved, spent: bool)
      requires Valid() && Known(Map(), catal)
      modifies this, entries
      ensures Valid() && (ret, spent, state) == CatalogSearch.SearchEntries(Map(), old(state), catal, pubID, sysID)
      decreases Budget(state.depths), 4, 0
    {
      hide SameChildren, OnePreference, Budget, Kept, FirstMatch, LongestRewrite, AnyDelegate, AnyNext;
      hide CatalogSearch.TryDelegates, CatalogSearch.TryNext;
      ghost var g := Map();
      ret, spent := NotFound, false;
      var haveNext := false;
      if sysID.Some? {
        var found, rewrite, haveDelegate;
        found, rewrite, haveDelegate, haveNext := ScanSystem(catal, sysID.value);
        if found != null {
          return UriOf(found.url), false;
        } else if rewrite != null {
          return RewrittenUri(rewrite, sysID.value), false;
        } else if haveDelegate {
          ret := TryDelegates(catal, IsDelegateSystem, sysID.value);
          ret := if ret == NotFound then Cut else ret;
          return;
        }
      }
      if pubID.Some? {
        var found, haveDelegate, next := ScanPublic(catal, pubID.value);
        if found != null {
          return UriOf(found.url), false;
        } else if haveDelegate {
          ret := TryDelegates(catal, IsDelegatePublic, pubID.value);
          ret := if ret == NotFound then Cut else ret;
          return;
        }
        if sysID.None? {
          haveNext := next;
        }
      }
      if haveNext {
        ret, spent := TryNext(catal, pubID, sysID);
      } else if pubID.Some? || sysID.Some? {
        NoneNext(g, state, catal, catal, pubID, sysID);
      }
    }

    /** One list of entries. A list that is being searched 51 times over already is not searched
        again; and when that happens below this one, the count is not taken back. */
    method XMLResolve(catal: Entry, pubID: Option<string>, sysID: Option<string>) returns (ret: Resolved)
      requires Valid() && Known(Map(), catal)
      modifies this, entries
      ensures Valid() && (ret, state) == CatalogSearch.XMLResolve(Map(), old(state), catal, pubID, sysID)
      decreases Budget(state.depths), 0, 0
    {
      hide SameChildren, OnePreference, Budget, Kept, CatalogSearch.SearchEntries;
      ghost var g, st := Map(), state;
      if catal.depth > MAX_CATAL_DEPTH {
        return NotFound;
      }
      EnterFalls(g, st, catal.id);
      Enter(catal);
      var spent;
      ret, spent := SearchEntries(catal, pubID, sysID);
      SearchKeeps(g, st, catal.id, state);
      if !spent {
        Leave(catal);
      }
    }
  }

  // ---------------------------------------------------------------- from outside

  /** The result of a resolution from outside. */
  method Resolve(catalogs: Catalogs, first: Entry?, pubID: Option<string>, sysID: Option<string>)
      returns (uri: Option<string>)
    requires catalogs.Valid() && KnownOrNull(catalogs.Map(), first)
    modifies catalogs, catalogs.entries
    ensures catalogs.Valid()
    ensures var (ret, st) := ListXMLResolve(catalogs.Map(), old(catalogs.state), first, pubID, sysID);
      catalogs.state == st && uri == if ret.Uri? then Some(ret.uri) else None
  {
    hide ListXMLResolve;
    var ret := catalogs.ListXMLResolve(first, pubID, sysID);
    uri := if ret.Uri? then Some(ret.uri) else None;
  }

  /** One resolution after the other. With catalogs that do not lead back to a list, all depths are
      in the end what they were in the beginning. */
  method ResolveAll(catalogs: Catalogs, first: Entry?, asked: seq<(Option<string>, Option<string>)>)
      returns (uris: seq<Option<string>>)
    requires catalogs.Valid() && KnownOrNull(catalogs.Map(), first)
    modifies catalogs, catalogs.entries
    ensures catalogs.Valid() && |uris| == |asked|
    ensures var (rets, st) := Run(catalogs.Map(), old(catalogs.state), first, asked);
      catalogs.state == st && forall i :: 0 <= i < |asked| ==> uris[i] == if rets[i].Uri? then Some(rets[i].uri) else None
    ensures var (g, st) := (catalogs.Map(), old(catalogs.state));
      OnePreference(g) && AllBelow(st.depths) && NoWayBack(g, st, true, first) ==> catalogs.state.depths == st.depths
    decreases |asked|
  {
    hide ListXMLResolve, NoWayBack, OnePreference, AllBelow, Ready, Run;
    ghost var g, st := catalogs.Map(), catalogs.state;
    RunFirst(g, st, first, asked);
    if OnePreference(g) && AllBelow(st.depths) && NoWayBack(g, st, true, first) {
      RunRestores(g, st, first, asked);
    }
    if asked == [] {
      return [];
    }
    var uri := Resolve(catalogs, first, asked[0].0, asked[0].1);
    var more := ResolveAll(catalogs, first, asked[1..]);
    uris := [uri] + more;
  }

  // ---------------------------------------------------------------- a catalog that names itself as the next one

  /** The entries of a list of one catalog, `top`, whose file has itself as the next catalog, and an
      entry for "x". */
  ghost predicate NamesItself(n: Entry, m: Entry, doc: Entry, top: Entry) {
    && n.id == 0 && n.kind == IsNext && n.name == None && n.url == Some("a") && n.prefer == PreferPublic && n.next == m
    && m.id == 1 && m.kind == IsSystem && m.name == Some("x") && m.url == Some("u") && m.next == null
    && doc.id == 2 && doc.kind == IsCatalog && doc.url == Some("a") && doc.prefer == PreferPublic && doc.next == null
    && top.id == 3 && top.kind == IsCatalog && top.url == Some("a") && top.prefer == PreferPublic && top.next == null
    && m.left < n.left
  }

  ghost predicate ItsStart(g: Graph, st: State, n: Entry, m: Entry, doc: Entry, top: Entry) {
    && NamesItself(n, m, doc, top) && g == Graph([n, m, doc, top], map[(PreferPublic, "a") := doc])
    && st == State([0, 0, 0, 0], [null, null, n, null], [false, false, false, false], map[])
  }

  lemma ItIsWellFormed(n: Entry, m: Entry, doc: Entry, top: Entry)
    requires NamesItself(n, m, doc, top)
    ensures WellFormed(Graph([n, m, doc, top], map[(PreferPublic, "a") := doc]))
  {
  }

  lemma ItsEntries(g: Graph, st: State, n: Entry, m: Entry, doc: Entry, top: Entry)
    requires ItsStart(g, st, n, m, doc, top) && Ready(g, st)
    ensures OnePreference(g) && LeadsBack(g, st, n, doc) && Known(g, top) && Child(g, st, top) == n
    ensures VerdictOn(g, st, n, None, Some("y")) == Proceed && VerdictOn(g, st, n, None, Some("x")) == Answer(Uri("u"))
    ensures top.kind == IsCatalog && n.id == 0 && st.depths == [0, 0, 0, 0] && Final(None, Some("y")) && !IsUrn("x")
  {
    assert KnownOrNull(g, null) && Known(g, m) && Known(g, top);
    assert FirstMatch(g, m, IsSystem, "x") == m && FirstMatch(g, m, IsSystem, "y") == null;
    assert LongestRewrite(g, m, "y", null) == null && !AnyDelegate(g, st, m, IsDelegateSystem, "y");
  }

  method MakeEntries() returns (n: Entry, m: Entry, doc: Entry, top: Entry)
    ensures NamesItself(n, m, doc, top) && fresh({n, m, doc, top})
    ensures forall e :: e in {n, m, doc, top} ==> e.depth == 0 && !e.broken && e.children == if e == doc then n else null
  {
    m := new Entry(1, IsSystem, Some("x"), Some("u"), PreferPublic, null, null);
    n := new Entry(0, IsNext, None, Some("a"), PreferPublic, m, null);
    doc := new Entry(2, IsCatalog, None, Some("a"), PreferPublic, null, n);
    top := new Entry(3, IsCatalog, None, Some("a"), PreferPublic, null, null);
  }

  method MakeIt() returns (catalogs: Catalogs, ghost n: Entry, ghost m: Entry, ghost doc: Entry, top: Entry)
    ensures fresh(catalogs) && fresh(catalogs.entries) && catalogs.Valid()
    ensures ItsStart(catalogs.Map(), catalogs.state, n, m, doc, top)
  {
    var first, second, file;
    first, second, file, top := MakeEntries();
    n, m, doc := first, second, file;
    ItIsWellFormed(n, m, doc, top);
    assert n != doc && m != doc && top != doc;
    hide WellFormed, NamesItself, FileFromWorld, Refers;
    catalogs := new Catalogs([first, second, file, top], map[(PreferPublic, "a") := file]);
  }

  /** The depths do not always come back. After a lookup that finds nothing, the entry for "x" that
      was there before cannot be found any more. */
  method SelfReference() returns (before: Option<string>, missing: Option<string>, after: Option<string>)
    ensures before == Some("u") && missing == None && after == None
  {
    hide Target, ItsStart, VerdictOn, OnePreference, LeadsBack, ListXMLResolve, Final;
    ghost var n, m, doc;
    var fresh_, top;
    fresh_, n, m, doc, top := MakeIt();
    ItsEntries(fresh_.Map(), fresh_.state, n, m, doc, top);
    LookupFinds(fresh_.Map(), fresh_.state, top, n, "x", "u");
    before := Resolve(fresh_, top, None, Some("x"));

    var catalogs;
    catalogs, n, m, doc, top := MakeIt();
    ghost var g := catalogs.Map();
    ItsEntries(g, catalogs.state, n, m, doc, top);
    LookupSticks(g, catalogs.state, top, n, doc, None, Some("y"));
    missing := Resolve(catalogs, top, None, Some("y"));
    assert catalogs.state.depths[0] == MAX_CATAL_DEPTH + 1;
    StuckFindsNothing(g, catalogs.state, top, n, None, Some("x"));
    after := Resolve(catalogs, top, None, Some("x"));
  }
}
