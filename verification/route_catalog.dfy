/**
 * The route catalogue (`RouteService::getAllNamedRoutes`,
 * `getNamedRoutes`, `getRoutesForSelect`, `getUnregisteredRoutes`).
 *
 * The framework's route registry is an input: a list of route records in
 * registration order.
 */
module RouteCatalog {
  import opened Wrappers
  import opened Text
  import opened Collections

  /** A registered route: its name (possibly absent), its URI and its HTTP methods. */
  datatype Route = Route(name: Option<string>, uri: string, methods: seq<string>)

  /** One row of the access-management catalogue: one route and one method. */
  datatype CatalogEntry = CatalogEntry(name: string, uri: string, verb: string)

  /** One row of the menu-link catalogue: a GET route with all its methods. */
  datatype NamedRoute = NamedRoute(name: string, uri: string, methods: seq<string>)

  /** A `{value, label}` option of the route select box. */
  datatype SelectOption = SelectOption(value: string, caption: string)

  /** Framework and package prefixes that the access catalogue leaves out. */
  const ExcludedPrefixes: seq<string> := [
    "sanctum.", "ignition.", "livewire.", "generated::",
    "debugbar.", "telescope.", "horizon.", "pulse."
  ]

  /** Authentication and profile routes that the access catalogue leaves out. */
  const ExcludedNames: seq<string> := [
    "login", "logout", "register",
    "password.edit", "password.store", "password.request", "password.reset",
    "password.email", "password.update", "password.confirm",
    "verification.notice", "verification.verify", "verification.send",
    "profile.edit", "profile.update", "profile.destroy",
    "storage.local"
  ]

  /** Prefixes that the menu-link catalogue leaves out. */
  const MenuExcludedPrefixes: seq<string> := [
    "api.", "sanctum.", "ignition.", "livewire.", "generated::"
  ]

  /** `'/' . ltrim($uri, '/')`. */
  function NormalizeUri(uri: string): (r: string)
    ensures |r| >= 1 && r[0] == '/'
    ensures |r| == 1 || r[1] != '/'
    ensures |r| <= |uri| + 1 && uri[|uri| + 1 - |r|..] == r[1..]
    ensures forall i :: 0 <= i < |uri| + 1 - |r| ==> uri[i] == '/'
  {
    "/" + LTrim(uri, '/')
  }

  /** A URI already in normal form is left as it is. */
  lemma NormalizeUriIdempotent(uri: string)
    ensures NormalizeUri(NormalizeUri(uri)) == NormalizeUri(uri)
  {
    var t := LTrim(uri, '/');
    LTrimOne(t, '/');
  }

  // ---------------------------------------------------------------------
  // The access catalogue
  // ---------------------------------------------------------------------

  /** The filter of `getAllNamedRoutes`, in the order of its tests. */
  predicate Eligible(r: Route, prefixes: seq<string>) {
    && PhpTruthy(r.name)
    && !StartsWithAny(r.name.value, ExcludedPrefixes)
    && r.name.value !in ExcludedNames
    && !StartsWith(r.name.value, "settings.")
    && (prefixes != [] ==> StartsWithAny(r.name.value, prefixes))
  }

  /** `e` is one of the catalogue rows of route `r`. */
  predicate Produces(r: Route, e: CatalogEntry) {
    && r.name == Some(e.name)
    && e.uri == NormalizeUri(r.uri)
    && e.verb in r.methods
    && e.verb != "HEAD"
  }

  /** One entry per method of a route other than HEAD, in method order. */
  function ExpandMethods(name: string, uri: string, methods: seq<string>): (r: seq<CatalogEntry>)
    ensures forall e :: e in r <==>
      e.name == name && e.uri == uri && e.verb in methods && e.verb != "HEAD"
    decreases |methods|
  {
    if methods == [] then []
    else
      (if methods[0] != "HEAD" then [CatalogEntry(name, uri, methods[0])] else [])
        + ExpandMethods(name, uri, methods[1..])
  }

  /** The rows of one route: none when it has no name, else one per method other than HEAD. */
  function RouteRows(r: Route): (rows: seq<CatalogEntry>)
    ensures forall e :: e in rows <==> Produces(r, e)
  {
    match r.name
    case None => []
    case Some(n) => ExpandMethods(n, NormalizeUri(r.uri), r.methods)
  }

  /** The `flatMap` step: the rows of every named route, route by route. */
  function ExpandAll(routes: seq<Route>): (r: seq<CatalogEntry>)
    ensures forall e :: e in r <==> exists j :: 0 <= j < |routes| && Produces(routes[j], e)
    decreases |routes|
  {
    if routes == [] then []
    else
      var head := RouteRows(routes[0]);
      var rest := ExpandAll(routes[1..]);
      ExpandStep(routes, head, rest);
      head + rest
  }

  /** The rows of the first route followed by those of the others are the rows of all of them. */
  lemma ExpandStep(routes: seq<Route>, head: seq<CatalogEntry>, rest: seq<CatalogEntry>)
    requires routes != []
    requires forall e :: e in head <==> Produces(routes[0], e)
    requires forall e :: e in rest <==> exists j :: 0 <= j < |routes[1..]| && Produces(routes[1..][j], e)
    ensures forall e :: e in head + rest <==> exists j :: 0 <= j < |routes| && Produces(routes[j], e)
  {
    forall e | e in head + rest
      ensures exists j :: 0 <= j < |routes| && Produces(routes[j], e)
    {
      if e !in head {
        var j :| 0 <= j < |routes[1..]| && Produces(routes[1..][j], e);
        assert routes[1..][j] == routes[j + 1];
      }
    }
    forall e, j | 0 <= j < |routes| && Produces(routes[j], e)
      ensures e in head + rest
    {
      if j > 0 {
        assert routes[1..][j - 1] == routes[j];
      }
    }
  }

  /** The key `getAllNamedRoutes` deduplicates on. */
  function CatalogKey(e: CatalogEntry): string {
    e.name + "-" + e.verb
  }

  predicate NameLe(a: CatalogEntry, b: CatalogEntry) {
    StrLe(a.name, b.name)
  }

  /** `getAllNamedRoutes($prefixes)`: filter, one row per method, unique by name and method, sort by name. */
  function AllNamedRoutes(routes: seq<Route>, prefixes: seq<string>): seq<CatalogEntry> {
    var eligible := Filter(routes, r => Eligible(r, prefixes));
    SortBy(UniqueBy(ExpandAll(eligible), CatalogKey), NameLe)
  }

  lemma NameLeIsTotalOrder()
    ensures IsTotal(NameLe) && IsTransitive(NameLe)
  {
    forall a: CatalogEntry, b: CatalogEntry
      ensures NameLe(a, b) || NameLe(b, a)
    {
      StrLeTotal(a.name, b.name);
    }
    forall a: CatalogEntry, b: CatalogEntry, c: CatalogEntry | NameLe(a, b) && NameLe(b, c)
      ensures NameLe(a, c)
    {
      StrLeTransitive(a.name, b.name, c.name);
    }
  }

  /** The rows of the catalogue are exactly rows of eligible routes. */
  lemma {:induction false} AllNamedRoutesSound(routes: seq<Route>, prefixes: seq<string>, e: CatalogEntry)
    requires e in AllNamedRoutes(routes, prefixes)
    ensures exists j :: 0 <= j < |routes| && Eligible(routes[j], prefixes) && Produces(routes[j], e)
  {
    var eligible := Filter(routes, r => Eligible(r, prefixes));
    var rows := ExpandAll(eligible);
    var unique := UniqueBy(rows, CatalogKey);
    assert e in multiset(SortBy(unique, NameLe));
    assert e in unique;
    UniqueByFirstWins(rows, CatalogKey);
    SubseqMembers(unique, rows);
    var j :| 0 <= j < |eligible| && Produces(eligible[j], e);
    assert eligible[j] in routes;
    var k :| 0 <= k < |routes| && routes[k] == eligible[j];
  }

  /**
   * What a catalogue row satisfies: its name passed every exclusion and,
   * when prefixes are given, starts with one of them; its method is not
   * HEAD; its URI starts with exactly one '/'.
   */
  lemma CatalogueRowFacts(routes: seq<Route>, prefixes: seq<string>, e: CatalogEntry)
    requires e in AllNamedRoutes(routes, prefixes)
    ensures !PhpFalsy(e.name)
    ensures !StartsWithAny(e.name, ExcludedPrefixes) && e.name !in ExcludedNames
    ensures !StartsWith(e.name, "settings.")
    ensures prefixes != [] ==> StartsWithAny(e.name, prefixes)
    ensures e.verb != "HEAD"
    ensures |e.uri| >= 1 && e.uri[0] == '/' && (|e.uri| == 1 || e.uri[1] != '/')
  {
    AllNamedRoutesSound(routes, prefixes, e);
  }

  /** Every non-HEAD method of every eligible route has a row with that name and method. */
  lemma AllNamedRoutesComplete(routes: seq<Route>, prefixes: seq<string>, j: int, m: string)
    requires 0 <= j < |routes| && Eligible(routes[j], prefixes)
    requires m in routes[j].methods && m != "HEAD"
    requires DashFreeMethods(routes)
    ensures exists e :: (e in AllNamedRoutes(routes, prefixes) &&
                         e.name == routes[j].name.value && e.verb == m)
  {
    var eligible := Filter(routes, r => Eligible(r, prefixes));
    var rows := ExpandAll(eligible);
    var unique := UniqueBy(rows, CatalogKey);
    var e0 := CatalogEntry(routes[j].name.value, NormalizeUri(routes[j].uri), m);
    assert e0 in rows by {
      assert routes[j] in eligible;
      var k :| 0 <= k < |eligible| && eligible[k] == routes[j];
      assert Produces(eligible[k], e0);
    }
    UniqueByCovers(rows, CatalogKey, e0);
    var e :| e in unique && e in rows && CatalogKey(e) == CatalogKey(e0);
    assert '-' !in e.verb by {
      var k :| 0 <= k < |eligible| && Produces(eligible[k], e);
      assert eligible[k] in routes;
    }
    KeyInjective(e, e0);
    SortByMembers(unique, NameLe);
  }

  /** HTTP method names (GET, POST, ...) contain no '-'. */
  ghost predicate DashFreeMethods(routes: seq<Route>) {
    forall j, m :: 0 <= j < |routes| && m in routes[j].methods ==> '-' !in m
  }

  /** Two rows with the same key and dash-free methods have the same name and method. */
  lemma KeyInjective(a: CatalogEntry, b: CatalogEntry)
    requires '-' !in a.verb && '-' !in b.verb
    requires CatalogKey(a) == CatalogKey(b)
    ensures a.name == b.name && a.verb == b.verb
  {
    SplitConcat(a.name, '-', a.verb);
    SplitConcat(b.name, '-', b.verb);
    SplitWithoutSep(a.verb, '-');
    SplitWithoutSep(b.verb, '-');
    assert CatalogKey(a) == a.name + ['-'] + a.verb;
    assert CatalogKey(b) == b.name + ['-'] + b.verb;
    var sa := Split(a.name, '-');
    var sb := Split(b.name, '-');
    assert sa + [a.verb] == sb + [b.verb];
    assert |sa| == |sb|;
    assert sa == (sa + [a.verb])[..|sa|];
    assert sb == (sb + [b.verb])[..|sb|];
    JoinSplit(a.name, '-');
    JoinSplit(b.name, '-');
  }

  /** The catalogue is ordered by route name. */
  lemma AllNamedRoutesSorted(routes: seq<Route>, prefixes: seq<string>)
    ensures SortedBy(AllNamedRoutes(routes, prefixes), NameLe)
  {
    NameLeIsTotalOrder();
    var eligible := Filter(routes, r => Eligible(r, prefixes));
    SortBySorted(UniqueBy(ExpandAll(eligible), CatalogKey), NameLe);
  }

  /** No two rows of the catalogue share both name and method. */
  lemma AllNamedRoutesUnique(routes: seq<Route>, prefixes: seq<string>)
    ensures var cat := AllNamedRoutes(routes, prefixes);
      forall i, j :: 0 <= i < j < |cat| ==> cat[i].name != cat[j].name || cat[i].verb != cat[j].verb
  {
    var eligible := Filter(routes, r => Eligible(r, prefixes));
    var rows := ExpandAll(eligible);
    UniqueByFirstWins(rows, CatalogKey);
    SortByKeepsDistinct(UniqueBy(rows, CatalogKey), NameLe, CatalogKey);
    var cat := AllNamedRoutes(routes, prefixes);
    forall i, j | 0 <= i < j < |cat|
      ensures cat[i].name != cat[j].name || cat[i].verb != cat[j].verb
    {
      assert CatalogKey(cat[i]) != CatalogKey(cat[j]);
    }
  }

  /** Names under `api.` are not excluded from the access catalogue. */
  lemma ApiNamesKept(rest: string, uri: string, methods: seq<string>)
    ensures Eligible(Route(Some("api." + rest), uri, methods), [])
  {
    var name := "api." + rest;
    assert name[0] == 'a';
    forall i | 0 <= i < |ExcludedPrefixes|
      ensures !StartsWith(name, ExcludedPrefixes[i])
    {
      var p := ExcludedPrefixes[i];
      assert p[0] != 'a';
    }
    forall i | 0 <= i < |ExcludedNames|
      ensures name != ExcludedNames[i]
    {
      assert ExcludedNames[i][0] != 'a';
    }
    assert !StartsWith(name, "settings.");
  }

  // ---------------------------------------------------------------------
  // The menu-link catalogue
  // ---------------------------------------------------------------------

  /** The filter of `getNamedRoutes`: named, not internal, reachable by GET. */
  predicate MenuEligible(r: Route) {
    && PhpTruthy(r.name)
    && !StartsWithAny(r.name.value, MenuExcludedPrefixes)
    && "GET" in r.methods
  }

  function ToNamedRoute(r: Route): NamedRoute {
    NamedRoute(r.name.GetOr(""), NormalizeUri(r.uri), r.methods)
  }

  predicate NamedLe(a: NamedRoute, b: NamedRoute) {
    StrLe(a.name, b.name)
  }

  /** `getNamedRoutes()`: the GET routes a menu item can link to, sorted by name. */
  function NamedRoutes(routes: seq<Route>): seq<NamedRoute> {
    SortBy(ToNamedRoutes(Filter(routes, MenuEligible)), NamedLe)
  }

  /** The `map` step of `getNamedRoutes`. */
  function ToNamedRoutes(kept: seq<Route>): (r: seq<NamedRoute>)
    ensures |r| == |kept|
    ensures forall i :: 0 <= i < |kept| ==> r[i] == ToNamedRoute(kept[i])
  {
    seq(|kept|, i requires 0 <= i < |kept| => ToNamedRoute(kept[i]))
  }

  /**
   * The menu-link catalogue holds exactly the eligible routes, each with
   * its name, its normalised URI and all its methods.
   */
  lemma NamedRoutesExact(routes: seq<Route>, n: NamedRoute)
    ensures n in NamedRoutes(routes) <==>
      exists j :: 0 <= j < |routes| && MenuEligible(routes[j]) && n == ToNamedRoute(routes[j])
  {
    var kept := Filter(routes, MenuEligible);
    var mapped := ToNamedRoutes(kept);
    SortByMembers(mapped, NamedLe);
    if n in mapped {
      var i :| 0 <= i < |mapped| && mapped[i] == n;
      assert kept[i] in routes && MenuEligible(kept[i]);
      var j := IndexOf(routes, kept[i]);
      assert MenuEligible(routes[j]) && n == ToNamedRoute(routes[j]);
    }
    if exists j :: 0 <= j < |routes| && MenuEligible(routes[j]) && n == ToNamedRoute(routes[j]) {
      var j :| 0 <= j < |routes| && MenuEligible(routes[j]) && n == ToNamedRoute(routes[j]);
      assert routes[j] in kept;
      var i := IndexOf(kept, routes[j]);
      assert mapped[i] == n;
    }
  }

  /** What a menu-link row satisfies: GET among its methods, not under `api.`, normalised URI. */
  lemma NamedRouteFacts(routes: seq<Route>, n: NamedRoute)
    requires n in NamedRoutes(routes)
    ensures "GET" in n.methods
    ensures !StartsWith(n.name, "api.") && !PhpFalsy(n.name)
    ensures |n.uri| >= 1 && n.uri[0] == '/' && (|n.uri| == 1 || n.uri[1] != '/')
  {
    NamedRoutesExact(routes, n);
    var j :| 0 <= j < |routes| && MenuEligible(routes[j]) && n == ToNamedRoute(routes[j]);
    assert MenuExcludedPrefixes[0] == "api.";
  }

  lemma NamedLeIsTotalOrder()
    ensures IsTotal(NamedLe) && IsTransitive(NamedLe)
  {
    forall a: NamedRoute, b: NamedRoute
      ensures NamedLe(a, b) || NamedLe(b, a)
    {
      StrLeTotal(a.name, b.name);
    }
    forall a: NamedRoute, b: NamedRoute, c: NamedRoute | NamedLe(a, b) && NamedLe(b, c)
      ensures NamedLe(a, c)
    {
      StrLeTransitive(a.name, b.name, c.name);
    }
  }

  /** The menu-link catalogue is ordered by name and has one row per eligible route. */
  lemma NamedRoutesSortedAndCounted(routes: seq<Route>)
    ensures SortedBy(NamedRoutes(routes), NamedLe)
    ensures |NamedRoutes(routes)| == |Filter(routes, MenuEligible)|
  {
    NamedLeIsTotalOrder();
    SortBySorted(ToNamedRoutes(Filter(routes, MenuEligible)), NamedLe);
  }

  /** The label of a select option, `name (uri)`: both parts can be read back from it. */
  function Caption(name: string, uri: string): (c: string)
    ensures StartsWith(c, name + " (") && c[|c| - 1] == ')'
    ensures c[|name| + 2..|c| - 1] == uri
  {
    var c := name + " (" + uri + ")";
    assert c[..|name| + 2] == name + " (";
    assert c[|name| + 2..|c| - 1] == uri;
    c
  }

  /** `getRoutesForSelect()`: one option per menu-link row, labelled `name (uri)`. */
  function RoutesForSelect(routes: seq<Route>): (r: seq<SelectOption>)
    ensures var named := NamedRoutes(routes);
      |r| == |named| &&
      forall i :: 0 <= i < |r| ==>
        r[i].value == named[i].name && r[i].caption == Caption(named[i].name, named[i].uri)
  {
    var named := NamedRoutes(routes);
    seq(|named|, i requires 0 <= i < |named| => SelectOption(named[i].name, Caption(named[i].name, named[i].uri)))
  }

  // ---------------------------------------------------------------------
  // Unregistered routes
  // ---------------------------------------------------------------------

  function EntryName(e: CatalogEntry): string {
    e.name
  }

  /**
   * `getUnregisteredRoutes($prefixes)`: the catalogue rows whose name is
   * not in the table, one row per name.
   */
  function UnregisteredRoutes(routes: seq<Route>, prefixes: seq<string>, registered: set<string>): seq<CatalogEntry> {
    var cat := AllNamedRoutes(routes, prefixes);
    UniqueBy(Filter(cat, (e: CatalogEntry) => e.name !in registered), EntryName)
  }

  /**
   * The unregistered routes are catalogue rows with an unregistered name,
   * one per name, covering every unregistered catalogue name; for each name
   * it is the first catalogue row with that name.
   */
  lemma UnregisteredRoutesExact(routes: seq<Route>, prefixes: seq<string>, registered: set<string>)
    ensures var cat := AllNamedRoutes(routes, prefixes);
      var un := UnregisteredRoutes(routes, prefixes, registered);
      && (forall e :: e in un ==> e in cat && e.name !in registered)
      && DistinctBy(un, EntryName)
      && (forall e :: e in cat && e.name !in registered ==> exists u :: u in un && u.name == e.name)
      && (forall e :: e in un ==> FirstBy(cat, EntryName, e.name) == Some(e))
  {
    PendingExact(AllNamedRoutes(routes, prefixes), registered);
  }

  /** The facts above for any catalogue. */
  lemma PendingExact(cat: seq<CatalogEntry>, registered: set<string>)
    ensures var un := UniqueBy(Filter(cat, (e: CatalogEntry) => e.name !in registered), EntryName);
      && (forall e :: e in un ==> e in cat && e.name !in registered)
      && DistinctBy(un, EntryName)
      && (forall e :: e in cat && e.name !in registered ==> exists u :: u in un && u.name == e.name)
      && (forall e :: e in un ==> FirstBy(cat, EntryName, e.name) == Some(e))
  {
    var pending := Filter(cat, (e: CatalogEntry) => e.name !in registered);
    var un := UniqueBy(pending, EntryName);
    UniqueByFirstWins(pending, EntryName);
    SubseqMembers(un, pending);
    forall e | e in cat && e.name !in registered
      ensures exists u :: u in un && u.name == e.name
    {
      UniqueByCovers(pending, EntryName, e);
    }
    forall e | e in un
      ensures FirstBy(cat, EntryName, e.name) == Some(e)
    {
      var i :| 0 <= i < |un| && un[i] == e;
      assert FirstBy(pending, EntryName, e.name) == Some(e);
      FilterFirstBy(cat, e, registered);
    }
  }

  /** Filtering out whole names does not change which row comes first for a kept name. */
  lemma {:induction false} FilterFirstBy(cat: seq<CatalogEntry>, e: CatalogEntry, registered: set<string>)
    requires e.name !in registered
    ensures FirstBy(Filter(cat, (x: CatalogEntry) => x.name !in registered), EntryName, e.name) == FirstBy(cat, EntryName, e.name)
    decreases |cat|
  {
    if cat != [] {
      var p := (x: CatalogEntry) => x.name !in registered;
      FilterFirstBy(cat[1..], e, registered);
      FirstByCons(cat[0], cat[1..], EntryName, e.name);
      if p(cat[0]) {
        assert Filter(cat, p) == [cat[0]] + Filter(cat[1..], p);
        FirstByCons(cat[0], Filter(cat[1..], p), EntryName, e.name);
      } else {
        assert Filter(cat, p) == Filter(cat[1..], p);
      }
      assert [cat[0]] + cat[1..] == cat;
    }
  }
}
