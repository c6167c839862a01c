/**
 * The `route_accesses` table as values: its rows, the three cached
 * projections of it (`RouteAccess::getCachedRoutes`,
 * `getCachedPermissions`, `getCachedPublicRoutes`), the rule that links a
 * row to a permission, and the route scan of
 * `RouteService::syncRouteAccesses` as a fold over the route catalogue.
 */
module RouteAccess {
  import opened Wrappers
  import opened Text
  import opened Collections
  import opened PermissionNames
  import opened RouteCatalog
  import opened AccessGate

  /** One row of `route_accesses`; the key `route_name` is the table's map key. */
  datatype Entry = Entry(
    id: nat,
    uri: Option<string>,
    verb: Option<string>,
    permissionName: Option<string>,
    permissionId: Option<nat>,
    isActive: bool,
    isPublic: bool,
    description: Option<string>)

  /** The table, keyed by the unique `route_name`. */
  type Table = map<string, Entry>

  /** The permissions table as `name => id`. */
  type Permissions = map<string, nat>

  // ---------------------------------------------------------------------
  // Cached projections
  // ---------------------------------------------------------------------

  /** `getCachedRoutes()`: every row, active or not, keyed by route name. */
  function RoutesSnapshot(t: Table): (m: map<string, CachedRoute>)
    ensures m.Keys == t.Keys
    ensures forall n :: n in m ==>
      m[n].permissionName == t[n].permissionName && m[n].isActive == t[n].isActive && m[n].isPublic == t[n].isPublic
  {
    map n | n in t :: CachedRoute(t[n].permissionName, t[n].isActive, t[n].isPublic)
  }

  /** `getCachedPermissions()`: active rows with a permission name, route name to permission name. */
  function PermissionsSnapshot(t: Table): (m: map<string, string>)
    ensures forall n :: n in m <==> n in t && t[n].isActive && t[n].permissionName.Some?
    ensures forall n :: n in m ==> Some(m[n]) == t[n].permissionName
  {
    map n | n in t && t[n].isActive && t[n].permissionName.Some? :: t[n].permissionName.value
  }

  /** `getCachedPublicRoutes()`: names of the rows that are active and public. */
  function PublicSnapshot(t: Table): (s: set<string>)
    ensures forall n :: n in s <==> n in t && t[n].isActive && t[n].isPublic
  {
    set n | n in t && t[n].isActive && t[n].isPublic
  }

  /** The two narrower caches are views of the all-rows cache. */
  lemma SnapshotsAgree(t: Table)
    ensures forall n :: n in PermissionsSnapshot(t) <==>
      n in RoutesSnapshot(t) && RoutesSnapshot(t)[n].isActive && RoutesSnapshot(t)[n].permissionName.Some?
    ensures forall n :: n in PublicSnapshot(t) <==>
      n in RoutesSnapshot(t) && RoutesSnapshot(t)[n].isActive && RoutesSnapshot(t)[n].isPublic
  {
  }

  // ---------------------------------------------------------------------
  // Linking a row to a permission
  // ---------------------------------------------------------------------

  /**
   * `linkPermission()` and the linking step of the controller's `update`:
   * no id when the name is PHP-empty, else the id of the permission with
   * that name, or no id when there is none.
   */
  function LinkedId(perms: Permissions, name: Option<string>): (r: Option<nat>)
    ensures r.Some? <==> PhpTruthy(name) && name.value in perms
    ensures r.Some? ==> r.value == perms[name.value]
  {
    if !PhpTruthy(name) then None
    else if name.value in perms then Some(perms[name.value])
    else None
  }

  /** A row that carries a permission id carries the name of that permission. */
  ghost predicate LinkSound(e: Entry, perms: Permissions) {
    e.permissionId.Some? ==>
      e.permissionName.Some? && e.permissionName.value in perms &&
      perms[e.permissionName.value] == e.permissionId.value
  }

  ghost predicate LinksSound(t: Table, perms: Permissions) {
    forall n :: n in t ==> LinkSound(t[n], perms)
  }

  /** Distinct rows have distinct ids, all below the next id to hand out. */
  ghost predicate IdsFresh(t: Table, nextId: nat) {
    && (forall n :: n in t ==> t[n].id < nextId)
    && (forall a, b :: a in t && b in t && a != b ==> t[a].id != t[b].id)
  }

  // ---------------------------------------------------------------------
  // syncPermissions
  // ---------------------------------------------------------------------

  /** `syncPermissions` updates a row when its named permission exists and its id differs. */
  predicate NeedsLink(e: Entry, perms: Permissions) {
    e.permissionName.Some? && e.permissionName.value in perms &&
    e.permissionId != Some(perms[e.permissionName.value])
  }

  function Relinked(e: Entry, perms: Permissions): (r: Entry)
    ensures !NeedsLink(r, perms)
    ensures r.permissionName == e.permissionName
    ensures e.permissionName.Some? && e.permissionName.value in perms ==>
      r.permissionId == Some(perms[e.permissionName.value])
    ensures !(e.permissionName.Some? && e.permissionName.value in perms) ==> r == e
  {
    if NeedsLink(e, perms) then e.(permissionId := Some(perms[e.permissionName.value])) else e
  }

  /** Every row after `syncPermissions`. */
  function RelinkAll(t: Table, perms: Permissions): (r: Table)
    ensures r.Keys == t.Keys
  {
    map n | n in t :: Relinked(t[n], perms)
  }

  /** The rows `syncPermissions` updates; their number is the reported count. */
  function NeedingLink(t: Table, perms: Permissions): set<string> {
    set n | n in t && NeedsLink(t[n], perms)
  }

  /** The table part-way through `syncPermissions`: the rows in `done` are relinked. */
  function PartlyRelinked(t: Table, perms: Permissions, done: set<string>): (r: Table)
    ensures r.Keys == t.Keys
    ensures forall n :: n in t ==> r[n] == if n in done then Relinked(t[n], perms) else t[n]
  {
    map n | n in t :: if n in done then Relinked(t[n], perms) else t[n]
  }

  /** The rows of `done` that `syncPermissions` updates. */
  function LinkedAmong(t: Table, perms: Permissions, done: set<string>): (r: set<string>)
    ensures forall n :: n in r <==> n in done && n in t && NeedsLink(t[n], perms)
  {
    set n | n in done && n in t && NeedsLink(t[n], perms)
  }

  /** One more row processed by the `syncPermissions` loop. */
  lemma SyncStep(t: Table, perms: Permissions, done: set<string>, n: string)
    requires n in t && n !in done
    ensures n !in LinkedAmong(t, perms, done)
    ensures PartlyRelinked(t, perms, done + {n}) == PartlyRelinked(t, perms, done)[n := Relinked(t[n], perms)]
    ensures NeedsLink(t[n], perms) ==> LinkedAmong(t, perms, done + {n}) == LinkedAmong(t, perms, done) + {n}
    ensures !NeedsLink(t[n], perms) ==> LinkedAmong(t, perms, done + {n}) == LinkedAmong(t, perms, done)
    ensures !NeedsLink(t[n], perms) ==> PartlyRelinked(t, perms, done + {n}) == PartlyRelinked(t, perms, done)
  {
  }

  /** The loop's end and start points. */
  lemma SyncBounds(t: Table, perms: Permissions)
    ensures PartlyRelinked(t, perms, t.Keys) == RelinkAll(t, perms)
    ensures LinkedAmong(t, perms, t.Keys) == NeedingLink(t, perms)
    ensures PartlyRelinked(t, perms, {}) == t
    ensures LinkedAmong(t, perms, {}) == {}
  {
  }

  /** With nothing to link, `syncPermissions` changes no row. */
  lemma NothingToLink(t: Table, perms: Permissions)
    requires |NeedingLink(t, perms)| == 0
    ensures RelinkAll(t, perms) == t
  {
    forall n | n in t
      ensures RelinkAll(t, perms)[n] == t[n]
    {
      assert n !in NeedingLink(t, perms);
    }
  }

  /** `syncPermissions` keeps ids fresh, and keeps links sound when they were. */
  lemma RelinkAllKeepsInvariants(t: Table, perms: Permissions, nextId: nat)
    requires IdsFresh(t, nextId)
    ensures IdsFresh(RelinkAll(t, perms), nextId)
    ensures LinksSound(t, perms) ==> LinksSound(RelinkAll(t, perms), perms)
  {
    var r := RelinkAll(t, perms);
    assert forall n :: n in r ==> r[n].id == t[n].id;
  }

  /**
   * After `syncPermissions` every row is sound and nothing more needs
   * linking, so a second run reports 0; rows whose permission does not
   * exist keep their id, whatever it is.
   */
  lemma RelinkAllSettles(t: Table, perms: Permissions)
    ensures NeedingLink(RelinkAll(t, perms), perms) == {}
    ensures RelinkAll(RelinkAll(t, perms), perms) == RelinkAll(t, perms)
    ensures forall n :: n in t && !(t[n].permissionName.Some? && t[n].permissionName.value in perms) ==>
      RelinkAll(t, perms)[n] == t[n]
  {
    var r := RelinkAll(t, perms);
    assert forall n :: n in r ==> !NeedsLink(r[n], perms);
  }

  /**
   * A permission renamed from `a` to `b` leaves the row naming `a` with the
   * old id 5; once a new permission `a` (id 7) exists, the sync counts the
   * row and links it to 7.
   */
  lemma StaleLinkRepaired()
    ensures var e := Entry(1, None, None, Some("a"), Some(5), true, false, None);
      var t := map["r" := e];
      var perms := map["a" := 7, "b" := 5];
      !LinksSound(t, perms) && IdsFresh(t, 2) &&
      NeedingLink(t, perms) == {"r"} && RelinkAll(t, perms)["r"].permissionId == Some(7)
  {
    var e := Entry(1, None, None, Some("a"), Some(5), true, false, None);
    var t := map["r" := e];
    var perms := map["a" := 7, "b" := 5];
    assert !LinkSound(t["r"], perms);
    assert NeedsLink(t["r"], perms);
    assert NeedingLink(t, perms) == {"r"};
  }

  // ---------------------------------------------------------------------
  // bulkUpdate / bulkDestroy
  // ---------------------------------------------------------------------

  /** The four actions `bulkUpdate` accepts. */
  datatype BulkAction = Activate | Deactivate | MakePublic | MakeProtected

  function ParseBulkAction(action: string): (r: Option<BulkAction>)
    ensures r.Some? <==> action in {"activate", "deactivate", "make_public", "make_protected"}
  {
    match action
    case "activate" => Some(Activate)
    case "deactivate" => Some(Deactivate)
    case "make_public" => Some(MakePublic)
    case "make_protected" => Some(MakeProtected)
    case _ => None
  }

  function ApplyAction(e: Entry, a: BulkAction): (r: Entry)
    ensures a == Activate ==> r == e.(isActive := true)
    ensures a == Deactivate ==> r == e.(isActive := false)
    ensures a == MakePublic ==> r == e.(isPublic := true)
    ensures a == MakeProtected ==> r == e.(isPublic := false)
  {
    match a
    case Activate => e.(isActive := true)
    case Deactivate => e.(isActive := false)
    case MakePublic => e.(isPublic := true)
    case MakeProtected => e.(isPublic := false)
  }

  /** The rows whose id is listed get the flag; every other row is untouched. */
  function BulkApply(t: Table, ids: seq<int>, a: BulkAction): (r: Table)
    ensures r.Keys == t.Keys
    ensures forall n :: n in t && t[n].id !in ids ==> r[n] == t[n]
    ensures forall n :: n in t && t[n].id in ids ==> r[n] == ApplyAction(t[n], a)
  {
    map n | n in t :: if t[n].id in ids then ApplyAction(t[n], a) else t[n]
  }

  /** The rows left after deleting the listed ids. */
  function WithoutIds(t: Table, ids: seq<int>): (r: Table)
    ensures forall n :: n in r <==> n in t && t[n].id !in ids
    ensures forall n :: n in r ==> r[n] == t[n]
  {
    map n | n in t && t[n].id !in ids :: t[n]
  }

  /** `ids.*` must each name an existing row. */
  predicate IdsExist(t: Table, ids: seq<int>) {
    forall i :: 0 <= i < |ids| ==> exists n :: n in t && t[n].id == ids[i]
  }

  // ---------------------------------------------------------------------
  // The route scan
  // ---------------------------------------------------------------------

  /** What the scan carries from one catalogue row to the next. */
  datatype ScanState = ScanState(
    table: Table, nextId: nat, scanned: seq<string>, created: nat, updated: nat, matched: nat)

  function StartState(t: Table, nextId: nat): ScanState {
    ScanState(t, nextId, [], 0, 0, 0)
  }

  /** The permission name the scan writes: the inferred one when it exists, else null. */
  function ScanPermissionName(inf: Inflector, perms: Permissions, routeName: string): (r: Option<string>)
    ensures r.Some? ==> r.value == GeneratePermissionName(inf, routeName) && r.value in perms
    ensures r.None? <==> GeneratePermissionName(inf, routeName) !in perms
  {
    var suggested := GeneratePermissionName(inf, routeName);
    if suggested in perms then Some(suggested) else None
  }

  /** The permission id the scan writes: only for a truthy matched name. */
  function ScanPermissionId(inf: Inflector, perms: Permissions, routeName: string): (r: Option<nat>)
    ensures r == LinkedId(perms, ScanPermissionName(inf, routeName := routeName, perms := perms))
  {
    var pn := ScanPermissionName(inf, perms, routeName);
    if PhpTruthy(pn) then Some(perms[pn.value]) else None
  }

  /** The four columns the scan writes into the row of catalogue entry `e`. */
  predicate HasScanFields(row: Entry, e: CatalogEntry, inf: Inflector, perms: Permissions) {
    && row.uri == Some(e.uri)
    && row.verb == Some(e.verb)
    && row.permissionName == ScanPermissionName(inf, perms, e.name)
    && row.permissionId == ScanPermissionId(inf, perms, e.name)
  }

  /** One iteration of the scan loop over catalogue entry `e`. */
  function ScanStep(s: ScanState, e: CatalogEntry, inf: Inflector, perms: Permissions): ScanState {
    if e.name in s.scanned then s
    else
      var pn := ScanPermissionName(inf, perms, e.name);
      var pid := ScanPermissionId(inf, perms, e.name);
      var matched := if PhpTruthy(pn) then s.matched + 1 else s.matched;
      if e.name in s.table then
        var before := s.table[e.name];
        var after := before.(uri := Some(e.uri), verb := Some(e.verb), permissionName := pn, permissionId := pid);
        ScanState(s.table[e.name := after], s.nextId, s.scanned + [e.name], s.created,
                  if after != before then s.updated + 1 else s.updated, matched)
      else
        var row := Entry(s.nextId, Some(e.uri), Some(e.verb), pn, pid, true, false, None);
        ScanState(s.table[e.name := row], s.nextId + 1, s.scanned + [e.name], s.created + 1, s.updated, matched)
  }

  /** The scan loop over a whole catalogue. */
  function ScanFold(s: ScanState, cat: seq<CatalogEntry>, inf: Inflector, perms: Permissions): ScanState
    decreases |cat|
  {
    if cat == [] then s
    else ScanStep(ScanFold(s, cat[..|cat| - 1], inf, perms), cat[|cat| - 1], inf, perms)
  }

  /** The scan over one more catalogue row is one more step. */
  lemma ScanFoldNext(s: ScanState, cat: seq<CatalogEntry>, i: nat, inf: Inflector, perms: Permissions)
    requires i < |cat|
    ensures ScanFold(s, cat[..i + 1], inf, perms) == ScanStep(ScanFold(s, cat[..i], inf, perms), cat[i], inf, perms)
  {
    assert cat[..i + 1][..i] == cat[..i];
  }

  /** The rows the final delete removes: unscanned names under one of the prefixes. */
  function Stale(t: Table, scanned: seq<string>, prefixes: seq<string>): (r: set<string>)
    ensures prefixes == [] ==> r == {}
    ensures forall n :: n in r <==> prefixes != [] && n in t && n !in scanned && StartsWithAny(n, prefixes)
  {
    if prefixes == [] then {}
    else set n | n in t && n !in scanned && StartsWithAny(n, prefixes)
  }

  function Prune(t: Table, stale: set<string>): (r: Table)
    ensures r.Keys == t.Keys - stale
    ensures forall n :: n in r ==> r[n] == t[n]
  {
    map n | n in t && n !in stale :: t[n]
  }

  // ----- Lemmas about the scan -----

  /** The names scanned so far: each catalogue name once, in order of first appearance. */
  lemma {:induction false} ScannedNames(t: Table, nextId: nat, cat: seq<CatalogEntry>, inf: Inflector, perms: Permissions)
    ensures var s := ScanFold(StartState(t, nextId), cat, inf, perms);
      && (forall n :: n in s.scanned <==> n in KeySet(cat, EntryName))
      && (forall i, j :: 0 <= i < j < |s.scanned| ==> s.scanned[i] != s.scanned[j])
      && s.created + s.updated <= |s.scanned|
      && s.matched <= |s.scanned|
    decreases |cat|
  {
    if cat != [] {
      var init := cat[..|cat| - 1];
      var x := cat[|cat| - 1];
      ScannedNames(t, nextId, init, inf, perms);
      KeySetAppend(init, x, EntryName);
      ScanStepGrows(ScanFold(StartState(t, nextId), init, inf, perms), x, inf, perms, KeySet(init, EntryName));
      assert init + [x] == cat;
    }
  }

  /** One scan step keeps the scanned names exactly the keys seen, each once, and the counters bounded. */
  lemma ScanStepGrows(s: ScanState, e: CatalogEntry, inf: Inflector, perms: Permissions, keys: set<string>)
    requires forall n :: n in s.scanned <==> n in keys
    requires forall i, j :: 0 <= i < j < |s.scanned| ==> s.scanned[i] != s.scanned[j]
    requires s.created + s.updated <= |s.scanned| && s.matched <= |s.scanned|
    ensures var s' := ScanStep(s, e, inf, perms);
      && (forall n :: n in s'.scanned <==> n in keys + {e.name})
      && (forall i, j :: 0 <= i < j < |s'.scanned| ==> s'.scanned[i] != s'.scanned[j])
      && s'.created + s'.updated <= |s'.scanned| && s'.matched <= |s'.scanned|
  {
  }

  /**
   * Every scanned row ends with the four columns of the first catalogue
   * entry carrying its name: later entries with the same name are skipped.
   */
  lemma {:induction false} FirstEntryWins(t: Table, nextId: nat, cat: seq<CatalogEntry>, inf: Inflector, perms: Permissions, n: string)
    requires n in KeySet(cat, EntryName)
    ensures var s := ScanFold(StartState(t, nextId), cat, inf, perms);
      n in s.table && HasScanFields(s.table[n], FirstBy(cat, EntryName, n).value, inf, perms)
    decreases |cat|
  {
    var init := cat[..|cat| - 1];
    var x := cat[|cat| - 1];
    assert init + [x] == cat;
    KeySetAppend(init, x, EntryName);
    FirstByAppend(init, x, EntryName, n);
    ScannedNames(t, nextId, init, inf, perms);
    if n in KeySet(init, EntryName) {
      FirstEntryWins(t, nextId, init, inf, perms, n);
    }
  }

  /** The scan writes only its four columns: id, flags and description of existing rows stay. */
  lemma {:induction false} ScanKeepsOtherColumns(t: Table, nextId: nat, cat: seq<CatalogEntry>, inf: Inflector, perms: Permissions)
    ensures var s := ScanFold(StartState(t, nextId), cat, inf, perms);
      forall n :: n in t ==>
        (n in s.table &&
         s.table[n].id == t[n].id && s.table[n].isActive == t[n].isActive &&
         s.table[n].isPublic == t[n].isPublic && s.table[n].description == t[n].description)
    decreases |cat|
  {
    if cat != [] {
      ScanKeepsOtherColumns(t, nextId, cat[..|cat| - 1], inf, perms);
    }
  }

  /** The scan keeps ids fresh, and keeps every permission link sound when they were. */
  lemma {:induction false} ScanKeepsInvariants(t: Table, nextId: nat, cat: seq<CatalogEntry>, inf: Inflector, perms: Permissions)
    requires IdsFresh(t, nextId)
    ensures var s := ScanFold(StartState(t, nextId), cat, inf, perms);
      IdsFresh(s.table, s.nextId) && s.nextId >= nextId
    ensures LinksSound(t, perms) ==> LinksSound(ScanFold(StartState(t, nextId), cat, inf, perms).table, perms)
    decreases |cat|
  {
    if cat != [] {
      ScanKeepsInvariants(t, nextId, cat[..|cat| - 1], inf, perms);
      ScanStepKeepsInvariants(ScanFold(StartState(t, nextId), cat[..|cat| - 1], inf, perms), cat[|cat| - 1], inf, perms);
    }
  }

  lemma ScanStepKeepsInvariants(s: ScanState, e: CatalogEntry, inf: Inflector, perms: Permissions)
    requires IdsFresh(s.table, s.nextId)
    ensures var s' := ScanStep(s, e, inf, perms);
      IdsFresh(s'.table, s'.nextId) && s'.nextId >= s.nextId
    ensures LinksSound(s.table, perms) ==> LinksSound(ScanStep(s, e, inf, perms).table, perms)
  {
  }

  /** A table already in the state a scan of `cat` writes. */
  ghost predicate Settled(t: Table, cat: seq<CatalogEntry>, inf: Inflector, perms: Permissions) {
    forall n :: n in KeySet(cat, EntryName) ==>
      n in t && HasScanFields(t[n], FirstBy(cat, EntryName, n).value, inf, perms)
  }

  /** Scanning a settled table creates nothing, updates nothing and leaves it as it is. */
  lemma {:induction false} SettledScanIsQuiet(t: Table, nextId: nat, cat: seq<CatalogEntry>, inf: Inflector, perms: Permissions, k: nat)
    requires k <= |cat|
    requires Settled(t, cat, inf, perms)
    ensures var s := ScanFold(StartState(t, nextId), cat[..k], inf, perms);
      s.table == t && s.nextId == nextId && s.created == 0 && s.updated == 0
    decreases k
  {
    if k > 0 {
      var pre := cat[..k - 1];
      var x := cat[k - 1];
      assert cat[..k][..k - 1] == pre;
      SettledScanIsQuiet(t, nextId, cat, inf, perms, k - 1);
      ScannedNames(t, nextId, pre, inf, perms);
      var s := ScanFold(StartState(t, nextId), pre, inf, perms);
      if x.name !in s.scanned {
        assert x.name !in KeySet(pre, EntryName);
        forall i | 0 <= i < k - 1
          ensures EntryName(cat[i]) != x.name
        {
          assert cat[i] == pre[i];
        }
        FirstByIsEarliest(cat, EntryName, x.name, k - 1);
        assert x.name in KeySet(cat, EntryName);
      }
    }
  }

  /** After a scan, the scanned rows are settled with respect to the catalogue. */
  lemma ScanSettles(t: Table, nextId: nat, cat: seq<CatalogEntry>, inf: Inflector, perms: Permissions, prefixes: seq<string>)
    ensures var s := ScanFold(StartState(t, nextId), cat, inf, perms);
      Settled(Prune(s.table, Stale(s.table, s.scanned, prefixes)), cat, inf, perms)
  {
    var s := ScanFold(StartState(t, nextId), cat, inf, perms);
    ScannedNames(t, nextId, cat, inf, perms);
    forall n | n in KeySet(cat, EntryName)
      ensures n in s.table && HasScanFields(s.table[n], FirstBy(cat, EntryName, n).value, inf, perms)
    {
      FirstEntryWins(t, nextId, cat, inf, perms, n);
    }
  }

  /**
   * Scanning twice with unchanged routes and permissions: the second scan
   * reports no created and no updated rows and changes no row.
   */
  lemma RescanIsQuiet(t: Table, nextId: nat, cat: seq<CatalogEntry>, inf: Inflector, perms: Permissions, prefixes: seq<string>)
    ensures var s1 := ScanFold(StartState(t, nextId), cat, inf, perms);
      var t1 := Prune(s1.table, Stale(s1.table, s1.scanned, prefixes));
      var s2 := ScanFold(StartState(t1, s1.nextId), cat, inf, perms);
      s2.created == 0 && s2.updated == 0 && s2.table == t1
  {
    var s1 := ScanFold(StartState(t, nextId), cat, inf, perms);
    var t1 := Prune(s1.table, Stale(s1.table, s1.scanned, prefixes));
    ScanSettles(t, nextId, cat, inf, perms, prefixes);
    SettledScanIsQuiet(t1, s1.nextId, cat, inf, perms, |cat|);
    assert cat[..|cat|] == cat;
  }
}
