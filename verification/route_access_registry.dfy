/**
 * The `route_accesses` table together with its three cache entries, as
 * one object whose operations are the controller actions, the model's
 * cache helpers, the request gate's read and the route scan. A cache entry
 * is filled on first read and forgotten by `clearCache` (the `saved` and
 * `deleted` model hooks call it, and so do `bulkUpdate` and the scan).
 */
module RouteAccessRegistry {
  import opened Wrappers
  import opened Text
  import opened Collections
  import opened PermissionNames
  import opened RouteCatalog
  import opened AccessGate
  import opened RouteAccess

  /** A request key: left out of the request, or given (possibly as null). */
  datatype Field<T> = Absent | Given(value: T)

  function Or<T>(f: Field<T>, default: T): (r: T)
    ensures f.Absent? ==> r == default
    ensures f.Given? ==> r == f.value
  {
    if f.Given? then f.value else default
  }

  /** A given null: what the `boolean` rule, which is not `nullable`, refuses. */
  predicate GivenNull<T>(f: Field<Option<T>>) {
    f.Given? && f.value.None?
  }

  /**
   * A flag as written to the row: the given value, or `default` when the
   * key is left out. A given null never gets this far: `Validate` refuses it.
   */
  function FlagOr(f: Field<Option<bool>>, default: bool): (r: bool)
    ensures f.Absent? ==> r == default
    ensures f.Given? && f.value.Some? ==> r == f.value.value
  {
    if f.Given? && f.value.Some? then f.value.value else default
  }

  /** The form fields of `store` and `update`; a given `None` is a null. */
  datatype RouteAccessInput = RouteAccessInput(
    routeName: Option<string>,
    uri: Field<Option<string>>,
    verb: Field<Option<string>>,
    permissionName: Field<Option<string>>,
    isActive: Field<Option<bool>>,
    isPublic: Field<Option<bool>>,
    description: Field<Option<string>>)

  /** Why an action was refused: a validation rule on a field, or no such row. */
  datatype Failure = Invalid(field: string, rule: string) | NotFound

  const Created := "Route access created successfully."
  const Updated := "Route access updated successfully."
  const Deleted := "Route access deleted successfully."
  const BulkDeleted := "Route accesses deleted successfully."

  /** A nullable string field within `max:n` (absent and null pass). */
  predicate WithinMax(f: Field<Option<string>>, max: nat) {
    f.Absent? || f.value.None? || |f.value.value| <= max
  }

  /**
   * The rules of `store` (`current` is None) and `update` (`current` is the
   * row being edited, which the unique rule ignores), checked field by field.
   */
  function Validate(input: RouteAccessInput, t: Table, current: Option<string>): (r: Option<Failure>)
    ensures r.None? <==>
      Filled(input.routeName) && |input.routeName.value| <= 255 &&
      (input.routeName.value !in t || Some(input.routeName.value) == current) &&
      WithinMax(input.uri, 255) && WithinMax(input.verb, 10) &&
      WithinMax(input.permissionName, 255) && !GivenNull(input.isActive) && !GivenNull(input.isPublic) &&
      WithinMax(input.description, 1000)
    ensures r.Some? ==> r.value.Invalid?
  {
    if !Filled(input.routeName) then Some(Invalid("route_name", "required"))
    else if |input.routeName.value| > 255 then Some(Invalid("route_name", "max"))
    else if input.routeName.value in t && Some(input.routeName.value) != current then Some(Invalid("route_name", "unique"))
    else if !WithinMax(input.uri, 255) then Some(Invalid("route_uri", "max"))
    else if !WithinMax(input.verb, 10) then Some(Invalid("route_method", "max"))
    else if !WithinMax(input.permissionName, 255) then Some(Invalid("permission_name", "max"))
    else if GivenNull(input.isActive) then Some(Invalid("is_active", "boolean"))
    else if GivenNull(input.isPublic) then Some(Invalid("is_public", "boolean"))
    else if !WithinMax(input.description, 1000) then Some(Invalid("description", "max"))
    else None
  }

  /**
   * A request that sends `is_active` or `is_public` as null is refused by
   * the `boolean` rule, while the same request without those keys passes
   * and takes the defaults.
   */
  lemma NullFlagRefused(t: Table)
    requires "users.index" !in t
    ensures Validate(RouteAccessInput(Some("users.index"), Absent, Absent, Absent, Given(None), Absent, Absent), t, None)
            == Some(Invalid("is_active", "boolean"))
    ensures Validate(RouteAccessInput(Some("users.index"), Absent, Absent, Absent, Absent, Given(None), Absent), t, None)
            == Some(Invalid("is_public", "boolean"))
    ensures Validate(RouteAccessInput(Some("users.index"), Absent, Absent, Absent, Absent, Absent, Absent), t, None).None?
  {
    assert !IsPhpSpace("users.index"[0]);
  }

  /** The row `store` creates: absent flags take the column defaults (active, not public). */
  function NewEntry(id: nat, input: RouteAccessInput, perms: Permissions): (e: Entry)
    ensures e.id == id
    ensures e.isActive == FlagOr(input.isActive, true) && e.isPublic == FlagOr(input.isPublic, false)
    ensures e.permissionName == Or(input.permissionName, None)
    ensures e.permissionId == LinkedId(perms, e.permissionName)
    ensures LinkSound(e, perms)
  {
    var pn := Or(input.permissionName, None);
    Entry(id, Or(input.uri, None), Or(input.verb, None), pn, LinkedId(perms, pn),
          FlagOr(input.isActive, true), FlagOr(input.isPublic, false), Or(input.description, None))
  }

  /** The row after `update`: given keys overwrite, absent keys keep; then the link is recomputed. */
  function EditedEntry(e: Entry, input: RouteAccessInput, perms: Permissions): (r: Entry)
    ensures r.id == e.id
    ensures r.uri == Or(input.uri, e.uri) && r.verb == Or(input.verb, e.verb)
    ensures r.permissionName == Or(input.permissionName, e.permissionName)
    ensures r.isActive == FlagOr(input.isActive, e.isActive) && r.isPublic == FlagOr(input.isPublic, e.isPublic)
    ensures r.description == Or(input.description, e.description)
    ensures r.permissionId == LinkedId(perms, r.permissionName)
    ensures LinkSound(r, perms)
  {
    var pn := Or(input.permissionName, e.permissionName);
    Entry(e.id, Or(input.uri, e.uri), Or(input.verb, e.verb), pn, LinkedId(perms, pn),
          FlagOr(input.isActive, e.isActive), FlagOr(input.isPublic, e.isPublic), Or(input.description, e.description))
  }

  /** `bulkUpdate`'s flash message for each action. */
  function BulkMessage(a: BulkAction): string {
    match a
    case Activate => "Routes activated successfully."
    case Deactivate => "Routes deactivated successfully."
    case MakePublic => "Routes made public successfully."
    case MakeProtected => "Routes made protected successfully."
  }

  /**
   * The `ids` rules: a non-empty array whose every element is an existing
   * id. A missing id is reported under the rule's key `ids.*`, where
   * Laravel names the element, `ids.0`, `ids.1`, ….
   */
  function ValidateIds(t: Table, ids: seq<int>): (r: Option<Failure>)
    ensures r.None? <==> |ids| > 0 && IdsExist(t, ids)
    ensures r.Some? ==> r.value.Invalid?
  {
    if |ids| == 0 then Some(Invalid("ids", "required"))
    else if !IdsExist(t, ids) then Some(Invalid("ids.*", "exists"))
    else None
  }

  class Registry {
    var table: Table
    var permissions: Permissions
    var nextId: nat
    var routesCache: Option<map<string, CachedRoute>>
    var permissionsCache: Option<map<string, string>>
    var publicCache: Option<set<string>>

    /**
     * Ids are unique and fresh. Permission links are not required to be
     * sound: renaming a permission leaves the rows linked to its id under
     * the old name, which is what `syncPermissions` repairs.
     */
    ghost predicate Valid()
      reads this
    {
      IdsFresh(table, nextId)
    }

    /** Every filled cache entry holds what a read of the table would give now. */
    ghost predicate Coherent()
      reads this
    {
      && (routesCache.Some? ==> routesCache.value == RoutesSnapshot(table))
      && (permissionsCache.Some? ==> permissionsCache.value == PermissionsSnapshot(table))
      && (publicCache.Some? ==> publicCache.value == PublicSnapshot(table))
    }

    /** No cache entry changed between the two states. */
    twostate predicate CacheKept()
      reads this
    {
      routesCache == old(routesCache) && permissionsCache == old(permissionsCache) && publicCache == old(publicCache)
    }

    ghost predicate CacheEmpty()
      reads this
    {
      routesCache.None? && permissionsCache.None? && publicCache.None?
    }

    constructor(t: Table, perms: Permissions, next: nat)
      requires IdsFresh(t, next)
      ensures table == t && permissions == perms && nextId == next
      ensures CacheEmpty() && Valid() && Coherent()
    {
      table := t;
      permissions := perms;
      nextId := next;
      routesCache := None;
      permissionsCache := None;
      publicCache := None;
    }

    /** `RouteAccess::clearCache()`: forgets the three entries. */
    method ClearCache()
      modifies this
      ensures CacheEmpty() && Coherent()
      ensures table == old(table) && permissions == old(permissions) && nextId == old(nextId)
    {
      routesCache := None;
      permissionsCache := None;
      publicCache := None;
    }

    /** `getCachedRoutes()`: the cached entry, or a fresh read that is then kept. */
    method GetCachedRoutes() returns (r: map<string, CachedRoute>)
      modifies this
      ensures r == (if old(routesCache).Some? then old(routesCache).value else RoutesSnapshot(table))
      ensures routesCache == Some(r)
      ensures permissionsCache == old(permissionsCache) && publicCache == old(publicCache)
      ensures table == old(table) && permissions == old(permissions) && nextId == old(nextId)
      ensures old(Coherent()) ==> Coherent() && r == RoutesSnapshot(table)
    {
      if routesCache.Some? {
        r := routesCache.value;
      } else {
        r := RoutesSnapshot(table);
        routesCache := Some(r);
      }
    }

    /** `getCachedPermissions()`. */
    method GetCachedPermissions() returns (r: map<string, string>)
      modifies this
      ensures r == (if old(permissionsCache).Some? then old(permissionsCache).value else PermissionsSnapshot(table))
      ensures permissionsCache == Some(r)
      ensures routesCache == old(routesCache) && publicCache == old(publicCache)
      ensures table == old(table) && permissions == old(permissions) && nextId == old(nextId)
      ensures old(Coherent()) ==> Coherent() && r == PermissionsSnapshot(table)
    {
      if permissionsCache.Some? {
        r := permissionsCache.value;
      } else {
        r := PermissionsSnapshot(table);
        permissionsCache := Some(r);
      }
    }

    /** `getCachedPublicRoutes()`. */
    method GetCachedPublicRoutes() returns (r: set<string>)
      modifies this
      ensures r == (if old(publicCache).Some? then old(publicCache).value else PublicSnapshot(table))
      ensures publicCache == Some(r)
      ensures routesCache == old(routesCache) && permissionsCache == old(permissionsCache)
      ensures table == old(table) && permissions == old(permissions) && nextId == old(nextId)
      ensures old(Coherent()) ==> Coherent() && r == PublicSnapshot(table)
    {
      if publicCache.Some? {
        r := publicCache.value;
      } else {
        r := PublicSnapshot(table);
        publicCache := Some(r);
      }
    }

    /**
     * The request gate reading the route cache. It decides on whatever the
     * cache holds; on a coherent cache that is the decision on the table.
     */
    method Authorize(user: Option<User>, routeName: Option<string>) returns (d: Decision)
      modifies this
      ensures table == old(table) && permissions == old(permissions) && nextId == old(nextId)
      ensures permissionsCache == old(permissionsCache) && publicCache == old(publicCache)
      ensures routesCache == old(routesCache) || (old(routesCache).None? && routesCache == Some(RoutesSnapshot(table)))
      ensures d == Handle(user, routeName, if old(routesCache).Some? then old(routesCache).value else RoutesSnapshot(table))
      ensures old(Coherent()) ==> Coherent() && d == Handle(user, routeName, RoutesSnapshot(table))
    {
      if user.None? {
        return Deny(Unauthorized, false);
      }
      var u := user.value;
      if u.isSuperAdmin {
        return Allow;
      }
      if !u.isActive {
        return Deny(Deactivated, true);
      }
      if !PhpTruthy(routeName) {
        return Allow;
      }
      var routes := GetCachedRoutes();
      var access := RouteAccessOf(routes, routeName.value);
      if access.None? {
        d := Allow;
      } else if !access.value.isActive {
        d := Deny(RouteDisabled, false);
      } else if access.value.isPublic {
        d := Allow;
      } else if !PhpTruthy(access.value.permissionName) {
        d := Allow;
      } else if access.value.permissionName.value !in u.permissions {
        d := Deny(Forbidden, false);
      } else {
        d := Allow;
      }
    }

    /** `store`: validate, create the row, link it to its permission, clear the cache. */
    method Store(input: RouteAccessInput) returns (r: Result<string, Failure>)
      requires Valid()
      modifies this
      ensures Valid() && permissions == old(permissions)
      ensures r.Err? <==> Validate(input, old(table), None).Some?
      ensures r.Err? ==> r.error == Validate(input, old(table), None).value
      ensures r.Err? ==> table == old(table) && nextId == old(nextId) && CacheKept()
      ensures GivenNull(input.isActive) || GivenNull(input.isPublic) ==> r.Err? && table == old(table)
      ensures r.Ok? ==>
        && r.value == Created && CacheEmpty() && nextId == old(nextId) + 1
        && input.routeName.value !in old(table)
        && table == old(table)[input.routeName.value := NewEntry(old(nextId), input, permissions)]
    {
      var failure := Validate(input, table, None);
      if failure.Some? {
        return Err(failure.value);
      }
      table := table[input.routeName.value := NewEntry(nextId, input, permissions)];
      nextId := nextId + 1;
      ClearCache();
      r := Ok(Created);
    }

    /**
     * `update`: validate against every other row, overwrite the given keys
     * (renaming the row when the name changes), recompute the link, clear
     * the cache.
     */
    method Update(current: string, input: RouteAccessInput) returns (r: Result<string, Failure>)
      requires Valid()
      modifies this
      ensures Valid() && permissions == old(permissions) && nextId == old(nextId)
      ensures current !in old(table) ==> r == Err(NotFound)
      ensures current in old(table) ==>
        (r.Err? <==> Validate(input, old(table), Some(current)).Some?)
      ensures r.Err? ==> table == old(table) && CacheKept()
      ensures GivenNull(input.isActive) || GivenNull(input.isPublic) ==> r.Err? && table == old(table)
      ensures r.Ok? ==>
        && r.value == Updated && CacheEmpty() && current in old(table)
        && table == (old(table) - {current})[input.routeName.value := EditedEntry(old(table)[current], input, permissions)]
    {
      if current !in table {
        return Err(NotFound);
      }
      var failure := Validate(input, table, Some(current));
      if failure.Some? {
        return Err(failure.value);
      }
      var edited := EditedEntry(table[current], input, permissions);
      table := (table - {current})[input.routeName.value := edited];
      ClearCache();
      r := Ok(Updated);
    }

    /** `destroy`: delete the row; the `deleted` hook clears the cache. */
    method Destroy(name: string) returns (r: Result<string, Failure>)
      requires Valid()
      modifies this
      ensures Valid() && permissions == old(permissions) && nextId == old(nextId)
      ensures name !in old(table) ==> r == Err(NotFound) && table == old(table) && CacheKept()
      ensures name in old(table) ==> r == Ok(Deleted) && table == old(table) - {name} && CacheEmpty()
    {
      if name !in table {
        return Err(NotFound);
      }
      table := table - {name};
      ClearCache();
      r := Ok(Deleted);
    }

    /** `linkPermission()` on one row, saved, so the cache is cleared. */
    method LinkPermission(name: string)
      requires Valid() && name in table
      modifies this
      ensures Valid() && CacheEmpty()
      ensures permissions == old(permissions) && nextId == old(nextId)
      ensures table == old(table)[name := old(table)[name].(permissionId := LinkedId(permissions, old(table)[name].permissionName))]
    {
      var e := table[name];
      table := table[name := e.(permissionId := LinkedId(permissions, e.permissionName))];
      ClearCache();
    }

    /** `bulkUpdate`: validate, set one flag on the listed rows, clear the cache. */
    method BulkUpdate(ids: seq<int>, action: string) returns (r: Result<string, Failure>)
      requires Valid()
      modifies this
      ensures Valid() && permissions == old(permissions) && nextId == old(nextId)
      ensures r.Err? <==> ValidateIds(old(table), ids).Some? || ParseBulkAction(action).None?
      ensures r.Err? ==> table == old(table) && CacheKept()
      ensures r.Ok? ==>
        && CacheEmpty()
        && r.value == BulkMessage(ParseBulkAction(action).value)
        && table == BulkApply(old(table), ids, ParseBulkAction(action).value)
    {
      var failure := ValidateIds(table, ids);
      if failure.Some? {
        return Err(failure.value);
      }
      var a := ParseBulkAction(action);
      if a.None? {
        return Err(Invalid("action", "in"));
      }
      table := BulkApply(table, ids, a.value);
      ClearCache();
      r := Ok(BulkMessage(a.value));
    }

    /**
     * `bulkDestroy` as written: a query-builder delete, which fires no
     * model event, and no `clearCache` call, so the cache keeps the deleted
     * rows.
     */
    method BulkDestroyAsWritten(ids: seq<int>) returns (r: Result<string, Failure>)
      requires Valid()
      modifies this
      ensures Valid() && permissions == old(permissions) && nextId == old(nextId)
      ensures CacheKept()
      ensures r.Err? <==> ValidateIds(old(table), ids).Some?
      ensures r.Err? ==> table == old(table)
      ensures r.Ok? ==> r.value == BulkDeleted && table == WithoutIds(old(table), ids)
    {
      var failure := ValidateIds(table, ids);
      if failure.Some? {
        return Err(failure.value);
      }
      table := WithoutIds(table, ids);
      r := Ok(BulkDeleted);
    }

    /** `bulkDestroy` with the cache cleared after the delete, as every other write does. */
    method BulkDestroy(ids: seq<int>) returns (r: Result<string, Failure>)
      requires Valid()
      modifies this
      ensures Valid() && permissions == old(permissions) && nextId == old(nextId)
      ensures r.Err? <==> ValidateIds(old(table), ids).Some?
      ensures r.Err? ==> table == old(table) && CacheKept()
      ensures r.Ok? ==> r.value == BulkDeleted && table == WithoutIds(old(table), ids) && CacheEmpty()
      ensures old(Coherent()) ==> Coherent()
    {
      var failure := ValidateIds(table, ids);
      if failure.Some? {
        return Err(failure.value);
      }
      table := WithoutIds(table, ids);
      ClearCache();
      r := Ok(BulkDeleted);
    }

    /**
     * `syncPermissions`: every row naming an existing permission whose id
     * differs is updated to that id; `linked` counts the updates. Each
     * update is a model save, which clears the cache, so the cache ends
     * empty exactly when at least one row was updated.
     */
    method SyncPermissions() returns (linked: nat)
      requires Valid()
      modifies this
      ensures Valid() && permissions == old(permissions) && nextId == old(nextId)
      ensures table == RelinkAll(old(table), permissions)
      ensures linked == |NeedingLink(old(table), permissions)|
      ensures linked > 0 ==> CacheEmpty()
      ensures linked == 0 ==> table == old(table) && CacheKept()
      ensures old(Coherent()) ==> Coherent()
      ensures forall n :: n in table ==> !NeedsLink(table[n], permissions)
      ensures forall n :: n in table && table[n].permissionName.Some? && table[n].permissionName.value in permissions ==>
        table[n].permissionId == Some(permissions[table[n].permissionName.value])
    {
      RelinkAllKeepsInvariants(table, permissions, nextId);
      RelinkAllSettles(table, permissions);
      linked := RelinkRows();
    }

    /** The rows of `syncPermissions` written back; the cache is cleared when a row was saved. */
    method RelinkRows() returns (linked: nat)
      modifies this
      ensures permissions == old(permissions) && nextId == old(nextId)
      ensures table == RelinkAll(old(table), permissions)
      ensures linked == |NeedingLink(old(table), permissions)|
      ensures linked > 0 ==> CacheEmpty()
      ensures linked == 0 ==> table == old(table) && CacheKept()
    {
      var rows;
      rows, linked := RelinkLoop(table, permissions);
      if linked == 0 {
        NothingToLink(table, permissions);
      }
      table := rows;
      if linked > 0 {
        ClearCache();
      }
    }
    /**
     * `syncRouteAccesses($prefixes)`: write every catalogue route into its
     * row (first entry per name wins), delete the rows under the prefixes
     * that the catalogue no longer has, clear the cache, report the counts.
     */
    method Scan(routes: seq<Route>, prefixes: seq<string>, inf: Inflector)
      returns (created: nat, updated: nat, removed: nat, matched: nat)
      requires Valid()
      modifies this
      ensures Valid() && CacheEmpty() && permissions == old(permissions)
      ensures var s := ScanFold(StartState(old(table), old(nextId)), AllNamedRoutes(routes, prefixes), inf, permissions);
        var stale := Stale(s.table, s.scanned, prefixes);
        && table == Prune(s.table, stale) && nextId == s.nextId
        && created == s.created && updated == s.updated && matched == s.matched && removed == |stale|
    {
      var cat := AllNamedRoutes(routes, prefixes);
      var scanned;
      scanned, created, updated, matched := WriteCatalogue(cat, inf);
      ScanKeepsInvariants(old(table), old(nextId), cat, inf, permissions);
      var stale := Stale(table, scanned, prefixes);
      removed := |stale|;
      table := Prune(table, stale);
      ClearCache();
    }

    /** The loop of `syncRouteAccesses`: one `updateOrCreate` per first occurrence of a name. */
    method WriteCatalogue(cat: seq<CatalogEntry>, inf: Inflector)
      returns (scanned: seq<string>, created: nat, updated: nat, matched: nat)
      modifies this
      ensures ScanState(table, nextId, scanned, created, updated, matched)
        == ScanFold(StartState(old(table), old(nextId)), cat, inf, permissions)
      ensures permissions == old(permissions)
    {
      var st := StartState(table, nextId);
      var i := 0;
      while i < |cat|
        invariant 0 <= i <= |cat|
        invariant st == ScanFold(StartState(table, nextId), cat[..i], inf, permissions)
        invariant unchanged(this)
      {
        ScanFoldNext(StartState(table, nextId), cat, i, inf, permissions);
        st := ScanRow(st, cat[i], inf, permissions);
        i := i + 1;
      }
      assert cat[..|cat|] == cat;
      table, nextId := st.table, st.nextId;
      scanned, created, updated, matched := st.scanned, st.created, st.updated, st.matched;
    }
  }

  /** One iteration of the scan loop: a name seen before is skipped, else its row is updated or created. */
  method ScanRow(s: ScanState, e: CatalogEntry, inf: Inflector, perms: Permissions) returns (r: ScanState)
    ensures r == ScanStep(s, e, inf, perms)
  {
    r := s;
    if e.name !in s.scanned {
      var pn := ScanPermissionName(inf, perms, e.name);
      var pid := ScanPermissionId(inf, perms, e.name);
      r := r.(scanned := s.scanned + [e.name]);
      if PhpTruthy(pn) {
        r := r.(matched := s.matched + 1);
      }
      if e.name in s.table {
        var before := s.table[e.name];
        var after := before.(uri := Some(e.uri), verb := Some(e.verb), permissionName := pn, permissionId := pid);
        r := r.(table := s.table[e.name := after]);
        if after != before {
          r := r.(updated := s.updated + 1);
        }
      } else {
        r := r.(table := s.table[e.name := Entry(s.nextId, Some(e.uri), Some(e.verb), pn, pid, true, false, None)]);
        r := r.(nextId := s.nextId + 1, created := s.created + 1);
      }
    }
  }

  /** The loop of `syncPermissions`, one row at a time. */
  method RelinkLoop(t: Table, perms: Permissions) returns (rows: Table, linked: nat)
    ensures rows == RelinkAll(t, perms)
    ensures linked == |NeedingLink(t, perms)|
  {
    rows := t;
    var todo := t.Keys;
    ghost var done: set<string> := {};
    SyncBounds(t, perms);
    linked := 0;
    while todo != {}
      invariant todo + done == t.Keys && todo !! done
      invariant rows == PartlyRelinked(t, perms, done)
      invariant linked == |LinkedAmong(t, perms, done)|
      decreases |todo|
    {
      var n :| n in todo;
      MoveOne(todo, done, t.Keys, n);
      SyncStep(t, perms, done, n);
      if NeedsLink(rows[n], perms) {
        CardAddOne(LinkedAmong(t, perms, done), n);
        rows := rows[n := Relinked(rows[n], perms)];
        linked := linked + 1;
      }
      todo := todo - {n};
      done := done + {n};
    }
    SyncBounds(t, perms);
  }

  /**
   * What the stale cache left by `bulkDestroy` does: a user asks for a
   * route whose row was disabled and has just been deleted. The cache
   * still denies the request; the table, which no longer has the row,
   * lets it through.
   */
  lemma StaleCacheAfterBulkDestroy()
    ensures var t := map["reports.index" := Entry(7, Some("/reports"), Some("GET"), None, None, false, false, None)];
      var u := Some(User(false, true, {}));
      && Handle(u, Some("reports.index"), RoutesSnapshot(t)) == Deny(RouteDisabled, false)
      && WithoutIds(t, [7]) == map[]
      && Handle(u, Some("reports.index"), RoutesSnapshot(WithoutIds(t, [7]))) == Allow
  {
    var t := map["reports.index" := Entry(7, Some("/reports"), Some("GET"), None, None, false, false, None)];
    assert "reports.index" in t;
    assert RoutesSnapshot(t)["reports.index"].isActive == false;
    assert WithoutIds(t, [7]).Keys == {};
  }
}
