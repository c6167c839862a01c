/**
 * Inference of a permission name from a route name
 * (`RouteAccess::generatePermissionName` and `formatPermission`).
 *
 * A route name is split on '.'; a name of one segment is kept as it is;
 * otherwise the last segment is the action and the one before it the
 * resource, and the permission is `singular(resource) . '.' . action'`
 * where `action'` comes from a fixed table or, for actions outside it, is
 * the kebab-case form of the action.
 */
module PermissionNames {
  import opened Wrappers
  import opened Text

  /**
   * The framework's English inflector (`Str::singular`, `Str::kebab`) is
   * outside the model; both functions are parameters of the inference.
   */
  datatype Inflector = Inflector(singular: string -> string, kebab: string -> string)

  /** The actions that the table maps to. */
  const CanonicalActions: set<string> :=
    {"view", "create", "edit", "delete", "export", "import", "restore"}

  /**
   * The canonical actions that are also keys of the table; "view" and
   * "delete" are not keys, so they go through the kebab-case fallback.
   */
  const SelfMapped: set<string> := {"create", "edit", "export", "import", "restore"}

  /** The table of route actions and the permission action each one needs. */
  function MapAction(action: string): (r: Option<string>)
    ensures r.Some? ==> r.value in CanonicalActions
    ensures action in SelfMapped ==> r == Some(action)
    ensures action == "view" || action == "delete" ==> r.None?
  {
    match action
    case "index" => Some("view")
    case "show" => Some("view")
    case "create" => Some("create")
    case "store" => Some("create")
    case "edit" => Some("edit")
    case "update" => Some("edit")
    case "destroy" => Some("delete")
    case "bulkDestroy" => Some("delete")
    case "bulk-destroy" => Some("delete")
    case "bulkUpdate" => Some("edit")
    case "bulk-update" => Some("edit")
    case "export" => Some("export")
    case "import" => Some("import")
    case "download" => Some("export")
    case "activate" => Some("edit")
    case "deactivate" => Some("edit")
    case "toggle" => Some("edit")
    case "restore" => Some("restore")
    case "reorder" => Some("edit")
    case "sort" => Some("edit")
    case "move" => Some("edit")
    case "sync" => Some("edit")
    case "sync-permissions" => Some("edit")
    case "syncPermissions" => Some("edit")
    case "scan" => Some("create")
    case "clear" => Some("delete")
    case _ => None
  }

  lemma CanonicalActionsDotFree()
    ensures forall a :: a in CanonicalActions ==> '.' !in a
  {
    forall a | a in CanonicalActions
      ensures '.' !in a
    {
      if a == "view" {
      } else if a == "create" {
      } else if a == "edit" {
      } else if a == "delete" {
      } else if a == "export" {
      } else if a == "import" {
      } else {
        assert a == "restore";
      }
    }
  }

  /** The permission action for a route action: the table's entry, else the kebab-case action. */
  function PermissionAction(inf: Inflector, action: string): (r: string)
    ensures MapAction(action).Some? ==> r in CanonicalActions
    ensures MapAction(action).None? ==> r == inf.kebab(action)
    ensures action in SelfMapped ==> r == action
  {
    MapAction(action).GetOr(inf.kebab(action))
  }

  /** `formatPermission($resource, $action)`. */
  function FormatPermission(inf: Inflector, resource: string, action: string): string {
    inf.singular(resource) + "." + PermissionAction(inf, action)
  }

  /** `generatePermissionName($routeName)`. */
  function GeneratePermissionName(inf: Inflector, routeName: string): string {
    var parts := Split(routeName, '.');
    if |parts| == 1 then routeName
    else if |parts| == 2 then FormatPermission(inf, parts[0], parts[1])
    else FormatPermission(inf, parts[|parts| - 2], parts[|parts| - 1])
  }

  /** The inflector never produces a '.', so results are two-segment names. */
  ghost predicate DotFree(inf: Inflector) {
    forall s :: '.' !in inf.singular(s) && '.' !in inf.kebab(s)
  }

  /** A route name without a '.' is its own permission name. */
  lemma SingleSegmentKept(inf: Inflector, routeName: string)
    requires '.' !in routeName
    ensures GeneratePermissionName(inf, routeName) == routeName
  {
    SplitWithoutSep(routeName, '.');
  }

  /**
   * A name with two or more segments is formatted from its last two,
   * whatever comes before them: the two-segment branch and the
   * longer-name branch agree.
   */
  lemma LastTwoSegmentsDecide(inf: Inflector, routeName: string)
    requires '.' in routeName
    ensures var parts := Split(routeName, '.');
      |parts| >= 2 &&
      GeneratePermissionName(inf, routeName) ==
        FormatPermission(inf, parts[|parts| - 2], parts[|parts| - 1])
  {
    var parts := Split(routeName, '.');
    SplitWithSep(routeName, '.');
    if |parts| == 2 {
      assert parts[|parts| - 2] == parts[0] && parts[|parts| - 1] == parts[1];
    }
  }

  /** Any prefix (`admin.`, `api.v1.`, `merchant.`) is ignored. */
  lemma PrefixIgnored(inf: Inflector, prefix: string, routeName: string)
    requires '.' in routeName
    ensures GeneratePermissionName(inf, prefix + "." + routeName) ==
            GeneratePermissionName(inf, routeName)
  {
    SplitConcat(prefix, '.', routeName);
    SplitWithSep(routeName, '.');
    var whole := prefix + "." + routeName;
    assert "." == ['.'];
    assert '.' in whole by {
      assert whole[|prefix|] == '.';
    }
    LastTwoSegmentsDecide(inf, whole);
    LastTwoSegmentsDecide(inf, routeName);
  }

  /**
   * With an inflector that produces no '.', an inferred name of a
   * multi-segment route has exactly two segments: the singular resource and
   * the permission action.
   */
  lemma {:induction false} InferredNameShape(inf: Inflector, routeName: string)
    requires DotFree(inf)
    requires '.' in routeName
    ensures |Split(routeName, '.')| >= 2
    ensures Split(GeneratePermissionName(inf, routeName), '.') ==
      [inf.singular(Split(routeName, '.')[|Split(routeName, '.')| - 2]),
       PermissionAction(inf, Split(routeName, '.')[|Split(routeName, '.')| - 1])]
  {
    var parts := Split(routeName, '.');
    LastTwoSegmentsDecide(inf, routeName);
    var res, act := parts[|parts| - 2], parts[|parts| - 1];
    calc {
      Split(GeneratePermissionName(inf, routeName), '.');
      Split(FormatPermission(inf, res, act), '.');
      { FormatShape(inf, res, act); }
      [inf.singular(res), PermissionAction(inf, act)];
    }
  }

  /** A formatted permission splits back into its resource and its action. */
  lemma FormatShape(inf: Inflector, resource: string, action: string)
    requires DotFree(inf)
    ensures Split(FormatPermission(inf, resource, action), '.') ==
      [inf.singular(resource), PermissionAction(inf, action)]
  {
    var res := inf.singular(resource);
    var act := PermissionAction(inf, action);
    CanonicalActionsDotFree();
    assert '.' !in res;
    assert '.' !in act;
    SplitWithoutSep(res, '.');
    SplitAppend(res, '.', act);
    assert FormatPermission(inf, resource, action) == res + ['.'] + act;
  }

  /** The kebab-case form of the two canonical actions the table does not list is the action itself. */
  predicate KeepsCanonical(inf: Inflector) {
    inf.kebab("view") == "view" && inf.kebab("delete") == "delete"
  }

  /**
   * Scanning twice is stable: a name inferred from a mapped action, fed
   * back as a route name, gives itself again when the inflector keeps
   * singular words singular and canonical actions as they are.
   */
  lemma {:induction false} InferenceIdempotent(inf: Inflector, routeName: string)
    requires DotFree(inf) && KeepsCanonical(inf)
    requires forall w :: inf.singular(inf.singular(w)) == inf.singular(w)
    requires '.' in routeName
    requires PermissionAction(inf, Split(routeName, '.')[|Split(routeName, '.')| - 1]) in CanonicalActions
    ensures var once := GeneratePermissionName(inf, routeName);
      GeneratePermissionName(inf, once) == once
  {
    var parts := Split(routeName, '.');
    LastTwoSegmentsDecide(inf, routeName);
    Reformat(inf, parts[|parts| - 2], parts[|parts| - 1]);
  }

  /** A permission formatted from a mapped action is its own permission name. */
  lemma Reformat(inf: Inflector, resource: string, action: string)
    requires DotFree(inf) && KeepsCanonical(inf)
    requires inf.singular(inf.singular(resource)) == inf.singular(resource)
    requires PermissionAction(inf, action) in CanonicalActions
    ensures GeneratePermissionName(inf, FormatPermission(inf, resource, action)) == FormatPermission(inf, resource, action)
  {
    var act := PermissionAction(inf, action);
    FormatShape(inf, resource, action);
    TwoSegments(inf, FormatPermission(inf, resource, action), inf.singular(resource), act);
    if act == "view" || act == "delete" {
      assert MapAction(act).None?;
    } else {
      assert act in SelfMapped;
    }
    assert PermissionAction(inf, act) == act;
  }

  /** A name of exactly two segments is formatted from them. */
  lemma TwoSegments(inf: Inflector, name: string, resource: string, action: string)
    requires |Split(name, '.')| == 2 && Split(name, '.')[0] == resource && Split(name, '.')[1] == action
    ensures GeneratePermissionName(inf, name) == FormatPermission(inf, resource, action)
  {
  }

  // ---------------------------------------------------------------------
  // An example inflector: enough English to run the documented examples.
  // ---------------------------------------------------------------------

  predicate IsUpper(c: char) {
    'A' <= c <= 'Z'
  }

  /**
   * `Str::kebab` for a word without whitespace: a '-' before every
   * upper-case letter that is not the first character, then lower case.
   */
  function Kebab(s: string): (r: string)
    ensures forall i :: 0 <= i < |r| ==> !IsUpper(r[i])
    ensures (forall i :: 0 <= i < |s| ==> !IsUpper(s[i])) ==> r == s
    decreases |s|
  {
    if s == [] then []
    else
      var c := s[|s| - 1];
      var tail := if IsUpper(c) && |s| > 1 then ['-', LowerChar(c)] else [LowerChar(c)];
      assert s[..|s| - 1] + [c] == s;
      Kebab(s[..|s| - 1]) + tail
  }

  /** A toy English singular: "-ies" becomes "-y", a final "s" is dropped. */
  function SimpleSingular(w: string): string {
    if |w| >= 3 && w[|w| - 3..] == "ies" then w[..|w| - 3] + "y"
    else if |w| >= 1 && w[|w| - 1] == 's' then w[..|w| - 1]
    else w
  }

  const ExampleInflector := Inflector(SimpleSingular, Kebab)

  lemma Split3(a: string, b: string, c: string)
    requires '.' !in a && '.' !in b && '.' !in c
    ensures Split(a + "." + b + "." + c, '.') == [a, b, c]
  {
    SplitWithoutSep(a, '.');
    SplitAppend(a, '.', b);
    SplitAppend(a + "." + b, '.', c);
  }

  // The examples the source documents, with the example inflector.

  /** A name whose segments are known is formatted from its last two. */
  lemma FromLastTwo(inf: Inflector, routeName: string, parts: seq<string>, name: string)
    requires Split(routeName, '.') == parts && |parts| >= 2
    requires FormatPermission(inf, parts[|parts| - 2], parts[|parts| - 1]) == name
    ensures GeneratePermissionName(inf, routeName) == name
  {
  }

  /** The segments of the documented route names. */
  lemma ExampleSplits()
    ensures Split("admin.users.index", '.') == ["admin", "users", "index"]
    ensures Split("merchant.products.create", '.') == ["merchant", "products", "create"]
    ensures Split("customer.profile.update", '.') == ["customer", "profile", "update"]
  {
    ExampleNames();
    Split3("admin", "users", "index");
    Split3("merchant", "products", "create");
    Split3("customer", "profile", "update");
  }

  lemma ExampleNames()
    ensures "admin.users.index" == "admin" + "." + "users" + "." + "index"
    ensures "merchant.products.create" == "merchant" + "." + "products" + "." + "create"
    ensures "customer.profile.update" == "customer" + "." + "profile" + "." + "update"
    ensures '.' !in "admin" && '.' !in "users" && '.' !in "index"
    ensures '.' !in "merchant" && '.' !in "products" && '.' !in "create"
    ensures '.' !in "customer" && '.' !in "profile" && '.' !in "update"
  {
  }

  /** The permission names formatted from the documented resources and actions. */
  lemma ExampleFormats()
    ensures FormatPermission(ExampleInflector, "users", "index") == "user.view"
    ensures FormatPermission(ExampleInflector, "products", "create") == "product.create"
    ensures FormatPermission(ExampleInflector, "profile", "update") == "profile.edit"
    ensures FormatPermission(ExampleInflector, "orders", "store") == "order.create"
  {
    Singulars();
    ExampleActions();
    FormatOf("users", "index", "user", "view");
    FormatOf("products", "create", "product", "create");
    FormatOf("profile", "update", "profile", "edit");
    FormatOf("orders", "store", "order", "create");
    ExampleDotted();
  }

  lemma ExampleDotted()
    ensures "user" + "." + "view" == "user.view"
    ensures "product" + "." + "create" == "product.create"
    ensures "profile" + "." + "edit" == "profile.edit"
    ensures "order" + "." + "create" == "order.create"
  {
  }

  lemma FormatOf(resource: string, action: string, singular: string, permission: string)
    requires SimpleSingular(resource) == singular
    requires PermissionAction(ExampleInflector, action) == permission
    ensures FormatPermission(ExampleInflector, resource, action) == singular + "." + permission
  {
  }

  /** The example actions map through the table. */
  lemma ExampleActions()
    ensures PermissionAction(ExampleInflector, "index") == "view"
    ensures PermissionAction(ExampleInflector, "create") == "create"
    ensures PermissionAction(ExampleInflector, "update") == "edit"
    ensures PermissionAction(ExampleInflector, "store") == "create"
  {
    assert MapAction("index") == Some("view");
    assert MapAction("create") == Some("create");
    assert MapAction("update") == Some("edit");
    assert MapAction("store") == Some("create");
  }

  /** The example singulars: a final "s" is dropped, a word without one is kept. */
  lemma Singulars()
    ensures SimpleSingular("users") == "user"
    ensures SimpleSingular("products") == "product"
    ensures SimpleSingular("profile") == "profile"
    ensures SimpleSingular("orders") == "order"
  {
    assert "users" == "user" + "s" && "products" == "product" + "s" && "orders" == "order" + "s";
    DropFinalS("user");
    DropFinalS("product");
    DropFinalS("order");
    assert "profile"[4..] != "ies" && "profile"[6] != 's';
  }

  lemma DropFinalS(w: string)
    requires |w| >= 2 && w[|w| - 2..] != "ie"
    ensures SimpleSingular(w + "s") == w
  {
    var ws := w + "s";
    assert ws[|ws| - 3..] == w[|w| - 2..] + "s";
    assert ws[..|ws| - 1] == w;
  }

  lemma ExampleAdminUsersIndex()
    ensures GeneratePermissionName(ExampleInflector, "admin.users.index") == "user.view"
  {
    ExampleSplits();
    ExampleFormats();
    FromLastTwo(ExampleInflector, "admin.users.index", ["admin", "users", "index"], "user.view");
  }

  lemma ExampleMerchantProductsCreate()
    ensures GeneratePermissionName(ExampleInflector, "merchant.products.create") == "product.create"
  {
    ExampleSplits();
    ExampleFormats();
    FromLastTwo(ExampleInflector, "merchant.products.create", ["merchant", "products", "create"], "product.create");
  }

  /** The update action maps to edit, so this yields `profile.edit`. */
  lemma ExampleCustomerProfileUpdate()
    ensures GeneratePermissionName(ExampleInflector, "customer.profile.update") == "profile.edit"
  {
    ExampleSplits();
    ExampleFormats();
    FromLastTwo(ExampleInflector, "customer.profile.update", ["customer", "profile", "update"], "profile.edit");
  }

  lemma ExampleDashboard()
    ensures GeneratePermissionName(ExampleInflector, "dashboard") == "dashboard"
  {
    SingleSegmentKept(ExampleInflector, "dashboard");
  }

  /** A four-segment name: the version segment is ignored as well. */
  lemma ExampleApiOrdersStore()
    ensures GeneratePermissionName(ExampleInflector, "api.v1.orders.store") == "order.create"
  {
    SplitApiOrdersStore();
    ExampleFormats();
    FromLastTwo(ExampleInflector, "api.v1.orders.store", ["api", "v1", "orders", "store"], "order.create");
  }

  lemma SplitApiOrdersStore()
    ensures Split("api.v1.orders.store", '.') == ["api", "v1", "orders", "store"]
  {
    ApiOrdersStoreName();
    Split3("api", "v1", "orders");
    SplitAppend("api.v1.orders", '.', "store");
  }

  lemma ApiOrdersStoreName()
    ensures "api.v1.orders" == "api" + "." + "v1" + "." + "orders"
    ensures "api.v1.orders.store" == "api.v1.orders" + ['.'] + "store"
    ensures '.' !in "api" && '.' !in "v1" && '.' !in "orders"
  {
  }
}
