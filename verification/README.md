# Route-access and menu core of the admin starter kit, in Dafny

This project models the core of a Laravel and Vue admin starter kit. The
kit decides which signed-in user may open which named route, keeps a table
of route-access rules and a navigation menu, and logs activity. The model
covers these parts:

- **Permission names** (`permission_names.dfy`): how a route name such as
  `admin.users.index` becomes the permission `user.view`.
- **Route catalogue** (`route_catalog.dfy`): the catalogue of named routes
  that an administrator can protect or link a menu to.
- **Route-access table** (`route_access.dfy`, `route_access_registry.dfy`):
  the table with its three caches and the cache invalidation, the scan that
  fills the table from the catalogue, and the controller's create, edit,
  delete, bulk and relink actions.
- **Request gate** (`access_gate.dfy`): the middleware that allows or
  refuses every request.
- **Menu** (`menu_tree.dfy`, `menu_admin.dfy`, `menu_nav.dfy`): the menu
  tree loaded from the `menus` table, the per-user permission filter, the
  item shape sent to the browser, the menu administration actions, and the
  browser's menu helpers.
- **Roles and permission groups** (`roles.dfy`, `permission_groups.dfy`):
  roles and the guard that protects the `super-admin` role, and permission
  groups, which can be deleted only when empty.
- **Activity log** (`activity_log.dfy`): labels, colours, descriptions,
  equality scopes, the CSV export (with a reader to state its round trip),
  and deleting or clearing entries.
- **Listing pages** (`table_features.dfy`, `data_table.dfy`): the server's
  search, filter, sort and page-size helpers, and the browser's table
  state.
- **Browser helpers** (`permission_checks.dfy`, `validation.dfy`,
  `messages.dfy`): the permission helpers, form validation, and the message
  tables.

Shared building blocks live in three modules:

- `wrappers.dfy`: `Option` and `Result`.
- `text.dfy`: `explode`, prefix tests, number formatting and case mapping.
- `collections.dfy`: filter, keep-first `unique`, stable sort and
  subsequences.

Database tables become values (`seq` or `map` of row records) held by
classes whose methods are the controller actions. Pure helpers become
functions. Loops in the source (the route scan, the relink loop, the
reorder loop, the CSV export, menu flattening, form validation and the
filter loop) are methods with loop invariants. Each is proved against a
function that specifies it.

The documentation and the code disagree in two places. The model follows
the code in both:

- The doc comment of `generatePermissionName` gives `profile.update` for
  `customer.profile.update`. The code's action table maps `update` to
  `edit`, so the result is `profile.edit`.
  `PermissionNames.ExampleCustomerProfileUpdate` states this.
- The menu filter drops a menu whose permission the user lacks, together
  with its whole subtree, even when a descendant would be visible. It does
  not keep that menu as a folder. `MenuTree.DeniedDropsSubtree` states
  this.

## Model

| member | source | states |
|---|---|---|
| RouteCatalog.NormalizeUri | app/Services/RouteService.php:174 | the URI with its leading slashes replaced by exactly one `/`: starts with one `/`, then the rest of the URI unchanged |
| RouteCatalog.NormalizeUriIdempotent | app/Services/RouteService.php:174 | normalising an already normalised URI changes nothing |
| RouteCatalog.ExpandMethods | app/Services/RouteService.php:168-177 | the rows of one route are exactly its methods other than HEAD, each with the route's name and URI |
| RouteCatalog.RouteRows | app/Services/RouteService.php:168-177 | an unnamed route contributes no rows; a named one contributes exactly the rows it produces |
| RouteCatalog.ExpandAll | app/Services/RouteService.php:168-177 | a row is produced exactly when some route produces it |
| RouteCatalog.NameLeIsTotalOrder | app/Services/RouteService.php:179 | ordering rows by name is total and transitive, so the sort is well defined |
| RouteCatalog.AllNamedRoutesSound | app/Services/RouteService.php:96-181 | every catalogue row comes from a route that passes the filter |
| RouteCatalog.CatalogueRowFacts | app/Services/RouteService.php:99-164 | a catalogue row has a non-empty name, no excluded prefix or name, no `settings.` prefix, one of the given prefixes when any are given, a method other than HEAD and a normalised URI |
| RouteCatalog.AllNamedRoutesComplete | app/Services/RouteService.php:96-181 | every non-HEAD method of every eligible route has a row with that name and method |
| RouteCatalog.KeyInjective | app/Services/RouteService.php:178 | the `name-method` key identifies name and method when methods contain no dash |
| RouteCatalog.AllNamedRoutesSorted | app/Services/RouteService.php:179 | the catalogue is ordered by route name |
| RouteCatalog.AllNamedRoutesUnique | app/Services/RouteService.php:178 | no two rows share both name and method |
| RouteCatalog.ApiNamesKept | app/Services/RouteService.php:108-151 | names under `api.` are not excluded from the access catalogue |
| RouteCatalog.ToNamedRoutes | app/Services/RouteService.php:58-64 | one menu-link row per kept route, in order, with name, normalised URI and methods |
| RouteCatalog.NamedRoutesExact | app/Services/RouteService.php:17-70 | the menu-link catalogue holds exactly the named, non-internal GET routes |
| RouteCatalog.NamedRouteFacts | app/Services/RouteService.php:20-57 | a menu-link row has GET among its methods, a non-empty name not under `api.`, and a normalised URI |
| RouteCatalog.NamedLeIsTotalOrder | app/Services/RouteService.php:65 | ordering menu-link rows by name is total and transitive |
| RouteCatalog.NamedRoutesSortedAndCounted | app/Services/RouteService.php:17-70 | the menu-link catalogue is sorted by name and has one row per eligible route |
| RouteCatalog.Caption | app/Services/RouteService.php:83 | the label `name (uri)` starts with the name and an opening parenthesis, ends with a closing one, and holds the URI between them |
| RouteCatalog.RoutesForSelect | app/Services/RouteService.php:77-87 | one option per menu-link row, in order, valued by the route name and labelled with its name and URI |
| RouteCatalog.UnregisteredRoutesExact | app/Services/RouteService.php:278-288 | the unregistered routes are catalogue rows with unregistered names, one per name, covering every such name, each the first catalogue row of its name |
| RouteCatalog.FilterFirstBy | app/Services/RouteService.php:284-285 | dropping registered names does not change which row comes first for a kept name |
| AccessGate.RouteAccessOf | app/Http/Middleware/AutoPermission.php:82-87 | the cached entry of the route when it is registered, nothing otherwise |
| AccessGate.Handle | app/Http/Middleware/AutoPermission.php:21-77 | a request passes exactly when the access rule (`Permitted`) allows it; a refusal carries one of the four messages; only a deactivated non-super-admin user is logged out |
| AccessGate.SuperAdminAlwaysAllowed | app/Http/Middleware/AutoPermission.php:31-33 | a super-admin passes every route, active or not |
| AccessGate.DisabledRouteDenied | app/Http/Middleware/AutoPermission.php:57-59 | an active user on a disabled registered route is refused with "This route is currently disabled." |
| AccessGate.UnregisteredRouteAllowed | app/Http/Middleware/AutoPermission.php:41-54 | an active user passes a route with no name or with no registered entry |
| AccessGate.PermissionDecides | app/Http/Middleware/AutoPermission.php:66-76 | on an active, protected route that names a permission, the user passes exactly when holding it, and is otherwise refused as forbidden |
| AccessGate.MorePermissionsNeverHurt | app/Http/Middleware/AutoPermission.php:21-77 | granting more permissions never turns an allowed request into a refused one |
| PermissionNames.MapAction | app/Models/RouteAccess.php:205-239 | a mapped action is one of the canonical actions; `create`, `edit`, `export`, `import` and `restore` map to themselves; `view` and `delete` are not keys of the table |
| PermissionNames.CanonicalActionsDotFree | app/Models/RouteAccess.php:205-239 | no canonical action contains a dot |
| PermissionNames.PermissionAction | app/Models/RouteAccess.php:242 | a table key gives its canonical action, any other action its kebab-case form; self-mapped actions are kept |
| PermissionNames.SingleSegmentKept | app/Models/RouteAccess.php:174-179 | a route name without a dot is its own permission name |
| PermissionNames.LastTwoSegmentsDecide | app/Models/RouteAccess.php:181-196 | a dotted route name is formatted from its last two segments |
| PermissionNames.PrefixIgnored | app/Models/RouteAccess.php:186-196 | adding any prefix segment to a dotted route name does not change its permission |
| PermissionNames.InferredNameShape | app/Models/RouteAccess.php:172-197 | the permission of a dotted route name has exactly two segments: the singular resource and the mapped action |
| PermissionNames.FormatShape | app/Models/RouteAccess.php:202-248 | `resource.action` splits back into the singular resource and the mapped action |
| PermissionNames.InferenceIdempotent | app/Models/RouteAccess.php:172-248 | inferring a permission from an inferred permission gives it back, when singularising is idempotent and the action is canonical |
| PermissionNames.Reformat | app/Models/RouteAccess.php:202-248 | a formatted permission name is a fixed point of the inference |
| PermissionNames.TwoSegments | app/Models/RouteAccess.php:182-184 | a two-segment route name is formatted from its two segments |
| PermissionNames.Kebab | app/Models/RouteAccess.php:242 | the kebab form has no upper-case letter and leaves lower-case text unchanged |
| PermissionNames.ExampleAdminUsersIndex | app/Models/RouteAccess.php:166 | `admin.users.index` gives `user.view` |
| PermissionNames.ExampleMerchantProductsCreate | app/Models/RouteAccess.php:167 | `merchant.products.create` gives `product.create` |
| PermissionNames.ExampleCustomerProfileUpdate | app/Models/RouteAccess.php:169-212 | `customer.profile.update` gives `profile.edit` (the code's table maps `update` to `edit`) |
| PermissionNames.ExampleDashboard | app/Models/RouteAccess.php:170 | `dashboard` is kept as it is |
| PermissionNames.ExampleApiOrdersStore | app/Models/RouteAccess.php:168 | `api.v1.orders.store` gives `order.create` |
| RouteAccess.RoutesSnapshot | app/Models/RouteAccess.php:116-129 | the routes cache has one entry per row, keyed by route name, with its permission name, active and public flags |
| RouteAccess.PermissionsSnapshot | app/Models/RouteAccess.php:90-98 | the permissions cache maps exactly the active rows with a permission name to that name |
| RouteAccess.PublicSnapshot | app/Models/RouteAccess.php:103-111 | the public cache holds exactly the active public rows |
| RouteAccess.SnapshotsAgree | app/Models/RouteAccess.php:90-129 | the permissions and public caches are projections of the routes cache |
| RouteAccess.LinkedId | app/Models/RouteAccess.php:145-157 | the link is the id of the permission with that name when the name is truthy and exists, otherwise none |
| RouteAccess.Relinked | app/Http/Controllers/Admin/RouteAccessController.php:271-276 | a row whose permission exists gets that permission's id, any other row is unchanged; afterwards the row needs no link |
| RouteAccess.RelinkAll | app/Http/Controllers/Admin/RouteAccessController.php:266-277 | relinking keeps the set of rows |
| RouteAccess.PartlyRelinked | app/Http/Controllers/Admin/RouteAccessController.php:271-277 | after visiting some rows, exactly the visited rows are relinked |
| RouteAccess.LinkedAmong | app/Http/Controllers/Admin/RouteAccessController.php:273-275 | the visited rows counted as linked are exactly the visited rows that needed a link |
| RouteAccess.SyncStep | app/Http/Controllers/Admin/RouteAccessController.php:271-277 | visiting one more row relinks it and counts it exactly when it needed a link |
| RouteAccess.SyncBounds | app/Http/Controllers/Admin/RouteAccessController.php:266-277 | visiting no row changes nothing; visiting every row is the full relink and counts every row needing a link |
| RouteAccess.NothingToLink | app/Http/Controllers/Admin/RouteAccessController.php:273 | when no row needs a link, relinking changes nothing |
| RouteAccess.RelinkAllKeepsInvariants | app/Http/Controllers/Admin/RouteAccessController.php:266-277 | relinking keeps ids fresh, and keeps every link pointing at the permission of the row's name when they all did |
| RouteAccess.RelinkAllSettles | app/Http/Controllers/Admin/RouteAccessController.php:266-277 | after relinking nothing needs a link, a second relink changes nothing, and rows without an existing permission are untouched |
| RouteAccess.ParseBulkAction | app/Http/Controllers/Admin/RouteAccessController.php:213 | exactly the four listed actions are accepted |
| RouteAccess.ApplyAction | app/Http/Controllers/Admin/RouteAccessController.php:218-234 | each action sets exactly its flag: activate/deactivate the active flag, make_public/make_protected the public flag |
| RouteAccess.BulkApply | app/Http/Controllers/Admin/RouteAccessController.php:216-234 | the selected rows get the action, every other row is unchanged |
| RouteAccess.WithoutIds | app/Http/Controllers/Admin/RouteAccessController.php:256 | exactly the rows whose id is not selected remain, unchanged |
| RouteAccess.ScanPermissionName | app/Services/RouteService.php:214-217 | the inferred permission name when such a permission exists, otherwise none |
| RouteAccess.ScanPermissionId | app/Services/RouteService.php:218-220 | the id of that permission, linked as `linkPermission` would |
| RouteAccess.Stale | app/Services/RouteService.php:243-260 | with prefixes, the rows not scanned whose name starts with a prefix; without prefixes, none |
| RouteAccess.Prune | app/Services/RouteService.php:246-259 | exactly the stale rows are deleted, the rest unchanged |
| RouteAccess.ScannedNames | app/Services/RouteService.php:205-241 | the scanned names are the catalogue names, each once; the created, updated and matched counts are bounded by them |
| RouteAccess.FirstEntryWins | app/Services/RouteService.php:205-234 | every scanned name has a row carrying the URI, method and permission of its first catalogue row |
| RouteAccess.StaleLinkRepaired | app/Http/Controllers/Admin/RouteAccessController.php:270-275 | a row still linked to the id of a renamed permission is counted and relinked to the permission that now carries its name |
| RouteAccess.ScanKeepsOtherColumns | app/Services/RouteService.php:226-234 | the scan keeps the id, flags and description of existing rows |
| RouteAccess.ScanKeepsInvariants | app/Services/RouteService.php:192-241 | the scan keeps ids fresh, and keeps links sound when they were |
| RouteAccess.ScanStepKeepsInvariants | app/Services/RouteService.php:205-241 | one scanned route keeps ids fresh, and keeps links sound when they were |
| RouteAccess.SettledScanIsQuiet | app/Services/RouteService.php:226-240 | scanning a table that already holds what the scan would write creates and updates nothing |
| RouteAccess.ScanSettles | app/Services/RouteService.php:192-260 | after a scan and its pruning, the table holds what the scan would write |
| RouteAccess.RescanIsQuiet | app/Services/RouteService.php:192-271 | scanning twice in a row: the second scan creates, updates and changes nothing |
| RouteAccessRegistry.Validate | app/Http/Controllers/Admin/RouteAccessController.php:91-99 | the input passes exactly when the route name is filled, at most 255 long and unique (or the row's own), the optional strings are within their maximum lengths, and neither `is_active` nor `is_public` is sent as null |
| RouteAccessRegistry.NullFlagRefused | app/Http/Controllers/Admin/RouteAccessController.php:95-96 | a request with `is_active` or `is_public` sent as null is refused by the `boolean` rule, while the same request without those keys passes |
| RouteAccessRegistry.NewEntry | app/Http/Controllers/Admin/RouteAccessController.php:101-109 | a new row is active and protected unless told otherwise, and is linked to the permission of its name when that exists |
| RouteAccessRegistry.EditedEntry | app/Http/Controllers/Admin/RouteAccessController.php:155-163 | given fields replace the old ones, missing ones are kept, and the link is recomputed from the new permission name (null when there is none) |
| RouteAccessRegistry.ValidateIds | app/Http/Controllers/Admin/RouteAccessController.php:210-212 | the ids pass exactly when the list is non-empty and every id exists |
| RouteAccessRegistry.Registry.ClearCache | app/Models/RouteAccess.php:134-139 | all three cache keys are forgotten and nothing else changes |
| RouteAccessRegistry.Registry.GetCachedRoutes | app/Models/RouteAccess.php:116-129 | the cached value when present, else the snapshot of the table, which is then cached; a coherent cache returns the table's snapshot |
| RouteAccessRegistry.Registry.GetCachedPermissions | app/Models/RouteAccess.php:90-98 | as above for the permissions cache |
| RouteAccessRegistry.Registry.GetCachedPublicRoutes | app/Models/RouteAccess.php:103-111 | as above for the public cache |
| RouteAccessRegistry.Registry.Authorize | app/Http/Middleware/AutoPermission.php:21-87 | the middleware's decision on the cached routes; with a coherent cache, its decision on the table itself |
| RouteAccessRegistry.Registry.Store | app/Http/Controllers/Admin/RouteAccessController.php:89-114 | an invalid input, a null flag included, changes nothing; a valid one adds the new row under its name with the next id and clears the cache |
| RouteAccessRegistry.Registry.Update | app/Http/Controllers/Admin/RouteAccessController.php:143-168 | an unknown row is not found; an invalid input, a null flag included, changes nothing; a valid one replaces the row (under its possibly new name) with the edited row and clears the cache |
| RouteAccessRegistry.Registry.Destroy | app/Http/Controllers/Admin/RouteAccessController.php:173-180 | the row is removed and the cache cleared |
| RouteAccessRegistry.Registry.LinkPermission | app/Models/RouteAccess.php:145-157 | only the row's permission id changes, to the id of the permission of its name, and the save clears the cache |
| RouteAccessRegistry.Registry.BulkUpdate | app/Http/Controllers/Admin/RouteAccessController.php:208-244 | invalid ids or an unknown action change nothing; otherwise the selected rows get the action and the cache is cleared |
| RouteAccessRegistry.Registry.BulkDestroyAsWritten | app/Http/Controllers/Admin/RouteAccessController.php:249-261 | the selected rows are deleted and the cache is left as it was |
| RouteAccessRegistry.Registry.BulkDestroy | app/Http/Controllers/Admin/RouteAccessController.php:249-261 | the selected rows are deleted and the cache is cleared, so a coherent cache stays coherent |
| RouteAccessRegistry.Registry.SyncPermissions | app/Http/Controllers/Admin/RouteAccessController.php:266-282 | from any table, stale links included, every row is relinked: afterwards each row whose permission name exists is linked to that permission and none needs a link; the count is the number of rows that needed a link, and the cache is cleared exactly when some row was saved |
| RouteAccessRegistry.Registry.RelinkRows | app/Http/Controllers/Admin/RouteAccessController.php:268-277 | the loop over the rows relinks the table and counts the rows that needed a link |
| RouteAccessRegistry.Registry.Scan | app/Services/RouteService.php:192-271 | the table becomes the scanned and pruned table, the counts are those of the scan, and the cache is cleared |
| RouteAccessRegistry.Registry.WriteCatalogue | app/Services/RouteService.php:205-241 | the loop over the catalogue computes exactly the scan's table, next id, scanned names and counts |
| RouteAccessRegistry.ScanRow | app/Services/RouteService.php:206-239 | one iteration computes exactly the scan step: a name already scanned changes nothing; otherwise the name is recorded, the matched count rises when a permission matched, and the row is updated (counted when a column changed) or created with the next id |
| RouteAccessRegistry.RelinkLoop | app/Http/Controllers/Admin/RouteAccessController.php:271-277 | the loop relinks every row and counts those needing a link |
| RouteAccessRegistry.StaleCacheAfterBulkDestroy | app/Http/Controllers/Admin/RouteAccessController.php:256 | a disabled route whose row is bulk-deleted is still refused from the stale cache, while the table alone would allow it |
| MenuTree.OrderLeIsPreorder | app/Models/Menu.php:88-91 | ordering menus by `order` is total and transitive |
| MenuTree.Level | app/Models/Menu.php:43-91 | one level of the tree holds exactly the rows with that parent (and active, for the active tree), sorted by `order` |
| MenuTree.Select | app/Models/Menu.php:45-56 | the rows with that parent, and active when asked, in table order |
| MenuTree.Unvisited | app/Models/Menu.php:54-67 | the children not already on the path from the root, in order |
| MenuTree.BuildNode | app/Models/Menu.php:54-67 | a loaded node carries its row and the relation it was loaded through |
| MenuTree.BuildForest | app/Models/Menu.php:54-67 | one node per child row, in order, each loaded through the same relation |
| MenuTree.Preorder | app/Services/MenuService.php:105-123 | a non-empty forest lists at least one menu |
| MenuTree.PreorderConcat | app/Services/MenuService.php:105-123 | listing two forests one after the other lists their menus one after the other |
| MenuTree.BuildNodeLoaded | app/Models/Menu.php:54-67 | every child of a loaded node is one of its in-scope child rows, the children are in ascending `order`, and each is loaded in turn |
| MenuTree.BuildNodeComplete | app/Models/Menu.php:54-67 | a loaded node's children are exactly its in-scope child rows in ascending `order`, less any already on the way from the root, and so on all the way down |
| MenuTree.BuildForestComplete | app/Models/Menu.php:54-67 | every node of a loaded forest has all its in-scope child rows loaded below it |
| MenuTree.CompleteConcat | app/Models/Menu.php:54-67 | two complete forests together are complete |
| MenuTree.CompleteHasEveryChild | app/Models/Menu.php:54-67 | in a complete forest every in-scope row whose parent is a node, and which is not on the way to it, is one of that node's loaded children |
| MenuTree.MissingChildIsIncomplete | app/Models/Menu.php:54-67 | a node loaded without one of its active child rows is not complete |
| MenuTree.BuildForestLoaded | app/Models/Menu.php:54-67 | every node of a loaded forest is an in-scope row under its parent, with its children in ascending `order` |
| MenuTree.LoadedConcat | app/Models/Menu.php:54-67 | two loaded forests together are loaded |
| MenuTree.MenuTreeLoaded | app/Services/MenuService.php:14-21 | the top level is exactly the active roots in ascending `order`; every node is an active row under its parent, and every active child row of a node is loaded below it |
| MenuTree.AllMenuRoots | app/Services/MenuService.php:27-36 | the admin tree has one top-level node per root row, active or not |
| MenuTree.TransformChildrenKey | app/Services/MenuService.php:41-51 | renaming the relation keeps every node's row and the number of nodes |
| MenuTree.TransformKeepsShape | app/Services/MenuService.php:41-51 | renaming the relation keeps every menu and its position |
| MenuTree.TransformLoadedNode | app/Services/MenuService.php:41-51 | renaming a node loaded through `childrenAll` gives the node loaded through `children` |
| MenuTree.TransformLoadedForest | app/Services/MenuService.php:41-51 | the same for a forest |
| MenuTree.AllMenuTreeIsChildrenTree | app/Services/MenuService.php:27-36 | the admin tree is the tree loaded under `children`; its top level is exactly the root rows in ascending `order`, and every child row of a node, active or not, is loaded below it |
| MenuTree.UrlAttribute | app/Models/Menu.php:96-107 | a truthy stored URL wins; otherwise the URL of a registered route name; otherwise null |
| MenuTree.LinkTestIgnoresRegistry | app/Services/MenuService.php:97-98 | whether a menu links somewhere does not depend on which routes are registered |
| MenuTree.FilterMenus | app/Services/MenuService.php:75-100 | filtering never lengthens a level |
| MenuTree.FilterOne | app/Services/MenuService.php:77-99 | a menu is kept, with its children filtered, exactly when it is visible |
| MenuTree.FilterConcat | app/Services/MenuService.php:75-100 | filtering two forests is filtering each |
| MenuTree.DeniedDropsSubtree | app/Services/MenuService.php:77-83 | a menu whose permission the user lacks is removed with its whole subtree |
| MenuTree.UnrestrictedKept | app/Services/MenuService.php:79-95 | a menu without a permission is kept, with its children filtered |
| MenuTree.EmptyFolderDropped | app/Services/MenuService.php:93-99 | a permission-guarded folder that links nowhere and has no visible child is dropped |
| MenuTree.FilterNeverAdds | app/Services/MenuService.php:75-100 | the filtered menus are a subsequence of the original ones |
| MenuTree.MorePermissionsShowMore | app/Services/MenuService.php:75-100 | more permissions show a supersequence of the menus |
| MenuTree.MenusForUser | app/Services/MenuService.php:56-70 | a guest sees nothing and a super-admin sees the whole active tree |
| MenuTree.MenusForUserBounded | app/Services/MenuService.php:56-70 | every user sees a subsequence of the active tree |
| MenuTree.TransformForFrontend | app/Services/MenuService.php:105-123 | one item per node with its id, name, icon, route name, raw URL and order, with children exactly when the node has some |
| MenuTree.RowIds | app/Services/MenuService.php:109 | one id per row |
| MenuTree.FrontendKeepsEveryMenu | app/Services/MenuService.php:105-123 | the front-end items list the same menus, in the same order, as the tree |
| MenuAdmin.ValidateStore | app/Http/Requests/Admin/StoreMenuRequest.php:24-33 | a menu input passes exactly when the name is given and at most 255 long, the optional strings respect their maxima, the parent exists, `order` is not null and not negative, the permission exists and `is_active` is not null; a missing `order` or `is_active` passes |
| MenuAdmin.NullOrderOrFlagRefused | app/Http/Requests/Admin/StoreMenuRequest.php:30-32 | `{name: "Home", order: null}` is refused by the `integer` rule and `is_active: null` by the `boolean` rule, while the same request without those keys passes |
| MenuAdmin.NewMenu | app/Http/Controllers/Admin/MenuController.php:73-82 | a created menu takes every field from the input; `order` is 0 and the menu active when the key is missing or null (`??`) |
| MenuAdmin.EditedMenu | app/Http/Controllers/Admin/MenuController.php:122-131 | an edited menu keeps its id, takes every field from the input, and keeps its order and active flag when the input omits them |
| MenuAdmin.ReplaceRow | app/Http/Controllers/Admin/MenuController.php:122 | only the row with that id is replaced |
| MenuAdmin.IndexOfId | app/Http/Controllers/Admin/MenuController.php:120 | the position of the first row with that id |
| MenuAdmin.ReplaceKeepsTable | app/Http/Controllers/Admin/MenuController.php:120-131 | replacing a row by one with the same id and an existing parent keeps ids distinct and every parent present |
| MenuAdmin.ChildIds | database/migrations/2026_01_02_065601_create_menus_table.php:26-29 | the ids of rows whose parent is in the set |
| MenuAdmin.Cascade | database/migrations/2026_01_02_065601_create_menus_table.php:26-29 | deleting a menu deletes a set that contains it and is closed under taking children |
| MenuAdmin.CascadeLeast | database/migrations/2026_01_02_065601_create_menus_table.php:26-29 | the cascade deletes no more than every closed set containing the menu: only its descendants |
| MenuAdmin.WithoutIds | app/Http/Controllers/Admin/MenuController.php:146 | the remaining rows are exactly those not deleted, in order |
| MenuAdmin.CascadeKeepsParents | app/Http/Controllers/Admin/MenuController.php:143-153 | after a cascading delete every remaining row's parent still exists |
| MenuAdmin.WithoutIdsDistinct | app/Http/Controllers/Admin/MenuController.php:146 | deleting rows keeps ids distinct |
| MenuAdmin.SubseqDistinct | app/Http/Controllers/Admin/MenuController.php:146 | a subsequence of a table with distinct ids has distinct ids |
| MenuAdmin.ValidateReorder | app/Http/Controllers/Admin/MenuController.php:160-165 | a reorder passes exactly when the list is not empty and every entry names an existing menu and a non-negative order, with a parent that is null or existing when the `parent_id` key is present; a missing key passes |
| MenuAdmin.Reposition | app/Http/Controllers/Admin/MenuController.php:168-171 | one entry changes no row count |
| MenuAdmin.ApplyReorder | app/Http/Controllers/Admin/MenuController.php:167-172 | the entries change no row count |
| MenuAdmin.LastFor | app/Http/Controllers/Admin/MenuController.php:167-172 | the last entry for an id, or none exactly when no entry names it |
| MenuAdmin.ReorderLastWins | app/Http/Controllers/Admin/MenuController.php:167-172 | after the loop each row has the parent and order of the last entry naming it, or is unchanged |
| MenuAdmin.MissingParentAt | app/Http/Controllers/Admin/MenuController.php:167-170 | the index of the first entry without a `parent_id` key: every entry before it has the key, and the entry at it, if any, has not |
| MenuAdmin.WriteReorder | app/Http/Controllers/Admin/MenuController.php:167-172 | the rows after the loop are the entries before the first missing `parent_id` applied in turn, and the loop reports whether it stopped there |
| MenuAdmin.ReorderPrefixKeepsTable | app/Http/Controllers/Admin/MenuController.php:160-172 | the entries a validated reorder writes before it stops keep ids distinct and below the next id and every parent existing |
| MenuAdmin.MissingParentPassesValidation | app/Http/Controllers/Admin/MenuController.php:163-170 | an entry without `parent_id` passes validation, and the entries before it are written before the loop stops |
| MenuAdmin.ReorderKeepsTable | app/Http/Controllers/Admin/MenuController.php:158-177 | reordering keeps every id and keeps every parent present |
| MenuAdmin.ReorderCanDetachMenus | app/Http/Controllers/Admin/MenuController.php:160-172 | a reorder that passes validation can make two menus each other's parent, and both then vanish from the active tree |
| MenuAdmin.SwappedParents | app/Http/Controllers/Admin/MenuController.php:167-172 | swapping two menus' parents sets each to the other |
| MenuAdmin.MenuTable.ClearCache | app/Services/MenuService.php:128-131 | forgets the cached tree and changes no row |
| MenuAdmin.MenuTable.Store | app/Http/Controllers/Admin/MenuController.php:71-89 | refuses input that fails `StoreMenuRequest`, a present null `order` or `is_active` included, and changes nothing; otherwise appends the new menu with the next id and clears the cache |
| MenuAdmin.MenuTable.Update | app/Http/Controllers/Admin/MenuController.php:120-138 | a missing menu or parent is refused and changes nothing; otherwise only that row is edited and the cache is cleared |
| MenuAdmin.MenuTable.Destroy | app/Http/Controllers/Admin/MenuController.php:143-153 | deletes the menu with all its descendants and clears the cache; a missing menu changes nothing |
| MenuAdmin.MenuTable.Reorder | app/Http/Controllers/Admin/MenuController.php:158-177 | refuses an invalid list and changes nothing; a valid list with an entry lacking `parent_id` fails with the undefined-key error after writing the entries before it, leaving the cache as it was; otherwise applies each entry in turn and clears the cache |
| MenuNav.IsActive | resources/js/composables/useMenu.ts:13-33 | a menu without a route name is never active; otherwise it is active exactly when its route exists and the current path starts with the route's path |
| MenuNav.FlatConcat | resources/js/composables/useMenu.ts:64-78 | flattening two lists is flattening each, one after the other |
| MenuNav.HasActiveChildIffDescendant | resources/js/composables/useMenu.ts:38-44 | a menu has an active child exactly when some descendant at any depth is active |
| MenuNav.DescendantsSplit | resources/js/composables/useMenu.ts:43 | some descendant of a list is active exactly when some item of it is active or has an active descendant |
| MenuNav.MenuUrl | resources/js/composables/useMenu.ts:49-59 | a route name wins and gives its URL or "#" when the route is unknown; otherwise the stored URL, or "#" when it is empty |
| MenuNav.Traverse | resources/js/composables/useMenu.ts:67-74 | the loop appends each item and then its flattened children to what was collected |
| MenuNav.FlatStep | resources/js/composables/useMenu.ts:68-73 | one more item of the loop adds the item and then its flattened children |
| MenuNav.FlatOne | resources/js/composables/useMenu.ts:69-72 | flattening one item gives the item and then its flattened children |
| MenuNav.FlattenMenus | resources/js/composables/useMenu.ts:64-78 | the result is the pre-order listing of the tree |
| MenuNav.FlatKeepsSiblingOrder | resources/js/composables/useMenu.ts:64-78 | the top-level items appear in the flattened list in their order |
| MenuNav.FlatIds | resources/js/composables/useMenu.ts:64-78 | the flattened list has one item per id of the tree, in pre-order |
| MenuNav.FlattenedTree | app/Services/MenuService.php:105-123 | flattening the items sent to the front end lists the menus of the server's tree in the same pre-order |
| PermissionChecks.SomeIn | resources/js/composables/usePermission.ts:31 | true exactly when some listed name is held |
| PermissionChecks.EveryIn | resources/js/composables/usePermission.ts:42 | true exactly when every listed name is held |
| PermissionChecks.Can | resources/js/composables/usePermission.ts:14-21 | a super-admin can do anything; anyone else exactly what their permissions name |
| PermissionChecks.CanAny | resources/js/composables/usePermission.ts:26-32 | a super-admin, or someone holding at least one listed permission |
| PermissionChecks.CanAll | resources/js/composables/usePermission.ts:37-43 | a super-admin, or someone holding every listed permission |
| PermissionChecks.HasRole | resources/js/composables/usePermission.ts:48-51 | true exactly when the user's roles include it |
| PermissionChecks.HasAnyRole | resources/js/composables/usePermission.ts:56-59 | true exactly when the user has one of the listed roles |
| PermissionChecks.SingleCheckAgrees | resources/js/composables/usePermission.ts:14-43 | checking one permission alone, as any of one, or as all of one agree |
| PermissionChecks.EmptyLists | resources/js/composables/usePermission.ts:31-42 | for a user who is not super-admin, any of nothing is false and all of nothing is true |
| PermissionChecks.AllImpliesAny | resources/js/composables/usePermission.ts:26-43 | holding all of a non-empty list implies holding any of it |
| PermissionChecks.RolesHaveNoBypass | resources/js/composables/usePermission.ts:48-59 | the super-admin flag does not make role checks pass |
| ActivityLog.EventLabel | app/Models/Activity.php:13-26 | the eight known events get their fixed labels; any other event is shown with its first letter upper-cased, and a missing event as "Unknown" |
| ActivityLog.Headline | app/Models/Activity.php:16-23 | the headline form of an event name has its length |
| ActivityLog.HeadlineFrom | app/Models/Activity.php:16-23 | the headline form of an event name has its length |
| ActivityLog.HeadlineInsideWord | app/Models/Activity.php:16-23 | inside a word without underscores nothing changes |
| ActivityLog.UcFirstIsHeadline | app/Models/Activity.php:24 | for a one-word event the fallback label is its headline form |
| ActivityLog.OneWordLabel | app/Models/Activity.php:16-20 | a one-word label is the headline form of its event |
| ActivityLog.TwoWordLabel | app/Models/Activity.php:21-23 | a two-word label is the headline form of its snake-case event |
| ActivityLog.LoginFailedLabel | app/Models/Activity.php:21 | "login_failed" reads "Login Failed" |
| ActivityLog.PasswordResetLabel | app/Models/Activity.php:22 | "password_reset" reads "Password Reset" |
| ActivityLog.EmailVerifiedLabel | app/Models/Activity.php:23 | "email_verified" reads "Email Verified" |
| ActivityLog.KnownLabelsAreHeadlines | app/Models/Activity.php:15-23 | every fixed label is the headline form of its event |
| ActivityLog.HeadlineJoin | app/Models/Activity.php:21-23 | an underscore becomes a space and starts a new capitalised word |
| ActivityLog.LabelIsHeadline | app/Models/Activity.php:13-26 | known events and one-word events are all labelled by their headline form |
| ActivityLog.UnknownEventKeepsUnderscore | app/Models/Activity.php:24 | an unknown two-word event keeps its underscore and lower-case second word |
| ActivityLog.EventColor | app/Models/Activity.php:31-44 | the known events get their fixed colours; gray exactly for unknown events; red exactly for deletions and failed logins |
| ActivityLog.TrimTrailingSeparators | app/Models/Activity.php:55 | a prefix of the class name that does not end in a separator |
| ActivityLog.AfterLastSeparator | app/Models/Activity.php:55 | a part without separators |
| ActivityLog.ClassBasename | app/Models/Activity.php:55 | the basename contains no namespace separator |
| ActivityLog.AfterLastSeparatorAppend | app/Models/Activity.php:55 | what follows the last separator is the final name |
| ActivityLog.ClassBasenameOfQualified | app/Models/Activity.php:55 | the basename of `Ns\Name` is `Name` |
| ActivityLog.ClassBasenameOfPlain | app/Models/Activity.php:55 | a class outside any namespace is its own basename |
| ActivityLog.SubjectTypeName | app/Models/Activity.php:49-56 | "Unknown" when the subject type is missing or falsy, otherwise its class basename |
| ActivityLog.LogName | app/Traits/LogsActivity.php:28-31 | the log name is the class basename with no upper-case letter |
| ActivityLog.Identifier | app/Traits/LogsActivity.php:52-55 | the name, else the title, else the id, else "Unknown", and "Unknown" only when all are missing |
| ActivityLog.Description | app/Traits/LogsActivity.php:36-47 | every event, listed or not, reads `Model "identifier" was event` |
| ActivityLog.LogNameOfModel | app/Traits/LogsActivity.php:28-31 | the log name of `Ns\Name` is the lower-cased `Name` |
| ActivityLog.Where | app/Models/Activity.php:61-89 | a query scope keeps exactly the matching entries, in order |
| ActivityLog.ForColumn | app/Models/Activity.php:61-89 | the scopes on the log name, the event and the subject type keep exactly the entries whose column equals the value, in order |
| ActivityLog.ForCauser | app/Http/Controllers/Admin/ActivityLogController.php:154-156 | exactly the entries whose causer id reads as the given text, in order |
| ActivityLog.ExportQuery | app/Http/Controllers/Admin/ActivityLogController.php:143-166 | exactly the entries matching every filled filter, in order |
| ActivityLog.Escape | app/Http/Controllers/Admin/ActivityLogController.php:175 | doubling quotes never shortens the text |
| ActivityLog.Values | app/Http/Controllers/Admin/ActivityLogController.php:171-181 | eight values per entry |
| ActivityLog.Cells | app/Http/Controllers/Admin/ActivityLogController.php:172 | eight cells per line |
| ActivityLog.OnlyDescriptionQuoted | app/Http/Controllers/Admin/ActivityLogController.php:172-179 | only the description is quoted; a missing subject id reads "N/A" and a missing causer "System" |
| ActivityLog.LinesSnoc | app/Http/Controllers/Admin/ActivityLogController.php:170-182 | one more entry appends its line |
| ActivityLog.AppendLines | app/Http/Controllers/Admin/ActivityLogController.php:170-182 | the loop appends one line per selected entry, in order |
| ActivityLog.Export | app/Http/Controllers/Admin/ActivityLogController.php:141-187 | the header line followed by one line per entry the filters select |
| ActivityLog.ReadPlain | app/Http/Controllers/Admin/ActivityLogController.php:172 | a CSV reader: an unquoted cell and the rest |
| ActivityLog.ReadQuoted | app/Http/Controllers/Admin/ActivityLogController.php:172-175 | a CSV reader: a quoted cell consumes input |
| ActivityLog.ReadCell | app/Http/Controllers/Admin/ActivityLogController.php:172 | a CSV reader: reading a cell never grows the input |
| ActivityLog.ReadRecord | app/Http/Controllers/Admin/ActivityLogController.php:172 | a CSV reader: a record of the asked width, consuming input |
| ActivityLog.QuotedRoundTrip | app/Http/Controllers/Admin/ActivityLogController.php:172-175 | a description with doubled quotes reads back as itself, whatever it contains |
| ActivityLog.ReadPlainAppend | app/Http/Controllers/Admin/ActivityLogController.php:172 | an unquoted cell without commas, quotes or newlines reads back as itself |
| ActivityLog.ReadCellRendered | app/Http/Controllers/Admin/ActivityLogController.php:172 | every rendered cell reads back as its value |
| ActivityLog.RecordRoundTrip | app/Http/Controllers/Admin/ActivityLogController.php:172 | a rendered line reads back as its values |
| ActivityLog.DigitsArePlain | app/Http/Controllers/Admin/ActivityLogController.php:173 | an id needs no quoting |
| ActivityLog.LineRoundTrip | app/Http/Controllers/Admin/ActivityLogController.php:171-181 | an entry whose unquoted fields hold no comma, quote or newline reads back as its eight values |
| ActivityLog.LinesRoundTrip | app/Http/Controllers/Admin/ActivityLogController.php:170-182 | all lines read back as one record per entry, in order |
| ActivityLog.HeaderCellsArePlain | app/Http/Controllers/Admin/ActivityLogController.php:168 | the header needs no quoting |
| ActivityLog.HeaderRoundTrip | app/Http/Controllers/Admin/ActivityLogController.php:168 | the header reads back as its eight column names |
| ActivityLog.ExportRoundTrip | app/Http/Controllers/Admin/ActivityLogController.php:141-187 | the export reads back as the header and then the values of exactly the selected entries, in order |
| ActivityLog.WithoutIds | app/Http/Controllers/Admin/ActivityLogController.php:101-117 | exactly the entries whose id is not deleted, in order |
| ActivityLog.DeleteAllIsFilled | app/Http/Controllers/Admin/ActivityLogController.php:128-130 | the confirmation word counts as filled |
| ActivityLog.Logged | app/Traits/LogsActivity.php:15-23 | a recorded entry carries the event, the subject type, the log name of the model and its description |
| ActivityLog.ActivityTable.Record | app/Traits/LogsActivity.php:15-23 | appends one entry with the next id |
| ActivityLog.ActivityTable.Destroy | app/Http/Controllers/Admin/ActivityLogController.php:99-105 | removes exactly that entry; a missing entry changes nothing |
| ActivityLog.ActivityTable.BulkDestroy | app/Http/Controllers/Admin/ActivityLogController.php:110-121 | refuses a missing or empty list or an unknown id and changes nothing; otherwise removes exactly the listed entries |
| ActivityLog.ActivityTable.Clear | app/Http/Controllers/Admin/ActivityLogController.php:126-136 | truncates the log, restarting ids at 1, exactly when the confirmation is "DELETE_ALL"; otherwise changes nothing |
| PermissionGroups.InGroup | app/Models/Permission.php:31-34 | exactly the permissions of that group, in order |
| PermissionGroups.CanDeleteIffUnused | app/Http/Controllers/Admin/PermissionGroupController.php:131-133 | a group may be deleted exactly when no permission belongs to it |
| PermissionGroups.StoredGroup | app/Http/Controllers/Admin/PermissionGroupController.php:75-79 | a new group takes the name and description given, and order 0 when none is given |
| PermissionGroups.UpdatedGroup | app/Http/Controllers/Admin/PermissionGroupController.php:114-118 | an update sets the name and description and keeps the order when none is given |
| PermissionGroups.UpdateWithSameValuesIsIdentity | app/Http/Controllers/Admin/PermissionGroupController.php:114-118 | updating with the group's own name and description and no order changes nothing |
| PermissionGroups.DeleteKeepsGroupsExisting | app/Http/Controllers/Admin/PermissionGroupController.php:128-140 | a delete the guard allows leaves every permission's group in the table |
| PermissionGroups.GuardIsNeeded | app/Http/Controllers/Admin/PermissionGroupController.php:131-133 | deleting a group the guard refuses would leave a permission pointing at a missing group |
| PermissionGroups.GroupTable.Store | app/Http/Controllers/Admin/PermissionGroupController.php:73-84 | adds the new group under a fresh id and changes nothing else |
| PermissionGroups.GroupTable.Update | app/Http/Controllers/Admin/PermissionGroupController.php:112-123 | a missing group changes nothing; otherwise only that group is updated |
| PermissionGroups.GroupTable.Destroy | app/Http/Controllers/Admin/PermissionGroupController.php:128-140 | deletes exactly the groups without permissions; otherwise refuses and changes nothing |
| PermissionGroups.UsedGroupIsKept | app/Http/Controllers/Admin/PermissionGroupController.php:131-133 | in a consistent table where a permission belongs to group 1, the guard refuses to delete group 1, and deleting it would leave that permission pointing at a missing group |
| Roles.NamesOf | app/Http/Controllers/Admin/RoleController.php:84 | exactly the names of the permissions whose id is listed; unknown ids add nothing |
| Roles.NamesOfMonotone | app/Http/Controllers/Admin/RoleController.php:84 | listing more ids never grants fewer permissions |
| Roles.NewRole | app/Http/Controllers/Admin/RoleController.php:78-86 | a new role has guard `web` and the named permissions only when a non-empty list is given |
| Roles.EmptySyncIsNoSync | app/Http/Controllers/Admin/RoleController.php:83-86 | syncing an empty list would grant nothing, like skipping it |
| Roles.UpdatedRole | app/Http/Controllers/Admin/RoleController.php:131-150 | renaming `super-admin` away is refused exactly; otherwise the name is set and permissions are replaced only when the key is present |
| Roles.RenameToSuperAdminAllowed | app/Http/Controllers/Admin/RoleController.php:134 | any other role may be renamed to `super-admin` |
| Roles.SuperAdminStaysSuperAdmin | app/Http/Controllers/Admin/RoleController.php:133-140 | an update of the protected role leaves it the protected role |
| Roles.UpdateKeepsSuperAdmin | app/Http/Controllers/Admin/RoleController.php:131-150 | an allowed update never removes the protected role from the table |
| Roles.DeleteKeepsSuperAdmin | app/Http/Controllers/Admin/RoleController.php:155-167 | an allowed delete never removes the protected role from the table |
| Roles.RoleTable.Store | app/Http/Controllers/Admin/RoleController.php:76-91 | adds the new role under a fresh id and keeps the protected role |
| Roles.RoleTable.Update | app/Http/Controllers/Admin/RoleController.php:131-150 | a missing role or a refused rename changes nothing; otherwise only that role changes; the protected role stays |
| Roles.RoleTable.Destroy | app/Http/Controllers/Admin/RoleController.php:155-167 | deletes exactly a role other than `super-admin`; otherwise changes nothing; the protected role stays |
| TableFeatures.SplitAtFirstDot | app/Traits/HasTableFeatures.php:32 | the relation is the part before the first dot and the column everything after it |
| TableFeatures.AllHoldAppend | app/Traits/HasTableFeatures.php:134-158 | adding conditions to a query means both sets must hold |
| TableFeatures.ApplySearch | app/Traits/HasTableFeatures.php:18-41 | no search text or no columns leaves the query as it is; otherwise exactly one grouped search condition is added |
| TableFeatures.SearchMeaning | app/Traits/HasTableFeatures.php:26-40 | a record passes the searched query exactly when it passed before and some listed column contains the search text |
| TableFeatures.PlainColumnSearch | app/Traits/HasTableFeatures.php:37 | a column without a dot matches exactly when its text contains the search text |
| TableFeatures.FilterCond | app/Traits/HasTableFeatures.php:63-87 | a plain string definition compares that column for equality, as the definitions document it (the code as written calls a string that names a global function instead; see Findings); a boolean filter compares the column with whether the value is the configured true word; a callback is passed the filter's name and value |
| TableFeatures.FilterConds | app/Traits/HasTableFeatures.php:58-88 | at most one condition per configured filter |
| TableFeatures.ApplyFilters | app/Traits/HasTableFeatures.php:56-91 | the loop adds exactly the conditions of the filled filters, in order |
| TableFeatures.FiltersMeaning | app/Traits/HasTableFeatures.php:56-91 | a record passes the filters exactly when it passes each filled filter |
| TableFeatures.FilterCondsAsWritten | app/Traits/HasTableFeatures.php:58-88 | as written, at most one condition per filter, and none for a string definition that `is_callable` accepts |
| TableFeatures.AsWrittenSkipsFunctionNames | app/Traits/HasTableFeatures.php:65-86 | as written, the filters act like the definitions without the strings that name global functions, and exactly like the documented filters when no string names one |
| TableFeatures.EventFilterIgnored | app/Http/Controllers/Admin/ActivityLogController.php:30-34 | with the activity-log definitions, `event=created` adds no condition as written, where the documented filter adds `event = 'created'` |
| TableFeatures.UnfilledFiltersAddNothing | app/Traits/HasTableFeatures.php:59-61 | filters whose parameter is not filled add no condition |
| TableFeatures.BooleanFilter | app/Traits/HasTableFeatures.php:73-75 | a boolean filter keeps exactly the records whose flag equals whether the value is the true word |
| TableFeatures.SortChoice | app/Traits/HasTableFeatures.php:110-121 | the requested column when allowed, else the default; the requested direction when asc or desc, else the default |
| TableFeatures.SortIsSanitised | app/Traits/HasTableFeatures.php:113-121 | with allowed defaults the query is always ordered by an allowed column and a valid direction |
| TableFeatures.ApplySorting | app/Traits/HasTableFeatures.php:103-124 | sorting adds exactly one ordering and no condition |
| TableFeatures.SkipSpaces | app/Traits/HasTableFeatures.php:169 | skipping leading white space never lengthens the text |
| TableFeatures.LeadingDigits | app/Traits/HasTableFeatures.php:169 | a prefix made only of digits |
| TableFeatures.LeadingDigitsOfDigits | app/Traits/HasTableFeatures.php:169 | a text of digits is its own leading digits |
| TableFeatures.PhpIntvalOfNumber | app/Traits/HasTableFeatures.php:169 | the integer cast reads a written number back as that number |
| TableFeatures.GetPerPage | app/Traits/HasTableFeatures.php:167-177 | the requested page size when it lies in 1..100, else the default |
| TableFeatures.PerPageInRange | app/Traits/HasTableFeatures.php:171-176 | with a default in 1..100 the page size is always in 1..100 |
| TableFeatures.PerPageHonoured | app/Traits/HasTableFeatures.php:167-177 | a page size from 1 to 100 written as a number is used as asked |
| TableFeatures.TableFilters | app/Traits/HasTableFeatures.php:186-189 | exactly the search, sort, direction, page-size and named filter parameters present in the request, with their values |
| TableFeatures.NoStagesNoChange | app/Traits/HasTableFeatures.php:134-158 | a configuration without search, filter or sort columns leaves the query as it is |
| TableFeatures.DefaultOrder | app/Traits/HasTableFeatures.php:147-154 | with sort columns and no defaults or request, the query is ordered by `created_at` descending |
| TableFeatures.StagesOnlyNarrow | app/Traits/HasTableFeatures.php:134-158 | every record the table query keeps is kept by the query it started from |
| Messages.Required | resources/js/constants/messages.ts:70 | the `required` message opens with the field label, followed by the rule's fixed text |
| Messages.Min | resources/js/constants/messages.ts:72 | the `min` (characters) message opens with the field label, followed by the rule's fixed text |
| Messages.Max | resources/js/constants/messages.ts:73 | the `max` (characters) message opens with the field label, followed by the rule's fixed text |
| Messages.MinValue | resources/js/constants/messages.ts:74 | the `minValue` message opens with the field label, followed by the rule's fixed text |
| Messages.MaxValue | resources/js/constants/messages.ts:75 | the `maxValue` message opens with the field label, followed by the rule's fixed text |
| Messages.Confirmed | resources/js/constants/messages.ts:77 | the `confirmed` message opens with the field label, followed by the rule's fixed text |
| Messages.Alpha | resources/js/constants/messages.ts:78 | the `alpha` message opens with the field label, followed by the rule's fixed text |
| Messages.AlphaNum | resources/js/constants/messages.ts:79 | the `alphaNum` message opens with the field label, followed by the rule's fixed text |
| Messages.AlphaNumDash | resources/js/constants/messages.ts:80 | the `alphaNumDash` message opens with the field label, followed by the rule's fixed text |
| Messages.In | resources/js/constants/messages.ts:90 | the `in` message opens with the field label, followed by the rule's fixed text |
| Messages.NotIn | resources/js/constants/messages.ts:91 | the `notIn` message opens with the field label, followed by the rule's fixed text |
| Messages.Unique | resources/js/constants/messages.ts:85 | the `unique` message is "This " followed by the lower-cased label |
| Messages.Exists | resources/js/constants/messages.ts:86 | the `exists` message is "The selected " followed by the lower-cased label |
| Messages.HttpErrorMessage | resources/js/constants/messages.ts:123-131 | a listed status gets its own title, text and icon; any other the fallback |
| Messages.ListedStatuses | resources/js/constants/messages.ts:1-67 | exactly thirteen statuses have their own message |
| Messages.FallbackTitleOnlyForUnlisted | resources/js/constants/messages.ts:123-131 | the title "Error" appears exactly for statuses without their own message |
| Messages.SameFrame | resources/js/constants/messages.ts:70-91 | two messages built around the same text agree in the middle |
| Messages.RequiredNamesField | resources/js/constants/messages.ts:70 | different fields give different `required` messages |
| Messages.MinNamesBound | resources/js/constants/messages.ts:72 | different lengths give different `min` messages |
| Messages.MaxNamesBound | resources/js/constants/messages.ts:73 | different lengths give different `max` messages |
| Messages.MinValueNamesBound | resources/js/constants/messages.ts:74 | different bounds give different `minValue` messages |
| Messages.MaxValueNamesBound | resources/js/constants/messages.ts:75 | different bounds give different `maxValue` messages |
| Messages.UniqueAndExistsIgnoreCase | resources/js/constants/messages.ts:85-86 | `unique` and `exists` read the same whatever the ASCII case of the field and show it without upper-case ASCII letters |
| Messages.JoinWithContains | resources/js/constants/messages.ts:90-91 | every joined value appears in the joined text |
| Messages.InListsEveryValue | resources/js/constants/messages.ts:90-91 | the `in` and `not in` messages mention every listed value |
| Validation.Strings | resources/js/composables/useValidation.ts:360-381 | one JavaScript `String()` text per value, in order |
| Validation.RequiredRejectsExactlyEmpty | resources/js/composables/useValidation.ts:175-182 | `required` fails exactly on undefined, null, the empty string and the empty list, with the `required` message; blank text, 0 and false pass |
| Validation.OptionalRulesPassOnFalsy | resources/js/composables/useValidation.ts:201-222 | every rule other than `required`, the value bounds and `custom` passes on a falsy value |
| Validation.ValueBoundsCheckZero | resources/js/composables/useValidation.ts:227-248 | the value bounds skip null and undefined but still check the number 0 |
| Validation.LengthRules | resources/js/composables/useValidation.ts:201-222 | on non-empty text `minLength` fails exactly below the bound and `maxLength` exactly above it, counting UTF-16 code units as `length` does; within the Basic Multilingual Plane that is the number of characters; empty text passes |
| Validation.EmojiExceedsMaxLengthOne | resources/js/composables/useValidation.ts:214-222 | a single emoji is two code units, so `maxLength(1)` rejects it with the `max` message |
| Validation.LengthRulesIgnoreScalars | resources/js/composables/useValidation.ts:201-222 | the length rules pass on numbers and booleans, which have no length |
| Validation.CharacterClasses | resources/js/composables/useValidation.ts:321-355 | on non-empty text each character-class rule passes exactly when every character is in its class |
| Validation.ClassesNest | resources/js/composables/useValidation.ts:321-355 | letters-only passes implies letters-and-digits passes, which implies letters-digits-dashes passes |
| Validation.ConfirmedMeaning | resources/js/composables/useValidation.ts:253-262 | a filled value is confirmed exactly when the other field holds the same value |
| Validation.MembershipRules | resources/js/composables/useValidation.ts:360-381 | a filled value passes `inArray` exactly when listed and `notInArray` exactly when not listed |
| Validation.ItemsPluralisation | resources/js/composables/useValidation.ts:420-441 | the item-count messages say "items" exactly when the bound is above one |
| Validation.FirstFailure | resources/js/composables/useValidation.ts:63-72 | no message exactly when every rule passes; otherwise the message of the first rule that fails |
| Validation.FieldErrors | resources/js/composables/useValidation.ts:83-87 | one entry per validated field |
| Validation.RequiredFirstWins | resources/js/composables/useValidation.ts:63-72 | an empty value with `required` first reports the `required` message whatever follows |
| Validation.FieldErrorsStep | resources/js/composables/useValidation.ts:83-87 | validating one more field adds just its entry |
| Validation.UnionUpdate | resources/js/composables/useValidation.ts:83-87 | updating a merged error map updates its second part |
| Validation.ListedFieldsValid | resources/js/composables/useValidation.ts:83-87 | when the fields are the rules' keys, all listed fields pass exactly when all fields with rules pass |
| Validation.Stored | resources/js/composables/useValidation.ts:122 | a server message is stored as is; a list stores its first message, and an empty list stores none |
| Validation.FormValidator.ValidateField | resources/js/composables/useValidation.ts:53-73 | sets only that field's error to its first failing rule's message, or clears it, and returns whether it passed |
| Validation.FormValidator.Validate | resources/js/composables/useValidation.ts:78-91 | sets every field's error, marks the form validated and returns true exactly when every field passes |
| Validation.FormValidator.ClearErrors | resources/js/composables/useValidation.ts:96-101 | every error is cleared, keeping its key, and the form is no longer marked validated |
| Validation.FormValidator.ClearFieldError | resources/js/composables/useValidation.ts:106-108 | clears exactly that field's error |
| Validation.FormValidator.SetError | resources/js/composables/useValidation.ts:113-115 | sets exactly that field's error, after which the form has errors |
| Validation.FormValidator.SetErrors | resources/js/composables/useValidation.ts:120-124 | sets each server field's error to its stored message and keeps the others |
| Validation.FormValidator.OnFieldChange | resources/js/composables/useValidation.ts:136-140 | re-validates the field only when change validation is on and the form has been validated; otherwise changes nothing |
| Validation.FormValidator.OnFieldBlur | resources/js/composables/useValidation.ts:145-149 | re-validates the field only when blur validation is on; otherwise changes nothing |
| Validation.ValidFormHasNoRuleErrors | resources/js/composables/useValidation.ts:78-91 | after a validation that finds every field valid, no field with rules has an error |
| Validation.FormValidator.constructor | resources/js/composables/useValidation.ts:28-33 | a new form has no errors and has not been validated |
| Text.Utf16Length | resources/js/composables/useValidation.ts:204 | the `length` of a string in UTF-16 code units: between the number of characters and twice it, and equal to it when every character is in the Basic Multilingual Plane |
| Text.Utf16LengthOfEmoji | resources/js/composables/useValidation.ts:214-222 | an emoji outside the Basic Multilingual Plane is one character but two UTF-16 code units, so its `length` is 2 |
| Validation.Check | resources/js/composables/useValidation.ts:175-441 | `required` fails exactly on an empty value; every other built-in rule except `minValue` and `maxValue` lets a falsy value through; a failing built-in rule's message opens with its field label |
| Validation.MinItemsMessage | resources/js/composables/useValidation.ts:424 | the `minItems` message opens with the field label, followed by the rule's fixed text |
| Validation.MaxItemsMessage | resources/js/composables/useValidation.ts:437 | the `maxItems` message opens with the field label, followed by the rule's fixed text |
| DataTable.Toggled | resources/js/composables/useDataTable.ts:118-132 | a new column starts ascending; the current column goes from ascending to descending and from descending to unsorted |
| DataTable.ToggleCycle | resources/js/composables/useDataTable.ts:118-132 | three toggles of an unsorted column go through ascending and descending back to unsorted |
| DataTable.SortDirection | resources/js/composables/useDataTable.ts:135-137 | the direction of the sorted column, and none for every other column |
| DataTable.IsSortedIffDirection | resources/js/composables/useDataTable.ts:135-142 | a column is sorted exactly when it reports a direction |
| DataTable.ToggleSortsOnlyThatColumn | resources/js/composables/useDataTable.ts:118-142 | after a toggle no other column is sorted |
| DataTable.QueryParams | resources/js/composables/useDataTable.ts:52-74 | exactly the non-empty filters, then sort and direction when both are set, then the page size when not zero, later keys overwriting earlier ones |
| DataTable.OnlyPageSize | resources/js/composables/useDataTable.ts:52-74 | with no active filter and no sort the query carries just the page size |
| DataTable.ClearedQuery | resources/js/composables/useDataTable.ts:52-115 | after clearing, the query carries only sort, direction and page size |
| DataTable.Table.constructor | resources/js/composables/useDataTable.ts:25-46 | starts from the given filters and sort, and a page size of 15 by default |
| DataTable.Table.SetFilter | resources/js/composables/useDataTable.ts:105-107 | sets exactly that filter and sends nothing at once |
| DataTable.Table.ClearFilters | resources/js/composables/useDataTable.ts:110-115 | every filter becomes undefined, none is active, and the listing is fetched once with the new query |
| DataTable.Table.ToggleSort | resources/js/composables/useDataTable.ts:118-132 | cycles the column's sort and fetches the listing once with the new query |
| Collections.FirstBy | app/Services/RouteService.php:285 | the element found carries the key and comes from the list, and there is none exactly when no element carries the key |
| Collections.FirstByIsEarliest | app/Services/RouteService.php:285 | the element found is the earliest one carrying the key |
| Collections.UniqueByFirstWins | app/Services/RouteService.php:178 | `unique` keeps exactly one element per key, the first one carrying it, in input order, and loses no key |
| Collections.SortBy | app/Services/RouteService.php:179 | `sortBy` returns a permutation of its input |
| Collections.SortBySorted | app/Services/RouteService.php:179 | the result of `sortBy` is ordered under a total preorder |
| Collections.SortByStable | app/Services/RouteService.php:179 | `sortBy` is stable: elements that compare equal come out in their input order |

## Left out

- Page rendering is not modelled: Inertia pages, `page_setting`, breadcrumbs, redirects, flash messages and pagination carry no logic the model needs.
- The framework's route registry is an input. The routes are a list of records in registration order. `Route::has` and `route()` are a map from route name to URL.
- `Str::singular` and `Str::kebab` are inputs: the model takes an `Inflector` holding two total functions. The inflector used in the examples is a small table, not the framework's inflector.
- Spatie's permission storage is an abstract set of permission names. `hasPermissionTo` is membership in that set, so the exception Spatie throws for an unknown permission name is not modelled. `syncPermissions` replaces the set.
- Spatie's activity-log options are not modelled: `logOnlyDirty` and `dontSubmitEmptyLogs`, which decide whether an event is logged at all. `ActivityLog.ActivityTable.Record` appends every event it is given.
- A cache entry has no time-to-live, and several processes sharing one cache store are not modelled. Each cache entry is either present with a snapshot or absent.
- SQL `LIKE` is modelled as case-sensitive matching without wildcards. The prefix delete of the route scan is a prefix test. The search of the listing pages is a substring test. The database's case-insensitive collation, and `%` or `_` inside a search term, are not modelled.
- `ActivityLog.ActivityTable.Clear`: Laravel's `TrimStrings` and `ConvertEmptyStringsToNull` middleware are not modelled, here or for any other input. Inputs reach the controllers as sent, so the model refuses the confirmation ` DELETE_ALL `, which the application accepts after trimming.
- `updateOrCreate` and `wasChanged` are modelled as "the written values differ from the stored ones".
- Dates are not modelled. This covers the `today`, `thisWeek` and `thisMonth` scopes, the `date_from` and `date_to` export filters, the `created_at` format, and the export's file name. `created_at` is an opaque string.
- The `byCauser` scope is not modelled, because it compares the causer's PHP class name. The export's `causer_id` filter is modelled (`ActivityLog.ForCauser`).
- `ActivityLog.ForCauser` compares the `causer_id` filter as text with the decimal form of the stored id. The database compares the integer column with the string as numbers, so a filter of `05` also selects causer 5 there. The database's string-to-number conversion is not modelled.
- The HTTP response headers of the export are not modelled.
- `ActivityLog.LineRoundTrip`: the round trip is stated only for entries whose unquoted fields (log name, event, subject type, causer name, date) hold no comma, quote or newline. The export writes those fields without escaping, so other entries do not read back.
- `MenuTree.BuildNode`: a node already on the path from the root is not expanded again. This guard is what makes tree loading terminate on any table. A node reachable from a root can never lie on a parent cycle, so the guard should never fire. That is not proved.
- `MenuTree.Level`: ties in `order` keep table order, because the sort is stable (`Collections.SortByStable`). The database leaves that order unspecified.
- `MenuAdmin.MenuTable.Update`: `UpdateMenuRequest` is not part of this model. The update refuses a parent that does not exist, as the `parent_id` foreign key would, and it requires a name.
- `MenuAdmin.ValidateStore` takes typed input. The `string` rules, and the `integer` and `boolean` rules on a given value, hold by construction; a present null `order` or `is_active` is modelled and refused. The looser forms that `boolean` accepts (`0`, `1`, `"0"`, `"1"`) are not modelled.
- `RouteAccessRegistry.Validate` takes typed input. The `string` rules, and the `boolean` rule on a given flag, hold by construction; a present null `is_active` or `is_public` is modelled and refused. The looser forms that `boolean` accepts (`0`, `1`, `"0"`, `"1"`) are not modelled.
- The form requests of roles, permission groups and route-access rows other than the ones named above are not part of this model. Examples are the uniqueness of a role name and the required group name.
- `MenuTree.FilterMenus` tests a menu's permission name against the user's permissions with string equality. PHP's non-strict `in_array` also treats two numeric strings that are equal as numbers as the same, which matters only for numeric permission names.
- `TableFeatures.SortChoice` tests membership with string equality. PHP's non-strict `in_array` also accepts two numeric strings that are equal as numbers, such as `"1e1"` and `"10"`.
- `RouteCatalog.NameLe` and `RouteCatalog.NamedLe` compare route names code point by code point. `sortBy('name')` uses PHP's `SORT_REGULAR` comparison, which compares two numeric strings as numbers (`"10"` after `"9"`). The two orders differ only when both names are numeric strings.
- `TableFeatures.GetPerPage` models PHP's `(int)` cast as leading white space, an optional sign and decimal digits. Exponent forms such as `"1e2"` and integer overflow are not modelled.
- `TableFeatures.ApplyFilters` models a filter callback as an opaque predicate over the filter's name, its value and the record.
- `TableFeatures.FilterCondsAsWritten` assumes that a global function reached through `is_callable` leaves the query alone, as Laravel's helpers (`event`, `now`, `report`) do. A global function written to change the query it is handed is not modelled.
- Numbers on the browser side are integers. NaN, `Infinity` and fractions are not modelled, including a `per_page` of NaN.
- The validation rules `email`, `numeric`, `integer`, `url`, `pattern`, `phone` and `strongPassword` are not modelled. They rest on regular expressions, the `URL` constructor and floating-point parsing.
- `getFieldLabel` is not modelled, because it uses regular expressions. Each rule is given its field's label.
- `Validation.Check`: `minValue` and `maxValue` compare only numbers. JavaScript's coercion of strings and booleans in `<` and `>` is not modelled, and a non-number passes.
- `Validation.Check`: `confirmed`, `inArray` and `notInArray` compare lists by structure, whereas JavaScript compares arrays by reference.
- `Messages.UniqueAndExistsIgnoreCase`, `Messages.Unique` and `Messages.Exists`: the field label is lower-cased for the letters A to Z only. JavaScript's `toLowerCase` applies the full Unicode case mapping, so for a label with a non-ASCII capital such as `Ä` or `Σ` the model keeps the capital where the browser lowers it. The Unicode case tables are not modelled. PHP's `strtolower`, used for activity-log names, is ASCII-only, and `Text.ToLower` matches it there.
- `Validation.FormValidator.ValidateField`, `Validation.FormValidator.Validate`, `Validation.FormValidator.OnFieldChange` and `Validation.FormValidator.OnFieldBlur` take the form data already unwrapped. `useValidation` reads `formData.value` whenever the form object has a `value` key, whether it is a ref or a plain object. A plain form with its own field named `value` would have its rules read against that field's value; the model does not capture that case.
- The validation message templates that no modelled rule uses, and the `FORM_MESSAGES` table, are not modelled.
- The debounced search of `useDataTable` is not modelled: the watch on the filters and the page size, and the timer. `DataTable.Table` records in `sent` the query of each immediate search, in place of `router.get`.
- `useAuth.ts`, `useThemeColor.ts` and `useLayout.ts` are not part of this model. They are accessors, or they touch the page, local storage and reloads.
- The JSON resources, the migrations and the seeders are not modelled as logic. The constraints they impose are kept as invariants: unique route names in the route-access table, and the cascading delete of child menus.

## Findings

| source | as written | input that shows it | evidently intended | confidence | as-written member | corrected member |
|---|---|---|---|---|---|---|
| app/Http/Controllers/Admin/RouteAccessController.php:256 | `bulkDestroy` deletes rows with a query-builder delete. That fires no model events and does not clear the route caches. | A disabled route's row is bulk-deleted while the routes cache holds it. The gate keeps refusing the route from the stale cache, although the table no longer lists it and an unlisted route is allowed. | Clear the caches after a bulk delete, as every other change to the table does. | not executed | RouteAccessRegistry.Registry.BulkDestroyAsWritten, RouteAccessRegistry.StaleCacheAfterBulkDestroy | RouteAccessRegistry.Registry.BulkDestroy |
| app/Traits/HasTableFeatures.php:65 | `applyFilters` tests `is_callable` before anything else, so a plain string definition that names a global function is called with the query and the value instead of being compared. | The activity-log index defines `'event' => 'event'`. With `event=created`, `is_callable('event')` holds because of Laravel's `event()` helper, which dispatches the query as an event; no condition is added and entries of every event are listed. | Compare the `event` column with `created`, as a string definition is documented to do (test `is_string` before `is_callable`, or test only for a `Closure`). | not executed | TableFeatures.FilterCondsAsWritten, TableFeatures.EventFilterIgnored | TableFeatures.FilterConds, TableFeatures.FiltersMeaning |
