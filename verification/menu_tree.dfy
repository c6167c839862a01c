/**
 * The navigation menu as a tree: the rows of the `menus` table, the trees
 * that the `Menu` relations load (`children`, `childrenAll`,
 * `allChildren` with the `root`/`active`/`ordered` scopes), the
 * permission filter of `MenuService`, and the item shape sent to the
 * browser.
 */
module MenuTree {
  import opened Wrappers
  import opened Text
  import opened Collections
  import AccessGate

  /** One row of the `menus` table. */
  datatype MenuRow = MenuRow(
    id: nat,
    name: string,
    routeName: Option<string>,
    url: Option<string>,
    icon: Option<string>,
    parentId: Option<nat>,
    order: int,
    permissionName: Option<string>,
    isActive: bool)

  /** The relation name under which a node's children are loaded (and serialised). */
  datatype Relation = ChildrenRel | ChildrenAllRel

  /** A menu with its loaded children. */
  datatype MenuNode = MenuNode(row: MenuRow, relation: Relation, children: seq<MenuNode>)

  // ---------------------------------------------------------------------
  // Scopes and relations
  // ---------------------------------------------------------------------

  /** The `ordered` scope: ascending by the `order` column. */
  predicate OrderLe(a: MenuRow, b: MenuRow) {
    a.order <= b.order
  }

  lemma OrderLeIsPreorder()
    ensures IsTotal(OrderLe) && IsTransitive(OrderLe)
  {
  }

  /** The `active` scope, applied only when `activeOnly` is set. */
  predicate InScope(r: MenuRow, activeOnly: bool) {
    r.isActive || !activeOnly
  }

  /**
   * One level of the tree as a query: the rows whose `parent_id` is
   * `parent` (null for the `root` scope), restricted to active rows when
   * `activeOnly` (the `children` relation and the `active` scope), in
   * ascending `order`; ties keep table order.
   */
  function Level(rows: seq<MenuRow>, parent: Option<nat>, activeOnly: bool): (r: seq<MenuRow>)
    ensures forall x :: x in r <==> x in rows && x.parentId == parent && InScope(x, activeOnly)
    ensures SortedBy(r, OrderLe)
  {
    var selected := Select(rows, parent, activeOnly);
    SortByMembers(selected, OrderLe);
    OrderLeIsPreorder();
    SortBySorted(selected, OrderLe);
    SortBy(selected, OrderLe)
  }

  /** The `where` part of a level: the rows with that parent, in scope, in table order. */
  function Select(rows: seq<MenuRow>, parent: Option<nat>, activeOnly: bool): (r: seq<MenuRow>)
    ensures forall x :: x in r <==> x in rows && x.parentId == parent && InScope(x, activeOnly)
    decreases |rows|
  {
    if rows == [] then []
    else
      var rest := Select(rows[1..], parent, activeOnly);
      assert forall x :: x in rows <==> x == rows[0] || x in rows[1..];
      if rows[0].parentId == parent && InScope(rows[0], activeOnly) then [rows[0]] + rest else rest
  }

  function Ids(rows: seq<MenuRow>): set<nat> {
    set x | x in rows :: x.id
  }

  /** The rows of `kids` whose id is not on the current path from a root. */
  function Unvisited(kids: seq<MenuRow>, path: set<nat>): (r: seq<MenuRow>)
    ensures forall x :: x in r <==> x in kids && x.id !in path
    ensures IsSubseq(r, kids)
  {
    FilterIsSubseq(kids, (x: MenuRow) => x.id !in path);
    Filter(kids, (x: MenuRow) => x.id !in path)
  }

  /**
   * Eager loading of a recursive relation from `row` down. `path` holds
   * the ids already on the way from the root; a child whose id is on it
   * is not descended into, which can only happen on a `parent_id` cycle.
   */
  function BuildNode(rows: seq<MenuRow>, row: MenuRow, path: set<nat>, activeOnly: bool, rel: Relation): (n: MenuNode)
    requires row in rows && row.id !in path
    ensures n.row == row && n.relation == rel
    decreases |Ids(rows) - path|, 0
  {
    var path' := path + {row.id};
    assert Ids(rows) - path' < Ids(rows) - path by {
      assert row.id in Ids(rows) - path;
    }
    ProperSubsetCard(Ids(rows) - path', Ids(rows) - path);
    MenuNode(row, rel, BuildForest(rows, Unvisited(Level(rows, Some(row.id), activeOnly), path'), path', activeOnly, rel))
  }

  function BuildForest(rows: seq<MenuRow>, kids: seq<MenuRow>, path: set<nat>, activeOnly: bool, rel: Relation): (f: seq<MenuNode>)
    requires forall k :: k in kids ==> k in rows && k.id !in path
    ensures |f| == |kids|
    ensures forall i :: 0 <= i < |f| ==> f[i].row == kids[i] && f[i].relation == rel
    decreases |Ids(rows) - path|, 1, |kids|
  {
    if kids == [] then []
    else
      assert kids[0] in kids && forall k :: k in kids[1..] ==> k in kids;
      var node := BuildNode(rows, kids[0], path, activeOnly, rel);
      var rest := BuildForest(rows, kids[1..], path, activeOnly, rel);
      ConsMatchesKids(node, rest, kids, rel);
      [node] + rest
  }

  /** A node for the first kid followed by a forest for the others matches the kids one by one. */
  lemma ConsMatchesKids(node: MenuNode, rest: seq<MenuNode>, kids: seq<MenuRow>, rel: Relation)
    requires kids != [] && node.row == kids[0] && node.relation == rel && |rest| == |kids| - 1
    requires forall i :: 0 <= i < |rest| ==> rest[i].row == kids[1..][i] && rest[i].relation == rel
    ensures forall i :: 0 <= i < |kids| ==> ([node] + rest)[i].row == kids[i] && ([node] + rest)[i].relation == rel
  {
    forall i | 1 <= i < |kids| ensures ([node] + rest)[i] == rest[i - 1] && kids[i] == kids[1..][i - 1] {
    }
  }

  /**
   * `getMenuTree`: the active roots in order, each with its active children
   * recursively. The query eager-loads `allChildren`, and the children the
   * caller reads are the `children` relation; both are the active children
   * ordered by `order`, so the tree has the same contents whichever is read.
   */
  function ActiveTree(rows: seq<MenuRow>): seq<MenuNode> {
    BuildForest(rows, Level(rows, None, true), {}, true, ChildrenRel)
  }

  /** The query of `getAllMenuTree`: every root in order, with `childrenAll` loaded recursively. */
  function LoadAllMenus(rows: seq<MenuRow>): seq<MenuNode> {
    BuildForest(rows, Level(rows, None, false), {}, false, ChildrenAllRel)
  }

  /** `getAllMenuTree`: the loaded tree with `childrenAll` renamed to `children`. */
  function AllMenuTree(rows: seq<MenuRow>): seq<MenuNode> {
    TransformChildrenKey(LoadAllMenus(rows))
  }

  /** The rows of a forest in pre-order: each node before its children. */
  function Preorder(f: seq<MenuNode>): (r: seq<MenuRow>)
    ensures f != [] ==> |r| > 0
    decreases f
  {
    if f == [] then [] else [f[0].row] + Preorder(f[0].children) + Preorder(f[1..])
  }

  lemma {:induction false} PreorderConcat(a: seq<MenuNode>, b: seq<MenuNode>)
    ensures Preorder(a + b) == Preorder(a) + Preorder(b)
    decreases |a|
  {
    if a != [] {
      ConsConcat(a, b);
      PreorderConcat(a[1..], b);
      var head := [a[0].row] + Preorder(a[0].children);
      assert Preorder(a + b) == head + Preorder(a[1..] + b);
      assert Preorder(a) == head + Preorder(a[1..]);
    } else {
      assert a + b == b;
    }
  }

  /**
   * What loading a level produces: every node is a row of the table in
   * scope, carries the relation it was loaded under, has children that
   * point back to it through `parent_id` in ascending `order`, and so on
   * all the way down.
   */
  ghost predicate Loaded(f: seq<MenuNode>, rows: seq<MenuRow>, activeOnly: bool, rel: Relation)
    decreases f
  {
    forall i :: 0 <= i < |f| ==>
      && f[i].row in rows
      && InScope(f[i].row, activeOnly)
      && f[i].relation == rel
      && (forall j :: 0 <= j < |f[i].children| ==> f[i].children[j].row.parentId == Some(f[i].row.id))
      && (forall j, k :: 0 <= j < k < |f[i].children| ==> f[i].children[j].row.order <= f[i].children[k].row.order)
      && Loaded(f[i].children, rows, activeOnly, rel)
  }

  lemma {:induction false} BuildNodeLoaded(rows: seq<MenuRow>, row: MenuRow, path: set<nat>, activeOnly: bool, rel: Relation)
    requires row in rows && row.id !in path && InScope(row, activeOnly)
    ensures Loaded([BuildNode(rows, row, path, activeOnly, rel)], rows, activeOnly, rel)
    decreases |Ids(rows) - path|, 0
  {
    var path' := path + {row.id};
    assert Ids(rows) - path' < Ids(rows) - path by {
      assert row.id in Ids(rows) - path;
    }
    ProperSubsetCard(Ids(rows) - path', Ids(rows) - path);
    var level := Level(rows, Some(row.id), activeOnly);
    var kids := Unvisited(level, path');
    SubseqSorted(kids, level, OrderLe);
    BuildForestLoaded(rows, kids, path', activeOnly, rel);
    var n := BuildNode(rows, row, path, activeOnly, rel);
    assert n.children == BuildForest(rows, kids, path', activeOnly, rel);
    NodeLoaded(n, kids, rows, activeOnly, rel);
  }

  /** A node in scope whose children are loaded for kids of that node, in order, is loaded. */
  lemma NodeLoaded(n: MenuNode, kids: seq<MenuRow>, rows: seq<MenuRow>, activeOnly: bool, rel: Relation)
    requires n.row in rows && InScope(n.row, activeOnly) && n.relation == rel
    requires |n.children| == |kids| && forall i :: 0 <= i < |kids| ==> n.children[i].row == kids[i]
    requires forall x :: x in kids ==> x.parentId == Some(n.row.id)
    requires SortedBy(kids, OrderLe)
    requires Loaded(n.children, rows, activeOnly, rel)
    ensures Loaded([n], rows, activeOnly, rel)
  {
    forall j | 0 <= j < |n.children| ensures n.children[j].row.parentId == Some(n.row.id) {
      assert kids[j] in kids;
    }
    forall j, k | 0 <= j < k < |n.children| ensures n.children[j].row.order <= n.children[k].row.order {
      assert OrderLe(kids[j], kids[k]);
    }
  }

  lemma {:induction false} BuildForestLoaded(rows: seq<MenuRow>, kids: seq<MenuRow>, path: set<nat>, activeOnly: bool, rel: Relation)
    requires forall k :: k in kids ==> k in rows && k.id !in path && InScope(k, activeOnly)
    ensures Loaded(BuildForest(rows, kids, path, activeOnly, rel), rows, activeOnly, rel)
    decreases |Ids(rows) - path|, 1, |kids|
  {
    if kids != [] {
      BuildNodeLoaded(rows, kids[0], path, activeOnly, rel);
      BuildForestLoaded(rows, kids[1..], path, activeOnly, rel);
      LoadedConcat([BuildNode(rows, kids[0], path, activeOnly, rel)], BuildForest(rows, kids[1..], path, activeOnly, rel), rows, activeOnly, rel);
    }
  }

  lemma LoadedConcat(a: seq<MenuNode>, b: seq<MenuNode>, rows: seq<MenuRow>, activeOnly: bool, rel: Relation)
    requires Loaded(a, rows, activeOnly, rel) && Loaded(b, rows, activeOnly, rel)
    ensures Loaded(a + b, rows, activeOnly, rel)
  {
    var ab := a + b;
    forall i | 0 <= i < |ab|
      ensures ab[i] == (if i < |a| then a[i] else b[i - |a|])
    {
    }
  }

  /** The rows of a forest's top level, in order. */
  function TopRows(f: seq<MenuNode>): (r: seq<MenuRow>)
    ensures |r| == |f| && forall i :: 0 <= i < |f| ==> r[i] == f[i].row
  {
    seq(|f|, i requires 0 <= i < |f| => f[i].row)
  }

  /**
   * Nothing is left out: below every node sit exactly its child rows in
   * scope, in ascending `order`, except a row whose id is already on the
   * way from the root (`path` holds the ids above the forest), which
   * with distinct ids only a `parent_id` cycle produces.
   */
  ghost predicate Complete(f: seq<MenuNode>, rows: seq<MenuRow>, activeOnly: bool, path: set<nat>)
    decreases f
  {
    forall i :: 0 <= i < |f| ==>
      && TopRows(f[i].children) == Unvisited(Level(rows, Some(f[i].row.id), activeOnly), path + {f[i].row.id})
      && Complete(f[i].children, rows, activeOnly, path + {f[i].row.id})
  }

  lemma {:induction false} BuildNodeComplete(rows: seq<MenuRow>, row: MenuRow, path: set<nat>, activeOnly: bool, rel: Relation)
    requires row in rows && row.id !in path
    ensures Complete([BuildNode(rows, row, path, activeOnly, rel)], rows, activeOnly, path)
    decreases |Ids(rows) - path|, 0
  {
    var path' := path + {row.id};
    assert Ids(rows) - path' < Ids(rows) - path by {
      assert row.id in Ids(rows) - path;
    }
    ProperSubsetCard(Ids(rows) - path', Ids(rows) - path);
    var kids := Unvisited(Level(rows, Some(row.id), activeOnly), path');
    BuildForestComplete(rows, kids, path', activeOnly, rel);
    var n := BuildNode(rows, row, path, activeOnly, rel);
    assert n.children == BuildForest(rows, kids, path', activeOnly, rel);
    assert TopRows(n.children) == kids;
  }

  lemma {:induction false} BuildForestComplete(rows: seq<MenuRow>, kids: seq<MenuRow>, path: set<nat>, activeOnly: bool, rel: Relation)
    requires forall k :: k in kids ==> k in rows && k.id !in path
    ensures Complete(BuildForest(rows, kids, path, activeOnly, rel), rows, activeOnly, path)
    decreases |Ids(rows) - path|, 1, |kids|
  {
    if kids != [] {
      assert kids[0] in kids && forall k :: k in kids[1..] ==> k in kids;
      BuildNodeComplete(rows, kids[0], path, activeOnly, rel);
      BuildForestComplete(rows, kids[1..], path, activeOnly, rel);
      CompleteConcat([BuildNode(rows, kids[0], path, activeOnly, rel)], BuildForest(rows, kids[1..], path, activeOnly, rel), rows, activeOnly, path);
    }
  }

  lemma CompleteConcat(a: seq<MenuNode>, b: seq<MenuNode>, rows: seq<MenuRow>, activeOnly: bool, path: set<nat>)
    requires Complete(a, rows, activeOnly, path) && Complete(b, rows, activeOnly, path)
    ensures Complete(a + b, rows, activeOnly, path)
  {
    var ab := a + b;
    forall i | 0 <= i < |ab|
      ensures ab[i] == (if i < |a| then a[i] else b[i - |a|])
    {
    }
  }

  /**
   * In a complete forest, every in-scope row whose parent is a node, and
   * whose id is not on the way to it, is loaded as one of its children.
   */
  lemma CompleteHasEveryChild(f: seq<MenuNode>, rows: seq<MenuRow>, activeOnly: bool, path: set<nat>, i: int, x: MenuRow)
    requires Complete(f, rows, activeOnly, path) && 0 <= i < |f|
    requires x in rows && x.parentId == Some(f[i].row.id) && InScope(x, activeOnly)
    requires x.id !in path + {f[i].row.id}
    ensures exists j :: 0 <= j < |f[i].children| && f[i].children[j].row == x
  {
    var kids := Unvisited(Level(rows, Some(f[i].row.id), activeOnly), path + {f[i].row.id});
    assert x in kids;
    var j :| 0 <= j < |kids| && kids[j] == x;
    assert TopRows(f[i].children)[j] == x;
  }

  /** A node loaded without one of its active child rows is not complete. */
  lemma MissingChildIsIncomplete(p: MenuRow, c: MenuRow)
    requires p.id != c.id && c.parentId == Some(p.id) && c.isActive
    ensures !Complete([MenuNode(p, ChildrenRel, [])], [p, c], true, {})
  {
    if Complete([MenuNode(p, ChildrenRel, [])], [p, c], true, {}) {
      CompleteHasEveryChild([MenuNode(p, ChildrenRel, [])], [p, c], true, {}, 0, c);
    }
  }

  /**
   * The active tree holds exactly the active rows reachable from the
   * active roots: the roots are the active root rows in ascending `order`,
   * every node is an active row under an active parent, and every active
   * child row of a node is loaded below it. An inactive menu hides its
   * whole subtree.
   */
  lemma MenuTreeLoaded(rows: seq<MenuRow>)
    ensures Loaded(ActiveTree(rows), rows, true, ChildrenRel)
    ensures Complete(ActiveTree(rows), rows, true, {})
    ensures TopRows(ActiveTree(rows)) == Level(rows, None, true)
    ensures forall i :: 0 <= i < |ActiveTree(rows)| ==> ActiveTree(rows)[i].row.parentId.None?
  {
    BuildForestLoaded(rows, Level(rows, None, true), {}, true, ChildrenRel);
    BuildForestComplete(rows, Level(rows, None, true), {}, true, ChildrenRel);
  }

  /** The admin tree starts from every root, active or not, in ascending `order`. */
  lemma AllMenuRoots(rows: seq<MenuRow>)
    ensures |AllMenuTree(rows)| == |Level(rows, None, false)|
    ensures forall x :: x in rows && x.parentId.None? <==> exists i :: 0 <= i < |AllMenuTree(rows)| && AllMenuTree(rows)[i].row == x
  {
    var kids := Level(rows, None, false);
    var f := LoadAllMenus(rows);
    var t := AllMenuTree(rows);
    assert t == TransformChildrenKey(f);
    assert |f| == |kids| && forall i :: 0 <= i < |f| ==> f[i].row == kids[i];
    forall x | x in rows && x.parentId.None? ensures exists i :: 0 <= i < |t| && t[i].row == x {
      assert x in kids;
      var i :| 0 <= i < |kids| && kids[i] == x;
      assert t[i].row == f[i].row;
    }
    forall x | exists i :: 0 <= i < |t| && t[i].row == x ensures x in rows && x.parentId.None? {
      var i :| 0 <= i < |t| && t[i].row == x;
      assert t[i].row == kids[i];
      assert kids[i] in kids;
    }
  }

  // ---------------------------------------------------------------------
  // transformChildrenKey
  // ---------------------------------------------------------------------

  /** Renames a loaded `childrenAll` relation to `children`, level by level. */
  function TransformChildrenKey(f: seq<MenuNode>): (r: seq<MenuNode>)
    ensures |r| == |f|
    ensures forall i :: 0 <= i < |f| ==> r[i].row == f[i].row
    decreases f
  {
    if f == [] then []
    else
      var n := f[0];
      var n' := if n.relation == ChildrenAllRel then MenuNode(n.row, ChildrenRel, TransformChildrenKey(n.children)) else n;
      [n'] + TransformChildrenKey(f[1..])
  }

  /** Renaming keeps the shape of the tree: the same rows in the same pre-order. */
  lemma {:induction false} TransformKeepsShape(f: seq<MenuNode>)
    ensures Preorder(TransformChildrenKey(f)) == Preorder(f)
    decreases f
  {
    if f != [] {
      var r := TransformChildrenKey(f);
      TransformKeepsShape(f[0].children);
      TransformKeepsShape(f[1..]);
      assert r[1..] == TransformChildrenKey(f[1..]);
    }
  }

  /**
   * Renaming the relation of a tree loaded with `childrenAll` gives the
   * tree loaded under `children` from the same rows.
   */
  lemma {:induction false} TransformLoadedNode(rows: seq<MenuRow>, row: MenuRow, path: set<nat>, activeOnly: bool)
    requires row in rows && row.id !in path
    ensures TransformChildrenKey([BuildNode(rows, row, path, activeOnly, ChildrenAllRel)])
         == [BuildNode(rows, row, path, activeOnly, ChildrenRel)]
    decreases |Ids(rows) - path|, 0
  {
    var path' := path + {row.id};
    assert Ids(rows) - path' < Ids(rows) - path by {
      assert row.id in Ids(rows) - path;
    }
    ProperSubsetCard(Ids(rows) - path', Ids(rows) - path);
    TransformLoadedForest(rows, Unvisited(Level(rows, Some(row.id), activeOnly), path'), path', activeOnly);
  }

  lemma {:induction false} TransformLoadedForest(rows: seq<MenuRow>, kids: seq<MenuRow>, path: set<nat>, activeOnly: bool)
    requires forall k :: k in kids ==> k in rows && k.id !in path
    ensures TransformChildrenKey(BuildForest(rows, kids, path, activeOnly, ChildrenAllRel))
         == BuildForest(rows, kids, path, activeOnly, ChildrenRel)
    decreases |Ids(rows) - path|, 1, |kids|
  {
    if kids != [] {
      TransformLoadedNode(rows, kids[0], path, activeOnly);
      TransformLoadedForest(rows, kids[1..], path, activeOnly);
      var f := BuildForest(rows, kids, path, activeOnly, ChildrenAllRel);
      assert f[1..] == BuildForest(rows, kids[1..], path, activeOnly, ChildrenAllRel);
      assert TransformChildrenKey(f)[1..] == TransformChildrenKey(f[1..]);
    }
  }

  /** `getAllMenuTree` is the complete tree, inactive menus included, under the `children` key. */
  lemma AllMenuTreeIsChildrenTree(rows: seq<MenuRow>)
    ensures AllMenuTree(rows) == BuildForest(rows, Level(rows, None, false), {}, false, ChildrenRel)
    ensures Loaded(AllMenuTree(rows), rows, false, ChildrenRel)
    ensures Complete(AllMenuTree(rows), rows, false, {})
    ensures TopRows(AllMenuTree(rows)) == Level(rows, None, false)
  {
    TransformLoadedForest(rows, Level(rows, None, false), {}, false);
    BuildForestLoaded(rows, Level(rows, None, false), {}, false, ChildrenRel);
    BuildForestComplete(rows, Level(rows, None, false), {}, false, ChildrenRel);
  }

  // ---------------------------------------------------------------------
  // The url accessor
  // ---------------------------------------------------------------------

  /**
   * `getUrlAttribute`: the stored url when truthy; otherwise the URL of
   * the named route when `route_name` is truthy and the route exists;
   * otherwise null. `routeUrls` stands for `Route::has`/`route()`.
   */
  function UrlAttribute(row: MenuRow, routeUrls: map<string, string>): (r: Option<string>)
    ensures PhpTruthy(row.url) ==> r == row.url
    ensures !PhpTruthy(row.url) ==> (r.Some? <==> PhpTruthy(row.routeName) && row.routeName.value in routeUrls)
    ensures !PhpTruthy(row.url) && r.Some? ==> r.value == routeUrls[row.routeName.value]
  {
    if PhpTruthy(row.url) then row.url
    else if PhpTruthy(row.routeName) && row.routeName.value in routeUrls then Some(routeUrls[row.routeName.value])
    else None
  }

  /**
   * In the filter, "has a route name or a url" does not depend on the
   * route registry: it holds exactly when the route name or the stored
   * url is truthy.
   */
  lemma LinkTestIgnoresRegistry(row: MenuRow, routeUrls: map<string, string>)
    ensures (PhpTruthy(row.routeName) || PhpTruthy(UrlAttribute(row, routeUrls)))
        <==> (PhpTruthy(row.routeName) || PhpTruthy(row.url))
  {
  }

  // ---------------------------------------------------------------------
  // filterMenusByPermissions
  // ---------------------------------------------------------------------

  /** `empty($menu->permission_name)` is false. */
  predicate NeedsPermission(row: MenuRow) {
    PhpTruthy(row.permissionName)
  }

  /** The first filter: no permission needed, or the user holds it. */
  predicate Permits(row: MenuRow, perms: set<string>) {
    !NeedsPermission(row) || row.permissionName.value in perms
  }

  /** The second filter, on a node whose children have been filtered. */
  predicate Shows(n: MenuNode, routeUrls: map<string, string>) {
    !NeedsPermission(n.row) || n.children != [] || PhpTruthy(n.row.routeName) || PhpTruthy(UrlAttribute(n.row, routeUrls))
  }

  /**
   * `filterMenusByPermissions`: drops the menus the user may not see,
   * replaces the children of each remaining menu by their own filtered
   * list, then drops the menus that need a permission but are left with
   * no children and no link. Written element by element; the three
   * collection passes of the source treat each element independently.
   */
  function FilterMenus(f: seq<MenuNode>, perms: set<string>, routeUrls: map<string, string>): (r: seq<MenuNode>)
    ensures |r| <= |f|
    decreases f
  {
    if f == [] then []
    else
      var n := f[0];
      var rest := FilterMenus(f[1..], perms, routeUrls);
      if !Permits(n.row, perms) then rest
      else
        var n' := if n.children != [] then n.(children := FilterMenus(n.children, perms, routeUrls)) else n;
        if Shows(n', routeUrls) then [n'] + rest else rest
  }

  /**
   * When one menu survives the filter, stated without the accessor: it
   * needs no permission, or the user holds it and it keeps a child, a
   * route name or a stored url.
   */
  ghost predicate Visible(n: MenuNode, perms: set<string>, routeUrls: map<string, string>) {
    || !NeedsPermission(n.row)
    || (n.row.permissionName.value in perms
        && (FilterMenus(n.children, perms, routeUrls) != [] || PhpTruthy(n.row.routeName) || PhpTruthy(n.row.url)))
  }

  /** The filter on a single menu: kept, with its children filtered, exactly when it is visible. */
  lemma FilterOne(n: MenuNode, perms: set<string>, routeUrls: map<string, string>)
    ensures FilterMenus([n], perms, routeUrls)
         == if Visible(n, perms, routeUrls) then [n.(children := FilterMenus(n.children, perms, routeUrls))] else []
  {
    assert [n][1..] == [];
    LinkTestIgnoresRegistry(n.row, routeUrls);
  }

  /** The filter treats siblings independently. */
  lemma {:induction false} FilterConcat(a: seq<MenuNode>, b: seq<MenuNode>, perms: set<string>, routeUrls: map<string, string>)
    ensures FilterMenus(a + b, perms, routeUrls) == FilterMenus(a, perms, routeUrls) + FilterMenus(b, perms, routeUrls)
    decreases |a|
  {
    if a != [] {
      HeadTailConcat(a, b);
      FilterCons(a + b, perms, routeUrls);
      FilterConcat(a[1..], b, perms, routeUrls);
      FilterCons(a, perms, routeUrls);
      RegroupConcat(FilterMenus(a + b, perms, routeUrls), FilterMenus(a, perms, routeUrls),
                    FilterHead(a[0], perms, routeUrls), FilterMenus(a[1..], perms, routeUrls), FilterMenus(b, perms, routeUrls));
    } else {
      assert a + b == b;
    }
  }

  /** What the filter keeps of one menu: nothing, or the menu with its children filtered. */
  function FilterHead(n: MenuNode, perms: set<string>, routeUrls: map<string, string>): (r: seq<MenuNode>)
    ensures |r| <= 1
  {
    if !Permits(n.row, perms) then []
    else
      var n' := if n.children != [] then n.(children := FilterMenus(n.children, perms, routeUrls)) else n;
      if Shows(n', routeUrls) then [n'] else []
  }

  /** The filter of a list is what it keeps of the first menu followed by the filter of the others. */
  lemma FilterCons(f: seq<MenuNode>, perms: set<string>, routeUrls: map<string, string>)
    requires f != []
    ensures FilterMenus(f, perms, routeUrls) == FilterHead(f[0], perms, routeUrls) + FilterMenus(f[1..], perms, routeUrls)
  {
  }

  /**
   * A menu whose permission the user lacks disappears with its whole
   * subtree: the result is the one for the list without it, whatever its
   * descendants would have shown.
   */
  lemma DeniedDropsSubtree(f: seq<MenuNode>, i: int, perms: set<string>, routeUrls: map<string, string>)
    requires 0 <= i < |f| && NeedsPermission(f[i].row) && f[i].row.permissionName.value !in perms
    ensures FilterMenus(f, perms, routeUrls) == FilterMenus(f[..i] + f[i + 1..], perms, routeUrls)
  {
    assert f == f[..i] + ([f[i]] + f[i + 1..]);
    FilterConcat(f[..i], [f[i]] + f[i + 1..], perms, routeUrls);
    FilterConcat([f[i]], f[i + 1..], perms, routeUrls);
    FilterConcat(f[..i], f[i + 1..], perms, routeUrls);
    FilterOne(f[i], perms, routeUrls);
  }

  /** A menu that needs no permission always stays, with its children filtered. */
  lemma UnrestrictedKept(n: MenuNode, perms: set<string>, routeUrls: map<string, string>)
    requires !NeedsPermission(n.row)
    ensures FilterMenus([n], perms, routeUrls) == [n.(children := FilterMenus(n.children, perms, routeUrls))]
  {
    FilterOne(n, perms, routeUrls);
  }

  /** A permitted menu with no visible child, no route name and no stored url is dropped. */
  lemma EmptyFolderDropped(n: MenuNode, perms: set<string>, routeUrls: map<string, string>)
    requires NeedsPermission(n.row)
    requires FilterMenus(n.children, perms, routeUrls) == []
    requires !PhpTruthy(n.row.routeName) && !PhpTruthy(n.row.url)
    ensures FilterMenus([n], perms, routeUrls) == []
  {
    FilterOne(n, perms, routeUrls);
  }

  /** Filtering never adds a menu and keeps the order at every level. */
  lemma {:induction false} FilterNeverAdds(f: seq<MenuNode>, perms: set<string>, routeUrls: map<string, string>)
    ensures IsSubseq(Preorder(FilterMenus(f, perms, routeUrls)), Preorder(f))
    decreases f
  {
    if f != [] {
      var n := f[0];
      var rest := FilterMenus(f[1..], perms, routeUrls);
      FilterNeverAdds(f[1..], perms, routeUrls);
      FilterNeverAdds(n.children, perms, routeUrls);
      var whole := Preorder(f);
      assert whole == [n.row] + Preorder(n.children) + Preorder(f[1..]);
      SubseqDropFront(Preorder(rest), [n.row] + Preorder(n.children), Preorder(f[1..]));
      if Permits(n.row, perms) {
        var n' := if n.children != [] then n.(children := FilterMenus(n.children, perms, routeUrls)) else n;
        if Shows(n', routeUrls) {
          assert ([n'] + rest)[0] == n' && ([n'] + rest)[1..] == rest;
          assert Preorder([n'] + rest) == [n.row] + Preorder(n'.children) + Preorder(rest);
          if n.children != [] {
            SubseqRefl([n.row]);
            SubseqConcat([n.row], [n.row], Preorder(n'.children), Preorder(n.children));
            SubseqConcat([n.row] + Preorder(n'.children), [n.row] + Preorder(n.children), Preorder(rest), Preorder(f[1..]));
          } else {
            SubseqRefl([n.row] + Preorder(n.children));
            SubseqConcat([n.row] + Preorder(n'.children), [n.row] + Preorder(n.children), Preorder(rest), Preorder(f[1..]));
          }
        }
      }
    }
  }

  /**
   * Granting more permissions never hides a menu: what a user sees is a
   * sub-tree, in the same order, of what a user with more permissions sees.
   */
  lemma {:induction false} MorePermissionsShowMore(f: seq<MenuNode>, perms: set<string>, more: set<string>, routeUrls: map<string, string>)
    requires perms <= more
    ensures IsSubseq(Preorder(FilterMenus(f, perms, routeUrls)), Preorder(FilterMenus(f, more, routeUrls)))
    decreases f
  {
    if f != [] {
      var n := f[0];
      var rest1 := FilterMenus(f[1..], perms, routeUrls);
      var rest2 := FilterMenus(f[1..], more, routeUrls);
      MorePermissionsShowMore(f[1..], perms, more, routeUrls);
      MorePermissionsShowMore(n.children, perms, more, routeUrls);
      var n1 := if n.children != [] then n.(children := FilterMenus(n.children, perms, routeUrls)) else n;
      var n2 := if n.children != [] then n.(children := FilterMenus(n.children, more, routeUrls)) else n;
      assert Preorder([n2] + rest2) == [n.row] + Preorder(n2.children) + Preorder(rest2) by {
        assert ([n2] + rest2)[0] == n2 && ([n2] + rest2)[1..] == rest2;
      }
      assert Preorder([n1] + rest1) == [n.row] + Preorder(n1.children) + Preorder(rest1) by {
        assert ([n1] + rest1)[0] == n1 && ([n1] + rest1)[1..] == rest1;
      }
      if Permits(n.row, perms) && Shows(n1, routeUrls) {
        assert Permits(n.row, more);
        if n.children != [] && n1.children != [] {
          SubseqLength(Preorder(n1.children), Preorder(n2.children));
        }
        assert Shows(n2, routeUrls);
        SubseqRefl([n.row]);
        SubseqConcat([n.row], [n.row], Preorder(n1.children), Preorder(n2.children));
        SubseqConcat([n.row] + Preorder(n1.children), [n.row] + Preorder(n2.children), Preorder(rest1), Preorder(rest2));
      } else if Permits(n.row, more) && Shows(n2, routeUrls) {
        SubseqDropFront(Preorder(rest1), [n.row] + Preorder(n2.children), Preorder(rest2));
      }
    }
  }

  // ---------------------------------------------------------------------
  // getMenusForUser
  // ---------------------------------------------------------------------

  /**
   * `getMenusForUser`: nothing for a guest, the whole active tree for a
   * super-admin, and the filtered active tree for everyone else.
   */
  function MenusForUser(user: Option<AccessGate.User>, rows: seq<MenuRow>, routeUrls: map<string, string>): (r: seq<MenuNode>)
    ensures user.None? ==> r == []
    ensures user.Some? && user.value.isSuperAdmin ==> r == ActiveTree(rows)
  {
    if user.None? then []
    else if user.value.isSuperAdmin then ActiveTree(rows)
    else FilterMenus(ActiveTree(rows), user.value.permissions, routeUrls)
  }

  /** No user sees more than the super-admin does, and the order is the tree's. */
  lemma MenusForUserBounded(user: Option<AccessGate.User>, rows: seq<MenuRow>, routeUrls: map<string, string>)
    ensures IsSubseq(Preorder(MenusForUser(user, rows, routeUrls)), Preorder(ActiveTree(rows)))
  {
    if user.Some? && !user.value.isSuperAdmin {
      FilterNeverAdds(ActiveTree(rows), user.value.permissions, routeUrls);
    } else {
      SubseqRefl(Preorder(ActiveTree(rows)));
    }
  }

  // ---------------------------------------------------------------------
  // transformForFrontend
  // ---------------------------------------------------------------------

  /**
   * The `MenuItem` record the browser receives; the `children` key is
   * present only on items built from a menu that has children.
   */
  datatype MenuItem =
    | Item(id: nat, name: string, icon: Option<string>, routeName: Option<string>, url: Option<string>, order: int)
    | ItemWithChildren(id: nat, name: string, icon: Option<string>, routeName: Option<string>, url: Option<string>, order: int,
                       children: seq<MenuItem>)

  /** `transformForFrontend`: one item per menu, in order, with the raw stored url. */
  function TransformForFrontend(f: seq<MenuNode>): (r: seq<MenuItem>)
    ensures |r| == |f|
    ensures forall i :: 0 <= i < |f| ==>
      && r[i].id == f[i].row.id && r[i].name == f[i].row.name && r[i].icon == f[i].row.icon
      && r[i].routeName == f[i].row.routeName && r[i].url == f[i].row.url && r[i].order == f[i].row.order
      && (r[i].ItemWithChildren? <==> f[i].children != [])
    decreases f
  {
    if f == [] then []
    else
      var n := f[0];
      var item :=
        if n.children != [] then ItemWithChildren(n.row.id, n.row.name, n.row.icon, n.row.routeName, n.row.url, n.row.order, TransformForFrontend(n.children))
        else Item(n.row.id, n.row.name, n.row.icon, n.row.routeName, n.row.url, n.row.order);
      var rest := TransformForFrontend(f[1..]);
      assert forall i :: 1 <= i < |f| ==> ([item] + rest)[i] == rest[i - 1] && f[1..][i - 1] == f[i];
      [item] + rest
  }

  /** The ids of a list of items in pre-order. */
  function ItemIds(items: seq<MenuItem>): seq<nat>
    decreases items
  {
    if items == [] then []
    else
      var below := if items[0].ItemWithChildren? then ItemIds(items[0].children) else [];
      [items[0].id] + below + ItemIds(items[1..])
  }

  function RowIds(rows: seq<MenuRow>): (r: seq<nat>)
    ensures |r| == |rows|
    decreases |rows|
  {
    if rows == [] then [] else [rows[0].id] + RowIds(rows[1..])
  }

  lemma {:induction false} RowIdsConcat(a: seq<MenuRow>, b: seq<MenuRow>)
    ensures RowIds(a + b) == RowIds(a) + RowIds(b)
    decreases |a|
  {
    if a == [] {
      assert a + b == b;
    } else {
      assert (a + b)[0] == a[0] && (a + b)[1..] == a[1..] + b;
      RowIdsConcat(a[1..], b);
    }
  }

  lemma {:induction false} RowIdsAt(rows: seq<MenuRow>)
    ensures forall i :: 0 <= i < |rows| ==> RowIds(rows)[i] == rows[i].id
    decreases |rows|
  {
    if rows != [] {
      RowIdsAt(rows[1..]);
    }
  }

  /** Every menu of the tree reaches the browser once, in tree order. */
  lemma {:induction false} FrontendKeepsEveryMenu(f: seq<MenuNode>)
    ensures ItemIds(TransformForFrontend(f)) == RowIds(Preorder(f))
    decreases f
  {
    if f != [] {
      var n := f[0];
      var r := TransformForFrontend(f);
      FrontendKeepsEveryMenu(f[1..]);
      FrontendKeepsEveryMenu(n.children);
      assert r[1..] == TransformForFrontend(f[1..]);
      RowIdsConcat([n.row] + Preorder(n.children), Preorder(f[1..]));
      RowIdsConcat([n.row], Preorder(n.children));
      var below := if r[0].ItemWithChildren? then ItemIds(r[0].children) else [];
      assert below == RowIds(Preorder(n.children));
      calc {
        ItemIds(r);
        [n.row.id] + below + ItemIds(r[1..]);
        RowIds([n.row]) + RowIds(Preorder(n.children)) + RowIds(Preorder(f[1..]));
        RowIds(Preorder(f));
      }
    }
  }
}
