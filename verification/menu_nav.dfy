/**
 * The browser side of the navigation menu (`useMenu`): which item is
 * active for the current page, whether an item has an active descendant,
 * the link of an item, and the flattened list used for searching.
 */
module MenuNav {
  import opened Wrappers
  import opened Text
  import opened Collections
  import opened MenuTree

  /** JavaScript truthiness of a `string | null`: only null and "" are false. */
  predicate JsTruthy(o: Option<string>) {
    o.Some? && o.value != ""
  }

  /**
   * The route table of the page: the URL `route(name)` builds for each
   * route name; a name not in the map makes `route` throw. `pathname`
   * stands for `new URL(u, origin).pathname`.
   */
  datatype Routes = Routes(urls: map<string, string>, pathname: string -> string)

  /**
   * `isActive`: an item without a route name is never active; otherwise
   * it is active when its route exists and the current path starts with
   * the route's path.
   */
  function IsActive(item: MenuItem, routes: Routes, currentUrl: string): (b: bool)
    ensures !JsTruthy(item.routeName) ==> !b
    ensures b <==> JsTruthy(item.routeName) && item.routeName.value in routes.urls
                   && StartsWith(routes.pathname(currentUrl), routes.pathname(routes.urls[item.routeName.value]))
  {
    if !JsTruthy(item.routeName) then false
    else if item.routeName.value !in routes.urls then false
    else
      var menuUrl := routes.urls[item.routeName.value];
      StartsWith(routes.pathname(currentUrl), routes.pathname(menuUrl))
  }

  /** The children list of an item, empty when the key is absent. */
  function ChildrenOf(item: MenuItem): seq<MenuItem> {
    if item.ItemWithChildren? then item.children else []
  }

  /** `hasActiveChild`: some child is active or itself has an active child. */
  predicate HasActiveChild(item: MenuItem, routes: Routes, currentUrl: string)
    decreases item
  {
    if item.Item? || item.children == [] then false
    else (exists i :: 0 <= i < |item.children| &&
            (IsActive(item.children[i], routes, currentUrl) || HasActiveChild(item.children[i], routes, currentUrl)))
  }

  /** The items of a list in pre-order: each item before its children. */
  function Flat(items: seq<MenuItem>): seq<MenuItem>
    decreases items
  {
    if items == [] then []
    else [items[0]] + (if items[0].ItemWithChildren? then Flat(items[0].children) else []) + Flat(items[1..])
  }

  lemma {:induction false} FlatConcat(a: seq<MenuItem>, b: seq<MenuItem>)
    ensures Flat(a + b) == Flat(a) + Flat(b)
    decreases |a|
  {
    if a == [] {
      assert a + b == b;
    } else {
      assert (a + b)[0] == a[0] && (a + b)[1..] == a[1..] + b;
      FlatConcat(a[1..], b);
    }
  }

  /** `hasActiveChild` holds exactly when some descendant of the item is active. */
  lemma {:induction false} HasActiveChildIffDescendant(item: MenuItem, routes: Routes, currentUrl: string)
    ensures HasActiveChild(item, routes, currentUrl)
        <==> exists d :: d in Flat(ChildrenOf(item)) && IsActive(d, routes, currentUrl)
    decreases item
  {
    var kids := ChildrenOf(item);
    forall i | 0 <= i < |kids|
      ensures HasActiveChild(kids[i], routes, currentUrl)
          <==> exists d :: d in Flat(ChildrenOf(kids[i])) && IsActive(d, routes, currentUrl)
    {
      HasActiveChildIffDescendant(kids[i], routes, currentUrl);
    }
    DescendantsSplit(kids, routes, currentUrl);
  }

  /** An active item in the flattened list is one of the list or lies below one of them. */
  lemma {:induction false} DescendantsSplit(kids: seq<MenuItem>, routes: Routes, currentUrl: string)
    ensures (exists d :: d in Flat(kids) && IsActive(d, routes, currentUrl))
        <==> exists i :: 0 <= i < |kids| &&
               (IsActive(kids[i], routes, currentUrl) ||
                exists d :: d in Flat(ChildrenOf(kids[i])) && IsActive(d, routes, currentUrl))
    decreases |kids|
  {
    if kids != [] {
      DescendantsSplit(kids[1..], routes, currentUrl);
      var f := Flat(kids);
      assert f == [kids[0]] + Flat(ChildrenOf(kids[0])) + Flat(kids[1..]);
      forall i | 0 <= i < |kids[1..]| ensures kids[1..][i] == kids[i + 1] {
      }
    }
  }

  /**
   * `getMenuUrl`: the route's URL when the item names a route ("#" when
   * the route does not exist), otherwise the stored url, or "#".
   */
  function MenuUrl(item: MenuItem, routes: Routes): (u: string)
    ensures JsTruthy(item.routeName) && item.routeName.value !in routes.urls ==> u == "#"
    ensures !JsTruthy(item.routeName) && !JsTruthy(item.url) ==> u == "#"
    ensures !JsTruthy(item.routeName) && JsTruthy(item.url) ==> u == item.url.value
    ensures JsTruthy(item.routeName) && item.routeName.value in routes.urls ==> u == routes.urls[item.routeName.value]
  {
    if JsTruthy(item.routeName) then
      if item.routeName.value in routes.urls then routes.urls[item.routeName.value] else "#"
    else if JsTruthy(item.url) then item.url.value
    else "#"
  }

  /** `flattenMenus`: the inner `traverse` pushes each item, then traverses its children. */
  method Traverse(items: seq<MenuItem>, acc: seq<MenuItem>) returns (result: seq<MenuItem>)
    ensures result == acc + Flat(items)
    decreases items
  {
    result := acc;
    var i := 0;
    while i < |items|
      invariant 0 <= i <= |items|
      invariant result == acc + Flat(items[..i])
    {
      var item := items[i];
      FlatStep(items, i);
      result := result + [item];
      if item.ItemWithChildren? && |item.children| > 0 {
        result := Traverse(item.children, result);
      } else {
        assert Flat(ChildrenOf(item)) == [];
      }
      i := i + 1;
    }
    assert items[..|items|] == items;
  }

  lemma FlatStep(items: seq<MenuItem>, i: int)
    requires 0 <= i < |items|
    ensures Flat(items[..i + 1]) == Flat(items[..i]) + [items[i]] + Flat(ChildrenOf(items[i]))
  {
    FlatConcat(items[..i], [items[i]]);
    FlatOne(items[i]);
    assert items[..i + 1] == items[..i] + [items[i]];
  }

  lemma FlatOne(x: MenuItem)
    ensures Flat([x]) == [x] + Flat(ChildrenOf(x))
  {
    assert [x][1..] == [];
  }

  method FlattenMenus(items: seq<MenuItem>) returns (result: seq<MenuItem>)
    ensures result == Flat(items)
  {
    result := Traverse(items, []);
  }

  /** The flattened list keeps the top-level items in their order. */
  lemma {:induction false} FlatKeepsSiblingOrder(items: seq<MenuItem>)
    ensures IsSubseq(items, Flat(items))
    decreases |items|
  {
    if items != [] {
      FlatKeepsSiblingOrder(items[1..]);
      var below := if items[0].ItemWithChildren? then Flat(items[0].children) else [];
      SubseqDropFront(items[1..], below, Flat(items[1..]));
      assert Flat(items) == [items[0]] + (below + Flat(items[1..]));
      assert ([items[0]] + (below + Flat(items[1..])))[1..] == below + Flat(items[1..]);
    }
  }

  /** The flattened list holds every item once: its ids are the pre-order ids of the tree. */
  lemma {:induction false} FlatIds(items: seq<MenuItem>)
    ensures |Flat(items)| == |ItemIds(items)|
    ensures forall i :: 0 <= i < |Flat(items)| ==> Flat(items)[i].id == ItemIds(items)[i]
    decreases items
  {
    if items != [] {
      var x := items[0];
      FlatIds(items[1..]);
      if x.ItemWithChildren? {
        FlatIds(x.children);
        IdsMatchInParts(Flat(items), ItemIds(items), x, Flat(x.children), Flat(items[1..]), ItemIds(x.children), ItemIds(items[1..]));
      } else {
        IdsMatchInParts(Flat(items), ItemIds(items), x, [], Flat(items[1..]), [], ItemIds(items[1..]));
      }
    }
  }

  /** An item, its descendants and its siblings matched id by id: the three parts together match. */
  lemma IdsMatchInParts(flat: seq<MenuItem>, ids: seq<nat>, x: MenuItem,
                        below: seq<MenuItem>, rest: seq<MenuItem>, belowIds: seq<nat>, restIds: seq<nat>)
    requires flat == [x] + below + rest && ids == [x.id] + belowIds + restIds
    requires |below| == |belowIds| && forall i :: 0 <= i < |below| ==> below[i].id == belowIds[i]
    requires |rest| == |restIds| && forall i :: 0 <= i < |rest| ==> rest[i].id == restIds[i]
    ensures |flat| == |ids| && forall i :: 0 <= i < |flat| ==> flat[i].id == ids[i]
  {
    forall i | 0 <= i < |flat| ensures flat[i].id == ids[i] {
      if i == 0 {
      } else if i <= |below| {
        assert flat[i] == below[i - 1] && ids[i] == belowIds[i - 1];
      } else {
        assert flat[i] == rest[i - 1 - |below|] && ids[i] == restIds[i - 1 - |below|];
      }
    }
  }

  /** Flattening the items sent for a menu tree lists the tree's menus in pre-order. */
  lemma FlattenedTree(f: seq<MenuNode>)
    ensures |Flat(TransformForFrontend(f))| == |Preorder(f)|
    ensures forall i :: 0 <= i < |Preorder(f)| ==> Flat(TransformForFrontend(f))[i].id == Preorder(f)[i].id
  {
    FlatIds(TransformForFrontend(f));
    FrontendKeepsEveryMenu(f);
    RowIdsAt(Preorder(f));
  }
}
