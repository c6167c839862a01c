/**
 * The menu administration actions (`MenuController`): create with
 * defaults, edit, delete with the cascade of the `parent_id` foreign key,
 * and reorder, each followed by clearing the menu cache.
 */
module MenuAdmin {
  import opened Wrappers
  import opened Text
  import opened Collections
  import opened MenuTree

  /**
   * A request key that is not `nullable`: missing, present with null, or
   * present with a value. Laravel skips the rules of a missing key but runs
   * them on a null one.
   */
  datatype Field<T> = Missing | Null | Given(value: T) {
    /** PHP's `??`: the value, or `default` when the key is missing or null. */
    function Or(default: T): T {
      if Given? then value else default
    }
  }

  /**
   * The request of `store`/`update`. For the `nullable` keys `None` is an
   * absent or null input, which their rules treat alike; `order` and
   * `is_active` are not `nullable`, so they tell a missing key from a null.
   */
  datatype MenuInput = MenuInput(
    name: Option<string>,
    routeName: Option<string>,
    url: Option<string>,
    icon: Option<string>,
    parentId: Option<nat>,
    order: Field<int>,
    permissionName: Option<string>,
    isActive: Field<bool>)

  /**
   * One element of the `menus` array that `reorder` receives.
   * `hasParentId` says whether the element carries the `parent_id` key at
   * all; `parentId` is that key's value, null or an id, and means nothing
   * when the key is missing.
   */
  datatype ReorderEntry = ReorderEntry(id: nat, parentId: Option<nat>, order: int, hasParentId: bool)

  /**
   * Why an action was refused. `UndefinedKey` is PHP's error on reading an
   * array key that is not there, which ends the request half-way.
   */
  datatype Failure = Invalid(field: string, rule: string) | NotFound | ForeignKeyViolation | UndefinedKey(key: string)

  const Created := "Menu created successfully."
  const Updated := "Menu updated successfully."
  const Deleted := "Menu deleted successfully."
  const Reordered := "Menu order updated successfully."

  /** A nullable string within `max:n`. */
  predicate WithinMax(o: Option<string>, max: nat) {
    o.None? || |o.value| <= max
  }

  /** The `exists:menus,id` rule on a nullable id. */
  predicate ParentExists(rows: seq<MenuRow>, parent: Option<nat>) {
    parent.None? || parent.value in Ids(rows)
  }

  /** No two rows share an id. */
  predicate DistinctIds(rows: seq<MenuRow>) {
    forall i, j :: 0 <= i < j < |rows| ==> rows[i].id != rows[j].id
  }

  /** The foreign key holds: every `parent_id` names a row of the table. */
  predicate ParentsExist(rows: seq<MenuRow>) {
    forall i :: 0 <= i < |rows| ==> ParentExists(rows, rows[i].parentId)
  }

  /** The rules of `StoreMenuRequest`, field by field; the first failure is reported. */
  function ValidateStore(input: MenuInput, rows: seq<MenuRow>, permissionNames: set<string>): (r: Option<Failure>)
    ensures r.None? <==>
      && Filled(input.name) && |input.name.value| <= 255
      && WithinMax(input.routeName, 255) && WithinMax(input.url, 500) && WithinMax(input.icon, 100)
      && ParentExists(rows, input.parentId)
      && !input.order.Null? && (input.order.Given? ==> input.order.value >= 0)
      && (input.permissionName.None? || input.permissionName.value in permissionNames)
      && !input.isActive.Null?
    ensures r.Some? ==> r.value.Invalid?
  {
    if !Filled(input.name) then Some(Invalid("name", "required"))
    else if |input.name.value| > 255 then Some(Invalid("name", "max"))
    else if !WithinMax(input.routeName, 255) then Some(Invalid("route_name", "max"))
    else if !WithinMax(input.url, 500) then Some(Invalid("url", "max"))
    else if !WithinMax(input.icon, 100) then Some(Invalid("icon", "max"))
    else if !ParentExists(rows, input.parentId) then Some(Invalid("parent_id", "exists"))
    else if input.order.Null? then Some(Invalid("order", "integer"))
    else if input.order.Given? && input.order.value < 0 then Some(Invalid("order", "min"))
    else if input.permissionName.Some? && input.permissionName.value !in permissionNames then Some(Invalid("permission_name", "exists"))
    else if input.isActive.Null? then Some(Invalid("is_active", "boolean"))
    else None
  }

  /**
   * A request with a present null `order` or `is_active` is refused with
   * the type rule, while the same request without those keys passes and
   * takes the defaults.
   */
  lemma NullOrderOrFlagRefused(rows: seq<MenuRow>, permissionNames: set<string>)
    ensures ValidateStore(MenuInput(Some("Home"), None, None, None, None, Null, None, Missing), rows, permissionNames)
            == Some(Invalid("order", "integer"))
    ensures ValidateStore(MenuInput(Some("Home"), None, None, None, None, Missing, None, Null), rows, permissionNames)
            == Some(Invalid("is_active", "boolean"))
    ensures ValidateStore(MenuInput(Some("Home"), None, None, None, None, Missing, None, Missing), rows, permissionNames).None?
  {
    assert !IsPhpSpace("Home"[0]);
  }

  /** The row `store` creates: `order` defaults to 0 and `is_active` to true. */
  function NewMenu(id: nat, input: MenuInput): (m: MenuRow)
    requires input.name.Some?
    ensures m.id == id && m.name == input.name.value
    ensures m.order == input.order.Or(0) && m.isActive == input.isActive.Or(true)
    ensures m.routeName == input.routeName && m.url == input.url && m.icon == input.icon
    ensures m.parentId == input.parentId && m.permissionName == input.permissionName
  {
    MenuRow(id, input.name.value, input.routeName, input.url, input.icon, input.parentId,
            input.order.Or(0), input.permissionName, input.isActive.Or(true))
  }

  /**
   * The row after `update`: `order` and `is_active` keep their values when
   * the request omits them; the six other fields are overwritten, with
   * null when omitted.
   */
  function EditedMenu(m: MenuRow, input: MenuInput): (r: MenuRow)
    requires input.name.Some?
    ensures r.id == m.id && r.name == input.name.value
    ensures r.order == input.order.Or(m.order) && r.isActive == input.isActive.Or(m.isActive)
    ensures r.routeName == input.routeName && r.url == input.url && r.icon == input.icon
    ensures r.parentId == input.parentId && r.permissionName == input.permissionName
  {
    MenuRow(m.id, input.name.value, input.routeName, input.url, input.icon, input.parentId,
            input.order.Or(m.order), input.permissionName, input.isActive.Or(m.isActive))
  }

  /** Replaces the row with id `id` (if any) by `m`, keeping every other row and the order. */
  function ReplaceRow(rows: seq<MenuRow>, id: nat, m: MenuRow): (r: seq<MenuRow>)
    ensures |r| == |rows|
    ensures forall i :: 0 <= i < |rows| ==> r[i] == if rows[i].id == id then m else rows[i]
  {
    seq(|rows|, i requires 0 <= i < |rows| => if rows[i].id == id then m else rows[i])
  }

  /** The index of the row with id `id`. */
  function IndexOfId(rows: seq<MenuRow>, id: nat): (i: nat)
    requires id in Ids(rows)
    ensures i < |rows| && rows[i].id == id
    ensures forall j :: 0 <= j < i ==> rows[j].id != id
    decreases |rows|
  {
    if rows[0].id == id then 0
    else
      assert id in Ids(rows[1..]) by {
        var x :| x in rows && x.id == id;
        var k :| 0 <= k < |rows| && rows[k] == x;
        assert rows[1..][k - 1] == x;
      }
      1 + IndexOfId(rows[1..], id)
  }

  /** Replacing a row by one with the same id keeps the ids, and the foreign key when the new parent exists. */
  lemma ReplaceKeepsTable(rows: seq<MenuRow>, id: nat, m: MenuRow)
    requires m.id == id && DistinctIds(rows) && ParentsExist(rows) && ParentExists(rows, m.parentId)
    ensures Ids(ReplaceRow(rows, id, m)) == Ids(rows)
    ensures forall i :: 0 <= i < |rows| ==> ReplaceRow(rows, id, m)[i].id == rows[i].id
    ensures DistinctIds(ReplaceRow(rows, id, m)) && ParentsExist(ReplaceRow(rows, id, m))
  {
    var updated := ReplaceRow(rows, id, m);
    forall x | x in Ids(rows) ensures x in Ids(updated) {
      var y :| y in rows && y.id == x;
      var k :| 0 <= k < |rows| && rows[k] == y;
      assert updated[k] in updated;
    }
    forall x | x in Ids(updated) ensures x in Ids(rows) {
      var y :| y in updated && y.id == x;
      var k :| 0 <= k < |updated| && updated[k] == y;
      assert rows[k] in rows;
    }
  }

  // ---------------------------------------------------------------------
  // Cascade delete
  // ---------------------------------------------------------------------

  /** The ids of the rows whose parent is in `d`. */
  function ChildIds(rows: seq<MenuRow>, d: set<nat>): (r: set<nat>)
    ensures r <= Ids(rows)
    ensures forall x :: x in rows && x.parentId.Some? && x.parentId.value in d ==> x.id in r
  {
    set x | x in rows && x.parentId.Some? && x.parentId.value in d :: x.id
  }

  /** Closed under the foreign key: a row whose parent is in `c` is in `c`. */
  ghost predicate Closed(rows: seq<MenuRow>, c: set<nat>) {
    forall x :: x in rows && x.parentId.Some? && x.parentId.value in c ==> x.id in c
  }

  /**
   * `ON DELETE CASCADE` from the ids `d`: `d` together with every row
   * below them, reached level by level until nothing new appears.
   */
  function Cascade(rows: seq<MenuRow>, d: set<nat>): (r: set<nat>)
    ensures d <= r && r <= d + Ids(rows)
    ensures Closed(rows, r)
    decreases |Ids(rows) - d|
  {
    var next := d + ChildIds(rows, d);
    if next <= d then d
    else
      ProperSubsetCard(Ids(rows) - next, Ids(rows) - d);
      Cascade(rows, next)
  }

  /** The cascade removes nothing beyond what the foreign key forces: it is the least closed set. */
  lemma {:induction false} CascadeLeast(rows: seq<MenuRow>, d: set<nat>, c: set<nat>)
    requires d <= c && Closed(rows, c)
    ensures Cascade(rows, d) <= c
    decreases |Ids(rows) - d|
  {
    var next := d + ChildIds(rows, d);
    if !(next <= d) {
      ProperSubsetCard(Ids(rows) - next, Ids(rows) - d);
      CascadeLeast(rows, next, c);
    }
  }

  /** The rows that survive deleting the ids `d`, in table order. */
  function WithoutIds(rows: seq<MenuRow>, d: set<nat>): (r: seq<MenuRow>)
    ensures forall x :: x in r <==> x in rows && x.id !in d
    ensures IsSubseq(r, rows)
  {
    FilterIsSubseq(rows, (x: MenuRow) => x.id !in d);
    Filter(rows, (x: MenuRow) => x.id !in d)
  }

  /**
   * After the cascade, the foreign key still holds: every surviving row's
   * parent survives too.
   */
  lemma CascadeKeepsParents(rows: seq<MenuRow>, id: nat)
    requires DistinctIds(rows) && ParentsExist(rows)
    ensures ParentsExist(WithoutIds(rows, Cascade(rows, {id})))
  {
    var d := Cascade(rows, {id});
    var r := WithoutIds(rows, d);
    forall i | 0 <= i < |r|
      ensures ParentExists(r, r[i].parentId)
    {
      assert r[i] in rows;
      var k :| 0 <= k < |rows| && rows[k] == r[i];
      if r[i].parentId.Some? {
        var p := r[i].parentId.value;
        assert ParentExists(rows, rows[k].parentId);
        var q :| q in rows && q.id == p;
        assert p !in d;
        assert q in r;
      }
    }
  }

  /** Deleting keeps ids distinct. */
  lemma WithoutIdsDistinct(rows: seq<MenuRow>, d: set<nat>)
    requires DistinctIds(rows)
    ensures DistinctIds(WithoutIds(rows, d))
  {
    var r := WithoutIds(rows, d);
    SubseqDistinct(r, rows);
  }

  lemma {:induction false} SubseqDistinct(a: seq<MenuRow>, b: seq<MenuRow>)
    requires IsSubseq(a, b) && DistinctIds(b)
    ensures DistinctIds(a)
    decreases |b|
  {
    if a != [] {
      assert DistinctIds(b[1..]) by {
        forall i, j | 0 <= i < j < |b[1..]| ensures b[1..][i].id != b[1..][j].id {
          assert b[1..][i] == b[i + 1] && b[1..][j] == b[j + 1];
        }
      }
      if a[0] == b[0] && IsSubseq(a[1..], b[1..]) {
        SubseqDistinct(a[1..], b[1..]);
        SubseqMembers(a[1..], b[1..]);
        forall i, j | 0 <= i < j < |a| ensures a[i].id != a[j].id {
          if i == 0 {
            assert a[j] == a[1..][j - 1] && a[j] in b[1..];
            var k :| 0 <= k < |b[1..]| && b[1..][k] == a[j];
            assert b[k + 1] == a[j];
          } else {
            assert a[i] == a[1..][i - 1] && a[j] == a[1..][j - 1];
          }
        }
      } else {
        SubseqDistinct(a, b[1..]);
      }
    }
  }

  // ---------------------------------------------------------------------
  // Reorder
  // ---------------------------------------------------------------------

  /**
   * The rules of `reorder`: a non-empty list of existing ids, orders at
   * least 0, and parents that are null or existing. `nullable` lets a
   * missing `parent_id` key through, and `exists` is not checked on it.
   */
  function ValidateReorder(rows: seq<MenuRow>, entries: seq<ReorderEntry>): (r: Option<Failure>)
    ensures r.None? <==>
      && |entries| > 0
      && (forall k :: 0 <= k < |entries| ==>
           && entries[k].id in Ids(rows) && entries[k].order >= 0
           && (entries[k].hasParentId ==> ParentExists(rows, entries[k].parentId)))
    ensures r.Some? ==> r.value.Invalid?
  {
    if |entries| == 0 then Some(Invalid("menus", "required"))
    else if exists k :: 0 <= k < |entries| && entries[k].id !in Ids(rows) then Some(Invalid("menus.*.id", "exists"))
    else if exists k :: 0 <= k < |entries| && entries[k].hasParentId && !ParentExists(rows, entries[k].parentId) then
      Some(Invalid("menus.*.parent_id", "exists"))
    else if exists k :: 0 <= k < |entries| && entries[k].order < 0 then Some(Invalid("menus.*.order", "min"))
    else None
  }

  /** The index of the first entry without a `parent_id` key, or the number of entries when every entry has one. */
  function MissingParentAt(entries: seq<ReorderEntry>): (k: nat)
    ensures k <= |entries|
    ensures forall j :: 0 <= j < k ==> entries[j].hasParentId
    ensures k < |entries| ==> !entries[k].hasParentId
  {
    if entries == [] || !entries[0].hasParentId then 0
    else 1 + MissingParentAt(entries[1..])
  }

  /** One `Menu::where('id', …)->update([...])`: the parent and order of that id change. */
  function Reposition(rows: seq<MenuRow>, e: ReorderEntry): (r: seq<MenuRow>)
    ensures |r| == |rows|
  {
    seq(|rows|, i requires 0 <= i < |rows| =>
      if rows[i].id == e.id then rows[i].(parentId := e.parentId, order := e.order) else rows[i])
  }

  /** The entries applied in sequence. */
  function ApplyReorder(rows: seq<MenuRow>, entries: seq<ReorderEntry>): (r: seq<MenuRow>)
    ensures |r| == |rows|
    decreases |entries|
  {
    if entries == [] then rows
    else Reposition(ApplyReorder(rows, entries[..|entries| - 1]), entries[|entries| - 1])
  }

  /** The last entry for `id`, if any. */
  function LastFor(entries: seq<ReorderEntry>, id: nat): (r: Option<ReorderEntry>)
    ensures r.Some? ==> r.value in entries && r.value.id == id
    ensures r.None? <==> forall k :: 0 <= k < |entries| ==> entries[k].id != id
    decreases |entries|
  {
    if entries == [] then None
    else if entries[|entries| - 1].id == id then Some(entries[|entries| - 1])
    else
      var r := LastFor(entries[..|entries| - 1], id);
      assert forall k :: 0 <= k < |entries| - 1 ==> entries[..|entries| - 1][k] == entries[k];
      r
  }

  /**
   * The outcome of a reorder, row by row: the last entry naming a row
   * decides its parent and order; every other field, and every row no
   * entry names, stays as it was.
   */
  lemma {:induction false} ReorderLastWins(rows: seq<MenuRow>, entries: seq<ReorderEntry>, i: int)
    requires 0 <= i < |rows|
    ensures ApplyReorder(rows, entries)[i] ==
      match LastFor(entries, rows[i].id)
      case None => rows[i]
      case Some(e) => rows[i].(parentId := e.parentId, order := e.order)
    decreases |entries|
  {
    if entries != [] {
      ReorderLastWins(rows, entries[..|entries| - 1], i);
    }
  }

  /** Reordering changes no id, so distinct ids and the foreign key survive a validated reorder. */
  lemma ReorderKeepsTable(rows: seq<MenuRow>, entries: seq<ReorderEntry>)
    requires DistinctIds(rows) && ParentsExist(rows)
    requires forall k :: 0 <= k < |entries| ==> ParentExists(rows, entries[k].parentId)
    ensures forall i :: 0 <= i < |rows| ==> ApplyReorder(rows, entries)[i].id == rows[i].id
    ensures Ids(ApplyReorder(rows, entries)) == Ids(rows)
    ensures DistinctIds(ApplyReorder(rows, entries)) && ParentsExist(ApplyReorder(rows, entries))
  {
    var r := ApplyReorder(rows, entries);
    forall i | 0 <= i < |rows|
      ensures r[i].id == rows[i].id && ParentExists(rows, r[i].parentId)
    {
      ReorderLastWins(rows, entries, i);
      var last := LastFor(entries, rows[i].id);
      if last.Some? {
        var k :| 0 <= k < |entries| && entries[k] == last.value;
      }
    }
    assert Ids(r) == Ids(rows) by {
      forall x | x in Ids(rows) ensures x in Ids(r) {
        var y :| y in rows && y.id == x;
        var k :| 0 <= k < |rows| && rows[k] == y;
        assert r[k] in r;
      }
      forall x | x in Ids(r) ensures x in Ids(rows) {
        var y :| y in r && y.id == x;
        var k :| 0 <= k < |r| && r[k] == y;
        assert rows[k] in rows;
      }
    }
  }

  /**
   * The entries a validated reorder writes before it meets one without a
   * `parent_id` key (all of them when there is none) keep ids distinct,
   * below the next id, and every parent existing.
   */
  lemma ReorderPrefixKeepsTable(rows: seq<MenuRow>, entries: seq<ReorderEntry>, nextId: nat)
    requires DistinctIds(rows) && ParentsExist(rows)
    requires forall i :: 0 <= i < |rows| ==> rows[i].id < nextId
    requires ValidateReorder(rows, entries).None?
    ensures var after := ApplyReorder(rows, entries[..MissingParentAt(entries)]);
      && DistinctIds(after) && ParentsExist(after)
      && forall i :: 0 <= i < |after| ==> after[i].id < nextId
  {
    var pre := entries[..MissingParentAt(entries)];
    assert forall k :: 0 <= k < |pre| ==> pre[k] == entries[k] && entries[k].hasParentId;
    ReorderKeepsTable(rows, pre);
  }

  /**
   * A second entry without `parent_id` passes validation, and the loop
   * stops at it after the first entry has moved its menu.
   */
  lemma MissingParentPassesValidation()
    ensures var rows := [MenuRow(1, "A", None, None, None, None, 1, None, true),
                         MenuRow(2, "B", None, None, None, None, 2, None, true)];
            var entries := [ReorderEntry(1, None, 5, true), ReorderEntry(2, None, 0, false)];
            && ValidateReorder(rows, entries).None?
            && MissingParentAt(entries) == 1
            && ApplyReorder(rows, entries[..1])[0].order == 5
  {
    var rows := [MenuRow(1, "A", None, None, None, None, 1, None, true),
                 MenuRow(2, "B", None, None, None, None, 2, None, true)];
    var entries := [ReorderEntry(1, None, 5, true), ReorderEntry(2, None, 0, false)];
    assert rows[0] in rows && rows[1] in rows;
    assert entries[1..][1..] == [];
    assert entries[..1][..0] == [];
  }

  /**
   * The `foreach` of `reorder`: the entries are written one after another
   * until one lacks its `parent_id` key, which stops the loop.
   */
  method WriteReorder(rows: seq<MenuRow>, entries: seq<ReorderEntry>) returns (written: seq<MenuRow>, stopped: bool)
    ensures written == ApplyReorder(rows, entries[..MissingParentAt(entries)])
    ensures stopped <==> MissingParentAt(entries) < |entries|
  {
    var stop := MissingParentAt(entries);
    written := rows;
    var i := 0;
    while i < |entries|
      invariant 0 <= i <= stop
      invariant written == ApplyReorder(rows, entries[..i])
    {
      if !entries[i].hasParentId {
        return written, true;
      }
      assert entries[..i + 1][..i] == entries[..i];
      written := Reposition(written, entries[i]);
      i := i + 1;
    }
    assert entries[..|entries|] == entries;
    stopped := false;
  }

  /**
   * Reorder does not look for cycles: two valid entries can make two
   * root menus each other's parent, and both vanish from the menu tree.
   */
  lemma ReorderCanDetachMenus()
    ensures var rows := [MenuRow(1, "A", None, None, None, None, 1, None, true),
                         MenuRow(2, "B", None, None, None, None, 2, None, true)];
            var entries := [ReorderEntry(1, Some(2), 0, true), ReorderEntry(2, Some(1), 0, true)];
            && ValidateReorder(rows, entries).None?
            && |ActiveTree(rows)| == 2
            && ActiveTree(ApplyReorder(rows, entries)) == []
  {
    var rows := [MenuRow(1, "A", None, None, None, None, 1, None, true),
                 MenuRow(2, "B", None, None, None, None, 2, None, true)];
    var entries := [ReorderEntry(1, Some(2), 0, true), ReorderEntry(2, Some(1), 0, true)];
    assert Ids(rows) == {1, 2} by {
      assert rows[0] in rows && rows[1] in rows;
    }
    assert Select(rows[1..], None, true) == [rows[1]] by {
      assert rows[1..][1..] == [];
    }
    assert Select(rows, None, true) == rows;
    var after := ApplyReorder(rows, entries);
    SwappedParents(rows, entries);
    assert Select(after[1..], None, true) == [] by {
      assert after[1..][1..] == [];
    }
    assert Select(after, None, true) == [];
  }

  /** The two entries above make the rows each other's parent. */
  lemma SwappedParents(rows: seq<MenuRow>, entries: seq<ReorderEntry>)
    requires |rows| == 2 && rows[0].id == 1 && rows[1].id == 2
    requires entries == [ReorderEntry(1, Some(2), 0, true), ReorderEntry(2, Some(1), 0, true)]
    ensures |ApplyReorder(rows, entries)| == 2
    ensures ApplyReorder(rows, entries)[0].parentId == Some(2)
    ensures ApplyReorder(rows, entries)[1].parentId == Some(1)
  {
    ReorderLastWins(rows, entries, 0);
    ReorderLastWins(rows, entries, 1);
    assert entries[..1] == [entries[0]];
    assert LastFor(entries[..1], 1) == Some(entries[0]);
  }

  // ---------------------------------------------------------------------
  // The controller
  // ---------------------------------------------------------------------

  /**
   * The `menus` table behind `MenuController`, with the flag that tells
   * whether a value is stored under the `menu_permissions` cache key.
   */
  class MenuTable {
    var rows: seq<MenuRow>
    var nextId: nat
    var permissionNames: set<string>
    var cached: bool

    /** Ids are unique and below the next id, and the parent foreign key holds. */
    ghost predicate Valid()
      reads this
    {
      && DistinctIds(rows)
      && (forall i :: 0 <= i < |rows| ==> rows[i].id < nextId)
      && ParentsExist(rows)
    }

    constructor (initial: seq<MenuRow>, next: nat, names: set<string>)
      requires DistinctIds(initial) && ParentsExist(initial)
      requires forall i :: 0 <= i < |initial| ==> initial[i].id < next
      ensures Valid()
      ensures rows == initial && nextId == next && permissionNames == names && cached
    {
      rows := initial;
      nextId := next;
      permissionNames := names;
      cached := true;
    }

    /** `menuService->clearCache()`: forgets the `menu_permissions` key. */
    method ClearCache()
      modifies this
      ensures rows == old(rows) && nextId == old(nextId) && permissionNames == old(permissionNames)
      ensures !cached
    {
      cached := false;
    }

    /** `store`: validate, insert the new row with its defaults, clear the cache. */
    method Store(input: MenuInput) returns (r: Result<string, Failure>)
      requires Valid()
      modifies this
      ensures Valid() && permissionNames == old(permissionNames)
      ensures r.Err? <==> ValidateStore(input, old(rows), permissionNames).Some?
      ensures r.Err? ==> r.error == ValidateStore(input, old(rows), permissionNames).value
      ensures input.order.Null? || input.isActive.Null? ==> r.Err? && rows == old(rows)
      ensures r.Err? ==> rows == old(rows) && nextId == old(nextId) && cached == old(cached)
      ensures r.Ok? ==>
        && r.value == Created && !cached
        && rows == old(rows) + [NewMenu(old(nextId), input)] && nextId == old(nextId) + 1
    {
      var failure := ValidateStore(input, rows, permissionNames);
      if failure.Some? {
        return Err(failure.value);
      }
      var m := NewMenu(nextId, input);
      assert Ids(rows + [m]) == Ids(rows) + {m.id} by {
        assert forall x :: x in rows + [m] <==> x in rows || x == m;
      }
      rows := rows + [m];
      nextId := nextId + 1;
      ClearCache();
      r := Ok(Created);
    }

    /**
     * `update`: the menu is found by id; the new parent must name an
     * existing row (the database's foreign key), then the row is
     * rewritten and the cache cleared.
     */
    method Update(id: nat, input: MenuInput) returns (r: Result<string, Failure>)
      requires Valid() && input.name.Some?
      modifies this
      ensures Valid() && permissionNames == old(permissionNames) && nextId == old(nextId)
      ensures id !in Ids(old(rows)) ==> r == Err(NotFound)
      ensures id in Ids(old(rows)) && !ParentExists(old(rows), input.parentId) ==> r == Err(ForeignKeyViolation)
      ensures r.Err? ==> rows == old(rows) && cached == old(cached)
      ensures r.Ok? ==>
        && r.value == Updated && !cached && id in Ids(old(rows))
        && rows == ReplaceRow(old(rows), id, EditedMenu(old(rows)[IndexOfId(old(rows), id)], input))
    {
      if id !in Ids(rows) {
        return Err(NotFound);
      }
      if !ParentExists(rows, input.parentId) {
        return Err(ForeignKeyViolation);
      }
      var m := EditedMenu(rows[IndexOfId(rows, id)], input);
      var updated := ReplaceRow(rows, id, m);
      ReplaceKeepsTable(rows, id, m);
      rows := updated;
      ClearCache();
      r := Ok(Updated);
    }

    /** `destroy`: the menu and, through the cascade, every menu below it disappear. */
    method Destroy(id: nat) returns (r: Result<string, Failure>)
      requires Valid()
      modifies this
      ensures Valid() && permissionNames == old(permissionNames) && nextId == old(nextId)
      ensures id !in Ids(old(rows)) ==> r == Err(NotFound) && rows == old(rows) && cached == old(cached)
      ensures id in Ids(old(rows)) ==>
        && r == Ok(Deleted) && !cached
        && rows == WithoutIds(old(rows), Cascade(old(rows), {id}))
    {
      if id !in Ids(rows) {
        return Err(NotFound);
      }
      CascadeKeepsParents(rows, id);
      WithoutIdsDistinct(rows, Cascade(rows, {id}));
      rows := WithoutIds(rows, Cascade(rows, {id}));
      ClearCache();
      r := Ok(Deleted);
    }

    /**
     * `reorder`: validate the whole list, then apply the entries one after
     * another, with no transaction. An entry without a `parent_id` key
     * passes validation but stops the loop when it is read: the entries
     * before it stay written and the cache is not cleared.
     */
    method Reorder(entries: seq<ReorderEntry>) returns (r: Result<string, Failure>)
      requires Valid()
      modifies this
      ensures Valid() && permissionNames == old(permissionNames) && nextId == old(nextId)
      ensures ValidateReorder(old(rows), entries).Some? ==>
        r == Err(ValidateReorder(old(rows), entries).value) && rows == old(rows) && cached == old(cached)
      ensures ValidateReorder(old(rows), entries).None? && MissingParentAt(entries) < |entries| ==>
        && r == Err(UndefinedKey("parent_id")) && cached == old(cached)
        && rows == ApplyReorder(old(rows), entries[..MissingParentAt(entries)])
      ensures r.Ok? <==> ValidateReorder(old(rows), entries).None? && MissingParentAt(entries) == |entries|
      ensures r.Ok? ==> r.value == Reordered && !cached && rows == ApplyReorder(old(rows), entries)
    {
      var failure := ValidateReorder(rows, entries);
      if failure.Some? {
        return Err(failure.value);
      }
      var written, stopped := WriteReorder(rows, entries);
      ReorderPrefixKeepsTable(rows, entries, nextId);
      rows := written;
      if stopped {
        return Err(UndefinedKey("parent_id"));
      }
      assert entries[..|entries|] == entries;
      ClearCache();
      r := Ok(Reordered);
    }
  }
}
