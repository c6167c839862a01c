/**
 * Permission groups: named, ordered folders that permissions belong to.
 * A group can be created and edited freely, but only an empty group can
 * be deleted, so no permission is ever left pointing at a missing group.
 */
module PermissionGroups {
  import opened Wrappers
  import opened Collections

  /** A row of `permissions`, with the group it belongs to. */
  datatype Permission = Permission(id: nat, name: string, groupId: Option<nat>)

  /** A row of `permission_groups`. */
  datatype Group = Group(id: nat, name: string, description: Option<string>, order: int)

  datatype Failure = NotFound | HasPermissions

  /** The scope `inGroup`: the permissions of one group, in table order. */
  function InGroup(permissions: seq<Permission>, groupId: nat): (r: seq<Permission>)
    ensures IsSubseq(r, permissions)
    ensures forall p :: p in r <==> p in permissions && p.groupId == Some(groupId)
  {
    FilterIsSubseq(permissions, (p: Permission) => p.groupId == Some(groupId));
    Filter(permissions, (p: Permission) => p.groupId == Some(groupId))
  }

  /** A group may be deleted only when no permission belongs to it. */
  predicate CanDelete(permissions: seq<Permission>, groupId: nat) {
    |InGroup(permissions, groupId)| == 0
  }

  lemma CanDeleteIffUnused(permissions: seq<Permission>, groupId: nat)
    ensures CanDelete(permissions, groupId)
        <==> forall i :: 0 <= i < |permissions| ==> permissions[i].groupId != Some(groupId)
  {
    var g := InGroup(permissions, groupId);
    if !CanDelete(permissions, groupId) {
      assert g[0] in g;
      var i := IndexOf(permissions, g[0]);
    } else {
      forall i | 0 <= i < |permissions| ensures permissions[i].groupId != Some(groupId) {
        assert permissions[i] in permissions;
        assert permissions[i] !in g;
      }
    }
  }

  /** `store`: the order defaults to 0 when omitted. */
  function StoredGroup(id: nat, name: string, description: Option<string>, order: Option<int>): (g: Group)
    ensures g.id == id && g.name == name && g.description == description
    ensures order.Some? ==> g.order == order.value
    ensures order.None? ==> g.order == 0
  {
    Group(id, name, description, order.GetOr(0))
  }

  /**
   * `update`: name and description are always overwritten (a missing
   * description becomes null); the order is kept when omitted.
   */
  function UpdatedGroup(g: Group, name: string, description: Option<string>, order: Option<int>): (u: Group)
    ensures u.id == g.id && u.name == name && u.description == description
    ensures order.Some? ==> u.order == order.value
    ensures order.None? ==> u.order == g.order
  {
    g.(name := name, description := description, order := order.GetOr(g.order))
  }

  /** Updating without an order and with the same name and description changes nothing. */
  lemma UpdateWithSameValuesIsIdentity(g: Group)
    ensures UpdatedGroup(g, g.name, g.description, None) == g
  {
  }

  /** Every permission's group exists. */
  predicate GroupsExist(permissions: seq<Permission>, groups: map<nat, Group>) {
    forall i :: 0 <= i < |permissions| && permissions[i].groupId.Some? ==> permissions[i].groupId.value in groups
  }

  /** Deleting a group that may be deleted keeps every permission's group in place. */
  lemma DeleteKeepsGroupsExisting(permissions: seq<Permission>, groups: map<nat, Group>, groupId: nat)
    requires GroupsExist(permissions, groups)
    requires CanDelete(permissions, groupId)
    ensures GroupsExist(permissions, groups - {groupId})
  {
    CanDeleteIffUnused(permissions, groupId);
  }

  /** A group with a permission would leave that permission dangling if it were deleted. */
  lemma GuardIsNeeded(permissions: seq<Permission>, groups: map<nat, Group>, groupId: nat)
    requires !CanDelete(permissions, groupId)
    ensures !GroupsExist(permissions, groups - {groupId})
  {
    CanDeleteIffUnused(permissions, groupId);
    var i :| 0 <= i < |permissions| && permissions[i].groupId == Some(groupId);
  }

  /**
   * A table the constructor accepts in which `destroy` must refuse: group 1
   * holds the permission `users.index`.
   */
  lemma UsedGroupIsKept()
    ensures var groups := map[1 := Group(1, "Users", None, 0)];
            var permissions := [Permission(1, "users.index", Some(1))];
            && GroupsExist(permissions, groups)
            && !CanDelete(permissions, 1)
            && !GroupsExist(permissions, groups - {1})
  {
    var groups := map[1 := Group(1, "Users", None, 0)];
    var permissions := [Permission(1, "users.index", Some(1))];
    CanDeleteIffUnused(permissions, 1);
    GuardIsNeeded(permissions, groups, 1);
  }

  /** The permission groups table, with the permissions table it is checked against. */
  class GroupTable {
    var groups: map<nat, Group>
    var nextId: nat
    var permissions: seq<Permission>

    ghost predicate Valid()
      reads this
    {
      && (forall id :: id in groups ==> id < nextId && groups[id].id == id)
      && GroupsExist(permissions, groups)
    }

    /** Any table whose ids are below the next id and whose permissions name existing groups. */
    constructor(groups: map<nat, Group>, permissions: seq<Permission>, nextId: nat)
      requires forall id :: id in groups ==> id < nextId && groups[id].id == id
      requires GroupsExist(permissions, groups)
      ensures Valid()
      ensures this.groups == groups && this.permissions == permissions && this.nextId == nextId
    {
      this.groups := groups;
      this.permissions := permissions;
      this.nextId := nextId;
    }

    /** `store`: a new group with the next id. */
    method Store(name: string, description: Option<string>, order: Option<int>) returns (id: nat)
      requires Valid()
      modifies this
      ensures Valid() && permissions == old(permissions)
      ensures id == old(nextId) && id !in old(groups)
      ensures groups == old(groups)[id := StoredGroup(id, name, description, order)]
    {
      id := nextId;
      groups := groups[id := StoredGroup(id, name, description, order)];
      nextId := nextId + 1;
    }

    /** `update`: an unknown group is not found; otherwise the group is edited in place. */
    method Update(id: nat, name: string, description: Option<string>, order: Option<int>) returns (r: Result<(), Failure>)
      requires Valid()
      modifies this
      ensures Valid() && permissions == old(permissions) && nextId == old(nextId)
      ensures id !in old(groups) ==> r == Err(NotFound) && groups == old(groups)
      ensures id in old(groups) ==> r.Ok? && groups == old(groups)[id := UpdatedGroup(old(groups)[id], name, description, order)]
    {
      if id !in groups {
        return Err(NotFound);
      }
      groups := groups[id := UpdatedGroup(groups[id], name, description, order)];
      r := Ok(());
    }

    /** `destroy`: refused while the group still has permissions. */
    method Destroy(id: nat) returns (r: Result<(), Failure>)
      requires Valid()
      modifies this
      ensures Valid() && permissions == old(permissions) && nextId == old(nextId)
      ensures id !in old(groups) ==> r == Err(NotFound)
      ensures id in old(groups) && !CanDelete(permissions, id) ==> r == Err(HasPermissions)
      ensures r.Err? ==> groups == old(groups)
      ensures r.Ok? <==> id in old(groups) && CanDelete(permissions, id)
      ensures r.Ok? ==> groups == old(groups) - {id}
    {
      if id !in groups {
        return Err(NotFound);
      }
      if !CanDelete(permissions, id) {
        return Err(HasPermissions);
      }
      DeleteKeepsGroupsExisting(permissions, groups, id);
      groups := groups - {id};
      r := Ok(());
    }
  }
}
