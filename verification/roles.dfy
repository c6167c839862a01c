/**
 * Roles and their permissions. The `super-admin` role is protected: its
 * name cannot be changed and it cannot be deleted, so once it exists it
 * stays. Permissions are given to a role by id and stored by name.
 */
module Roles {
  import opened Wrappers
  import PermissionGroups

  type Permission = PermissionGroups.Permission

  const SuperAdmin: string := "super-admin"

  /** A row of `roles` with the names of the permissions it holds. */
  datatype Role = Role(id: nat, name: string, guardName: string, permissions: set<string>)

  datatype Failure = NotFound | CannotRenameSuperAdmin | CannotDeleteSuperAdmin

  /** `isSuperAdmin`. */
  predicate IsSuperAdmin(role: Role) {
    role.name == SuperAdmin
  }

  /**
   * `Permission::whereIn('id', $ids)->pluck('name')`: the names of the
   * permissions whose id is listed; unknown ids contribute nothing.
   */
  function NamesOf(permissions: seq<Permission>, ids: seq<nat>): (names: set<string>)
    ensures forall n :: n in names <==> exists i :: 0 <= i < |permissions| && permissions[i].id in ids && permissions[i].name == n
  {
    set i | 0 <= i < |permissions| && permissions[i].id in ids :: permissions[i].name
  }

  /** Listing more ids never grants fewer permissions. */
  lemma NamesOfMonotone(permissions: seq<Permission>, ids: seq<nat>, more: seq<nat>)
    requires forall j :: 0 <= j < |ids| ==> ids[j] in more
    ensures NamesOf(permissions, ids) <= NamesOf(permissions, more)
  {
    forall n | n in NamesOf(permissions, ids) ensures n in NamesOf(permissions, more) {
      var i :| 0 <= i < |permissions| && permissions[i].id in ids && permissions[i].name == n;
      var j :| 0 <= j < |ids| && ids[j] == permissions[i].id;
    }
  }

  /**
   * `store`: guard `web`; the permissions are synced only when the list
   * is given and not empty, otherwise the role starts with none.
   */
  function NewRole(id: nat, name: string, permissionIds: Option<seq<nat>>, permissions: seq<Permission>): (r: Role)
    ensures r.id == id && r.name == name && r.guardName == "web"
    ensures permissionIds.None? || permissionIds.value == [] ==> r.permissions == {}
    ensures permissionIds.Some? && permissionIds.value != [] ==> r.permissions == NamesOf(permissions, permissionIds.value)
  {
    var held := if permissionIds.Some? && permissionIds.value != [] then NamesOf(permissions, permissionIds.value) else {};
    Role(id, name, "web", held)
  }

  /** Syncing an empty list would also give no permissions: skipping it changes nothing. */
  lemma EmptySyncIsNoSync(permissions: seq<Permission>)
    ensures NamesOf(permissions, []) == {}
  {
  }

  /**
   * `update`: renaming `super-admin` to anything else is refused and
   * changes nothing; otherwise the name is set (to any name, `super-admin`
   * included), and the permissions are replaced only when the request
   * carries a `permissions` key.
   */
  function UpdatedRole(role: Role, name: string, permissionIds: Option<seq<nat>>, permissions: seq<Permission>): (r: Result<Role, Failure>)
    ensures IsSuperAdmin(role) && name != SuperAdmin <==> r == Err(CannotRenameSuperAdmin)
    ensures r.Ok? ==> r.value.id == role.id && r.value.name == name && r.value.guardName == role.guardName
    ensures r.Ok? && permissionIds.None? ==> r.value.permissions == role.permissions
    ensures r.Ok? && permissionIds.Some? ==> r.value.permissions == NamesOf(permissions, permissionIds.value)
  {
    if role.name == SuperAdmin && name != SuperAdmin then Err(CannotRenameSuperAdmin)
    else
      var held := if permissionIds.Some? then NamesOf(permissions, permissionIds.value) else role.permissions;
      Ok(role.(name := name, permissions := held))
  }

  /** The guard looks only at the current name: any other role may take the protected name. */
  lemma RenameToSuperAdminAllowed(role: Role, permissions: seq<Permission>)
    requires !IsSuperAdmin(role)
    ensures UpdatedRole(role, SuperAdmin, None, permissions).Ok?
    ensures IsSuperAdmin(UpdatedRole(role, SuperAdmin, None, permissions).value)
  {
  }

  /** An update of the protected role keeps it the protected role. */
  lemma SuperAdminStaysSuperAdmin(role: Role, name: string, permissionIds: Option<seq<nat>>, permissions: seq<Permission>)
    requires IsSuperAdmin(role)
    ensures var r := UpdatedRole(role, name, permissionIds, permissions);
            r.Err? || IsSuperAdmin(r.value)
  {
  }

  /** `destroy` allows exactly the roles other than `super-admin`. */
  predicate CanDeleteRole(role: Role) {
    !IsSuperAdmin(role)
  }

  /** Some role of the table is the protected role. */
  predicate HasSuperAdmin(roles: map<nat, Role>) {
    exists id :: id in roles && IsSuperAdmin(roles[id])
  }

  /** An update the guard lets through never removes the protected role from the table. */
  lemma UpdateKeepsSuperAdmin(roles: map<nat, Role>, id: nat, name: string, permissionIds: Option<seq<nat>>, permissions: seq<Permission>)
    requires HasSuperAdmin(roles) && id in roles
    requires UpdatedRole(roles[id], name, permissionIds, permissions).Ok?
    ensures HasSuperAdmin(roles[id := UpdatedRole(roles[id], name, permissionIds, permissions).value])
  {
    var after := roles[id := UpdatedRole(roles[id], name, permissionIds, permissions).value];
    var s: nat :| s in roles && IsSuperAdmin(roles[s]);
    if s == id {
      SuperAdminStaysSuperAdmin(roles[id], name, permissionIds, permissions);
    }
    assert s in after && IsSuperAdmin(after[s]);
  }

  /** Deleting a role the guard allows never removes the protected role from the table. */
  lemma DeleteKeepsSuperAdmin(roles: map<nat, Role>, id: nat)
    requires HasSuperAdmin(roles) && id in roles && CanDeleteRole(roles[id])
    ensures HasSuperAdmin(roles - {id})
  {
    var s: nat :| s in roles && IsSuperAdmin(roles[s]);
    assert s != id;
    assert s in roles - {id};
  }

  class RoleTable {
    var roles: map<nat, Role>
    var nextId: nat
    var permissions: seq<Permission>

    ghost predicate Valid()
      reads this
    {
      forall id :: id in roles ==> id < nextId && roles[id].id == id
    }

    constructor(permissions: seq<Permission>)
      ensures Valid() && roles == map[] && this.permissions == permissions
    {
      roles := map[];
      nextId := 1;
      this.permissions := permissions;
    }

    method Store(name: string, permissionIds: Option<seq<nat>>) returns (id: nat)
      requires Valid()
      modifies this
      ensures Valid() && permissions == old(permissions)
      ensures id == old(nextId) && id !in old(roles)
      ensures roles == old(roles)[id := NewRole(id, name, permissionIds, permissions)]
      ensures HasSuperAdmin(old(roles)) ==> HasSuperAdmin(roles)
    {
      id := nextId;
      var before := roles;
      roles := roles[id := NewRole(id, name, permissionIds, permissions)];
      nextId := nextId + 1;
      if HasSuperAdmin(before) {
        var s: nat :| s in before && IsSuperAdmin(before[s]);
        assert s in roles && IsSuperAdmin(roles[s]);
      }
    }

    method Update(id: nat, name: string, permissionIds: Option<seq<nat>>) returns (r: Result<(), Failure>)
      requires Valid()
      modifies this
      ensures Valid() && permissions == old(permissions) && nextId == old(nextId)
      ensures id !in old(roles) ==> r == Err(NotFound) && roles == old(roles)
      ensures id in old(roles) ==> match UpdatedRole(old(roles)[id], name, permissionIds, permissions)
                                   case Err(e) => r == Err(e) && roles == old(roles)
                                   case Ok(role) => r.Ok? && roles == old(roles)[id := role]
      ensures HasSuperAdmin(old(roles)) ==> HasSuperAdmin(roles)
    {
      if id !in roles {
        return Err(NotFound);
      }
      var before := roles;
      match UpdatedRole(roles[id], name, permissionIds, permissions)
      case Err(e) =>
        r := Err(e);
      case Ok(role) =>
        if HasSuperAdmin(before) {
          UpdateKeepsSuperAdmin(before, id, name, permissionIds, permissions);
        }
        roles := roles[id := role];
        r := Ok(());
    }

    method Destroy(id: nat) returns (r: Result<(), Failure>)
      requires Valid()
      modifies this
      ensures Valid() && permissions == old(permissions) && nextId == old(nextId)
      ensures id !in old(roles) ==> r == Err(NotFound)
      ensures id in old(roles) && !CanDeleteRole(old(roles)[id]) ==> r == Err(CannotDeleteSuperAdmin)
      ensures r.Err? ==> roles == old(roles)
      ensures r.Ok? <==> id in old(roles) && CanDeleteRole(old(roles)[id])
      ensures r.Ok? ==> roles == old(roles) - {id}
      ensures HasSuperAdmin(old(roles)) ==> HasSuperAdmin(roles)
    {
      if id !in roles {
        return Err(NotFound);
      }
      if !CanDeleteRole(roles[id]) {
        return Err(CannotDeleteSuperAdmin);
      }
      if HasSuperAdmin(roles) {
        DeleteKeepsSuperAdmin(roles, id);
      }
      roles := roles - {id};
      r := Ok(());
    }
  }
}
