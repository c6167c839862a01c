/**
 * The browser's permission helpers (`usePermission`): checks against the
 * permission and role names shared with every page, with the super-admin
 * bypass for permissions only.
 */
module PermissionChecks {

  /** The `auth` part of the shared page data. */
  datatype Auth = Auth(permissions: seq<string>, roles: seq<string>, isSuperAdmin: bool)

  /** `list.some(x => held.includes(x))`. */
  function SomeIn(list: seq<string>, held: seq<string>): (b: bool)
    ensures b <==> exists i :: 0 <= i < |list| && list[i] in held
    decreases |list|
  {
    if list == [] then false
    else list[0] in held || SomeIn(list[1..], held)
  }

  /** `list.every(x => held.includes(x))`. */
  function EveryIn(list: seq<string>, held: seq<string>): (b: bool)
    ensures b <==> forall i :: 0 <= i < |list| ==> list[i] in held
    decreases |list|
  {
    if list == [] then true
    else list[0] in held && EveryIn(list[1..], held)
  }

  /** `can`: a super-admin can do anything; anyone else needs the permission in the list. */
  function Can(auth: Auth, permission: string): (b: bool)
    ensures auth.isSuperAdmin ==> b
    ensures !auth.isSuperAdmin ==> (b <==> permission in auth.permissions)
  {
    auth.isSuperAdmin || permission in auth.permissions
  }

  /** `canAny`: a super-admin passes; anyone else needs one of the listed permissions. */
  function CanAny(auth: Auth, list: seq<string>): (b: bool)
    ensures b <==> auth.isSuperAdmin || exists i :: 0 <= i < |list| && Can(auth, list[i])
  {
    auth.isSuperAdmin || SomeIn(list, auth.permissions)
  }

  /** `canAll`: a super-admin passes; anyone else needs every listed permission. */
  function CanAll(auth: Auth, list: seq<string>): (b: bool)
    ensures b <==> auth.isSuperAdmin || forall i :: 0 <= i < |list| ==> Can(auth, list[i])
  {
    auth.isSuperAdmin || EveryIn(list, auth.permissions)
  }

  /** `hasRole`: membership in the role list, with no super-admin bypass. */
  function HasRole(auth: Auth, role: string): (b: bool)
    ensures b <==> exists i :: 0 <= i < |auth.roles| && auth.roles[i] == role
  {
    role in auth.roles
  }

  /** `hasAnyRole`: some listed role is held, with no super-admin bypass. */
  function HasAnyRole(auth: Auth, list: seq<string>): (b: bool)
    ensures b <==> exists i :: 0 <= i < |list| && HasRole(auth, list[i])
  {
    SomeIn(list, auth.roles)
  }

  /** For a single permission the three checks agree. */
  lemma SingleCheckAgrees(auth: Auth, p: string)
    ensures Can(auth, p) == CanAny(auth, [p]) == CanAll(auth, [p])
  {
    assert [p][0] == p;
  }

  /** For anyone but a super-admin, no permission is "any of none", and every permission is "all of none". */
  lemma EmptyLists(auth: Auth)
    requires !auth.isSuperAdmin
    ensures !CanAny(auth, []) && CanAll(auth, [])
  {
  }

  /** `canAll` implies `canAny` on a non-empty list. */
  lemma AllImpliesAny(auth: Auth, list: seq<string>)
    requires |list| > 0 && CanAll(auth, list)
    ensures CanAny(auth, list)
  {
    assert Can(auth, list[0]);
  }

  /** Being a super-admin does not grant roles: `hasRole` looks only at the role list. */
  lemma RolesHaveNoBypass(auth: Auth, role: string)
    requires auth.isSuperAdmin && role !in auth.roles
    ensures !HasRole(auth, role) && !HasAnyRole(auth, [role])
  {
    assert [role][0] == role;
  }
}
