/** The RolesService class of src/modules/organizations/roles/roles.service.ts over
    in-memory tables. Every state-changing method is proved to follow the step function
    of RoleTables for the same call, and to keep the store's invariant; the read-only
    methods state their results directly. */
module RolesService {
  import opened Results
  import opened Sequences
  import Permissions
  import opened RoleTables

  /** One entry of the role listing: a role and the permission ids it holds. */
  datatype RoleView = RoleView(role: Role, permissionIds: seq<nat>)

  /** `metadata` of the listing: the number of roles returned and the search, echoed. */
  datatype Metadata<S> = Metadata(total: nat, params: S)

  datatype RoleList<S> = RoleList(roles: seq<RoleView>, metadata: Metadata<S>)

  /** The `forEach` loop that pushes one join row per resolved permission id. */
  method BuildJoinRows(roleId: nat, permissionIds: seq<nat>) returns (rows: seq<RolePermission>)
    ensures |rows| == |permissionIds|
    ensures forall k :: 0 <= k < |rows| ==> rows[k] == RolePermission(roleId, permissionIds[k])
  {
    rows := [];
    var i := 0;
    while i < |permissionIds|
      invariant 0 <= i <= |permissionIds|
      invariant |rows| == i
      invariant forall k :: 0 <= k < i ==> rows[k] == RolePermission(roleId, permissionIds[k])
    {
      rows := rows + [RolePermission(roleId, permissionIds[i])];
      i := i + 1;
    }
  }

  /** The filter the repository's organization listing applies; the search semantics of the
      repository are a parameter. */
  function InListing<S>(organizationId: nat, search: S, matches: (S, Role) -> bool): Role -> bool {
    (role: Role) => role.organizationId == organizationId && matches(search, role)
  }

  class RolesService {
    var roles: seq<Role>
    var rolePermissions: seq<RolePermission>
    var userOrganizationRoles: seq<UserOrganizationRole>
    var nextRoleId: nat
    /** The seeded `permissions` table, which the service only reads. */
    const catalog: seq<Permissions.Permission>

    function State(): Tables
      reads this
    {
      Tables(roles, rolePermissions, userOrganizationRoles, nextRoleId)
    }

    predicate Valid()
      reads this
    {
      RoleTables.Valid(State(), catalog)
    }

    constructor (catalog: seq<Permissions.Permission>, initial: Tables)
      requires RoleTables.Valid(initial, catalog)
      ensures Valid() && State() == initial && this.catalog == catalog
    {
      this.catalog := catalog;
      roles := initial.roles;
      rolePermissions := initial.rolePermissions;
      userOrganizationRoles := initial.userOrganizationRoles;
      nextRoleId := initial.nextRoleId;
    }

    /** `create(organizationId, request)`. */
    method Create(organizationId: nat, name: string, slug: string, configs: seq<Permissions.PermissionConfig>)
      returns (r: Result<Role>)
      requires Valid()
      modifies this
      ensures Valid()
      ensures Step(State(), r) == CreateStep(old(State()), catalog, organizationId, name, slug, configs)
    {
      if SlugTaken(roles, slug) {
        return Err(BadRequest);
      }
      var role := Role(nextRoleId, name, slug, organizationId);
      var ids := ResolvePermissionIds(catalog, configs);
      if ids.None? {
        return Err(UnresolvedPermission);
      }
      // The transaction: save the role, then its join rows.
      roles := roles + [role];
      nextRoleId := nextRoleId + 1;
      var rows := BuildJoinRows(role.id, ids.value);
      assert rows == JoinRows(role.id, ids.value);
      rolePermissions := rolePermissions + rows;
      CreatePreservesValid(old(State()), catalog, organizationId, name, slug, configs);
      r := Ok(role);
    }

    /** `findAll(organizationId, search)`: the organization's roles that the search selects,
        with their permissions, and metadata whose total is the number returned. */
    method FindAll<S>(organizationId: nat, search: S, matches: (S, Role) -> bool) returns (r: RoleList<S>)
      ensures r.metadata.total == |r.roles|
      ensures |r.roles| == |Filter(roles, InListing(organizationId, search, matches))|
      ensures forall k :: 0 <= k < |r.roles| ==> r.roles[k].role == Filter(roles, InListing(organizationId, search, matches))[k]
      ensures r.metadata.params == search
      ensures forall k :: 0 <= k < |r.roles| ==>
        r.roles[k].role in roles && r.roles[k].role.organizationId == organizationId
        && matches(search, r.roles[k].role)
      ensures forall k :: 0 <= k < |roles| && roles[k].organizationId == organizationId && matches(search, roles[k]) ==>
        exists j :: 0 <= j < |r.roles| && r.roles[j].role == roles[k]
      ensures forall k :: 0 <= k < |r.roles| ==>
        r.roles[k].permissionIds == PermissionIdsOf(rolePermissions, r.roles[k].role.id)
    {
      var found := Filter(roles, InListing(organizationId, search, matches));
      var rows := rolePermissions;
      var views := seq(|found|, k requires 0 <= k < |found| => RoleView(found[k], PermissionIdsOf(rows, found[k].id)));
      r := RoleList(views, Metadata(|views|, search));
      forall k | 0 <= k < |roles| && roles[k].organizationId == organizationId && matches(search, roles[k])
        ensures exists j :: 0 <= j < |r.roles| && r.roles[j].role == roles[k]
      {
        assert roles[k] in found;
        var j :| 0 <= j < |found| && found[j] == roles[k];
        assert r.roles[j].role == roles[k];
      }
    }

    /** `findOne(organizationId, roleId)`: the role with that id in that organization, or
        NotFound; a role with that id in another organization counts as absent. */
    method FindOne(organizationId: nat, roleId: nat) returns (r: Result<Role>)
      ensures r.Ok? <==> HasRoleIn(roles, organizationId, roleId)
      ensures r.Ok? ==> r.value in roles && r.value.id == roleId && r.value.organizationId == organizationId
      ensures r.Err? ==> r.error == NotFound
    {
      var found := FindRole(roles, organizationId, roleId);
      if found.None? {
        return Err(NotFound);
      }
      r := Ok(found.value);
    }

    /** `update(organizationId, roleId, req)`: the permission transaction commits before
        `role.save()` writes the patched role row. */
    method Update(organizationId: nat, roleId: nat, name: Option<string>, slug: Option<string>,
                  configs: Option<seq<Permissions.PermissionConfig>>)
      returns (r: Result<Role>)
      requires Valid()
      modifies this
      ensures Valid()
      ensures Step(State(), r) == UpdateStep(old(State()), catalog, organizationId, roleId, name, slug, configs)
    {
      var found := FindRole(roles, organizationId, roleId);
      if found.None? {
        return Err(NotFound);
      }
      var role := found.value;
      if Truthy(name) {
        role := role.(name := name.value);
      }
      if Truthy(slug) {
        role := role.(slug := slug.value);
      }
      if configs.Some? {
        var ids := ResolvePermissionIds(catalog, configs.value);
        if ids.None? {
          return Err(UnresolvedPermission);
        }
        // The transaction: delete the role's previous rows, then save the new ones.
        var rows := BuildJoinRows(role.id, ids.value);
        assert rows == JoinRows(role.id, ids.value);
        rolePermissions := Filter(rolePermissions, DropRole(roleId)) + rows;
      }
      // role.save()
      roles := ReplaceRole(roles, role);
      UpdatePreservesValid(old(State()), catalog, organizationId, roleId, name, slug, configs);
      r := Ok(role);
    }

    /** `delete(organizationId, roleId)`: one transaction over the three tables. */
    method Delete(organizationId: nat, roleId: nat) returns (r: Result<()>)
      requires Valid()
      modifies this
      ensures Valid()
      ensures Step(State(), r) == DeleteStep(old(State()), organizationId, roleId)
    {
      var found := FindRole(roles, organizationId, roleId);
      if found.None? {
        return Err(NotFound);
      }
      rolePermissions := Filter(rolePermissions, DropRole(roleId));
      userOrganizationRoles := Filter(userOrganizationRoles, DropMembership(organizationId, roleId));
      roles := Filter(roles, DropRoleRow(roleId));
      DeletePreservesValid(old(State()), catalog, organizationId, roleId);
      r := Ok(());
    }
  }
}
