/** The organization-scoped role store of src/modules/organizations/roles/roles.service.ts,
    stated on values: the three tables the service writes, and one step function per
    service operation giving the tables after the call together with its result. Each
    TypeORM transaction is one step here. The class RolesService.RolesService is proved
    to follow these step functions, and the lemmas below state what they promise. */
module RoleTables {
  import opened Results
  import opened Sequences
  import Permissions

  /** A row of `roles`. */
  datatype Role = Role(id: nat, name: string, slug: string, organizationId: nat)

  /** A row of `role_permissions`: the join between a role and a catalog permission. */
  datatype RolePermission = RolePermission(roleId: nat, permissionId: nat)

  /** A row of `user_organization_roles`: a user's membership of an organization with a role. */
  datatype UserOrganizationRole = UserOrganizationRole(userId: nat, organizationId: nat, roleId: nat)

  /** The role store; `nextRoleId` is the id the database assigns to the next saved role. */
  datatype Tables = Tables(
    roles: seq<Role>,
    rolePermissions: seq<RolePermission>,
    userOrganizationRoles: seq<UserOrganizationRole>,
    nextRoleId: nat)

  /** The tables after an operation, and what the operation returned or threw. */
  datatype Step<+T> = Step(after: Tables, result: Result<T>)

  // ---------------------------------------------------------------- queries

  predicate HasRole(roles: seq<Role>, roleId: nat) {
    exists k :: 0 <= k < |roles| && roles[k].id == roleId
  }

  predicate HasRoleIn(roles: seq<Role>, organizationId: nat, roleId: nat) {
    exists k :: 0 <= k < |roles| && roles[k].id == roleId && roles[k].organizationId == organizationId
  }

  /** `findBySlug`: some role, in any organization, already has the slug. */
  predicate SlugTaken(roles: seq<Role>, slug: string) {
    exists k :: 0 <= k < |roles| && roles[k].slug == slug
  }

  /** `findOne({ where: { id, organizationId } })`: the role with that id inside that organization. */
  function FindRole(roles: seq<Role>, organizationId: nat, roleId: nat): (r: Option<Role>)
    ensures r.Some? ==> r.value in roles && r.value.id == roleId && r.value.organizationId == organizationId
    ensures r.None? <==> !HasRoleIn(roles, organizationId, roleId)
  {
    if roles == [] then None
    else if roles[0].id == roleId && roles[0].organizationId == organizationId then Some(roles[0])
    else
      var r := FindRole(roles[1..], organizationId, roleId);
      assert r.None? ==> forall k :: 1 <= k < |roles| ==> roles[1..][k - 1] == roles[k];
      r
  }

  /** The permission ids the configs resolve to, in order; None as soon as one does not resolve. */
  function ResolvePermissionIds(catalog: seq<Permissions.Permission>, configs: seq<Permissions.PermissionConfig>)
    : (r: Option<seq<nat>>)
    ensures r.Some? <==>
      forall k :: 0 <= k < |configs| ==> Permissions.FindByPermissionConfig(catalog, configs[k]).Some?
    ensures r.Some? ==> |r.value| == |configs|
    ensures r.Some? ==> forall k :: 0 <= k < |configs| ==>
      r.value[k] == Permissions.FindByPermissionConfig(catalog, configs[k]).value.id
  {
    if configs == [] then Some([])
    else
      match Permissions.FindByPermissionConfig(catalog, configs[0])
      case None => None
      case Some(p) =>
        match ResolvePermissionIds(catalog, configs[1..])
        case None =>
          assert !Permissions.FindByPermissionConfig(catalog, configs[1 + Unresolved(catalog, configs[1..])]).Some?;
          None
        case Some(rest) =>
          assert forall k :: 1 <= k < |configs| ==> configs[1..][k - 1] == configs[k];
          Some([p.id] + rest)
  }

  /** The position of a config that does not resolve. */
  function Unresolved(catalog: seq<Permissions.Permission>, configs: seq<Permissions.PermissionConfig>): (k: nat)
    requires exists k :: 0 <= k < |configs| && !Permissions.FindByPermissionConfig(catalog, configs[k]).Some?
    ensures k < |configs| && !Permissions.FindByPermissionConfig(catalog, configs[k]).Some?
  {
    if !Permissions.FindByPermissionConfig(catalog, configs[0]).Some? then 0
    else
      assert forall k :: 1 <= k < |configs| ==> configs[1..][k - 1] == configs[k];
      1 + Unresolved(catalog, configs[1..])
  }

  /** The join rows the `forEach` loop builds: one per permission id, in order. */
  function JoinRows(roleId: nat, permissionIds: seq<nat>): seq<RolePermission> {
    seq(|permissionIds|, k requires 0 <= k < |permissionIds| => RolePermission(roleId, permissionIds[k]))
  }

  function KeepRole(roleId: nat): RolePermission -> bool {
    (row: RolePermission) => row.roleId == roleId
  }

  function DropRole(roleId: nat): RolePermission -> bool {
    (row: RolePermission) => row.roleId != roleId
  }

  function DropRoleRow(roleId: nat): Role -> bool {
    (role: Role) => role.id != roleId
  }

  function DropMembership(organizationId: nat, roleId: nat): UserOrganizationRole -> bool {
    (m: UserOrganizationRole) => !(m.organizationId == organizationId && m.roleId == roleId)
  }

  /** The join rows of one role, in table order. */
  function RowsOf(rows: seq<RolePermission>, roleId: nat): seq<RolePermission> {
    Filter(rows, KeepRole(roleId))
  }

  /** The permission ids a role holds, as the listing reads them from the join table. */
  function PermissionIdsOf(rows: seq<RolePermission>, roleId: nat): seq<nat> {
    var own := RowsOf(rows, roleId);
    seq(|own|, k requires 0 <= k < |own| => own[k].permissionId)
  }

  /** `role.save()` on an existing row: the row with the same id is overwritten. */
  function ReplaceRole(roles: seq<Role>, patched: Role): seq<Role> {
    seq(|roles|, k requires 0 <= k < |roles| => if roles[k].id == patched.id then patched else roles[k])
  }

  // ---------------------------------------------------------------- invariant

  /** Role ids are distinct and below the id the database hands out next. */
  predicate RoleIdsValid(roles: seq<Role>, nextRoleId: nat) {
    && (forall k :: 0 <= k < |roles| ==> roles[k].id < nextRoleId)
    && (forall i, j :: 0 <= i < j < |roles| ==> roles[i].id != roles[j].id)
  }

  /** Every join row points at an existing role and an existing catalog permission. */
  predicate JoinRowsValid(rows: seq<RolePermission>, roles: seq<Role>, catalog: seq<Permissions.Permission>) {
    forall k :: 0 <= k < |rows| ==>
      HasRole(roles, rows[k].roleId) && Permissions.InCatalog(catalog, rows[k].permissionId)
  }

  /** Every membership points at a role of the same organization. */
  predicate MembershipsValid(memberships: seq<UserOrganizationRole>, roles: seq<Role>) {
    forall k :: 0 <= k < |memberships| ==>
      HasRoleIn(roles, memberships[k].organizationId, memberships[k].roleId)
  }

  /** The referential integrity the role store keeps. */
  predicate Valid(t: Tables, catalog: seq<Permissions.Permission>) {
    && RoleIdsValid(t.roles, t.nextRoleId)
    && JoinRowsValid(t.rolePermissions, t.roles, catalog)
    && MembershipsValid(t.userOrganizationRoles, t.roles)
  }

  // ---------------------------------------------------------------- operations

  /** `create`: the global slug check, then every lookup, then one transaction that saves
      the role and one join row per config. */
  function CreateStep(t: Tables, catalog: seq<Permissions.Permission>, organizationId: nat,
                      name: string, slug: string, configs: seq<Permissions.PermissionConfig>): Step<Role>
  {
    if SlugTaken(t.roles, slug) then Step(t, Err(BadRequest))
    else
      match ResolvePermissionIds(catalog, configs)
      case None => Step(t, Err(UnresolvedPermission))
      case Some(ids) =>
        var role := Role(t.nextRoleId, name, slug, organizationId);
        Step(Tables(t.roles + [role], t.rolePermissions + JoinRows(role.id, ids),
                    t.userOrganizationRoles, t.nextRoleId + 1),
             Ok(role))
  }

  /** `update`: scoped lookup, field patches, then (when configs are given) the lookups and
      the delete-all-then-insert transaction, and after it `role.save()`. */
  function UpdateStep(t: Tables, catalog: seq<Permissions.Permission>, organizationId: nat, roleId: nat,
                      name: Option<string>, slug: Option<string>,
                      configs: Option<seq<Permissions.PermissionConfig>>): Step<Role>
  {
    match FindRole(t.roles, organizationId, roleId)
    case None => Step(t, Err(NotFound))
    case Some(role) =>
      var patched := role.(name := if Truthy(name) then name.value else role.name,
                           slug := if Truthy(slug) then slug.value else role.slug);
      match configs
      case None => Step(t.(roles := ReplaceRole(t.roles, patched)), Ok(patched))
      case Some(cs) =>
        match ResolvePermissionIds(catalog, cs)
        case None => Step(t, Err(UnresolvedPermission))
        case Some(ids) =>
          var committed := t.(rolePermissions := Filter(t.rolePermissions, DropRole(roleId)) + JoinRows(role.id, ids));
          Step(committed.(roles := ReplaceRole(committed.roles, patched)), Ok(patched))
  }

  /** `delete`: scoped lookup, then one transaction deleting the role's join rows, the
      memberships with that (organizationId, roleId), and the role row. */
  function DeleteStep(t: Tables, organizationId: nat, roleId: nat): Step<()> {
    match FindRole(t.roles, organizationId, roleId)
    case None => Step(t, Err(NotFound))
    case Some(_) =>
      Step(Tables(Filter(t.roles, DropRoleRow(roleId)),
                  Filter(t.rolePermissions, DropRole(roleId)),
                  Filter(t.userOrganizationRoles, DropMembership(organizationId, roleId)),
                  t.nextRoleId),
           Ok(()))
  }

  // ---------------------------------------------------------------- join-row lemmas

  /** The rows built for one role are all that role's rows and nobody else's. */
  lemma RowsOfJoin(roleId: nat, ids: seq<nat>)
    ensures RowsOf(JoinRows(roleId, ids), roleId) == JoinRows(roleId, ids)
    ensures PermissionIdsOf(JoinRows(roleId, ids), roleId) == ids
    ensures forall other :: other != roleId ==> RowsOf(JoinRows(roleId, ids), other) == []
  {
    FilterKeepsAll(JoinRows(roleId, ids), KeepRole(roleId));
    forall other | other != roleId
      ensures RowsOf(JoinRows(roleId, ids), other) == []
    {
      FilterKeepsNone(JoinRows(roleId, ids), KeepRole(other));
    }
  }

  /** Dropping a role's rows leaves no row of it and every other role's rows as they were. */
  lemma RowsAfterDrop(rows: seq<RolePermission>, roleId: nat)
    ensures RowsOf(Filter(rows, DropRole(roleId)), roleId) == []
    ensures forall other :: other != roleId ==>
      RowsOf(Filter(rows, DropRole(roleId)), other) == RowsOf(rows, other)
  {
    FilterKeepsNone(Filter(rows, DropRole(roleId)), KeepRole(roleId));
    forall other | other != roleId
      ensures RowsOf(Filter(rows, DropRole(roleId)), other) == RowsOf(rows, other)
    {
      FilterFilter(rows, DropRole(roleId), KeepRole(other), KeepRole(other));
    }
  }

  /** A role id that no row mentions has no rows. */
  lemma RowsOfUnused(rows: seq<RolePermission>, roleId: nat)
    requires forall k :: 0 <= k < |rows| ==> rows[k].roleId != roleId
    ensures RowsOf(rows, roleId) == []
  {
    FilterKeepsNone(rows, KeepRole(roleId));
  }

  /** Delete-all-then-insert: the role's rows become exactly the new ones; other roles' rows stay. */
  lemma RowsAfterReplace(rows: seq<RolePermission>, roleId: nat, ids: seq<nat>)
    ensures RowsOf(Filter(rows, DropRole(roleId)) + JoinRows(roleId, ids), roleId) == JoinRows(roleId, ids)
    ensures forall other :: other != roleId ==>
      RowsOf(Filter(rows, DropRole(roleId)) + JoinRows(roleId, ids), other) == RowsOf(rows, other)
  {
    var kept := Filter(rows, DropRole(roleId));
    RowsAfterDrop(rows, roleId);
    RowsOfJoin(roleId, ids);
    FilterAppend(kept, JoinRows(roleId, ids), KeepRole(roleId));
    forall other | other != roleId
      ensures RowsOf(kept + JoinRows(roleId, ids), other) == RowsOf(rows, other)
    {
      FilterAppend(kept, JoinRows(roleId, ids), KeepRole(other));
      assert RowsOf(JoinRows(roleId, ids), other) == [];
      assert RowsOf(kept, other) == RowsOf(rows, other);
    }
  }

  lemma PermissionIdsOfJoin(rows: seq<RolePermission>, roleId: nat, ids: seq<nat>)
    requires RowsOf(rows, roleId) == JoinRows(roleId, ids)
    ensures PermissionIdsOf(rows, roleId) == ids
  {
  }

  // ---------------------------------------------------------------- create

  /** A slug held by any role of any organization makes `create` throw BadRequest and
      leaves every table as it was: the check is global, not per organization. */
  lemma CreateRejectsTakenSlug(t: Tables, catalog: seq<Permissions.Permission>, organizationId: nat,
                               name: string, slug: string, configs: seq<Permissions.PermissionConfig>, k: nat)
    requires k < |t.roles| && t.roles[k].slug == slug
    ensures CreateStep(t, catalog, organizationId, name, slug, configs) == Step(t, Err(BadRequest))
  {
  }

  /** One config the catalog does not hold makes `create` fail before its transaction:
      no role and no join row is written. */
  lemma CreateRejectsUnresolved(t: Tables, catalog: seq<Permissions.Permission>, organizationId: nat,
                                name: string, slug: string, configs: seq<Permissions.PermissionConfig>, k: nat)
    requires !SlugTaken(t.roles, slug)
    requires k < |configs| && Permissions.FindByPermissionConfig(catalog, configs[k]).None?
    ensures CreateStep(t, catalog, organizationId, name, slug, configs) == Step(t, Err(UnresolvedPermission))
  {
  }

  /** `create` succeeds exactly when the slug is free everywhere and every config resolves. */
  lemma CreateSucceedsIff(t: Tables, catalog: seq<Permissions.Permission>, organizationId: nat,
                          name: string, slug: string, configs: seq<Permissions.PermissionConfig>)
    ensures CreateStep(t, catalog, organizationId, name, slug, configs).result.Ok? <==>
      !SlugTaken(t.roles, slug) &&
      forall k :: 0 <= k < |configs| ==> Permissions.FindByPermissionConfig(catalog, configs[k]).Some?
  {
  }

  /** A successful `create` adds one role with the given fields and the next id, and exactly
      one join row per config, in order, pointing at that role and the k-th resolved permission;
      earlier rows and the memberships stay as they were. */
  lemma CreateWrites(t: Tables, catalog: seq<Permissions.Permission>, organizationId: nat,
                     name: string, slug: string, configs: seq<Permissions.PermissionConfig>)
    requires CreateStep(t, catalog, organizationId, name, slug, configs).result.Ok?
    ensures var s := CreateStep(t, catalog, organizationId, name, slug, configs);
      && s.result.value == Role(t.nextRoleId, name, slug, organizationId)
      && s.after.roles == t.roles + [s.result.value]
      && s.after.userOrganizationRoles == t.userOrganizationRoles
      && |s.after.rolePermissions| == |t.rolePermissions| + |configs|
      && s.after.rolePermissions[..|t.rolePermissions|] == t.rolePermissions
      && (forall k :: 0 <= k < |configs| ==>
            s.after.rolePermissions[|t.rolePermissions| + k] ==
            RolePermission(s.result.value.id, Permissions.FindByPermissionConfig(catalog, configs[k]).value.id))
  {
  }

  /** Under the invariant the new role's id is fresh, so the role ends up holding exactly the
      resolved permissions, in config order. */
  lemma CreateGrantsResolved(t: Tables, catalog: seq<Permissions.Permission>, organizationId: nat,
                             name: string, slug: string, configs: seq<Permissions.PermissionConfig>)
    requires Valid(t, catalog)
    requires CreateStep(t, catalog, organizationId, name, slug, configs).result.Ok?
    ensures var s := CreateStep(t, catalog, organizationId, name, slug, configs);
      && !HasRole(t.roles, s.result.value.id)
      && PermissionIdsOf(s.after.rolePermissions, s.result.value.id) == ResolvePermissionIds(catalog, configs).value
  {
    var s := CreateStep(t, catalog, organizationId, name, slug, configs);
    var ids := ResolvePermissionIds(catalog, configs).value;
    var id := t.nextRoleId;
    assert s.result.value.id == id;
    assert s.after.rolePermissions == t.rolePermissions + JoinRows(id, ids);
    NextRoleIdUnused(t.rolePermissions, t.roles, t.nextRoleId, catalog);
    FreshRoleGetsJoin(t.rolePermissions, id, ids);
  }

  /** Rows appended for a role no earlier row mentions are exactly that role's rows. */
  lemma FreshRoleGetsJoin(rows: seq<RolePermission>, roleId: nat, ids: seq<nat>)
    requires forall k :: 0 <= k < |rows| ==> rows[k].roleId != roleId
    ensures PermissionIdsOf(rows + JoinRows(roleId, ids), roleId) == ids
  {
    RowsOfUnused(rows, roleId);
    FilterAppend(rows, JoinRows(roleId, ids), KeepRole(roleId));
    RowsOfJoin(roleId, ids);
    PermissionIdsOfJoin(rows + JoinRows(roleId, ids), roleId, ids);
  }

  /** No join row names the id the database hands out next. */
  lemma NextRoleIdUnused(rows: seq<RolePermission>, roles: seq<Role>, nextRoleId: nat,
                         catalog: seq<Permissions.Permission>)
    requires RoleIdsValid(roles, nextRoleId) && JoinRowsValid(rows, roles, catalog)
    ensures forall k :: 0 <= k < |rows| ==> rows[k].roleId != nextRoleId
  {
    forall k | 0 <= k < |rows| ensures rows[k].roleId != nextRoleId {
      assert HasRole(roles, rows[k].roleId);
      var j :| 0 <= j < |roles| && roles[j].id == rows[k].roleId;
    }
  }

  /** Nothing dedupes the configs: a config given twice yields two identical join rows, so
      one catalog permission is referenced by several rows. */
  lemma CreateKeepsDuplicateConfigs(t: Tables, catalog: seq<Permissions.Permission>, organizationId: nat,
                                    name: string, slug: string, config: Permissions.PermissionConfig)
    requires Valid(t, catalog)
    requires CreateStep(t, catalog, organizationId, name, slug, [config, config]).result.Ok?
    ensures var s := CreateStep(t, catalog, organizationId, name, slug, [config, config]);
      var n := |t.rolePermissions|;
      |s.after.rolePermissions| == n + 2 &&
      s.after.rolePermissions[n] == s.after.rolePermissions[n + 1] &&
      s.after.rolePermissions[n].roleId == s.result.value.id
  {
  }

  /** After a successful `create`, `findOne` in that organization finds the new role. */
  lemma CreateThenFindOne(t: Tables, catalog: seq<Permissions.Permission>, organizationId: nat,
                          name: string, slug: string, configs: seq<Permissions.PermissionConfig>)
    requires Valid(t, catalog)
    requires CreateStep(t, catalog, organizationId, name, slug, configs).result.Ok?
    ensures var s := CreateStep(t, catalog, organizationId, name, slug, configs);
      FindRole(s.after.roles, organizationId, s.result.value.id) == Some(s.result.value)
  {
    CreateWrites(t, catalog, organizationId, name, slug, configs);
    var s := CreateStep(t, catalog, organizationId, name, slug, configs);
    var r := FindRole(s.after.roles, organizationId, s.result.value.id);
    assert s.after.roles[|t.roles|] == s.result.value;
    var k :| 0 <= k < |s.after.roles| && s.after.roles[k] == r.value;
    assert k == |t.roles|;
  }

  lemma CreatePreservesValid(t: Tables, catalog: seq<Permissions.Permission>, organizationId: nat,
                             name: string, slug: string, configs: seq<Permissions.PermissionConfig>)
    requires Valid(t, catalog)
    ensures Valid(CreateStep(t, catalog, organizationId, name, slug, configs).after, catalog)
  {
    var s := CreateStep(t, catalog, organizationId, name, slug, configs);
    if s.result.Ok? {
      var ids := ResolvePermissionIds(catalog, configs).value;
      var role := Role(t.nextRoleId, name, slug, organizationId);
      assert s.after == Tables(t.roles + [role], t.rolePermissions + JoinRows(role.id, ids),
                               t.userOrganizationRoles, t.nextRoleId + 1);
      ResolvedInCatalog(catalog, configs);
      AppendKeepsRoleIds(t.roles, t.nextRoleId, role);
      AppendKeepsJoinRows(t.rolePermissions, t.roles, catalog, role, ids);
      AppendKeepsMemberships(t.userOrganizationRoles, t.roles, role);
    }
  }

  /** Every resolved permission id names a catalog permission. */
  lemma ResolvedInCatalog(catalog: seq<Permissions.Permission>, configs: seq<Permissions.PermissionConfig>)
    requires ResolvePermissionIds(catalog, configs).Some?
    ensures var ids := ResolvePermissionIds(catalog, configs).value;
      forall k :: 0 <= k < |ids| ==> Permissions.InCatalog(catalog, ids[k])
  {
    var ids := ResolvePermissionIds(catalog, configs).value;
    forall k | 0 <= k < |ids| ensures Permissions.InCatalog(catalog, ids[k]) {
      var p := Permissions.FindByPermissionConfig(catalog, configs[k]).value;
      var c :| 0 <= c < |catalog| && catalog[c] == p;
    }
  }

  /** Appending a role with the next id keeps the ids distinct and below the new next id. */
  lemma AppendKeepsRoleIds(roles: seq<Role>, nextRoleId: nat, role: Role)
    requires RoleIdsValid(roles, nextRoleId) && role.id == nextRoleId
    ensures RoleIdsValid(roles + [role], nextRoleId + 1)
  {
  }

  lemma HasRoleAppend(roles: seq<Role>, role: Role, roleId: nat)
    requires HasRole(roles, roleId)
    ensures HasRole(roles + [role], roleId)
  {
    var j :| 0 <= j < |roles| && roles[j].id == roleId;
    assert (roles + [role])[j] == roles[j];
  }

  /** Old join rows still point at a role once one is appended, and the new rows point at it. */
  lemma AppendKeepsJoinRows(rows: seq<RolePermission>, roles: seq<Role>, catalog: seq<Permissions.Permission>,
                            role: Role, ids: seq<nat>)
    requires JoinRowsValid(rows, roles, catalog)
    requires forall k :: 0 <= k < |ids| ==> Permissions.InCatalog(catalog, ids[k])
    ensures JoinRowsValid(rows + JoinRows(role.id, ids), roles + [role], catalog)
  {
    var out := rows + JoinRows(role.id, ids);
    forall k | 0 <= k < |out|
      ensures HasRole(roles + [role], out[k].roleId) && Permissions.InCatalog(catalog, out[k].permissionId)
    {
      if k < |rows| {
        assert out[k] == rows[k];
        HasRoleAppend(roles, role, rows[k].roleId);
      } else {
        assert out[k] == RolePermission(role.id, ids[k - |rows|]);
        assert (roles + [role])[|roles|] == role;
      }
    }
  }

  /** Memberships still point at their role once another role is appended. */
  lemma AppendKeepsMemberships(memberships: seq<UserOrganizationRole>, roles: seq<Role>, role: Role)
    requires MembershipsValid(memberships, roles)
    ensures MembershipsValid(memberships, roles + [role])
  {
    forall k | 0 <= k < |memberships|
      ensures HasRoleIn(roles + [role], memberships[k].organizationId, memberships[k].roleId)
    {
      var m := memberships[k];
      var j :| 0 <= j < |roles| && roles[j].id == m.roleId && roles[j].organizationId == m.organizationId;
      assert (roles + [role])[j] == roles[j];
    }
  }

  // ---------------------------------------------------------------- scoping

  /** `findOne`, `update` and `delete` treat a role of another organization as absent:
      they throw NotFound and change nothing. */
  lemma ScopedLookupNotFound(t: Tables, catalog: seq<Permissions.Permission>, organizationId: nat, roleId: nat,
                             name: Option<string>, slug: Option<string>,
                             configs: Option<seq<Permissions.PermissionConfig>>)
    requires forall k :: 0 <= k < |t.roles| && t.roles[k].id == roleId ==> t.roles[k].organizationId != organizationId
    ensures FindRole(t.roles, organizationId, roleId) == None
    ensures UpdateStep(t, catalog, organizationId, roleId, name, slug, configs) == Step(t, Err(NotFound))
    ensures DeleteStep(t, organizationId, roleId) == Step(t, Err(NotFound))
  {
  }

  /** `update` succeeds exactly when the role exists in that organization and the configs are
      absent or all resolve; nothing about the slug is checked. */
  lemma UpdateSucceedsIff(t: Tables, catalog: seq<Permissions.Permission>, organizationId: nat, roleId: nat,
                          name: Option<string>, slug: Option<string>,
                          configs: Option<seq<Permissions.PermissionConfig>>)
    ensures UpdateStep(t, catalog, organizationId, roleId, name, slug, configs).result.Ok? <==>
      HasRoleIn(t.roles, organizationId, roleId) &&
      (configs.None? || ResolvePermissionIds(catalog, configs.value).Some?)
  {
  }

  /** `delete` succeeds exactly when the role exists in that organization. */
  lemma DeleteSucceedsIff(t: Tables, organizationId: nat, roleId: nat)
    ensures DeleteStep(t, organizationId, roleId).result.Ok? <==> HasRoleIn(t.roles, organizationId, roleId)
  {
  }

  // ---------------------------------------------------------------- update

  /** What a successful `update` saves: the role keeps its id and organization, name and slug
      are overwritten only when supplied and non-empty, no other role changes, memberships
      never change, and the join rows are untouched when no configs are given. */
  lemma UpdatePatches(t: Tables, catalog: seq<Permissions.Permission>, organizationId: nat, roleId: nat,
                      name: Option<string>, slug: Option<string>,
                      configs: Option<seq<Permissions.PermissionConfig>>)
    requires UpdateStep(t, catalog, organizationId, roleId, name, slug, configs).result.Ok?
    ensures var s := UpdateStep(t, catalog, organizationId, roleId, name, slug, configs);
      var before := FindRole(t.roles, organizationId, roleId);
      && before.Some?
      && s.result.value.id == roleId
      && s.result.value.organizationId == organizationId
      && s.result.value.name == (if Truthy(name) then name.value else before.value.name)
      && s.result.value.slug == (if Truthy(slug) then slug.value else before.value.slug)
      && |s.after.roles| == |t.roles|
      && (forall k :: 0 <= k < |t.roles| ==>
            s.after.roles[k] == if t.roles[k].id == roleId then s.result.value else t.roles[k])
      && s.after.userOrganizationRoles == t.userOrganizationRoles
      && s.after.nextRoleId == t.nextRoleId
      && (configs.None? ==> s.after.rolePermissions == t.rolePermissions)
  {
  }

  /** With configs given, a successful `update` leaves the role with exactly the new rows,
      not the union with the old ones, and every other role's rows as they were. */
  lemma UpdateReplacesPermissions(t: Tables, catalog: seq<Permissions.Permission>, organizationId: nat,
                                  roleId: nat, name: Option<string>, slug: Option<string>,
                                  configs: seq<Permissions.PermissionConfig>)
    requires UpdateStep(t, catalog, organizationId, roleId, name, slug, Some(configs)).result.Ok?
    ensures ResolvePermissionIds(catalog, configs).Some?
    ensures var s := UpdateStep(t, catalog, organizationId, roleId, name, slug, Some(configs));
      var ids := ResolvePermissionIds(catalog, configs).value;
      && RowsOf(s.after.rolePermissions, roleId) == JoinRows(roleId, ids)
      && PermissionIdsOf(s.after.rolePermissions, roleId) == ids
      && forall other :: other != roleId ==>
           RowsOf(s.after.rolePermissions, other) == RowsOf(t.rolePermissions, other)
  {
    var after := UpdateStep(t, catalog, organizationId, roleId, name, slug, Some(configs)).after.rolePermissions;
    var ids := ResolvePermissionIds(catalog, configs).value;
    assert FindRole(t.roles, organizationId, roleId).value.id == roleId;
    assert after == Filter(t.rolePermissions, DropRole(roleId)) + JoinRows(roleId, ids);
    RowsAfterReplace(t.rolePermissions, roleId, ids);
    PermissionIdsOfJoin(after, roleId, ids);
  }

  /** `permissionConfigs: []` is truthy: the role loses every permission row. */
  lemma UpdateWithNoConfigsClears(t: Tables, catalog: seq<Permissions.Permission>, organizationId: nat,
                                  roleId: nat, name: Option<string>, slug: Option<string>)
    requires HasRoleIn(t.roles, organizationId, roleId)
    ensures var s := UpdateStep(t, catalog, organizationId, roleId, name, slug, Some([]));
      s.result.Ok? && RowsOf(s.after.rolePermissions, roleId) == []
  {
    UpdateReplacesPermissions(t, catalog, organizationId, roleId, name, slug, []);
  }

  /** A config that does not resolve makes `update` fail before its transaction; the name
      and slug patches are not saved either. */
  lemma UpdateRejectsUnresolved(t: Tables, catalog: seq<Permissions.Permission>, organizationId: nat,
                                roleId: nat, name: Option<string>, slug: Option<string>,
                                configs: seq<Permissions.PermissionConfig>, k: nat)
    requires HasRoleIn(t.roles, organizationId, roleId)
    requires k < |configs| && Permissions.FindByPermissionConfig(catalog, configs[k]).None?
    ensures UpdateStep(t, catalog, organizationId, roleId, name, slug, Some(configs))
         == Step(t, Err(UnresolvedPermission))
  {
  }

  /** `update` does not recheck slug uniqueness: it can give a role the slug of another. */
  lemma UpdateCanDuplicateSlug()
    ensures var t := Tables([Role(1, "Admin", "admin", 7), Role(2, "Viewer", "viewer", 7)], [], [], 3);
      var s := UpdateStep(t, [], 7, 2, None, Some("admin"), None);
      s.result.Ok? && s.after.roles[0].slug == s.after.roles[1].slug == "admin"
  {
  }

  lemma UpdatePreservesValid(t: Tables, catalog: seq<Permissions.Permission>, organizationId: nat,
                             roleId: nat, name: Option<string>, slug: Option<string>,
                             configs: Option<seq<Permissions.PermissionConfig>>)
    requires Valid(t, catalog)
    ensures Valid(UpdateStep(t, catalog, organizationId, roleId, name, slug, configs).after, catalog)
  {
    var s := UpdateStep(t, catalog, organizationId, roleId, name, slug, configs);
    if s.result.Ok? {
      var role := FindRole(t.roles, organizationId, roleId).value;
      var patched := s.result.value;
      assert patched.id == roleId && patched.organizationId == organizationId;
      UniqueRoleOrganization(t.roles, t.nextRoleId, organizationId, roleId);
      ReplaceRoleSameKeys(t.roles, patched);
      if configs.None? {
        assert s.after == t.(roles := ReplaceRole(t.roles, patched));
        SameKeysKeepValid(t, ReplaceRole(t.roles, patched), catalog);
      } else {
        var ids := ResolvePermissionIds(catalog, configs.value).value;
        ResolvedInCatalog(catalog, configs.value);
        assert HasRole(t.roles, roleId) by {
          var j :| 0 <= j < |t.roles| && t.roles[j] == role;
        }
        ReplaceJoinKeepsValid(t.rolePermissions, t.roles, catalog, roleId, ids);
        var committed := t.(rolePermissions := Filter(t.rolePermissions, DropRole(roleId)) + JoinRows(roleId, ids));
        assert s.after == committed.(roles := ReplaceRole(t.roles, patched));
        SameKeysKeepValid(committed, ReplaceRole(t.roles, patched), catalog);
      }
    }
  }

  /** Two role tables with the same ids and organizations, row by row. */
  predicate SameKeys(a: seq<Role>, b: seq<Role>) {
    |a| == |b| && forall k :: 0 <= k < |a| ==> a[k].id == b[k].id && a[k].organizationId == b[k].organizationId
  }

  /** Under distinct ids, every row with the id of a role found in an organization belongs to it. */
  lemma UniqueRoleOrganization(roles: seq<Role>, nextRoleId: nat, organizationId: nat, roleId: nat)
    requires RoleIdsValid(roles, nextRoleId) && HasRoleIn(roles, organizationId, roleId)
    ensures forall k :: 0 <= k < |roles| && roles[k].id == roleId ==> roles[k].organizationId == organizationId
  {
    var j :| 0 <= j < |roles| && roles[j].id == roleId && roles[j].organizationId == organizationId;
  }

  /** Overwriting the row of a role by a patch with its own organization keeps every key. */
  lemma ReplaceRoleSameKeys(roles: seq<Role>, patched: Role)
    requires forall k :: 0 <= k < |roles| && roles[k].id == patched.id ==> roles[k].organizationId == patched.organizationId
    ensures SameKeys(roles, ReplaceRole(roles, patched))
  {
  }

  /** The invariant reads only the keys of the role rows. */
  lemma SameKeysKeepValid(t: Tables, roles: seq<Role>, catalog: seq<Permissions.Permission>)
    requires Valid(t, catalog) && SameKeys(t.roles, roles)
    ensures Valid(t.(roles := roles), catalog)
  {
    forall k | 0 <= k < |t.rolePermissions| ensures HasRole(roles, t.rolePermissions[k].roleId) {
      var j :| 0 <= j < |t.roles| && t.roles[j].id == t.rolePermissions[k].roleId;
      assert roles[j].id == t.roles[j].id;
    }
    forall k | 0 <= k < |t.userOrganizationRoles|
      ensures HasRoleIn(roles, t.userOrganizationRoles[k].organizationId, t.userOrganizationRoles[k].roleId)
    {
      var m := t.userOrganizationRoles[k];
      var j :| 0 <= j < |t.roles| && t.roles[j].id == m.roleId && t.roles[j].organizationId == m.organizationId;
      assert roles[j].id == t.roles[j].id && roles[j].organizationId == t.roles[j].organizationId;
    }
  }

  /** Delete-all-then-insert for an existing role keeps every join row pointing at a role and
      at a catalog permission. */
  lemma ReplaceJoinKeepsValid(rows: seq<RolePermission>, roles: seq<Role>, catalog: seq<Permissions.Permission>,
                              roleId: nat, ids: seq<nat>)
    requires JoinRowsValid(rows, roles, catalog) && HasRole(roles, roleId)
    requires forall k :: 0 <= k < |ids| ==> Permissions.InCatalog(catalog, ids[k])
    ensures JoinRowsValid(Filter(rows, DropRole(roleId)) + JoinRows(roleId, ids), roles, catalog)
  {
    var kept := Filter(rows, DropRole(roleId));
    var out := kept + JoinRows(roleId, ids);
    forall k | 0 <= k < |out|
      ensures HasRole(roles, out[k].roleId) && Permissions.InCatalog(catalog, out[k].permissionId)
    {
      if k < |kept| {
        assert out[k] == kept[k];
        var i :| 0 <= i < |rows| && rows[i] == kept[k];
      } else {
        assert out[k] == RolePermission(roleId, ids[k - |kept|]);
      }
    }
  }

  // ---------------------------------------------------------------- delete

  /** A successful `delete` removes the role row and keeps every other role row. */
  lemma DeleteRemovesRole(t: Tables, organizationId: nat, roleId: nat)
    requires DeleteStep(t, organizationId, roleId).result.Ok?
    ensures var a := DeleteStep(t, organizationId, roleId).after;
      && !HasRole(a.roles, roleId)
      && FindRole(a.roles, organizationId, roleId) == None
      && (forall k :: 0 <= k < |t.roles| && t.roles[k].id != roleId ==> t.roles[k] in a.roles)
      && (forall k :: 0 <= k < |a.roles| ==> a.roles[k] in t.roles)
      && a.nextRoleId == t.nextRoleId
  {
  }

  /** A successful `delete` removes every join row of the role and no row of another role. */
  lemma DeleteCascadesToRows(t: Tables, organizationId: nat, roleId: nat)
    requires DeleteStep(t, organizationId, roleId).result.Ok?
    ensures var a := DeleteStep(t, organizationId, roleId).after;
      && RowsOf(a.rolePermissions, roleId) == []
      && forall other :: other != roleId ==> RowsOf(a.rolePermissions, other) == RowsOf(t.rolePermissions, other)
  {
    var a := DeleteStep(t, organizationId, roleId).after;
    assert a.rolePermissions == Filter(t.rolePermissions, DropRole(roleId));
    RowsAfterDrop(t.rolePermissions, roleId);
  }

  /** A successful `delete` removes exactly the memberships with that (organizationId, roleId);
      under the invariant no membership of any organization points at the role afterwards. */
  lemma DeleteCascadesToMemberships(t: Tables, catalog: seq<Permissions.Permission>, organizationId: nat, roleId: nat)
    requires Valid(t, catalog)
    requires DeleteStep(t, organizationId, roleId).result.Ok?
    ensures var a := DeleteStep(t, organizationId, roleId).after;
      && (forall k :: 0 <= k < |a.userOrganizationRoles| ==> a.userOrganizationRoles[k].roleId != roleId)
      && (forall k :: 0 <= k < |t.userOrganizationRoles| ==>
            (t.userOrganizationRoles[k] in a.userOrganizationRoles <==>
             !(t.userOrganizationRoles[k].organizationId == organizationId && t.userOrganizationRoles[k].roleId == roleId)))
      && (forall k :: 0 <= k < |a.userOrganizationRoles| ==> a.userOrganizationRoles[k] in t.userOrganizationRoles)
  {
  }

  /** Memberships point at a role of their own organization, so removing those with
      (organizationId, roleId) removes every membership of the role. */
  lemma NoMembershipOfDeletedRole(t: Tables, catalog: seq<Permissions.Permission>, organizationId: nat, roleId: nat)
    requires Valid(t, catalog)
    requires HasRoleIn(t.roles, organizationId, roleId)
    ensures var kept := Filter(t.userOrganizationRoles, DropMembership(organizationId, roleId));
      forall k :: 0 <= k < |kept| ==> kept[k].roleId != roleId
  {
  }

  lemma DeletePreservesValid(t: Tables, catalog: seq<Permissions.Permission>, organizationId: nat, roleId: nat)
    requires Valid(t, catalog)
    ensures Valid(DeleteStep(t, organizationId, roleId).after, catalog)
  {
    var s := DeleteStep(t, organizationId, roleId);
    if s.result.Ok? {
      var a := s.after;
      var kept := Filter(t.roles, DropRoleRow(roleId));
      assert a.roles == kept;
      DeleteKeepsRoleIds(t.roles, t.nextRoleId, roleId);
      DeleteKeepsJoinRows(t.rolePermissions, t.roles, catalog, roleId);
      NoMembershipOfDeletedRole(t, catalog, organizationId, roleId);
      DeleteKeepsMemberships(Filter(t.userOrganizationRoles, DropMembership(organizationId, roleId)), t.roles, roleId);
    }
  }

  lemma DeleteKeepsRoleIds(roles: seq<Role>, nextRoleId: nat, roleId: nat)
    requires RoleIdsValid(roles, nextRoleId)
    ensures RoleIdsValid(Filter(roles, DropRoleRow(roleId)), nextRoleId)
  {
    var kept := Filter(roles, DropRoleRow(roleId));
    forall i, j | 0 <= i < j < |kept| ensures kept[i].id != kept[j].id {
      var i', j' := FilterIndices(roles, DropRoleRow(roleId), i, j);
    }
  }

  lemma DeleteKeepsJoinRows(rows: seq<RolePermission>, roles: seq<Role>, catalog: seq<Permissions.Permission>, roleId: nat)
    requires JoinRowsValid(rows, roles, catalog)
    ensures JoinRowsValid(Filter(rows, DropRole(roleId)), Filter(roles, DropRoleRow(roleId)), catalog)
  {
  }

  lemma DeleteKeepsMemberships(kept: seq<UserOrganizationRole>, roles: seq<Role>, roleId: nat)
    requires forall k :: 0 <= k < |kept| ==> kept[k].roleId != roleId
    requires MembershipsValid(kept, roles)
    ensures MembershipsValid(kept, Filter(roles, DropRoleRow(roleId)))
  {
  }
}
