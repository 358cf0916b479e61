# Accountify back end: roles, guards and accounts in Dafny

This project models four parts of the Accountify NestJS back end:

- **Organization-scoped role store.** `RolesService` works over the `roles`, `role_permissions` and
  `user_organization_roles` tables and reads the seeded `permissions` catalog. It has the operations
  `create`, `findAll`, `findOne`, `update` and `delete`.
- **Permission catalog types.** These are the closed `PermissionAction` and `PermissionSubject` enums,
  their string values, and the `Permission` record.
- **Guard chains of the roles and organizations controllers.** Each route declares an ordered list of guard
  stages (JwtAuth, OrganizationMember, Permission(action, subject)). The chain stops at the first stage
  that refuses the request, and only requests that pass every stage reach the service.
- **Account rules of `AuthService`.** These are `register`, `login`, `loginWithGoogle` and the
  `generateToken` payload, over a user table keyed by email.

Modules:

| module | file | models |
|---|---|---|
| `Results` | results.dfy | the error kinds the services throw, `Option`, `Result`, JavaScript truthiness of an optional string |
| `Sequences` | sequences.dfy | an order-keeping `Filter`, which stands for a `delete … where` on a table, and its lemmas |
| `Permissions` | permissions.dfy | the enums, their string encoding and decoding, the catalog and its lookup by (action, subject) |
| `RoleTables` | role_tables.dfy | the role store on values: one step function per operation, the store invariant, and the lemmas |
| `RolesService` | roles_service.dfy | the `RolesService` class, whose fields are the tables; each method is proved to follow its step function |
| `GuardPipeline` | guard_pipeline.dfy | guard stages and the short-circuit evaluator |
| `RolesController` | roles_controller.dfy | the roles controller's stage table and forwarding |
| `OrganizationsController` | organizations_controller.dfy | the organizations controller's stage table, forwarding, and `findOne`'s not-found check |
| `Accounts` | accounts.dfy | the account rules on values: the user table, step functions, invariant, lemmas |
| `AuthService` | auth_service.dfy | the `AuthService` class over the user table |

### How the model is built

- **Transactions.** Each transaction is one atomic step.
  - `create` first checks the slug, then resolves every permission config, then saves the role and its join rows together.
  - `update` runs the scoped lookup and the field patches. When configs are given, it then resolves them and runs the delete-all-then-insert transaction. `role.save()` comes after that transaction.
  - `delete` removes the role's join rows, the memberships with that (organizationId, roleId), and the role row.
- **Class methods.** The state-changing methods of the two classes ensure `Step(State(), r) == …Step(old(State()), …)`. The lemmas about those step functions carry the properties. The class methods also keep the invariant `Valid()`, which holds that:
  - role ids are below the next id and distinct;
  - every join row points at an existing role and a catalog permission;
  - every membership points at a role of its own organization. Memberships are written outside the modelled code, so this is assumed of the initial tables given to the constructor, and the operations keep it;
  - in the user table, ids and emails are distinct.
- **Foreign libraries as parameters.** bcrypt's `hash` and `compare` and JwtService's `sign` are constant function fields of `AuthService.AuthService`. `hash` is passed to `Accounts.RegisterStep` and `sign` to `Accounts.LoginWithGoogleStep`; `compare` goes to no step function, because only `AuthService.AuthService.Login` applies it and that method changes nothing. The guards' verdicts are the parameter `passes`.

### Behaviour of the code worth noting

- **Duplicate slug on `create`.** A slug already held by a role throws BadRequest (roles.service.ts line 30). The lookup at line 28 searches roles of every organization, not only the target one (`RoleTables.CreateRejectsTakenSlug`).
- **Permission config that does not resolve.** What the permission repository's `findByPermissionConfig` does for an absent (action, subject) pair is not part of this model. If it returns nothing, reading `permission.id` at line 47 (line 134 in `update`) throws. Either way the model gives this failure its own error kind, `UnresolvedPermission`, and the step changes nothing.
- **`update` and slugs.** `update` never rechecks slug uniqueness (line 123), so two roles can end up with the same slug (`RoleTables.UpdateCanDuplicateSlug`).
- **Duplicate configs.** Nothing dedupes the permission configs, so a pair given twice yields two identical join rows (`RoleTables.CreateKeepsDuplicateConfigs`).
- **Guard outcomes.** The controllers leave the response to a failed guard to the guards themselves. The model reports only which stage rejected the request.
- **The permission catalog.** The `permissions` entity declares no unique constraint on the (action, subject) pair. The store invariant therefore asks nothing of the catalog; only `Permissions.FindByPermissionConfigUnique` assumes distinct pairs.

## Model

| member | source | states |
|---|---|---|
| `Permissions.ActionValue` | src/db/entities/permission.entity.ts:14-20 | the string value of each action member; specified by `ParseAction` and `ActionRoundTrip` |
| `Permissions.SubjectValue` | src/db/entities/permission.entity.ts:22-31 | the string value of each subject member; specified by `ParseSubject` and `SubjectRoundTrip` |
| `Permissions.ParseAction` | src/db/entities/permission.entity.ts:14-20 | decoding a string gives an action whose enum value is that string; when no action results, no action member has that value |
| `Permissions.ParseSubject` | src/db/entities/permission.entity.ts:22-31 | decoding a string gives a subject whose enum value is that string; when no subject results, no subject member has that value |
| `Permissions.ActionsEnumerated` | src/db/entities/permission.entity.ts:14-20 | every action is one of exactly five distinct members |
| `Permissions.SubjectsEnumerated` | src/db/entities/permission.entity.ts:22-31 | every subject is one of exactly eight distinct members |
| `Permissions.ActionRoundTrip` | src/db/entities/permission.entity.ts:14-20 | decoding an encoded action gives it back; equal values mean equal actions |
| `Permissions.SubjectRoundTrip` | src/db/entities/permission.entity.ts:22-31 | decoding an encoded subject gives it back; equal values mean equal subjects |
| `Permissions.FindByPermissionConfig` | src/modules/organizations/roles/roles.service.ts:42-46 | a found permission is a catalog row with that action and subject; nothing is found exactly when no catalog row has that pair |
| `Permissions.FindByPermissionConfigUnique` | src/db/entities/permission.entity.ts:33-50 | in a catalog with distinct ids and distinct pairs, the lookup returns the one row holding the pair |
| `RoleTables.CreateStep` | src/modules/organizations/roles/roles.service.ts:21-69 | the tables and result of one `create` call; specified by the `Create…` lemmas |
| `RoleTables.UpdateStep` | src/modules/organizations/roles/roles.service.ts:106-157 | the tables and result of one `update` call; specified by the `Update…` lemmas and `ScopedLookupNotFound` |
| `RoleTables.DeleteStep` | src/modules/organizations/roles/roles.service.ts:159-181 | the tables and result of one `delete` call; specified by the `Delete…` lemmas and `ScopedLookupNotFound` |
| `RoleTables.FindRole` | src/modules/organizations/roles/roles.service.ts:94-96 | a found role has that id and that organization; nothing is found exactly when no role has both |
| `RoleTables.ResolvePermissionIds` | src/modules/organizations/roles/roles.service.ts:40-49 | the ids are resolved exactly when every config resolves; then there is one id per config, in order, and the k-th is the id of the k-th config's permission |
| `RoleTables.RowsOfJoin` | src/modules/organizations/roles/roles.service.ts:58-63 | the join rows built for a role are all of that role's rows, in the order of the ids, and belong to no other role |
| `RoleTables.RowsAfterDrop` | src/modules/organizations/roles/roles.service.ts:140 | deleting a role's join rows leaves none of them and every other role's rows unchanged |
| `RoleTables.RowsOfUnused` | src/modules/organizations/roles/roles.service.ts:53-60 | a role id that no join row mentions has no rows |
| `RoleTables.RowsAfterReplace` | src/modules/organizations/roles/roles.service.ts:138-153 | delete-all-then-insert leaves the role with exactly the new rows and the other roles' rows unchanged |
| `RoleTables.PermissionIdsOfJoin` | src/modules/organizations/roles/roles.service.ts:58-63 | when a role's rows are the rows built from a list of ids, the role holds exactly those ids, in order |
| `RoleTables.CreateRejectsTakenSlug` | src/modules/organizations/roles/roles.service.ts:27-31 | a slug held by a role of any organization makes `create` throw BadRequest and leaves every table unchanged |
| `RoleTables.CreateRejectsUnresolved` | src/modules/organizations/roles/roles.service.ts:39-52 | a config that does not resolve makes `create` fail before the transaction, with no role and no join row written |
| `RoleTables.CreateSucceedsIff` | src/modules/organizations/roles/roles.service.ts:27-52 | `create` succeeds exactly when the slug is free in every organization and every config resolves |
| `RoleTables.CreateWrites` | src/modules/organizations/roles/roles.service.ts:33-66 | a successful `create` appends one role with the given name, slug and organization and the next id, plus exactly one join row per config, in order, each pointing at the new role and the k-th resolved permission; older rows and memberships are unchanged |
| `RoleTables.CreateGrantsResolved` | src/modules/organizations/roles/roles.service.ts:52-66 | under the invariant the new id is fresh, and the new role holds exactly the resolved permission ids, in config order |
| `RoleTables.NextRoleIdUnused` | src/modules/organizations/roles/roles.service.ts:53-60 | under the invariant no join row names the id the next saved role receives |
| `RoleTables.CreateKeepsDuplicateConfigs` | src/modules/organizations/roles/roles.service.ts:58-64 | the same config given twice produces two identical join rows for the new role, so one permission is referenced by several rows |
| `RoleTables.CreateThenFindOne` | src/modules/organizations/roles/roles.service.ts:93-96 | after a successful `create`, the scoped lookup in that organization finds the new role |
| `RoleTables.CreatePreservesValid` | src/modules/organizations/roles/roles.service.ts:21-69 | `create` keeps the store invariant |
| `RoleTables.ScopedLookupNotFound` | src/modules/organizations/roles/roles.service.ts:93-168 | a role id held only by roles of other organizations counts as absent: `findOne` finds nothing, and `update` and `delete` throw NotFound and change nothing |
| `RoleTables.UpdateSucceedsIff` | src/modules/organizations/roles/roles.service.ts:112-154 | `update` succeeds exactly when a role with that id exists in that organization and the configs are absent or all resolve; the slug is never checked |
| `RoleTables.UpdatePatches` | src/modules/organizations/roles/roles.service.ts:106-157 | a successful `update` keeps the role's id and organization, and overwrites name and slug only when they are supplied and non-empty; no other role and no membership changes, and without configs the join rows are unchanged |
| `RoleTables.UpdateReplacesPermissions` | src/modules/organizations/roles/roles.service.ts:138-153 | with configs given, a successful `update` leaves the role with exactly the new rows (not the union with the old ones), and every other role's rows unchanged |
| `RoleTables.UpdateWithNoConfigsClears` | src/modules/organizations/roles/roles.service.ts:125-153 | an empty config list is truthy, so `update` with it removes every row of the role |
| `RoleTables.UpdateRejectsUnresolved` | src/modules/organizations/roles/roles.service.ts:125-137 | a config that does not resolve makes `update` fail with nothing saved, not even the name or slug patch |
| `RoleTables.UpdateCanDuplicateSlug` | src/modules/organizations/roles/roles.service.ts:123 | a concrete store where `update` gives a role the slug another role already holds |
| `RoleTables.UpdatePreservesValid` | src/modules/organizations/roles/roles.service.ts:106-157 | `update` keeps the store invariant |
| `RoleTables.DeleteSucceedsIff` | src/modules/organizations/roles/roles.service.ts:160-180 | `delete` succeeds exactly when a role with that id exists in that organization |
| `RoleTables.DeleteRemovesRole` | src/modules/organizations/roles/roles.service.ts:177 | a successful `delete` leaves no role with that id, and keeps every other role row and the next id |
| `RoleTables.DeleteCascadesToRows` | src/modules/organizations/roles/roles.service.ts:173 | a successful `delete` removes every join row of the role and no row of any other role |
| `RoleTables.DeleteCascadesToMemberships` | src/modules/organizations/roles/roles.service.ts:174-176 | a successful `delete` removes exactly the memberships with that (organizationId, roleId); under the invariant, no membership points at the role afterwards |
| `RoleTables.NoMembershipOfDeletedRole` | src/modules/organizations/roles/roles.service.ts:174-176 | because memberships point at roles of their own organization, removing those with (organizationId, roleId) removes every membership of the role |
| `RoleTables.DeletePreservesValid` | src/modules/organizations/roles/roles.service.ts:170-180 | `delete` keeps the store invariant |
| `RoleTables.DeleteKeepsRoleIds` | src/modules/organizations/roles/roles.service.ts:177 | removing a role row keeps the remaining role ids distinct and below the next id |
| `RoleTables.DeleteKeepsJoinRows` | src/modules/organizations/roles/roles.service.ts:173-177 | after a role and its join rows are removed, every remaining row still points at an existing role and a catalog permission |
| `RoleTables.DeleteKeepsMemberships` | src/modules/organizations/roles/roles.service.ts:174-177 | memberships that do not name the removed role still point at a role of their organization |
| `RolesService.BuildJoinRows` | src/modules/organizations/roles/roles.service.ts:56-63 | the loop builds one row per permission id, in order, each naming the role and the k-th id |
| `RolesService.RolesService.constructor` | src/modules/organizations/roles/roles.service.ts:16-19 | the service starts over the given valid tables and catalog |
| `RolesService.RolesService.Create` | src/modules/organizations/roles/roles.service.ts:21-69 | the new tables and the result are those of `RoleTables.CreateStep` on the old tables; the invariant is kept |
| `RolesService.RolesService.FindAll` | src/modules/organizations/roles/roles.service.ts:71-91 | the listing holds exactly the roles of the organization that match the search, each once and in the order of the `roles` table, each with its permission ids; `metadata.total` is the number returned and `metadata.params` echoes the search |
| `RolesService.RolesService.FindOne` | src/modules/organizations/roles/roles.service.ts:93-104 | a role is returned exactly when one has that id in that organization, and it is that role; otherwise NotFound |
| `RolesService.RolesService.Update` | src/modules/organizations/roles/roles.service.ts:106-157 | the new tables and the result are those of `RoleTables.UpdateStep`; the invariant is kept |
| `RolesService.RolesService.Delete` | src/modules/organizations/roles/roles.service.ts:159-181 | the new tables and the result are those of `RoleTables.DeleteStep`; the invariant is kept |
| `GuardPipeline.Evaluate` | src/modules/organizations/roles/roles.controller.ts:28-35 | a request passes exactly when every stage passes; a rejection names a stage that fails, and every stage before it passed |
| `GuardPipeline.EvaluateConcat` | src/modules/organizations/roles/roles.controller.ts:28-34 | controller-level stages run before handler-level ones: a rejection by the first group is final, and otherwise the second group decides |
| `GuardPipeline.EvaluateReadsOnlyDeclared` | src/modules/organizations/roles/roles.controller.ts:28-34 | the decision depends only on the verdicts of the declared stages |
| `RolesController.Handle` | src/modules/organizations/roles/roles.controller.ts:46-133 | the service is reached exactly when every stage of the route passes, and then with the route's own call (`RolesController.Call`), carrying the path organizationId and, for the routes that take one, the path id; a rejection names a failing stage of the route |
| `RolesController.RouteCalls` | src/modules/organizations/roles/roles.controller.ts:46-133 | each handler calls its own service method (`save` → `create`, `findAll` → `findAll`, `findOne` → `findOne`, `update` → `update`, `delete` → `delete`) with the path organizationId and, where the route has one, the path id; no two routes make the same call |
| `RolesController.ControllerStagesFirst` | src/modules/organizations/roles/roles.controller.ts:28 | every route runs JwtAuth first and OrganizationMember second, and any permission stage comes after both |
| `RolesController.RoutePermissions` | src/modules/organizations/roles/roles.controller.ts:33-118 | POST needs (create, role), GET :id needs (read, role), PATCH needs (update, role), DELETE needs (delete, role), and the list route needs no permission |
| `RolesController.ListNeedsOnlyMembership` | src/modules/organizations/roles/roles.controller.ts:54-70 | an authenticated member reaches the listing whatever the permission verdicts |
| `RolesController.UnauthenticatedStopsFirst` | src/modules/organizations/roles/roles.controller.ts:28 | a failed authentication stops every route at JwtAuth |
| `RolesController.NonMemberStopsSecond` | src/modules/organizations/roles/roles.controller.ts:28 | an authenticated caller who is not a member of the organization is stopped at OrganizationMember on every route, before any permission guard |
| `RolesController.MemberWithoutPermissionRejected` | src/modules/organizations/roles/roles.controller.ts:33-35 | an authenticated member without the route's permission is rejected by the permission stage |
| `OrganizationsController.Handle` | src/modules/organizations/organizations.controller.ts:29-111 | the service is reached exactly when every stage passes, and then with the route's own call (`OrganizationsController.Call`); `create` passes the authenticated user as the creator, and the other routes pass the path id |
| `OrganizationsController.RouteCalls` | src/modules/organizations/organizations.controller.ts:45-111 | `create` calls the service's `create` with the authenticated user, and `findOne`, `update` and `delete` call `findById`, `update` and `delete` with the path id; no two routes make the same call |
| `OrganizationsController.FindOneResponse` | src/modules/organizations/organizations.controller.ts:67-71 | an absent organization is NotFound; a present one is returned unchanged |
| `OrganizationsController.CreateNeedsOnlyAuthentication` | src/modules/organizations/organizations.controller.ts:29-50 | every route starts with JwtAuth, and `create` is forwarded exactly when authentication passes |
| `OrganizationsController.RouteStages` | src/modules/organizations/organizations.controller.ts:52-96 | GET :id needs membership and no permission; PATCH and DELETE run membership before (update, organization) and (delete, organization) respectively |
| `OrganizationsController.NonMemberStopsBeforePermission` | src/modules/organizations/organizations.controller.ts:74-96 | an authenticated non-member is stopped by the membership stage of PATCH and DELETE |
| `Accounts.GenerateToken` | src/modules/auth/auth.service.ts:127-133 | the payload `{sub: user.id, email: user.email}`; specified by `TokenIdentifiesUser` and the login lemmas |
| `Accounts.RegisterStep` | src/modules/auth/auth.service.ts:103-125 | the table and result of one `register` call; specified by the `Register…` lemmas |
| `Accounts.LoginWithGoogleStep` | src/modules/auth/auth.service.ts:55-101 | the table and result of one `loginWithGoogle` call; specified by the `GoogleLogin…` lemmas |
| `Accounts.FindByEmail` | src/modules/auth/auth.service.ts:30-33 | a found user has that email; nothing is found exactly when no user has it |
| `Accounts.TokenIdentifiesUser` | src/modules/auth/auth.service.ts:127-132 | under the invariant, the payload `{sub: id, email}` names exactly one user of the table |
| `Accounts.FindByEmailUnique` | src/modules/auth/auth.service.ts:58-61 | under the invariant, the lookup by a stored email returns that user |
| `Accounts.RegisterRejectsKnownEmail` | src/modules/auth/auth.service.ts:106-112 | `register` with an email already stored throws BadRequest and adds no user |
| `Accounts.RegisterStoresHash` | src/modules/auth/auth.service.ts:114-124 | `register` succeeds exactly when the email is new; then it appends one user with that email and name, a fresh id, no avatar, and the hash of the password with 10 salt rounds in place of the password |
| `Accounts.RegisterPreservesValid` | src/modules/auth/auth.service.ts:103-125 | `register` keeps ids and emails distinct |
| `Accounts.GoogleLoginCreates` | src/modules/auth/auth.service.ts:63-85 | for a new email, `loginWithGoogle` appends exactly one user with that email and name and no password, with an avatar only when a non-empty one is supplied; reading the email back finds that user, and the token signs that user's id and email |
| `Accounts.GoogleLoginExisting` | src/modules/auth/auth.service.ts:88-100 | for a stored email, no user is added; a stored empty avatar is replaced by the supplied one, otherwise the table is unchanged; the token signs that user's id and email |
| `Accounts.GoogleLoginPreservesValid` | src/modules/auth/auth.service.ts:55-101 | `loginWithGoogle` keeps ids and emails distinct |
| `Accounts.GoogleLoginTwiceCreatesOnce` | src/modules/auth/auth.service.ts:58-64 | two Google logins with one email add at most one user, and both log in the same user |
| `AuthService.AuthService.constructor` | src/modules/auth/auth.service.ts:24-27 | the service starts over the given valid user table, with the given hash, compare and sign functions |
| `AuthService.AuthService.Login` | src/modules/auth/auth.service.ts:29-53 | an unknown email gives NotFound; a user without a stored hash gives an internal error; a failed compare gives Unauthorized; the call succeeds exactly when the user found by email has a stored hash that `compare` accepts, and then returns that user with a token signing `{sub: id, email}` |
| `AuthService.AuthService.LoginWithGoogle` | src/modules/auth/auth.service.ts:55-101 | the new table and the result are those of `Accounts.LoginWithGoogleStep`; the invariant is kept |
| `AuthService.AuthService.Register` | src/modules/auth/auth.service.ts:103-125 | the new table and the result are those of `Accounts.RegisterStep`; the invariant is kept |

## Left out

- **TypeORM.** Repositories, the entity manager and transaction isolation are replaced by in-memory tables. Each transaction is one atomic step, and database failures inside a transaction are not modelled.
- **`Promise.all`.** The permission lookups and the three deletes run in parallel in the code. They are independent and touch disjoint tables, so they are modelled in sequence.
- **Guards.** JwtAuthGuard, OrganizationMemberGuard and PermissionsGuard are not part of this model.
  - Their verdicts are the parameter `passes`.
  - No wildcard meaning is given to `manage` or `all`.
  - No HTTP status is attached to a rejection.
- **bcrypt and JWT.** `hash`, `compare` and `sign` are uninterpreted functions. The random salt bcrypt adds is not modelled.
- **Repository queries.** The search the repository applies to the role listing is the parameter `matches`. The listing keeps the order of the `roles` table, where the database's order is unknown.
- **Relations.** The `rolePermissions` array assigned to the returned role (roles.service.ts lines 65 and 152) is not carried on the returned value. The listing shows each role's permission ids instead.
- **Response shapes.** Response DTOs (`RoleResponseDto`, `ProfileResponseDto`, `EmptyResponseDto`), Swagger metadata, request DTO validation and `ParseIntPipe` are not modelled. Path ids arrive as natural numbers.
- RoleTables.UpdateStep: a failure of `role.save()` (roles.service.ts line 156) after the permission transaction has committed is not modelled. In the code such a failure would leave the new join rows in place and the name and slug patch unwritten. The model treats the committed rows and the saved role as one step that always succeeds once the lookups resolve.
- **Organizations service.** Its behaviour is not part of this model. The controller's calls into it are shown only as the request they forward.
- **Other files.** src/route.ts, src/modules/organizations/users/users.module.ts and the invoice and organization-user DTO files are routing, wiring and validation metadata, and are not modelled.
- **Column fields.** Timestamps (`createdAt`, `updatedAt`) and the user's organization, role and project relations loaded by the login query are not modelled.
- Accounts.LoginWithGoogleStep, Accounts.GoogleLoginExisting: when the supplied avatar is absent, the model stores no avatar. TypeORM skips an undefined column on save, so an empty stored string would stay as it was.
- AuthService.AuthService.Login: bcrypt.compare with a missing stored hash is modelled as the error kind InternalError. bcrypt's exact exception is not modelled.
