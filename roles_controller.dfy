/** The guard table of src/modules/organizations/roles/roles.controller.ts and what each
    handler forwards to the roles service. Path ids arrive already parsed by ParseIntPipe. */
module RolesController {
  import Permissions
  import opened GuardPipeline

  /** The handlers of the controller. */
  datatype Route = Save | FindAll | FindOne | Update | Delete

  /** `@UseGuards(JwtAuthGuard, OrganizationMemberGuard)` on the class. */
  const ControllerStages: seq<Stage> := [JwtAuth, OrganizationMember]

  /** `@UseGuards(PermissionsGuard)` with its `@CheckPermissions` pair on the handler. */
  function HandlerStages(route: Route): seq<Stage> {
    match route
    case Save => [PermissionCheck(Permissions.Create, Permissions.Role)]
    case FindAll => []
    case FindOne => [PermissionCheck(Permissions.Read, Permissions.Role)]
    case Update => [PermissionCheck(Permissions.Update, Permissions.Role)]
    case Delete => [PermissionCheck(Permissions.Delete, Permissions.Role)]
  }

  function Stages(route: Route): seq<Stage> {
    ControllerStages + HandlerStages(route)
  }

  /** The service call a handler makes. */
  datatype ServiceCall =
    | CreateRole(organizationId: nat)
    | FindAllRoles(organizationId: nat)
    | FindOneRole(organizationId: nat, roleId: nat)
    | UpdateRole(organizationId: nat, roleId: nat)
    | DeleteRole(organizationId: nat, roleId: nat)

  datatype Response = Rejected(stage: Stage) | Forwarded(call: ServiceCall)

  /** The service method each handler calls, with the path ids it passes. */
  function Call(route: Route, organizationId: nat, id: nat): ServiceCall {
    match route
    case Save => CreateRole(organizationId)
    case FindAll => FindAllRoles(organizationId)
    case FindOne => FindOneRole(organizationId, id)
    case Update => UpdateRole(organizationId, id)
    case Delete => DeleteRole(organizationId, id)
  }

  /** A request to a route: the service is reached only when every declared stage passes,
      and it receives the path organizationId (and role id) unchanged. */
  function Handle(route: Route, organizationId: nat, id: nat, passes: Stage -> bool): (r: Response)
    ensures r.Forwarded? <==> forall k :: 0 <= k < |Stages(route)| ==> passes(Stages(route)[k])
    ensures r.Forwarded? ==> r.call == Call(route, organizationId, id)
    ensures r.Forwarded? ==> r.call.organizationId == organizationId
    ensures r.Rejected? ==> r.stage in Stages(route) && !passes(r.stage)
  {
    match Evaluate(Stages(route), passes)
    case Pass => Forwarded(Call(route, organizationId, id))
    case Reject(stage) => Rejected(stage)
  }

  /** Every route runs JwtAuthGuard first and OrganizationMemberGuard second; a permission
      stage, where there is one, comes after both. */
  lemma ControllerStagesFirst(route: Route)
    ensures |Stages(route)| >= 2 && Stages(route)[0] == JwtAuth && Stages(route)[1] == OrganizationMember
    ensures forall k :: 0 <= k < |Stages(route)| && Stages(route)[k].PermissionCheck? ==> k >= 2
  {
  }

  /** The permission pair each route requires; the list route requires none. */
  lemma RoutePermissions()
    ensures Stages(Save) == [JwtAuth, OrganizationMember, PermissionCheck(Permissions.Create, Permissions.Role)]
    ensures Stages(FindAll) == [JwtAuth, OrganizationMember]
    ensures Stages(FindOne) == [JwtAuth, OrganizationMember, PermissionCheck(Permissions.Read, Permissions.Role)]
    ensures Stages(Update) == [JwtAuth, OrganizationMember, PermissionCheck(Permissions.Update, Permissions.Role)]
    ensures Stages(Delete) == [JwtAuth, OrganizationMember, PermissionCheck(Permissions.Delete, Permissions.Role)]
  {
  }

  /** Each handler calls its own service method: `save` calls `create`, `findAll` calls
      `findAll`, and so on, with the path organizationId and, where the route has one, the
      path id as the role id. */
  lemma RouteCalls(organizationId: nat, id: nat)
    ensures Call(Save, organizationId, id) == CreateRole(organizationId)
    ensures Call(FindAll, organizationId, id) == FindAllRoles(organizationId)
    ensures Call(FindOne, organizationId, id) == FindOneRole(organizationId, id)
    ensures Call(Update, organizationId, id) == UpdateRole(organizationId, id)
    ensures Call(Delete, organizationId, id) == DeleteRole(organizationId, id)
    ensures forall r1: Route, r2: Route :: r1 != r2 ==> Call(r1, organizationId, id) != Call(r2, organizationId, id)
  {
  }

  /** For the list route, authentication and membership are enough. */
  lemma ListNeedsOnlyMembership(organizationId: nat, id: nat, passes: Stage -> bool)
    requires passes(JwtAuth) && passes(OrganizationMember)
    ensures Handle(FindAll, organizationId, id, passes) == Forwarded(FindAllRoles(organizationId))
  {
  }

  /** A failed authentication stops every route at the first stage, before membership or
      permission is looked at. */
  lemma UnauthenticatedStopsFirst(route: Route, organizationId: nat, id: nat, passes: Stage -> bool)
    requires !passes(JwtAuth)
    ensures Handle(route, organizationId, id, passes) == Rejected(JwtAuth)
  {
  }

  /** An authenticated user who is not a member of the organization is stopped by the
      membership stage on every route, before any permission stage. */
  lemma NonMemberStopsSecond(route: Route, organizationId: nat, id: nat, passes: Stage -> bool)
    requires passes(JwtAuth) && !passes(OrganizationMember)
    ensures Handle(route, organizationId, id, passes) == Rejected(OrganizationMember)
  {
    EvaluateConcat(ControllerStages, HandlerStages(route), passes);
  }

  /** A member without the route's permission is rejected by the permission stage. */
  lemma MemberWithoutPermissionRejected(route: Route, organizationId: nat, id: nat, passes: Stage -> bool)
    requires route != FindAll
    requires passes(JwtAuth) && passes(OrganizationMember) && !passes(HandlerStages(route)[0])
    ensures Handle(route, organizationId, id, passes) == Rejected(HandlerStages(route)[0])
  {
    EvaluateConcat(ControllerStages, HandlerStages(route), passes);
  }
}
