/** The guard table of src/modules/organizations/organizations.controller.ts, what each
    handler forwards to the organizations service, and the not-found check of `findOne`.
    The organizations service itself is not part of this model. */
module OrganizationsController {
  import Permissions
  import opened Results
  import opened GuardPipeline

  datatype Route = Create | FindOne | Update | Delete

  /** `@UseGuards(JwtAuthGuard)` on the class. */
  const ControllerStages: seq<Stage> := [JwtAuth]

  function HandlerStages(route: Route): seq<Stage> {
    match route
    case Create => []
    case FindOne => [OrganizationMember]
    case Update => [OrganizationMember, PermissionCheck(Permissions.Update, Permissions.Organization)]
    case Delete => [OrganizationMember, PermissionCheck(Permissions.Delete, Permissions.Organization)]
  }

  function Stages(route: Route): seq<Stage> {
    ControllerStages + HandlerStages(route)
  }

  datatype ServiceCall =
    | CreateOrganization(creatorId: nat)
    | FindOrganization(id: nat)
    | UpdateOrganization(id: nat)
    | DeleteOrganization(id: nat)

  datatype Response = Rejected(stage: Stage) | Forwarded(call: ServiceCall)

  /** The service method each handler calls: `create` passes the authenticated user as the
      creator, the other handlers pass the path id. */
  function Call(route: Route, id: nat, userId: nat): ServiceCall {
    match route
    case Create => CreateOrganization(userId)
    case FindOne => FindOrganization(id)
    case Update => UpdateOrganization(id)
    case Delete => DeleteOrganization(id)
  }

  /** A request to a route by the user JwtAuthGuard authenticated as `userId`: `create`
      passes that user as the creator, the other handlers pass the path id. */
  function Handle(route: Route, id: nat, userId: nat, passes: Stage -> bool): (r: Response)
    ensures r.Forwarded? <==> forall k :: 0 <= k < |Stages(route)| ==> passes(Stages(route)[k])
    ensures r.Forwarded? ==> r.call == Call(route, id, userId)
    ensures r.Rejected? ==> r.stage in Stages(route) && !passes(r.stage)
  {
    match Evaluate(Stages(route), passes)
    case Pass => Forwarded(Call(route, id, userId))
    case Reject(stage) => Rejected(stage)
  }

  /** `findOne` after the service lookup: an absent organization is NotFound. */
  function FindOneResponse<O>(found: Option<O>): (r: Result<O>)
    ensures r.Err? <==> found.None?
    ensures r.Err? ==> r.error == NotFound
    ensures r.Ok? ==> r.value == found.value
  {
    match found
    case None => Err(NotFound)
    case Some(org) => Ok(org)
  }

  /** Each handler calls its own service method: `create`, `findById`, `update` and `delete`. */
  lemma RouteCalls(id: nat, userId: nat)
    ensures Call(Create, id, userId) == CreateOrganization(userId)
    ensures Call(FindOne, id, userId) == FindOrganization(id)
    ensures Call(Update, id, userId) == UpdateOrganization(id)
    ensures Call(Delete, id, userId) == DeleteOrganization(id)
    ensures forall r1: Route, r2: Route :: r1 != r2 ==> Call(r1, id, userId) != Call(r2, id, userId)
  {
  }

  /** Every route authenticates first; `create` needs nothing more. */
  lemma CreateNeedsOnlyAuthentication(id: nat, userId: nat, passes: Stage -> bool)
    ensures forall route :: Stages(route)[0] == JwtAuth
    ensures Handle(Create, id, userId, passes) ==
      if passes(JwtAuth) then Forwarded(CreateOrganization(userId)) else Rejected(JwtAuth)
  {
  }

  /** The stages of each route: GET :id needs membership but no permission; PATCH and
      DELETE run the membership stage before their permission stage. */
  lemma RouteStages()
    ensures Stages(FindOne) == [JwtAuth, OrganizationMember]
    ensures Stages(Update) == [JwtAuth, OrganizationMember, PermissionCheck(Permissions.Update, Permissions.Organization)]
    ensures Stages(Delete) == [JwtAuth, OrganizationMember, PermissionCheck(Permissions.Delete, Permissions.Organization)]
  {
  }

  /** A non-member is stopped by the membership stage of PATCH and DELETE before the
      permission stage is consulted. */
  lemma NonMemberStopsBeforePermission(route: Route, id: nat, userId: nat, passes: Stage -> bool)
    requires route == Update || route == Delete
    requires passes(JwtAuth) && !passes(OrganizationMember)
    ensures Handle(route, id, userId, passes) == Rejected(OrganizationMember)
  {
  }
}
