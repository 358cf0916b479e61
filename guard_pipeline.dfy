/** The request guard chain NestJS runs before a controller handler: the guards declared
    on the controller class, then those declared on the handler, each able to stop the
    request. The guards themselves (JwtAuthGuard, OrganizationMemberGuard, PermissionsGuard)
    are not part of this model; whether a guard lets a request through is the parameter
    `passes`. */
module GuardPipeline {
  import Permissions

  /** One guard of the chain; a permission stage carries its `@CheckPermissions` pair. */
  datatype Stage =
    | JwtAuth
    | OrganizationMember
    | PermissionCheck(action: Permissions.Action, subject: Permissions.Subject)

  datatype Decision = Pass | Reject(stage: Stage)

  /** Runs the stages in order and stops at the first one that does not pass. */
  function Evaluate(stages: seq<Stage>, passes: Stage -> bool): (d: Decision)
    ensures d.Pass? <==> forall k :: 0 <= k < |stages| ==> passes(stages[k])
    ensures d.Reject? ==>
      exists k :: 0 <= k < |stages| && stages[k] == d.stage && !passes(stages[k]) &&
        forall j :: 0 <= j < k ==> passes(stages[j])
  {
    if stages == [] then Pass
    else if !passes(stages[0]) then Reject(stages[0])
    else
      var d := Evaluate(stages[1..], passes);
      assert forall k :: 1 <= k < |stages| ==> stages[1..][k - 1] == stages[k];
      if d.Reject? then
        var k :| 0 <= k < |stages[1..]| && stages[1..][k] == d.stage && !passes(stages[1..][k]) &&
          forall j :: 0 <= j < k ==> passes(stages[1..][j]);
        assert stages[k + 1] == d.stage;
        d
      else d
  }

  /** Controller-level stages run before handler-level ones: a rejection by the first group
      is final, and only when all of it passes does the second group decide. */
  lemma {:induction false} EvaluateConcat(first: seq<Stage>, second: seq<Stage>, passes: Stage -> bool)
    ensures Evaluate(first + second, passes) ==
      if Evaluate(first, passes).Pass? then Evaluate(second, passes) else Evaluate(first, passes)
  {
    if first == [] {
      assert first + second == second;
    } else {
      assert (first + second)[0] == first[0];
      assert (first + second)[1..] == first[1..] + second;
      EvaluateConcat(first[1..], second, passes);
    }
  }

  /** The decision depends only on the declared stages: a guard that is not declared is
      never consulted. */
  lemma EvaluateReadsOnlyDeclared(stages: seq<Stage>, p: Stage -> bool, q: Stage -> bool)
    requires forall k :: 0 <= k < |stages| ==> p(stages[k]) == q(stages[k])
    ensures Evaluate(stages, p) == Evaluate(stages, q)
  {
  }
}
