/** The permission catalog types of src/db/entities/permission.entity.ts: the two closed
    enums, their string values, the Permission record, and lookup of a permission by
    its (action, subject) pair in the read-only catalog table. */
module Permissions {
  import opened Results

  datatype Action = Manage | Create | Read | Update | Delete

  datatype Subject = All | Organization | User | Role | Invoice | Project | Budget | Category

  /** One row of the `permissions` table: an id and exactly one action and one subject. */
  datatype Permission = Permission(id: nat, action: Action, subject: Subject)

  /** The (action, subject) pair a request body names when it asks for a permission. */
  datatype PermissionConfig = PermissionConfig(action: Action, subject: Subject)

  const AllActions: seq<Action> := [Manage, Create, Read, Update, Delete]

  const AllSubjects: seq<Subject> :=
    [All, Organization, User, Role, Invoice, Project, Budget, Category]

  /** The string value each action member carries in the enum. */
  function ActionValue(a: Action): string {
    match a
    case Manage => "manage"
    case Create => "create"
    case Read => "read"
    case Update => "update"
    case Delete => "delete"
  }

  /** The string value each subject member carries in the enum. */
  function SubjectValue(s: Subject): string {
    match s
    case All => "all"
    case Organization => "organization"
    case User => "user"
    case Role => "role"
    case Invoice => "invoice"
    case Project => "project"
    case Budget => "budget"
    case Category => "category"
  }

  /** Reads an action back from its string value; any other string is no action. */
  function ParseAction(s: string): (r: Option<Action>)
    ensures r.Some? ==> ActionValue(r.value) == s
    ensures r.None? ==> forall k :: 0 <= k < |AllActions| ==> ActionValue(AllActions[k]) != s
  {
    if s == "manage" then Some(Manage)
    else if s == "create" then Some(Create)
    else if s == "read" then Some(Read)
    else if s == "update" then Some(Update)
    else if s == "delete" then Some(Delete)
    else None
  }

  /** Reads a subject back from its string value; any other string is no subject. */
  function ParseSubject(s: string): (r: Option<Subject>)
    ensures r.Some? ==> SubjectValue(r.value) == s
    ensures r.None? ==> forall k :: 0 <= k < |AllSubjects| ==> SubjectValue(AllSubjects[k]) != s
  {
    if s == "all" then Some(All)
    else if s == "organization" then Some(Organization)
    else if s == "user" then Some(User)
    else if s == "role" then Some(Role)
    else if s == "invoice" then Some(Invoice)
    else if s == "project" then Some(Project)
    else if s == "budget" then Some(Budget)
    else if s == "category" then Some(Category)
    else None
  }

  /** An action is one of exactly five distinct members. */
  lemma ActionsEnumerated(a: Action)
    ensures a in AllActions
    ensures |AllActions| == 5
    ensures forall i, j :: 0 <= i < j < |AllActions| ==> AllActions[i] != AllActions[j]
  {
  }

  /** A subject is one of exactly eight distinct members. */
  lemma SubjectsEnumerated(s: Subject)
    ensures s in AllSubjects
    ensures |AllSubjects| == 8
    ensures forall i, j :: 0 <= i < j < |AllSubjects| ==> AllSubjects[i] != AllSubjects[j]
  {
  }

  /** Decoding an encoded action gives it back, so distinct actions have distinct values. */
  lemma ActionRoundTrip(a: Action, b: Action)
    ensures ParseAction(ActionValue(a)) == Some(a)
    ensures ActionValue(a) == ActionValue(b) ==> a == b
  {
  }

  /** Decoding an encoded subject gives it back, so distinct subjects have distinct values. */
  lemma SubjectRoundTrip(s: Subject, t: Subject)
    ensures ParseSubject(SubjectValue(s)) == Some(s)
    ensures SubjectValue(s) == SubjectValue(t) ==> s == t
  {
  }

  /** The catalog table: permission ids are distinct and no (action, subject) pair repeats. */
  predicate CatalogValid(catalog: seq<Permission>) {
    forall i, j :: 0 <= i < j < |catalog| ==>
      catalog[i].id != catalog[j].id
      && (catalog[i].action, catalog[i].subject) != (catalog[j].action, catalog[j].subject)
  }

  /** Some catalog row has this id. */
  predicate InCatalog(catalog: seq<Permission>, permissionId: nat) {
    exists k :: 0 <= k < |catalog| && catalog[k].id == permissionId
  }

  predicate Matches(p: Permission, config: PermissionConfig) {
    p.action == config.action && p.subject == config.subject
  }

  /** The catalog row for an (action, subject) pair, if one was seeded. */
  function FindByPermissionConfig(catalog: seq<Permission>, config: PermissionConfig): (r: Option<Permission>)
    ensures r.Some? ==> r.value in catalog && Matches(r.value, config)
    ensures r.None? <==> forall k :: 0 <= k < |catalog| ==> !Matches(catalog[k], config)
  {
    if catalog == [] then None
    else if Matches(catalog[0], config) then Some(catalog[0])
    else FindByPermissionConfig(catalog[1..], config)
  }

  /** In a valid catalog the lookup is exact: it returns the one row with that pair. */
  lemma FindByPermissionConfigUnique(catalog: seq<Permission>, config: PermissionConfig, k: nat)
    requires CatalogValid(catalog)
    requires k < |catalog| && Matches(catalog[k], config)
    ensures FindByPermissionConfig(catalog, config) == Some(catalog[k])
  {
  }
}
