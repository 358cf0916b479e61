/** The account rules of src/modules/auth/auth.service.ts, stated on values: the user table
    keyed by email, and one step function per state-changing operation. bcrypt and JWT
    signing are foreign libraries; they enter as the function parameters `hash` and `sign`.
    The class AuthService.AuthService is proved to follow these step functions. */
module Accounts {
  import opened Results

  /** A row of `users`; `password` holds the bcrypt hash and is absent for accounts created
      by a Google login. */
  datatype User = User(id: nat, email: string, name: string, password: Option<string>, avatar: Option<string>)

  /** The user table; `nextUserId` is the id the database assigns to the next saved user. */
  datatype UserTable = UserTable(users: seq<User>, nextUserId: nat)

  /** The JWT payload `generateToken` signs. */
  datatype Payload = Payload(sub: nat, email: string)

  /** `LoginResponse`: the signed token and the profile of the user logged in. */
  datatype LoginResponse = LoginResponse(accessToken: string, userData: User)

  datatype Step<+T> = Step(after: UserTable, result: Result<T>)

  /** `saltOrRounds` passed to bcrypt.hash by `register`. */
  const SaltRounds: nat := 10

  /** The repository's lookup by email: the first user with that email, if any. */
  function FindByEmail(users: seq<User>, email: string): (r: Option<User>)
    ensures r.Some? ==> r.value in users && r.value.email == email
    ensures r.None? <==> forall k :: 0 <= k < |users| ==> users[k].email != email
  {
    if users == [] then None
    else if users[0].email == email then Some(users[0])
    else
      var r := FindByEmail(users[1..], email);
      assert r.None? ==> forall k :: 1 <= k < |users| ==> users[1..][k - 1] == users[k];
      r
  }

  /** `user.save()` on an existing row: the row with the same id is overwritten. */
  function ReplaceUser(users: seq<User>, updated: User): seq<User> {
    seq(|users|, k requires 0 <= k < |users| => if users[k].id == updated.id then updated else users[k])
  }

  /** User ids are distinct and below the next id; emails are distinct. */
  predicate Valid(t: UserTable) {
    && (forall k :: 0 <= k < |t.users| ==> t.users[k].id < t.nextUserId)
    && (forall i, j :: 0 <= i < j < |t.users| ==> t.users[i].id != t.users[j].id)
    && (forall i, j :: 0 <= i < j < |t.users| ==> t.users[i].email != t.users[j].email)
  }

  /** `generateToken`'s payload. */
  function GenerateToken(user: User): Payload {
    Payload(user.id, user.email)
  }

  /** `register`: reject a known email, otherwise save a user with the bcrypt hash. */
  function RegisterStep(t: UserTable, email: string, name: string, password: string,
                        hash: (string, nat) -> string): Step<User>
  {
    if FindByEmail(t.users, email).Some? then Step(t, Err(BadRequest))
    else
      var user := User(t.nextUserId, email, name, Some(hash(password, SaltRounds)), None);
      Step(UserTable(t.users + [user], t.nextUserId + 1), Ok(user))
  }

  /** `loginWithGoogle`: create the account on first sight of the email, otherwise fill an empty
      avatar; then sign a token for the user. */
  function LoginWithGoogleStep(t: UserTable, email: string, name: string, avatar: Option<string>,
                               sign: Payload -> string): Step<LoginResponse>
  {
    match FindByEmail(t.users, email)
    case None =>
      var user := User(t.nextUserId, email, name, None, if Truthy(avatar) then avatar else None);
      Step(UserTable(t.users + [user], t.nextUserId + 1), Ok(LoginResponse(sign(GenerateToken(user)), user)))
    case Some(user) =>
      if Truthy(user.avatar) then Step(t, Ok(LoginResponse(sign(GenerateToken(user)), user)))
      else
        var updated := user.(avatar := avatar);
        Step(t.(users := ReplaceUser(t.users, updated)), Ok(LoginResponse(sign(GenerateToken(updated)), updated)))
  }

  // ---------------------------------------------------------------- lemmas

  /** Under the invariant the token payload names exactly one user of the table. */
  lemma TokenIdentifiesUser(t: UserTable, i: nat, j: nat)
    requires Valid(t) && i < |t.users| && j < |t.users|
    requires GenerateToken(t.users[i]) == GenerateToken(t.users[j])
    ensures i == j
  {
  }

  /** Under the invariant the lookup by email is exact: it returns the one user with that email. */
  lemma FindByEmailUnique(t: UserTable, k: nat)
    requires Valid(t) && k < |t.users|
    ensures FindByEmail(t.users, t.users[k].email) == Some(t.users[k])
  {
  }

  /** `register` with an email already in the table throws BadRequest and adds no user. */
  lemma RegisterRejectsKnownEmail(t: UserTable, email: string, name: string, password: string,
                                  hash: (string, nat) -> string, k: nat)
    requires k < |t.users| && t.users[k].email == email
    ensures RegisterStep(t, email, name, password, hash) == Step(t, Err(BadRequest))
  {
  }

  /** A successful `register` appends one user with the given email and name, a fresh id,
      no avatar, and the bcrypt hash of the password in place of the password. */
  lemma RegisterStoresHash(t: UserTable, email: string, name: string, password: string,
                           hash: (string, nat) -> string)
    requires Valid(t)
    ensures RegisterStep(t, email, name, password, hash).result.Ok? <==>
      forall k :: 0 <= k < |t.users| ==> t.users[k].email != email
    ensures var s := RegisterStep(t, email, name, password, hash);
      s.result.Ok? ==>
        var u := s.result.value;
        && s.after.users == t.users + [u]
        && u.email == email && u.name == name
        && u.password == Some(hash(password, SaltRounds))
        && u.avatar == None
        && forall k :: 0 <= k < |t.users| ==> t.users[k].id != u.id
  {
  }

  lemma RegisterPreservesValid(t: UserTable, email: string, name: string, password: string,
                               hash: (string, nat) -> string)
    requires Valid(t)
    ensures Valid(RegisterStep(t, email, name, password, hash).after)
  {
  }

  /** A Google login with a new email creates exactly one user, with that email and name,
      no password, and the avatar only when one is supplied; reading the email back finds
      that user, whose id and email the token carries. */
  lemma GoogleLoginCreates(t: UserTable, email: string, name: string, avatar: Option<string>,
                           sign: Payload -> string)
    requires forall k :: 0 <= k < |t.users| ==> t.users[k].email != email
    ensures var s := LoginWithGoogleStep(t, email, name, avatar, sign);
      && s.result.Ok?
      && |s.after.users| == |t.users| + 1
      && s.after.users[..|t.users|] == t.users
      && s.after.users[|t.users|] == s.result.value.userData
      && s.result.value.userData.email == email
      && s.result.value.userData.name == name
      && s.result.value.userData.password == None
      && (s.result.value.userData.avatar.Some? <==> Truthy(avatar))
      && (Truthy(avatar) ==> s.result.value.userData.avatar == avatar)
      && FindByEmail(s.after.users, email) == Some(s.result.value.userData)
      && s.result.value.accessToken == sign(Payload(s.result.value.userData.id, email))
  {
  }

  /** A Google login with a known email creates no user; it fills the stored avatar with the
      supplied one only when the stored one is empty, and otherwise changes nothing. */
  lemma GoogleLoginExisting(t: UserTable, email: string, name: string, avatar: Option<string>,
                            sign: Payload -> string, k: nat)
    requires Valid(t)
    requires k < |t.users| && t.users[k].email == email
    ensures var s := LoginWithGoogleStep(t, email, name, avatar, sign);
      && s.result.Ok?
      && |s.after.users| == |t.users|
      && (Truthy(t.users[k].avatar) ==> s.after == t && s.result.value.userData == t.users[k])
      && (!Truthy(t.users[k].avatar) ==>
            s.after.users[k] == t.users[k].(avatar := avatar) && s.result.value.userData == s.after.users[k])
      && (forall j :: 0 <= j < |t.users| && j != k ==> s.after.users[j] == t.users[j])
      && s.result.value.accessToken == sign(Payload(t.users[k].id, email))
  {
  }

  lemma GoogleLoginPreservesValid(t: UserTable, email: string, name: string, avatar: Option<string>,
                                  sign: Payload -> string)
    requires Valid(t)
    ensures Valid(LoginWithGoogleStep(t, email, name, avatar, sign).after)
  {
    match FindByEmail(t.users, email)
    case None =>
      AppendUserKeepsValid(t, User(t.nextUserId, email, name, None, if Truthy(avatar) then avatar else None));
    case Some(user) =>
      if !Truthy(user.avatar) {
        UniqueUserEmail(t, user);
        ReplaceUserKeepsValid(t, user.(avatar := avatar));
      }
  }

  /** Saving a user with the next id and an unknown email keeps the invariant. */
  lemma AppendUserKeepsValid(t: UserTable, user: User)
    requires Valid(t) && user.id == t.nextUserId
    requires forall k :: 0 <= k < |t.users| ==> t.users[k].email != user.email
    ensures Valid(UserTable(t.users + [user], t.nextUserId + 1))
  {
  }

  /** Under distinct ids, every row with the id of a stored user has that user's email. */
  lemma UniqueUserEmail(t: UserTable, user: User)
    requires Valid(t) && user in t.users
    ensures forall k :: 0 <= k < |t.users| && t.users[k].id == user.id ==> t.users[k].email == user.email
  {
    var j :| 0 <= j < |t.users| && t.users[j] == user;
  }

  /** Overwriting a row by a patch that keeps its id and email keeps the invariant. */
  lemma ReplaceUserKeepsValid(t: UserTable, updated: User)
    requires Valid(t)
    requires forall k :: 0 <= k < |t.users| && t.users[k].id == updated.id ==> t.users[k].email == updated.email
    ensures Valid(t.(users := ReplaceUser(t.users, updated)))
  {
    var after := ReplaceUser(t.users, updated);
    assert forall k :: 0 <= k < |t.users| ==> after[k].id == t.users[k].id && after[k].email == t.users[k].email;
  }

  /** Repeating a Google login with the same email never creates a second user: the second
      call finds the user the first one created or found, and logs that same user in. */
  lemma GoogleLoginTwiceCreatesOnce(t: UserTable, email: string, name1: string, avatar1: Option<string>,
                                    name2: string, avatar2: Option<string>, sign: Payload -> string)
    requires Valid(t)
    ensures var first := LoginWithGoogleStep(t, email, name1, avatar1, sign);
      var second := LoginWithGoogleStep(first.after, email, name2, avatar2, sign);
      && |second.after.users| == |first.after.users| <= |t.users| + 1
      && second.result.Ok? && first.result.Ok?
      && second.result.value.userData.id == first.result.value.userData.id
  {
    var first := LoginWithGoogleStep(t, email, name1, avatar1, sign);
    GoogleLoginPreservesValid(t, email, name1, avatar1, sign);
    var a := first.after;
    var found := FindByEmail(t.users, email);
    if found.None? {
      GoogleLoginCreates(t, email, name1, avatar1, sign);
      GoogleLoginExisting(a, email, name2, avatar2, sign, |t.users|);
    } else {
      var k :| 0 <= k < |t.users| && t.users[k] == found.value;
      GoogleLoginExisting(t, email, name1, avatar1, sign, k);
      GoogleLoginExisting(a, email, name2, avatar2, sign, k);
    }
  }
}
