/** The AuthService class of src/modules/auth/auth.service.ts over an in-memory user table.
    `register` and `loginWithGoogle` are proved to follow the step functions of Accounts and
    to keep its invariant; `login`, which changes nothing, states its result directly.
    bcrypt.hash, bcrypt.compare and JwtService.sign are the constant function fields
    `hash`, `compare` and `sign`. */
module AuthService {
  import opened Results
  import opened Accounts

  class AuthService {
    var users: seq<User>
    var nextUserId: nat
    /** bcrypt.hash(password, saltOrRounds). */
    const hash: (string, nat) -> string
    /** bcrypt.compare(password, storedHash). */
    const compare: (string, string) -> bool
    /** JwtService.sign(payload). */
    const sign: Payload -> string

    function Table(): UserTable
      reads this
    {
      UserTable(users, nextUserId)
    }

    predicate Valid()
      reads this
    {
      Accounts.Valid(Table())
    }

    constructor (hash: (string, nat) -> string, compare: (string, string) -> bool,
                 sign: Payload -> string, initial: UserTable)
      requires Accounts.Valid(initial)
      ensures Valid() && Table() == initial
      ensures this.hash == hash && this.compare == compare && this.sign == sign
    {
      this.hash := hash;
      this.compare := compare;
      this.sign := sign;
      users := initial.users;
      nextUserId := initial.nextUserId;
    }

    /** `login(request)`: look the user up by email, check the password against the stored
        hash, and sign a token for the user. A user created by a Google login has no stored
        hash, and bcrypt.compare rejects the call. */
    method Login(email: string, password: string) returns (r: Result<LoginResponse>)
      ensures r == Err(NotFound) <==> forall k :: 0 <= k < |users| ==> users[k].email != email
      ensures r == Err(InternalError) <==> FindByEmail(users, email).Some? && FindByEmail(users, email).value.password.None?
      ensures r == Err(Unauthorized) <==>
        && FindByEmail(users, email).Some?
        && FindByEmail(users, email).value.password.Some?
        && !compare(password, FindByEmail(users, email).value.password.value)
      ensures r.Ok? <==>
        && FindByEmail(users, email).Some?
        && FindByEmail(users, email).value.password.Some?
        && compare(password, FindByEmail(users, email).value.password.value)
      ensures r.Ok? ==> r.value.userData == FindByEmail(users, email).value
      ensures r.Ok? ==>
        && r.value.userData in users
        && r.value.userData.email == email
        && r.value.userData.password.Some?
        && compare(password, r.value.userData.password.value)
        && r.value.accessToken == sign(Payload(r.value.userData.id, email))
    {
      var found := FindByEmail(users, email);
      if found.None? {
        return Err(NotFound);
      }
      var user := found.value;
      if user.password.None? {
        return Err(InternalError);
      }
      var isMatch := compare(password, user.password.value);
      if !isMatch {
        return Err(Unauthorized);
      }
      var token := sign(GenerateToken(user));
      r := Ok(LoginResponse(token, user));
    }

    /** `loginWithGoogle(request)`. */
    method LoginWithGoogle(email: string, name: string, avatar: Option<string>) returns (r: Result<LoginResponse>)
      requires Valid()
      modifies this
      ensures Valid()
      ensures Step(Table(), r) == LoginWithGoogleStep(old(Table()), email, name, avatar, sign)
    {
      var t := Table();
      GoogleLoginPreservesValid(t, email, name, avatar, sign);
      var newUsers, newNext := t.users, t.nextUserId;
      var found := FindByEmail(t.users, email);
      if found.None? {
        var newUser := User(t.nextUserId, email, name, None, if Truthy(avatar) then avatar else None);
        newUsers, newNext := t.users + [newUser], t.nextUserId + 1;
        assert LoginWithGoogleStep(t, email, name, avatar, sign).after == UserTable(newUsers, newNext);
        GoogleLoginCreates(t, email, name, avatar, sign);
        // the user is read back by email after the save
        var created := FindByEmail(newUsers, email);
        assert created == Some(newUser);
        r := Ok(LoginResponse(sign(GenerateToken(created.value)), created.value));
      } else {
        var user := found.value;
        if !Truthy(user.avatar) {
          user := user.(avatar := avatar);
          newUsers := ReplaceUser(t.users, user);
        }
        r := Ok(LoginResponse(sign(GenerateToken(user)), user));
      }
      assert Step(UserTable(newUsers, newNext), r) == LoginWithGoogleStep(t, email, name, avatar, sign);
      users, nextUserId := newUsers, newNext;
    }

    /** `register(request)`. */
    method Register(email: string, name: string, password: string) returns (r: Result<User>)
      requires Valid()
      modifies this
      ensures Valid()
      ensures Step(Table(), r) == RegisterStep(old(Table()), email, name, password, hash)
    {
      RegisterPreservesValid(Table(), email, name, password, hash);
      var existed := FindByEmail(users, email);
      if existed.Some? {
        return Err(BadRequest);
      }
      var user := User(nextUserId, email, name, Some(hash(password, SaltRounds)), None);
      users := users + [user];
      nextUserId := nextUserId + 1;
      r := Ok(user);
    }
  }
}
