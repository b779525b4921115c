/**
 * The users table as the admin gate, the login action and the doctor
 * controllers see it, and the bearer-token store behind login, logout,
 * logout-all and refresh.
 *
 * `User::isAdmin()` is taken to mean `role == 'admin'` (the User model is not
 * part of this model). The public controllers filter doctors on an
 * `is_doctor` column while the admin controllers filter on `role`; both
 * columns are kept, unreconciled.
 */
module Users {
  import opened Common

  datatype Role = AdminRole | DoctorRole | OtherRole(name: string)

  datatype User = User(
    id: nat,
    email: string,
    passwordHash: string,
    role: Role,
    isDoctor: bool,
    isActive: bool,
    yearsOfExperience: Option<int>)

  predicate IsAdmin(u: User) {
    u.role == AdminRole
  }

  // ---------------------------------------------------------------------
  // EnsureUserIsAdmin::handle

  datatype GateOutcome = Unauthenticated | AdminOnly | AccountInactive | PassOn(user: User)

  const AdminOnlyMessage := "Unauthorized. Admin access only."
  const InactiveMessage := "Account is inactive. Please contact support."

  /** The three guards in order; the request reaches the next handler only past all of them. */
  function AdminGate(current: Option<User>): (r: GateOutcome)
    ensures r == Unauthenticated <==> current.None?
    ensures r == AdminOnly <==> current.Some? && !IsAdmin(current.value)
    ensures r == AccountInactive <==> current.Some? && IsAdmin(current.value) && !current.value.isActive
    ensures r.PassOn? <==> current.Some? && IsAdmin(current.value) && current.value.isActive
    ensures r.PassOn? ==> r.user == current.value
  {
    if current.None? then Unauthenticated
    else if !IsAdmin(current.value) then AdminOnly
    else if !current.value.isActive then AccountInactive
    else PassOn(current.value)
  }

  /** The response the gate sends when it stops a request. */
  function GateReply(g: GateOutcome): (r: Reply)
    ensures r.Done? <==> g.PassOn?
    ensures g == Unauthenticated ==> r == Fail(401, "Unauthenticated")
    ensures g == AdminOnly ==> r == Fail(403, AdminOnlyMessage)
    ensures g == AccountInactive ==> r == Fail(403, InactiveMessage)
  {
    match g
    case Unauthenticated => Fail(401, "Unauthenticated")
    case AdminOnly => Fail(403, AdminOnlyMessage)
    case AccountInactive => Fail(403, InactiveMessage)
    case PassOn(_) => Done
  }

  /** A non-admin is refused as such whatever the active flag says. */
  lemma GateIgnoresActiveFlagOfNonAdmins(u: User)
    requires !IsAdmin(u)
    ensures GateReply(AdminGate(Some(u))) == GateReply(AdminGate(Some(u.(isActive := !u.isActive))))
    ensures GateReply(AdminGate(Some(u))) == Fail(403, AdminOnlyMessage)
  {
  }

  // ---------------------------------------------------------------------
  // AuthController::login

  datatype LoginRequest = LoginRequest(email: string, password: string)

  datatype LoginOutcome =
    | LoginInvalid                      // 422: the request's rules failed
    | LoginRefused(status: int, message: string)
    | LoggedIn(user: User, tokenType: string)

  const InvalidCredentials := "Invalid credentials"

  /**
   * `required|email` and `required|string|min:6`: both fields must hold more
   * than blanks, and the password at least six characters (the e-mail syntax
   * itself is not modelled).
   */
  predicate LoginRequestValid(req: LoginRequest) {
    Filled(req.email) && Filled(req.password) && |req.password| >= 6
  }

  /** `User::where('email', ...)->first()`. */
  function FirstWithEmail(users: seq<User>, email: string): (r: Option<User>)
    ensures r.None? <==> forall i :: 0 <= i < |users| ==> users[i].email != email
    ensures r.Some? ==> r.value in users && r.value.email == email
    ensures users != [] && users[0].email == email ==> r == Some(users[0])
  {
    if users == [] then None
    else if users[0].email == email then Some(users[0])
    else FirstWithEmail(users[1..], email)
  }

  /**
   * The login decision. `passwordMatches(plain, hash)` stands for
   * `Hash::check`, which the model does not look into.
   */
  function Login(users: seq<User>, req: LoginRequest, passwordMatches: (string, string) -> bool): (r: LoginOutcome)
    ensures r.LoggedIn? <==>
      LoginRequestValid(req) && FirstWithEmail(users, req.email).Some?
      && var u := FirstWithEmail(users, req.email).value;
         IsAdmin(u) && u.isActive && passwordMatches(req.password, u.passwordHash)
    ensures r.LoggedIn? ==> r.tokenType == "Bearer" && r.user == FirstWithEmail(users, req.email).value
    ensures r == LoginInvalid <==> !LoginRequestValid(req)
    ensures r.LoginRefused? ==> r.status in {401, 403}
    ensures LoginRequestValid(req) && FirstWithEmail(users, req.email).None? ==>
      r == LoginRefused(401, InvalidCredentials)
    ensures LoginRequestValid(req) && FirstWithEmail(users, req.email).Some? ==>
      var u := FirstWithEmail(users, req.email).value;
      (!IsAdmin(u) ==> r == LoginRefused(403, AdminOnlyMessage))
      && (IsAdmin(u) && !u.isActive ==> r == LoginRefused(403, InactiveMessage))
      && (IsAdmin(u) && u.isActive && !passwordMatches(req.password, u.passwordHash) ==>
            r == LoginRefused(401, InvalidCredentials))
  {
    if !LoginRequestValid(req) then LoginInvalid
    else
      match FirstWithEmail(users, req.email)
      case None => LoginRefused(401, InvalidCredentials)
      case Some(u) =>
        if !IsAdmin(u) then LoginRefused(403, AdminOnlyMessage)
        else if !u.isActive then LoginRefused(403, InactiveMessage)
        else if !passwordMatches(req.password, u.passwordHash) then LoginRefused(401, InvalidCredentials)
        else LoggedIn(u, "Bearer")
  }

  /** An unknown e-mail and a wrong password get the same answer. */
  lemma UnknownEmailAndWrongPasswordLookAlike(users: seq<User>, req: LoginRequest, check: (string, string) -> bool)
    requires LoginRequestValid(req)
    requires FirstWithEmail(users, req.email).None?
        || (var u := FirstWithEmail(users, req.email).value;
            IsAdmin(u) && u.isActive && !check(req.password, u.passwordHash))
    ensures Login(users, req, check) == LoginRefused(401, InvalidCredentials)
  {
  }

  /**
   * A non-admin or an inactive account is refused with 403 before the
   * password is looked at: the answer is the same whatever the password check says.
   */
  lemma RoleCheckedBeforePassword(users: seq<User>, req: LoginRequest,
                                  check1: (string, string) -> bool, check2: (string, string) -> bool)
    requires LoginRequestValid(req) && FirstWithEmail(users, req.email).Some?
    requires !IsAdmin(FirstWithEmail(users, req.email).value) || !FirstWithEmail(users, req.email).value.isActive
    ensures Login(users, req, check1) == Login(users, req, check2)
    ensures Login(users, req, check1).LoginRefused? && Login(users, req, check1).status == 403
    ensures !IsAdmin(FirstWithEmail(users, req.email).value) ==>
      Login(users, req, check1) == LoginRefused(403, AdminOnlyMessage)
    ensures IsAdmin(FirstWithEmail(users, req.email).value) ==>
      Login(users, req, check1) == LoginRefused(403, InactiveMessage)
  {
  }

  /**
   * Login refuses a non-admin or inactive account with exactly the status and
   * message the admin gate sends that user.
   */
  lemma LoginRefusesAsGateDoes(users: seq<User>, req: LoginRequest, check: (string, string) -> bool)
    requires LoginRequestValid(req) && FirstWithEmail(users, req.email).Some?
    ensures var u := FirstWithEmail(users, req.email).value;
      !AdminGate(Some(u)).PassOn? ==>
        GateReply(AdminGate(Some(u))) == Fail(Login(users, req, check).status, Login(users, req, check).message)
  {
  }

  // ---------------------------------------------------------------------
  // Personal access tokens

  datatype Token = Token(id: nat, userId: nat)

  class TokenStore {
    var tokens: set<Token>
    var nextId: nat

    ghost predicate Valid()
      reads this
    {
      forall t :: t in tokens ==> t.id < nextId
    }

    constructor ()
      ensures Valid() && tokens == {}
    {
      tokens := {};
      nextId := 1;
    }

    /** `createToken`: one new token, distinct from every existing one. */
    method Issue(userId: nat) returns (t: Token)
      requires Valid()
      modifies this
      ensures Valid()
      ensures t.userId == userId && t !in old(tokens)
      ensures tokens == old(tokens) + {t}
    {
      t := Token(nextId, userId);
      tokens := tokens + {t};
      nextId := nextId + 1;
    }

    /** A successful login issues a token; any refused login issues none. */
    method SignIn(users: seq<User>, req: LoginRequest, passwordMatches: (string, string) -> bool)
      returns (r: LoginOutcome, token: Option<Token>)
      requires Valid()
      modifies this
      ensures Valid()
      ensures r == Login(users, req, passwordMatches)
      ensures token.Some? <==> r.LoggedIn?
      ensures r.LoggedIn? ==>
        token.value.userId == r.user.id && token.value !in old(tokens) && tokens == old(tokens) + {token.value}
      ensures !r.LoggedIn? ==> tokens == old(tokens)
    {
      r := Login(users, req, passwordMatches);
      if r.LoggedIn? {
        var t := Issue(r.user.id);
        token := Some(t);
      } else {
        token := None;
      }
    }

    /** `logout`: the current token is deleted and nothing else. */
    method Logout(current: Token)
      requires Valid() && current in tokens
      modifies this
      ensures Valid()
      ensures tokens == old(tokens) - {current}
      ensures forall t :: t in old(tokens) && t != current ==> t in tokens
    {
      tokens := tokens - {current};
    }

    /** `logoutAll`: every token of the user is deleted; other users keep theirs. */
    method LogoutAll(userId: nat)
      requires Valid()
      modifies this
      ensures Valid()
      ensures forall t :: t in tokens <==> t in old(tokens) && t.userId != userId
    {
      tokens := set t | t in tokens && t.userId != userId;
    }

    /** `refresh`: the current token is replaced by exactly one new token for the same user. */
    method Refresh(current: Token) returns (renewed: Token)
      requires Valid() && current in tokens
      modifies this
      ensures Valid()
      ensures renewed.userId == current.userId && renewed !in old(tokens)
      ensures tokens == (old(tokens) - {current}) + {renewed}
    {
      renewed := Token(nextId, current.userId);
      tokens := (tokens - {current}) + {renewed};
      nextId := nextId + 1;
    }
  }
}
