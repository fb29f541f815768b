/**
 * The authentication endpoints: registration, login, logout, profile,
 * password change, the user listing, and the token refresh whose
 * blacklist check gives logout its effect.
 *
 * The user table and the refresh-token blacklist are the fields of
 * `Backend`; endpoints that only read them are functions of their values.
 * Token signing is abstract: a token pair is named by the user it was
 * issued for and a fresh identifier supplied by the caller, and decoding a
 * token string is a parameter.
 */
module AuthViews {
  import opened Wrappers
  import opened Users
  import opened Serializers

  const HTTP_200_OK: int := 200
  const HTTP_201_CREATED: int := 201
  const HTTP_400_BAD_REQUEST: int := 400
  const HTTP_401_UNAUTHORIZED: int := 401
  const HTTP_403_FORBIDDEN: int := 403
  const HTTP_500_INTERNAL_SERVER_ERROR: int := 500

  const REGISTERED: string := "User registered successfully"
  const LOGIN_SUCCESSFUL: string := "Login successful"
  const INVALID_CREDENTIALS: string := "Invalid username or password"
  const ACCOUNT_DISABLED: string := "Account is disabled"
  const LOGOUT_SUCCESSFUL: string := "Logout successful"
  const REFRESH_REQUIRED: string := "Refresh token is required"
  const INVALID_OR_BLACKLISTED: string := "Invalid token or token already blacklisted"
  const PROFILE_UPDATED: string := "Profile updated successfully"
  const PASSWORD_CHANGED: string := "Password changed successfully"
  const TOKEN_INVALID: string := "Token is invalid or expired"
  const TOKEN_BLACKLISTED: string := "Token is blacklisted"

  /** A refresh token and its access token, issued for `userId`; `jti` identifies the refresh token. */
  datatype TokenPair = TokenPair(userId: nat, jti: string)

  /** What a refresh token string decodes to once its signature, type and expiry check out. */
  datatype RefreshClaims = RefreshClaims(userId: nat, jti: string)

  /** Decoding a refresh token string; `None` for a malformed, forged, expired or non-refresh token. */
  type TokenDecoder = string -> Option<RefreshClaims>

  /** The user serializer's representation: no password, no active flag. */
  datatype UserView = UserView(
    id: nat, username: string, email: string, matricule: Option<string>,
    role: string, firstName: string, lastName: string, dateJoined: int)

  function Represent(u: User): (r: UserView)
    ensures r.id == u.id && r.username == u.username && r.email == u.email
    ensures ParseRole(r.role) == Some(u.role)
  {
    UserView(u.id, u.username, u.email, u.matricule, RoleValue(u.role), u.firstName, u.lastName, u.dateJoined)
  }

  /** Response bodies. */
  datatype Body =
    | UserWithTokens(user: UserView, message: string, tokens: TokenPair)
    | Error(error: string)
    | FieldErrors(keys: set<Field>)
    | Message(message: string)
    | Profile(user: UserView)
    | ProfileUpdated(user: UserView, message: string)
    | UserList(users: seq<UserView>, count: nat)
    | Access(userId: nat)
    /** The refusal of the `IsAuthenticated` permission. */
    | NotAuthenticated
    /** An integrity error from the database that nothing catches. */
    | ServerError

  datatype Response = Response(status: int, body: Body)

  const Unauthenticated: Response := Response(HTTP_401_UNAUTHORIZED, NotAuthenticated)

  /**
   * Request authentication: `caller` is the user id carried by a valid
   * access token, `None` when the request has none. The row must exist and
   * be active; the blacklist is not consulted for access tokens.
   */
  function Authenticate(users: seq<User>, caller: Option<nat>): (r: Option<nat>)
    ensures r.Some? ==> r.value < |users| && users[r.value].isActive && caller == Some(users[r.value].id)
    ensures ValidStore(users) && r.None? ==>
      caller.None? || forall i :: 0 <= i < |users| && users[i].id == caller.value ==> !users[i].isActive
  {
    if caller.None? then None
    else match FindById(users, caller.value)
      case None => None
      case Some(i) => if users[i].isActive then Some(i) else None
  }

  /** In a valid table an active user's own id authenticates as that user. */
  lemma AuthenticateActive(users: seq<User>, i: nat)
    requires ValidStore(users) && i < |users| && users[i].isActive
    ensures Authenticate(users, Some(users[i].id)) == Some(i)
  {
    FindByIdInValidStore(users, i);
  }

  // ---------------------------------------------------------------------
  // Login
  // ---------------------------------------------------------------------

  datatype LoginRequest = LoginRequest(username: Input, password: Input)

  function LoginFieldErrors(req: LoginRequest): set<Field>
  {
    (if Given(req.username) then {} else {Username}) + (if Given(req.password) then {} else {Password})
  }

  /** `LoginView.post`; `jti` names the token pair a success would issue. */
  function Login(users: seq<User>, req: LoginRequest, jti: string): Response
  {
    var errors := LoginFieldErrors(req);
    if errors != {} then Response(HTTP_400_BAD_REQUEST, FieldErrors(errors))
    else match FindByUsername(users, req.username.s)
      case None => Response(HTTP_401_UNAUTHORIZED, Error(INVALID_CREDENTIALS))
      case Some(i) =>
        if !users[i].isActive then Response(HTTP_403_FORBIDDEN, Error(ACCOUNT_DISABLED))
        else if CheckPassword(users[i].password, req.password.s) then
          Response(HTTP_200_OK, UserWithTokens(Represent(users[i]), LOGIN_SUCCESSFUL, TokenPair(users[i].id, jti)))
        else Response(HTTP_401_UNAUTHORIZED, Error(INVALID_CREDENTIALS))
  }

  /** A missing or blank username or password is refused with the failing keys. */
  lemma LoginMissingFields(users: seq<User>, req: LoginRequest, jti: string)
    requires !Given(req.username) || !Given(req.password)
    ensures Login(users, req, jti).status == HTTP_400_BAD_REQUEST
    ensures Login(users, req, jti).body.keys == LoginFieldErrors(req) != {}
  {
  }

  /** An unknown username is refused with 401 and the generic error text. */
  lemma LoginUnknownUser(users: seq<User>, req: LoginRequest, jti: string)
    requires Given(req.username) && Given(req.password) && !UsernameTaken(users, req.username.s, |users|)
    ensures Login(users, req, jti) == Response(HTTP_401_UNAUTHORIZED, Error(INVALID_CREDENTIALS))
  {
  }

  /** A disabled account is refused with 403 before its password is looked at, even a correct one. */
  lemma LoginInactiveUser(users: seq<User>, i: nat, password: string, jti: string)
    requires ValidStore(users) && i < |users| && !users[i].isActive && password != "" && users[i].username != ""
    ensures Login(users, LoginRequest(Value(users[i].username), Value(password)), jti)
            == Response(HTTP_403_FORBIDDEN, Error(ACCOUNT_DISABLED))
  {
    var f := FindByUsername(users, users[i].username);
    StrIdentifiesUser(users, i, f.value);
  }

  /**
   * For an active account a wrong password gets exactly the response an
   * unknown username gets, so the reply does not tell whether the account
   * exists.
   */
  lemma LoginWrongPassword(users: seq<User>, i: nat, password: string, jti: string)
    requires ValidStore(users) && i < |users| && users[i].isActive && password != "" && users[i].username != ""
    requires !CheckPassword(users[i].password, password)
    ensures Login(users, LoginRequest(Value(users[i].username), Value(password)), jti)
            == Login([], LoginRequest(Value(users[i].username), Value(password)), jti)
            == Response(HTTP_401_UNAUTHORIZED, Error(INVALID_CREDENTIALS))
  {
    var f := FindByUsername(users, users[i].username);
    StrIdentifiesUser(users, i, f.value);
  }

  /** An active account with its password gets 200 and a token pair issued for it. */
  lemma LoginSuccess(users: seq<User>, i: nat, password: string, jti: string)
    requires ValidStore(users) && i < |users| && users[i].isActive && password != "" && users[i].username != ""
    requires CheckPassword(users[i].password, password)
    ensures Login(users, LoginRequest(Value(users[i].username), Value(password)), jti)
            == Response(HTTP_200_OK, UserWithTokens(Represent(users[i]), LOGIN_SUCCESSFUL, TokenPair(users[i].id, jti)))
  {
    var f := FindByUsername(users, users[i].username);
    StrIdentifiesUser(users, i, f.value);
  }

  /** Login succeeds exactly for a stored, active username with its own password, and issues tokens for that user. */
  lemma LoginSucceedsExactly(users: seq<User>, req: LoginRequest, jti: string)
    requires ValidStore(users)
    ensures Login(users, req, jti).status == HTTP_200_OK <==>
      Given(req.username) && Given(req.password) &&
      exists i :: 0 <= i < |users| && users[i].username == req.username.s && users[i].isActive
                  && CheckPassword(users[i].password, req.password.s)
    ensures Login(users, req, jti).status == HTTP_200_OK ==>
      exists i :: 0 <= i < |users| && users[i].username == req.username.s
                  && Login(users, req, jti).body.tokens == TokenPair(users[i].id, jti)
  {
    if Given(req.username) && Given(req.password) {
      var f := FindByUsername(users, req.username.s);
      if f.Some? {
        forall i | 0 <= i < |users| && users[i].username == req.username.s
          ensures i == f.value
        {
          StrIdentifiesUser(users, i, f.value);
        }
      }
    }
  }

  // ---------------------------------------------------------------------
  // Logout and token refresh
  // ---------------------------------------------------------------------

  /**
   * The response of `LogoutView.post`. Constructing the token verifies it,
   * including the blacklist check, and any failure lands in the one
   * `except` branch.
   */
  function LogoutResponse(users: seq<User>, blacklist: set<string>, caller: Option<nat>, refreshToken: Input, decode: TokenDecoder): Response
  {
    if Authenticate(users, caller).None? then Unauthenticated
    else if !Given(refreshToken) then Response(HTTP_400_BAD_REQUEST, Error(REFRESH_REQUIRED))
    else match decode(refreshToken.s)
      case None => Response(HTTP_400_BAD_REQUEST, Error(INVALID_OR_BLACKLISTED))
      case Some(c) =>
        if c.jti in blacklist then Response(HTTP_400_BAD_REQUEST, Error(INVALID_OR_BLACKLISTED))
        else Response(HTTP_200_OK, Message(LOGOUT_SUCCESSFUL))
  }

  /** The identifiers that logout adds to the blacklist. */
  function LogoutRevokes(users: seq<User>, blacklist: set<string>, caller: Option<nat>, refreshToken: Input, decode: TokenDecoder): set<string>
  {
    if LogoutResponse(users, blacklist, caller, refreshToken, decode).status == HTTP_200_OK
    then {decode(refreshToken.s).value.jti} else {}
  }

  /** Logout revokes a token exactly when it answers 200, and then exactly that token's identifier. */
  lemma LogoutRevokesOnSuccess(users: seq<User>, blacklist: set<string>, caller: Option<nat>, refreshToken: Input, decode: TokenDecoder)
    ensures var r := LogoutResponse(users, blacklist, caller, refreshToken, decode);
      && (r.status == HTTP_200_OK <==>
            Authenticate(users, caller).Some? && Given(refreshToken)
            && decode(refreshToken.s).Some? && decode(refreshToken.s).value.jti !in blacklist)
      && (r.status == HTTP_200_OK ==> LogoutRevokes(users, blacklist, caller, refreshToken, decode) == {decode(refreshToken.s).value.jti})
      && (r.status != HTTP_200_OK ==> LogoutRevokes(users, blacklist, caller, refreshToken, decode) == {})
  {
  }

  /** Without a refresh token an authenticated logout answers 400 and revokes nothing. */
  lemma LogoutWithoutToken(users: seq<User>, blacklist: set<string>, caller: Option<nat>, refreshToken: Input, decode: TokenDecoder)
    requires Authenticate(users, caller).Some? && !Given(refreshToken)
    ensures LogoutResponse(users, blacklist, caller, refreshToken, decode) == Response(HTTP_400_BAD_REQUEST, Error(REFRESH_REQUIRED))
    ensures LogoutRevokes(users, blacklist, caller, refreshToken, decode) == {}
  {
  }

  /** Revocation is not idempotent: logging the same token out again answers 400. */
  lemma LogoutTwice(users: seq<User>, blacklist: set<string>, caller: Option<nat>, refreshToken: Input, decode: TokenDecoder)
    requires LogoutResponse(users, blacklist, caller, refreshToken, decode).status == HTTP_200_OK
    ensures var after := blacklist + LogoutRevokes(users, blacklist, caller, refreshToken, decode);
      LogoutResponse(users, after, caller, refreshToken, decode) == Response(HTTP_400_BAD_REQUEST, Error(INVALID_OR_BLACKLISTED))
  {
  }

  /** Any signed-in user can revoke any refresh token: the token's owner is never compared with the caller. */
  lemma LogoutIgnoresOwner(users: seq<User>, blacklist: set<string>, a: Option<nat>, b: Option<nat>, refreshToken: Input, decode: TokenDecoder)
    requires Authenticate(users, a).Some? && Authenticate(users, b).Some?
    ensures LogoutResponse(users, blacklist, a, refreshToken, decode) == LogoutResponse(users, blacklist, b, refreshToken, decode)
    ensures LogoutRevokes(users, blacklist, a, refreshToken, decode) == LogoutRevokes(users, blacklist, b, refreshToken, decode)
  {
  }

  /**
   * The token-refresh endpoint: a new access token for a valid refresh token
   * that is not blacklisted. The two refusals carry simplejwt's two `detail`
   * messages; the shared `code` field of its 401 body is not modelled.
   */
  function RefreshResponse(blacklist: set<string>, refresh: Input, decode: TokenDecoder): Response
  {
    if !Given(refresh) then Response(HTTP_400_BAD_REQUEST, FieldErrors({Refresh}))
    else match decode(refresh.s)
      case None => Response(HTTP_401_UNAUTHORIZED, Error(TOKEN_INVALID))
      case Some(c) =>
        if c.jti in blacklist then Response(HTTP_401_UNAUTHORIZED, Error(TOKEN_BLACKLISTED))
        else Response(HTTP_200_OK, Access(c.userId))
  }

  /**
   * A refresh token is honoured exactly while its identifier is not
   * blacklisted; since the blacklist only grows, a token once revoked by
   * logout is refused for good.
   */
  lemma RevocationIsPermanent(blacklist: set<string>, later: set<string>, users: seq<User>, caller: Option<nat>, token: string, decode: TokenDecoder)
    requires LogoutResponse(users, blacklist, caller, Value(token), decode).status == HTTP_200_OK
    requires blacklist + LogoutRevokes(users, blacklist, caller, Value(token), decode) <= later
    ensures RefreshResponse(blacklist, Value(token), decode) == Response(HTTP_200_OK, Access(decode(token).value.userId))
    ensures RefreshResponse(later, Value(token), decode) == Response(HTTP_401_UNAUTHORIZED, Error(TOKEN_BLACKLISTED))
  {
  }

  // ---------------------------------------------------------------------
  // Profile and listing
  // ---------------------------------------------------------------------

  /** `UserProfileView.retrieve`: the signed-in user's own representation. */
  function GetProfile(users: seq<User>, caller: Option<nat>): Response
  {
    match Authenticate(users, caller)
    case None => Unauthenticated
    case Some(k) => Response(HTTP_200_OK, Profile(Represent(users[k])))
  }

  /** The profile shows the caller's own row: the one whose id the access token carries. */
  lemma ProfileIsOwnRow(users: seq<User>, caller: Option<nat>)
    ensures GetProfile(users, caller).status == HTTP_200_OK ==>
      exists k :: 0 <= k < |users| && caller == Some(users[k].id) && users[k].isActive
                  && GetProfile(users, caller).body == Profile(Represent(users[k]))
    ensures caller.None? ==> GetProfile(users, caller) == Unauthenticated
  {
  }

  /** `UserListView.list`: every row, in table order, and their number. */
  function ListUsers(users: seq<User>, caller: Option<nat>): Response
  {
    if Authenticate(users, caller).None? then Unauthenticated
    else Response(HTTP_200_OK, UserList(seq(|users|, i requires 0 <= i < |users| => Represent(users[i])), |users|))
  }

  /**
   * The listing shows every stored user and counts them, and it is open to
   * every signed-in user whatever the role, not only to admins.
   */
  lemma ListUsersComplete(users: seq<User>, i: nat)
    requires ValidStore(users) && i < |users| && users[i].isActive
    ensures var r := ListUsers(users, Some(users[i].id));
      && r.status == HTTP_200_OK
      && r.body.count == |users| == |r.body.users|
      && (forall j :: 0 <= j < |users| ==> r.body.users[j] == Represent(users[j]))
  {
    AuthenticateActive(users, i);
  }

  /** Without a valid access token for an active row the listing is refused with 401. */
  lemma ListUsersNeedsAuthentication(users: seq<User>, caller: Option<nat>)
    requires Authenticate(users, caller).None?
    ensures ListUsers(users, caller) == Unauthenticated
  {
  }

  // ---------------------------------------------------------------------
  // The state-changing endpoints
  // ---------------------------------------------------------------------

  class Backend {
    var users: seq<User>
    var blacklist: set<string>

    /** The database constraints hold. */
    predicate Valid()
      reads this
    {
      ValidStore(users)
    }

    constructor ()
      ensures users == [] && blacklist == {} && Valid()
    {
      users := [];
      blacklist := {};
    }

    /**
     * `create_user` followed by the INSERT: the row is added unless it
     * breaks a unique constraint, in which case nothing changes and the
     * integrity error is reported as `None`.
     */
    method CreateUser(d: Registration, now: int) returns (created: Option<User>)
      requires Valid()
      modifies this
      ensures Valid() && blacklist == old(blacklist)
      ensures var u := NewUser(d, |old(users)| + 1, now);
        if CollidesWithOthers(old(users), u, |old(users)|) then created == None && users == old(users)
        else created == Some(u) && users == old(users) + [u]
    {
      var u := NewUser(d, |users| + 1, now);
      if CollidesWithOthers(users, u, |users|) {
        created := None;
      } else {
        AppendKeepsValid(users, u);
        users := users + [u];
        created := Some(u);
      }
    }

    /** `RegisterView.create`; `jti` names the token pair issued for the new user. */
    method Register(req: RegistrationRequest, v: Validators, now: int, jti: string) returns (resp: Response)
      requires Valid()
      modifies this
      ensures Valid() && blacklist == old(blacklist)
      ensures ValidateRegistration(old(users), req, v).Failure? ==>
        users == old(users)
        && resp == Response(HTTP_400_BAD_REQUEST, FieldErrors(ValidateRegistration(old(users), req, v).error))
      ensures ValidateRegistration(old(users), req, v).Success? ==>
        var u := NewUser(ValidateRegistration(old(users), req, v).value, |old(users)| + 1, now);
        if CollidesWithOthers(old(users), u, |old(users)|) then
          users == old(users) && resp == Response(HTTP_500_INTERNAL_SERVER_ERROR, ServerError)
        else
          users == old(users) + [u]
          && resp == Response(HTTP_201_CREATED, UserWithTokens(Represent(u), REGISTERED, TokenPair(u.id, jti)))
    {
      var checked := ValidateRegistration(users, req, v);
      if checked.Failure? {
        resp := Response(HTTP_400_BAD_REQUEST, FieldErrors(checked.error));
        return;
      }
      var created := CreateUser(checked.value, now);
      if created.None? {
        resp := Response(HTTP_500_INTERNAL_SERVER_ERROR, ServerError);
      } else {
        resp := Response(HTTP_201_CREATED, UserWithTokens(Represent(created.value), REGISTERED, TokenPair(created.value.id, jti)));
      }
    }

    /** `LogoutView.post`: blacklists the refresh token on success. */
    method Logout(caller: Option<nat>, refreshToken: Input, decode: TokenDecoder) returns (resp: Response)
      modifies this
      ensures users == old(users)
      ensures resp == LogoutResponse(old(users), old(blacklist), caller, refreshToken, decode)
      ensures blacklist == old(blacklist) + LogoutRevokes(old(users), old(blacklist), caller, refreshToken, decode)
    {
      if Authenticate(users, caller).None? {
        resp := Unauthenticated;
      } else if !Given(refreshToken) {
        resp := Response(HTTP_400_BAD_REQUEST, Error(REFRESH_REQUIRED));
      } else {
        var claims := decode(refreshToken.s);
        if claims.None? || claims.value.jti in blacklist {
          resp := Response(HTTP_400_BAD_REQUEST, Error(INVALID_OR_BLACKLISTED));
        } else {
          blacklist := blacklist + {claims.value.jti};
          resp := Response(HTTP_200_OK, Message(LOGOUT_SUCCESSFUL));
        }
      }
    }

    /** `ChangePasswordView.post`: overwrites the caller's credential. */
    method ChangePassword(caller: Option<nat>, req: PasswordChange, v: Validators) returns (resp: Response)
      requires Valid()
      modifies this
      ensures Valid() && blacklist == old(blacklist)
      ensures Authenticate(old(users), caller).None? ==> users == old(users) && resp == Unauthenticated
      ensures Authenticate(old(users), caller).Some? ==>
        var k := Authenticate(old(users), caller).value;
        match ValidatePasswordChange(old(users)[k], req, v)
        case Failure(keys) => users == old(users) && resp == Response(HTTP_400_BAD_REQUEST, FieldErrors(keys))
        case Success(p) =>
          users == old(users)[k := old(users)[k].(password := MakePassword(p))]
          && resp == Response(HTTP_200_OK, Message(PASSWORD_CHANGED))
    {
      var signedIn := Authenticate(users, caller);
      if signedIn.None? {
        resp := Unauthenticated;
        return;
      }
      var k := signedIn.value;
      var checked := ValidatePasswordChange(users[k], req, v);
      if checked.Failure? {
        resp := Response(HTTP_400_BAD_REQUEST, FieldErrors(checked.error));
        return;
      }
      var u := users[k].(password := MakePassword(checked.value));
      assert !CollidesWithOthers(users, u, k) by {
        forall i | 0 <= i < |users| && i != k ensures !Collide(users[i], u) {
          if i < k { assert !Collide(users[i], users[k]); } else { assert !Collide(users[k], users[i]); }
        }
      }
      ReplaceKeepsValid(users, k, u);
      users := users[k := u];
      resp := Response(HTTP_200_OK, Message(PASSWORD_CHANGED));
    }

    /** `UserProfileView.update` (PUT when `partial` is false, PATCH when true). */
    method UpdateProfile(caller: Option<nat>, req: ProfileUpdate, partial: bool, v: Validators) returns (resp: Response)
      requires Valid()
      modifies this
      ensures Valid() && blacklist == old(blacklist)
      ensures Authenticate(old(users), caller).None? ==> users == old(users) && resp == Unauthenticated
      ensures Authenticate(old(users), caller).Some? ==>
        var k := Authenticate(old(users), caller).value;
        match ValidateProfileUpdate(old(users), k, req, partial, v)
        case Failure(keys) => users == old(users) && resp == Response(HTTP_400_BAD_REQUEST, FieldErrors(keys))
        case Success(n) =>
          if CollidesWithOthers(old(users), n, k) then
            users == old(users) && resp == Response(HTTP_500_INTERNAL_SERVER_ERROR, ServerError)
          else
            users == old(users)[k := n] && resp == Response(HTTP_200_OK, ProfileUpdated(Represent(n), PROFILE_UPDATED))
    {
      var signedIn := Authenticate(users, caller);
      if signedIn.None? {
        resp := Unauthenticated;
        return;
      }
      var k := signedIn.value;
      var checked := ValidateProfileUpdate(users, k, req, partial, v);
      if checked.Failure? {
        resp := Response(HTTP_400_BAD_REQUEST, FieldErrors(checked.error));
        return;
      }
      var n := checked.value;
      if CollidesWithOthers(users, n, k) {
        resp := Response(HTTP_500_INTERNAL_SERVER_ERROR, ServerError);
        return;
      }
      ReplaceKeepsValid(users, k, n);
      users := users[k := n];
      resp := Response(HTTP_200_OK, ProfileUpdated(Represent(n), PROFILE_UPDATED));
    }
  }

  // ---------------------------------------------------------------------
  // Properties across endpoints
  // ---------------------------------------------------------------------

  /**
   * After a password change only the new password logs the user in; the
   * old one, if different, gets the generic 401.
   */
  lemma OnlyNewPasswordLogsIn(users: seq<User>, k: nat, p: string, q: string, jti: string)
    requires ValidStore(users) && k < |users| && users[k].isActive && users[k].username != "" && q != ""
    ensures var changed := users[k := users[k].(password := MakePassword(p))];
      Login(changed, LoginRequest(Value(users[k].username), Value(q)), jti).status == HTTP_200_OK <==> q == p
  {
    var changed := users[k := users[k].(password := MakePassword(p))];
    assert forall i, j :: 0 <= i < j < |changed| ==> !Collide(changed[i], changed[j]) by {
      forall i, j | 0 <= i < j < |changed| ensures !Collide(changed[i], changed[j]) {
        assert !Collide(users[i], users[j]);
      }
    }
    assert ValidStore(changed);
    if q == p {
      LoginSuccess(changed, k, q, jti);
    } else {
      LoginWrongPassword(changed, k, q, jti);
    }
  }

  /** A user who has just registered can log in with the submitted username and password. */
  lemma RegisteredUserCanLogIn(users: seq<User>, req: RegistrationRequest, v: Validators, now: int, jti: string)
    requires ValidStore(users) && ValidateRegistration(users, req, v).Success?
    requires !CollidesWithOthers(users, NewUser(ValidateRegistration(users, req, v).value, |users| + 1, now), |users|)
    ensures var u := NewUser(ValidateRegistration(users, req, v).value, |users| + 1, now);
      Login(users + [u], LoginRequest(req.username, req.password), jti)
      == Response(HTTP_200_OK, UserWithTokens(Represent(u), LOGIN_SUCCESSFUL, TokenPair(u.id, jti)))
  {
  }

  /**
   * The access token issued at registration, which carries the new row's id,
   * shows the row registration stored.
   */
  lemma RegisteredUserProfile(users: seq<User>, req: RegistrationRequest, v: Validators, now: int)
    requires ValidStore(users) && ValidateRegistration(users, req, v).Success?
    requires !CollidesWithOthers(users, NewUser(ValidateRegistration(users, req, v).value, |users| + 1, now), |users|)
    ensures var u := NewUser(ValidateRegistration(users, req, v).value, |users| + 1, now);
      GetProfile(users + [u], Some(|users| + 1)) == Response(HTTP_200_OK, Profile(Represent(u)))
  {
  }

  /**
   * Registering with a blank matricule when some row already has a blank
   * matricule passes validation and then breaks the database constraint,
   * so the endpoint answers 500 rather than 400.
   */
  lemma BlankMatriculeTwice(users: seq<User>, req: RegistrationRequest, v: Validators, now: int, i: nat)
    requires i < |users| && users[i].matricule == Some("") && req.matricule == Value("")
    requires ValidateRegistration(users, req, v).Success?
    ensures CollidesWithOthers(users, NewUser(ValidateRegistration(users, req, v).value, |users| + 1, now), |users|)
  {
    var u := NewUser(ValidateRegistration(users, req, v).value, |users| + 1, now);
    assert Collide(users[i], u);
  }

  /**
   * An email that differs from a stored one only in the case of its domain
   * passes the exact-match uniqueness check, is normalized onto the stored
   * address, and breaks the database constraint: a 500.
   */
  lemma EmailDomainCaseClash(users: seq<User>, req: RegistrationRequest, v: Validators, now: int, i: nat)
    requires i < |users| && ValidateRegistration(users, req, v).Success?
    requires users[i].email == NormalizeEmail(req.email.s)
    ensures CollidesWithOthers(users, NewUser(ValidateRegistration(users, req, v).value, |users| + 1, now), |users|)
  {
    var u := NewUser(ValidateRegistration(users, req, v).value, |users| + 1, now);
    assert Collide(users[i], u);
  }
}
