/** The login and sign-up endpoints. */
module AuthRouter {
  import opened Common
  import opened Store
  import opened Http
  import opened Config
  import opened AuthModels
  import opened AuthService
  import opened Deps

  /** `login_access_token`: the form's `username` is the email. A failed
      authentication and an inactive account are both 400; otherwise a bearer
      token for the user's id that lives `ACCESS_TOKEN_EXPIRE_MINUTES`. */
  function LoginAccessToken(users: Table<User>, username: string, password: string, h: Hasher,
                            settings: Settings, now: Instant): (r: Response<Token>)
    requires WellFormed(users)
    ensures Authenticate(users, username, password, h).None? ==> r == Error(BadRequest, "Incorrect email or password")
    ensures r.Ok? <==> Authenticate(users, username, password, h).Some? && Authenticate(users, username, password, h).value.isActive
    ensures r.Ok? ==> r.body.tokenType == "bearer" && r.body.accessToken.Signed?
    ensures r.Ok? ==> r.body.accessToken.key == settings.secretKey
    ensures r.Ok? ==> r.body.accessToken.sub == Some(Text(Authenticate(users, username, password, h).value.id))
    ensures r.Ok? ==> r.body.accessToken.exp == Some(now + settings.accessTokenExpireMinutes * 60)
  {
    match Authenticate(users, username, password, h)
    case None => Error(BadRequest, "Incorrect email or password")
    case Some(user) =>
      if !user.isActive then Error(BadRequest, "Inactive user")
      else
        var expiresDelta := settings.accessTokenExpireMinutes * 60;
        Ok(BearerToken(CreateAccessToken(user.id, expiresDelta, now, settings.secretKey)))
  }

  /** An inactive account is refused even when its password is right. */
  lemma InactiveLoginRefused(users: Table<User>, u: User, password: string, h: Hasher, settings: Settings, now: Instant)
    requires WellFormed(users) && u in users.rows.Values && !u.isActive
    requires h.verify(password, u.hashedPassword)
    ensures LoginAccessToken(users, u.email, password, h, settings, now) == Error(BadRequest, "Inactive user")
  {
    AuthenticateExactly(users, u.email, password, h, u);
  }

  /** `register_user`: 422 for a body that fails validation, 400 when the
      email is taken, otherwise exactly one new active, non-superuser user.
      `EmailStr` hands the handler the address as `normalizeEmail` rewrites
      it (email-validator lower-cases the domain, among other things), so the
      duplicate check and the stored row both use the normalised address. */
  function RegisterUser(users: Table<User>, body: UserRegister, id: Uuid, h: Hasher,
                        normalizeEmail: string -> string): (r: Reply<User, Table<User>>)
    requires WellFormed(users) && id !in users.rows
    ensures r.response.Error? ==> r.state == users
    ensures !ValidUserRegister(body) ==> r.response.Error? && r.response.status == UnprocessableEntity
    ensures ValidUserRegister(body) && (exists k | k in users.rows :: users.rows[k].email == normalizeEmail(body.email)) ==>
              r.response == Error(BadRequest, "The user with this email already exists in the system")
    ensures r.response.Ok? <==> ValidUserRegister(body) && forall k | k in users.rows :: users.rows[k].email != normalizeEmail(body.email)
    ensures r.response.Ok? ==>
              var u := r.response.body;
              && r.state.rows == users.rows[id := u] && |r.state.rows| == |users.rows| + 1
              && WellFormed(r.state)
              && u.id == id && u.email == normalizeEmail(body.email) && u.fullName == body.fullName
              && u.isActive && !u.isSuperuser && u.hashedPassword == h.hash(body.password)
  {
    if !ValidUserRegister(body) then Reply(Error(UnprocessableEntity, "body: validation error"), users)
    else
      var userIn := body.(email := normalizeEmail(body.email));
      if GetUserByEmail(users, userIn.email).Some? then
        Reply(Error(BadRequest, "The user with this email already exists in the system"), users)
      else
        match CreateUser(users, CreateFromRegister(userIn), id, h)
        case Committed(t, u) => Reply(Ok(u), t)
        case Failed(_) => Reply(Error(InternalServerError, "Internal Server Error"), users)
  }

  /** Signing up and then logging in with the stored (normalised) email and
      the same password yields a token for the new user, given a hasher that
      verifies its own hashes. */
  lemma RegisterThenLogin(users: Table<User>, body: UserRegister, id: Uuid, h: Hasher,
                          normalizeEmail: string -> string, settings: Settings, now: Instant)
    requires WellFormed(users) && id !in users.rows && Sound(h)
    requires RegisterUser(users, body, id, h, normalizeEmail).response.Ok?
    ensures var users' := RegisterUser(users, body, id, h, normalizeEmail).state;
      WellFormed(users') &&
      var login := LoginAccessToken(users', normalizeEmail(body.email), body.password, h, settings, now);
      login.Ok? && login.body.accessToken.sub == Some(Text(id))
  {
    var reply := RegisterUser(users, body, id, h, normalizeEmail);
    var u := reply.response.body;
    assert h.verify(body.password, h.hash(body.password));
    assert u == reply.state.rows[id];
    AuthenticateExactly(reply.state, normalizeEmail(body.email), body.password, h, u);
  }

  /** The login form's username is compared as typed: after signing up with
      an address that normalisation rewrites, logging in with the address as
      typed fails unless some other account happens to hold it. */
  lemma TypedEmailLoginRefused(users: Table<User>, body: UserRegister, id: Uuid, h: Hasher,
                               normalizeEmail: string -> string, settings: Settings, now: Instant)
    requires WellFormed(users) && id !in users.rows
    requires RegisterUser(users, body, id, h, normalizeEmail).response.Ok?
    requires normalizeEmail(body.email) != body.email
    requires forall k | k in users.rows :: users.rows[k].email != body.email
    ensures var users' := RegisterUser(users, body, id, h, normalizeEmail).state;
      WellFormed(users') &&
      LoginAccessToken(users', body.email, body.password, h, settings, now) == Error(BadRequest, "Incorrect email or password")
  {
    var users' := RegisterUser(users, body, id, h, normalizeEmail).state;
    assert forall k | k in users'.rows :: users'.rows[k].email != body.email;
  }

  /** A token from a successful login authenticates its user on every later
      request made before it expires, and on none after. */
  lemma LoginTokenAuthenticates(users: Table<User>, username: string, password: string, h: Hasher,
                                settings: Settings, issued: Instant, now: Instant)
    requires WellFormed(users)
    requires LoginAccessToken(users, username, password, h, settings, issued).Ok?
    ensures var token := LoginAccessToken(users, username, password, h, settings, issued).body.accessToken;
      var user := Authenticate(users, username, password, h).value;
      && (now < issued + settings.accessTokenExpireMinutes * 60 ==> GetCurrentUser(users, token, settings.secretKey, now) == Ok(user))
      && (now >= issued + settings.accessTokenExpireMinutes * 60 ==> GetCurrentUser(users, token, settings.secretKey, now).Error?)
  {
    var user := Authenticate(users, username, password, h).value;
    var k :| k in users.rows && users.rows[k] == user;
    assert user.id == k;
  }
}
