/** `get_current_user`: the dependency that turns a bearer token into the
    calling user. */
module Deps {
  import opened Common
  import opened Store
  import opened Http
  import opened AuthModels
  import opened AuthService

  /** What `jwt.decode` followed by `TokenPayload(**payload)` yields: the
      validated payload, or one of `InvalidTokenError` / `ValidationError`. */
  datatype Decoded = Payload(payload: TokenPayload) | Invalid

  /** PyJWT's HS256 decode as this model takes it: a garbled token, a token
      signed with another key, or one whose `exp` is not after `now` is
      refused; a token without `exp` does not expire. A `sub` that is not a
      string fails `TokenPayload` validation. */
  function DecodeToken(token: Jwt, secret: string, now: Instant): (r: Decoded)
    ensures r.Payload? <==>
              token.Signed? && token.key == secret
              && (token.exp.Some? ==> now < token.exp.value)
              && (token.sub.Some? ==> token.sub.value.Text?)
    ensures r.Payload? ==> (r.payload.sub.Some? <==> token.sub.Some?)
    ensures r.Payload? && token.sub.Some? ==> r.payload.sub.value == token.sub.value.text
  {
    match token
    case Garbled => Invalid
    case Signed(exp, sub, key) =>
      if key != secret then Invalid
      else if exp.Some? && exp.value <= now then Invalid
      else match sub
        case None => Payload(TokenPayload(None))
        case Some(NonText) => Invalid
        case Some(Text(s)) => Payload(TokenPayload(Some(s)))
  }

  /** The decision ladder of `get_current_user`: an undecodable token is 403,
      a subject with no user 404, an inactive user 400. */
  function GetCurrentUser(users: Table<User>, token: Jwt, secret: string, now: Instant): (r: Response<User>)
    requires WellFormed(users)
    ensures DecodeToken(token, secret, now).Invalid? ==> r == Error(Forbidden, "Could not validate credentials")
    ensures r.Ok? <==>
              var d := DecodeToken(token, secret, now);
              d.Payload? && d.payload.sub.Some? && d.payload.sub.value in users.rows
              && users.rows[d.payload.sub.value].isActive
    ensures r.Ok? ==> r.body in users.rows.Values && r.body.isActive
    ensures r.Ok? ==> token.Signed? && token.sub == Some(Text(r.body.id))
    ensures r.Error? && r.status == NotFound ==> r.detail == "User not found"
  {
    match DecodeToken(token, secret, now)
    case Invalid => Error(Forbidden, "Could not validate credentials")
    case Payload(p) =>
      if p.sub.None? || p.sub.value !in users.rows then Error(NotFound, "User not found")
      else
        var user := users.rows[p.sub.value];
        if !user.isActive then Error(BadRequest, "Inactive user")
        else Ok(user)
  }

  /** The ladder's order: a decodable token for a missing user is 404, and for
      an existing inactive user 400. */
  lemma GetCurrentUserLadder(users: Table<User>, token: Jwt, secret: string, now: Instant)
    requires WellFormed(users)
    requires DecodeToken(token, secret, now).Payload?
    ensures var sub := DecodeToken(token, secret, now).payload.sub;
      && (sub.None? || sub.value !in users.rows ==> GetCurrentUser(users, token, secret, now) == Error(NotFound, "User not found"))
      && (sub.Some? && sub.value in users.rows && !users.rows[sub.value].isActive ==>
            GetCurrentUser(users, token, secret, now) == Error(BadRequest, "Inactive user"))
  {
  }

  /** The superuser flag plays no part: flipping it on any user changes no
      decision of the ladder. */
  lemma SuperuserIgnored(users: Table<User>, token: Jwt, secret: string, now: Instant, k: Uuid, flag: bool)
    requires WellFormed(users) && k in users.rows
    ensures var users' := Put(users, k, users.rows[k].(isSuperuser := flag));
      WellFormed(users') &&
      var a := GetCurrentUser(users, token, secret, now);
      var b := GetCurrentUser(users', token, secret, now);
      a.Ok? == b.Ok? && (a.Error? ==> a == b) && (a.Ok? ==> b.body == a.body.(isSuperuser := b.body.isSuperuser))
  {
    var users' := Put(users, k, users.rows[k].(isSuperuser := flag));
    assert EmailsUnique(users');
  }

  /** A token issued for `subject` at `issued` with lifetime `ttl` decodes to
      that subject exactly until `issued + ttl`, and is refused from then on. */
  lemma TokenRoundTrip(subject: Uuid, ttl: int, issued: Instant, secret: string, now: Instant)
    ensures var d := DecodeToken(CreateAccessToken(subject, ttl, issued, secret), secret, now);
      (now < issued + ttl ==> d == Payload(TokenPayload(Some(subject))))
      && (now >= issued + ttl ==> d == Invalid)
  {
  }

  /** A token signed with any other key is refused. */
  lemma ForeignKeyRefused(subject: Uuid, ttl: int, issued: Instant, key: string, secret: string, now: Instant)
    requires key != secret
    ensures DecodeToken(CreateAccessToken(subject, ttl, issued, key), secret, now) == Invalid
  {
  }
}
