/** Users, the bodies that create and change them, and the bearer token. */
module AuthModels {
  import opened Common

  const MaxEmailLength: nat := 255
  const MaxFullNameLength: nat := 255
  const MinPasswordLength: nat := 8
  const MaxPasswordLength: nat := 40

  /** A stored user. `email` is unique across the table. */
  datatype User = User(
    id: Uuid,
    email: string,
    isActive: bool,
    isSuperuser: bool,
    fullName: Option<string>,
    hashedPassword: string)

  /** `UserCreate`: the `UserBase` fields plus a plain-text password. */
  datatype UserCreate = UserCreate(
    email: string,
    isActive: bool,
    isSuperuser: bool,
    fullName: Option<string>,
    password: string)

  /** `UserRegister`: the public sign-up body. */
  datatype UserRegister = UserRegister(email: string, password: string, fullName: Option<string>)

  /** `UserUpdate`: every field may be left out. `is_active` and
      `is_superuser` keep the non-null `bool` type of `UserBase`. */
  datatype UserUpdate = UserUpdate(
    email: Patch<Option<string>>,
    isActive: Patch<bool>,
    isSuperuser: Patch<bool>,
    fullName: Patch<Option<string>>,
    password: Patch<Option<string>>)

  /** A JSON claim value: a string, or a value of any other JSON type. */
  datatype Claim = Text(text: string) | NonText

  /** An encoded JSON Web Token: its `exp` and `sub` claims and the key that
      signed it; `Garbled` is any string that is not a well-formed token. */
  datatype Jwt = Signed(exp: Option<Instant>, sub: Option<Claim>, key: string) | Garbled

  /** `Token`: the body of a successful login. */
  datatype Token = Token(accessToken: Jwt, tokenType: string)

  /** `TokenPayload`: the validated claims; `sub` may be absent. */
  datatype TokenPayload = TokenPayload(sub: Option<string>)

  /** `token_type` defaults to "bearer". */
  function BearerToken(accessToken: Jwt): Token
  {
    Token(accessToken, "bearer")
  }

  predicate ValidPassword(p: string)
  {
    MinPasswordLength <= |p| <= MaxPasswordLength
  }

  predicate ValidFullName(n: Option<string>)
  {
    n.Some? ==> |n.value| <= MaxFullNameLength
  }

  predicate ValidUserCreate(u: UserCreate)
  {
    |u.email| <= MaxEmailLength && ValidFullName(u.fullName) && ValidPassword(u.password)
  }

  predicate ValidUserRegister(u: UserRegister)
  {
    |u.email| <= MaxEmailLength && ValidFullName(u.fullName) && ValidPassword(u.password)
  }

  /** `UserCreate.model_validate(user_in)`: a sign-up body becomes a create
      request with the `UserBase` defaults for the flags it lacks. */
  function CreateFromRegister(r: UserRegister): (c: UserCreate)
    ensures c.isActive && !c.isSuperuser
    ensures c.email == r.email && c.password == r.password && c.fullName == r.fullName
    ensures ValidUserRegister(r) <==> ValidUserCreate(c)
  {
    UserCreate(r.email, true, false, r.fullName, r.password)
  }

  /** The stored fields of a user, as named by `model_dump`. */
  datatype UserField = EmailField | IsActiveField | IsSuperuserField | FullNameField | HashedPasswordField

  /** The fields in which two versions of a user differ. */
  function UserChanges(a: User, b: User): set<UserField>
  {
    (if a.email != b.email then {EmailField} else {})
    + (if a.isActive != b.isActive then {IsActiveField} else {})
    + (if a.isSuperuser != b.isSuperuser then {IsSuperuserField} else {})
    + (if a.fullName != b.fullName then {FullNameField} else {})
    + (if a.hashedPassword != b.hashedPassword then {HashedPasswordField} else {})
  }

  /** The fields an update body sets; a password sets the stored hash. */
  function UserUpdateTargets(u: UserUpdate): set<UserField>
  {
    (if u.email.Set? then {EmailField} else {})
    + (if u.isActive.Set? then {IsActiveField} else {})
    + (if u.isSuperuser.Set? then {IsSuperuserField} else {})
    + (if u.fullName.Set? then {FullNameField} else {})
    + (if u.password.Set? then {HashedPasswordField} else {})
  }
}
