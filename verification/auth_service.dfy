/** Token issuing, password checks and the user writes. Hashing (bcrypt) is
    a pair of functions the caller supplies. */
module AuthService {
  import opened Common
  import opened Store
  import opened Query
  import opened AuthModels

  /** `pwd_context.hash` and `pwd_context.verify`. */
  datatype Hasher = Hasher(hash: string -> string, verify: (string, string) -> bool)

  /** A hasher whose verification accepts the password a hash was made from. */
  ghost predicate Sound(h: Hasher)
  {
    forall p :: h.verify(p, h.hash(p))
  }

  /** Signing algorithm of every token; the model keeps only the key. */
  const Algorithm: string := "HS256"

  /** `create_access_token`: a token signed with `secret`, whose subject is the
      text of `subject` and which expires `expiresDelta` seconds after `now`. */
  function CreateAccessToken(subject: Uuid, expiresDelta: int, now: Instant, secret: string): (t: Jwt)
    ensures t.Signed? && t.key == secret
    ensures t.sub == Some(Text(subject))
    ensures t.exp == Some(now + expiresDelta)
  {
    Signed(Some(now + expiresDelta), Some(Text(subject)), secret)
  }

  /** A table whose users all have distinct emails (the unique index). */
  predicate EmailsUnique(users: Table<User>)
  {
    forall a, b | a in users.rows && b in users.rows && users.rows[a].email == users.rows[b].email :: a == b
  }

  /** A well-formed users table. */
  predicate WellFormed(users: Table<User>)
  {
    Valid(users) && KeyedBy(users, (u: User) => u.id) && EmailsUnique(users)
  }

  /** `get_user_by_email`: the first user, in scan order, with that email. */
  function GetUserByEmail(users: Table<User>, email: string): (r: Option<User>)
    requires Valid(users)
    ensures r.Some? ==> r.value.email == email && r.value in users.rows.Values
    ensures r.None? <==> forall k | k in users.rows :: users.rows[k].email != email
  {
    var r := First(Scan(users), (u: User) => u.email == email);
    if r.Some? then
      ScanHolds(users, r.value);
      r
    else
      assert forall k | k in users.rows :: users.rows[k] in Scan(users) by {
        forall k | k in users.rows
          ensures users.rows[k] in Scan(users)
        {
          ScanHolds(users, users.rows[k]);
        }
      }
      r
  }

  /** `authenticate`: the user with that email, if the password verifies
      against its stored hash. */
  function Authenticate(users: Table<User>, email: string, password: string, h: Hasher): (r: Option<User>)
    requires Valid(users)
    ensures r.Some? ==> r.value.email == email && r.value in users.rows.Values
    ensures r.Some? ==> h.verify(password, r.value.hashedPassword)
    ensures (forall k | k in users.rows :: users.rows[k].email != email) ==> r.None?
  {
    match GetUserByEmail(users, email)
    case None => None
    case Some(u) => if !h.verify(password, u.hashedPassword) then None else Some(u)
  }

  /** With unique emails, authentication succeeds exactly for the stored user
      with that email whose hash the password verifies against. */
  lemma AuthenticateExactly(users: Table<User>, email: string, password: string, h: Hasher, u: User)
    requires Valid(users) && EmailsUnique(users)
    ensures Authenticate(users, email, password, h) == Some(u) <==>
              u in users.rows.Values && u.email == email && h.verify(password, u.hashedPassword)
  {
    var found := GetUserByEmail(users, email);
    if u in users.rows.Values && u.email == email {
      var k :| k in users.rows && users.rows[k] == u;
      assert found.Some?;
      var k' :| k' in users.rows && users.rows[k'] == found.value;
      assert k == k';
    }
  }

  /** `create_user`: stores the user with the hash of the password, not the
      password. A second user with the same email violates the unique index. */
  function CreateUser(users: Table<User>, create: UserCreate, id: Uuid, h: Hasher): (r: Commit<User>)
    requires WellFormed(users) && id !in users.rows
    ensures r.Failed? <==> exists k | k in users.rows :: users.rows[k].email == create.email
    ensures r.Failed? ==> r.fault == UniqueViolation("email")
    ensures r.Committed? ==> r.row.hashedPassword == h.hash(create.password)
    ensures r.Committed? ==> r.row.id == id && r.row.email == create.email && r.row.fullName == create.fullName
    ensures r.Committed? ==> r.row.isActive == create.isActive && r.row.isSuperuser == create.isSuperuser
    ensures r.Committed? ==> r.table.rows == users.rows[id := r.row] && WellFormed(r.table)
  {
    if GetUserByEmail(users, create.email).Some? then Failed(UniqueViolation("email"))
    else
      var u := User(id, create.email, create.isActive, create.isSuperuser, create.fullName, h.hash(create.password));
      Committed(Insert(users, id, u), u)
  }

  /** The user `update_user` writes, once the body is known to hash. */
  function ApplyUserUpdate(u: User, upd: UserUpdate, h: Hasher): (r: User)
    requires !(upd.password.Set? && upd.password.value.None?)
    requires !(upd.email.Set? && upd.email.value.None?)
    ensures UserChanges(u, r) <= UserUpdateTargets(upd)
    ensures r.id == u.id
  {
    u.(email := if upd.email.Set? then upd.email.value.value else u.email,
       isActive := Patched(upd.isActive, u.isActive),
       isSuperuser := Patched(upd.isSuperuser, u.isSuperuser),
       fullName := Patched(upd.fullName, u.fullName),
       hashedPassword := if upd.password.Set? then h.hash(upd.password.value.value) else u.hashedPassword)
  }

  /** `update_user`: copies the fields the body sets and, when it sets a
      password, replaces the stored hash by the hash of that password. A null
      password fails in the hasher before anything is written; a null or
      taken email fails at commit. */
  function UpdateUser(users: Table<User>, id: Uuid, upd: UserUpdate, h: Hasher): (r: Commit<User>)
    requires WellFormed(users) && id in users.rows
    ensures r.Failed? <==>
              (upd.password.Set? && upd.password.value.None?)
              || (upd.email.Set? && upd.email.value.None?)
              || (upd.email.Set? && upd.email.value.Some? &&
                  exists k | k in users.rows :: k != id && users.rows[k].email == upd.email.value.value)
    ensures r.Committed? ==> UserChanges(users.rows[id], r.row) <= UserUpdateTargets(upd)
    ensures r.Committed? ==> r.row.id == id
    ensures r.Committed? && upd.password.Set? ==> r.row.hashedPassword == h.hash(upd.password.value.value)
    ensures r.Committed? ==> r.table.rows == users.rows[id := r.row] && WellFormed(r.table)
  {
    if upd.password.Set? && upd.password.value.None? then Failed(TypeError("secret must be a string"))
    else if upd.email.Set? && upd.email.value.None? then Failed(NotNullViolation("email"))
    else
      var u := ApplyUserUpdate(users.rows[id], upd, h);
      if exists k | k in users.rows :: k != id && users.rows[k].email == u.email then
        Failed(UniqueViolation("email"))
      else
        var t := Put(users, id, u);
        assert EmailsUnique(t);
        Committed(t, u)
  }

  /** Values the body sets end up in the stored user. */
  lemma UpdateUserWritesValues(users: Table<User>, id: Uuid, upd: UserUpdate, h: Hasher)
    requires WellFormed(users) && id in users.rows
    requires UpdateUser(users, id, upd, h).Committed?
    ensures var u := UpdateUser(users, id, upd, h).row;
      && (upd.email.Set? ==> Some(u.email) == upd.email.value)
      && (upd.isActive.Set? ==> u.isActive == upd.isActive.value)
      && (upd.isSuperuser.Set? ==> u.isSuperuser == upd.isSuperuser.value)
      && (upd.fullName.Set? ==> u.fullName == upd.fullName.value)
      && (upd.password.Unset? ==> u.hashedPassword == users.rows[id].hashedPassword)
  {
  }
}
