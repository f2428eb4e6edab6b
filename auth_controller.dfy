/**
 * Registration and login: the conflict check on email or phone, the hashed
 * password, the role forced to `user`, the two 401 answers of login and the
 * tokens a successful login issues.
 */
module AuthController {
  import opened Wrappers
  import opened UserModel
  import opened Tokens
  import opened Http
  import opened MulterConfig

  /** The public path of an uploaded file: `/uploads/<filename>`, or null without one. */
  function ImagePath(file: Option<StoredFile>): (p: Option<string>)
    ensures file.None? <==> p.None?
    ensures file.Some? ==> p.value == "/uploads/" + file.value.filename
  {
    if file.Some? then Some("/uploads/" + file.value.filename) else None
  }

  /**
   * `generateTokens`: an access token and a refresh token, both with payload
   * `{ id, role }`.  The refresh token is refused under the access secret
   * only when the two secrets differ.
   */
  function GenerateTokens(user: Record, env: Secrets, now: nat): (t: TokenPair)
    ensures forall at: nat ::
      Verify(env.access, t.accessToken, at) == (if at < now + AccessLifetime then Some(Claims(user.id, user.role)) else None)
    ensures forall at: nat ::
      Verify(env.refresh, t.refreshToken, at) == (if at < now + RefreshLifetime then Some(Claims(user.id, user.role)) else None)
    ensures env.access != env.refresh ==> forall at: nat :: Verify(env.access, t.refreshToken, at).None?
    ensures env.access == env.refresh ==> forall at: nat ::
      Verify(env.access, t.refreshToken, at) == (if at < now + RefreshLifetime then Some(Claims(user.id, user.role)) else None)
  {
    var claims := Claims(user.id, user.role);
    TokenPair(Sign(env.access, claims, now, AccessLifetime), Sign(env.refresh, claims, now, RefreshLifetime))
  }

  /** The values `register` passes to `User.create`; the requested role is ignored. */
  function NewUserOf(b: RegisterBody, file: Option<StoredFile>): (u: NewUser)
    ensures u.role == Some("user")
    ensures u.password == Hash(b.password)
    ensures u.profileImage == ImagePath(file)
  {
    NewUser(b.name, b.email, b.phone, Hash(b.password), ImagePath(file), b.address,
            b.state, b.city, b.country, b.pincode, Some("user"))
  }

  /** The record a successful registration stores under `id` at time `now`. */
  function Registered(b: RegisterBody, file: Option<StoredFile>, id: nat, now: nat): (r: Record)
    ensures r.id == id && r.role == User && r.password == Hash(b.password) && r.profileImage == ImagePath(file)
    ensures r.name == b.name && r.email == b.email && r.phone == b.phone && r.address == b.address
    ensures r.state == b.state && r.city == b.city && r.country == b.country && r.pincode == b.pincode
    ensures r.createdAt == now && r.updatedAt == now
  {
    Built(NewUserOf(b, file), id, now)
  }

  const ConflictMessage := "User with this email or phone already exists."
  const RegisteredMessage := "User registered successfully."
  const RegisterFailedMessage := "Could not register user."

  /** `register`: 409 on an email or phone in use, 500 if the insert fails, else 201 with the new record. */
  method Register(db: UserTable, b: RegisterBody, file: Option<StoredFile>, now: nat) returns (resp: Response)
    requires db.Valid()
    modifies db
    ensures db.Valid()
    ensures resp.status == 201 || resp.status == 409 || resp.status == 500
    ensures resp.status == 409 <==> exists k :: k in old(db.rows) && MatchesEither(old(db.rows)[k], b.email, b.phone)
    ensures resp.status == 409 ==> resp == Status(409, ConflictMessage)
    ensures resp.status == 500 ==> resp == Status(500, RegisterFailedMessage)
    ensures resp.status == 201 <==>
      (forall k :: k in old(db.rows) ==> !MatchesEither(old(db.rows)[k], b.email, b.phone))
      && Storable(Registered(b, file, old(db.nextId), now), db.isEmail)
    ensures resp.status != 201 ==> db.rows == old(db.rows) && db.nextId == old(db.nextId)
    ensures resp.status == 201 ==>
      && old(db.nextId) !in old(db.rows)
      && db.rows == old(db.rows)[old(db.nextId) := Registered(b, file, old(db.nextId), now)]
      && resp == Response(201, Some(RegisteredMessage), OneUser(Sanitized(Registered(b, file, old(db.nextId), now))))
    ensures old(PasswordsHashed(db.rows)) ==> PasswordsHashed(db.rows)
  {
    var profileImage := ImagePath(file);
    var existing := db.FindOneByEmailOrPhone(b.email, b.phone);
    if existing.Some? {
      return Status(409, ConflictMessage);
    }
    var created := db.Create(NewUserOf(b, file), now);
    if created.Err? {
      return Status(500, RegisterFailedMessage);
    }
    resp := Response(201, Some(RegisteredMessage), OneUser(Sanitized(created.value)));
  }

  /** The user object of a successful login: exactly id, name, email and role. */
  function LoginUserOf(r: Record): (u: LoginUser)
    ensures u.id == r.id && u.name == r.name && u.email == r.email && u.role == r.role
  {
    LoginUser(r.id, r.name, r.email, r.role)
  }

  const UnknownUserMessage := "Invalid credentials (User not found)."
  const MismatchMessage := "Invalid credentials (Password mismatch)."
  const LoggedInMessage := "Login successful."

  /**
   * `login`: the login id is looked up as an email or a phone; an unknown id
   * and a wrong password are both 401, and success yields the user and tokens.
   */
  method Login(db: UserTable, env: Secrets, loginId: string, password: string, now: nat) returns (resp: Response)
    requires db.Valid()
    ensures resp.status == 200 || resp.status == 401
    ensures resp == Status(401, UnknownUserMessage) <==>
      forall k :: k in db.rows ==> !MatchesEither(db.rows[k], loginId, loginId)
    ensures resp == Status(401, MismatchMessage) ==>
      exists k :: k in db.rows && MatchesEither(db.rows[k], loginId, loginId) && !Compare(password, db.rows[k].password)
    ensures resp.status == 401 ==> resp == Status(401, UnknownUserMessage) || resp == Status(401, MismatchMessage)
    ensures resp.status == 200 ==>
      exists k :: k in db.rows && MatchesEither(db.rows[k], loginId, loginId) && Compare(password, db.rows[k].password)
        && resp == Response(200, Some(LoggedInMessage), Session(LoginUserOf(db.rows[k]), GenerateTokens(db.rows[k], env, now)))
    ensures (exists k :: k in db.rows && MatchesEither(db.rows[k], loginId, loginId)) &&
      (forall k :: k in db.rows && MatchesEither(db.rows[k], loginId, loginId) ==> Compare(password, db.rows[k].password))
      ==> resp.status == 200
  {
    var user := db.FindOneByEmailOrPhone(loginId, loginId);
    if user.None? {
      return Status(401, UnknownUserMessage);
    }
    var u := user.value;
    if !Compare(password, u.password) {
      return Status(401, MismatchMessage);
    }
    var tokens := GenerateTokens(u, env, now);
    resp := Response(200, Some(LoggedInMessage), Session(LoginUserOf(u), tokens));
  }

  /**
   * The register/login round trip: a registration that succeeds is followed
   * by a successful login with the same password under the email, and under
   * the phone, as long as no other record's phone is that email (resp. no
   * other record's email is that phone).
   */
  method RegisterThenLogin(db: UserTable, env: Secrets, b: RegisterBody, file: Option<StoredFile>, now: nat, later: nat)
    returns (registered: Response, byEmail: Response, byPhone: Response)
    requires db.Valid()
    modifies db
    ensures registered.status == 201 && (forall k :: k in old(db.rows) ==> old(db.rows)[k].phone != b.email) ==>
      byEmail.status == 200 && byEmail.body.Session? && byEmail.body.account.id == old(db.nextId)
    ensures registered.status == 201 && (forall k :: k in old(db.rows) ==> old(db.rows)[k].email != b.phone) ==>
      byPhone.status == 200 && byPhone.body.Session? && byPhone.body.account.id == old(db.nextId)
  {
    ghost var before := db.rows;
    ghost var id := db.nextId;
    registered := Register(db, b, file, now);
    byEmail := Login(db, env, b.email, b.password, later);
    if registered.status == 201 && (forall k :: k in before ==> before[k].phone != b.email) {
      OnlyMatch(before, db.rows, id, b.email, b.password);
    }
    byPhone := Login(db, env, b.phone, b.password, later);
    if registered.status == 201 && (forall k :: k in before ==> before[k].email != b.phone) {
      OnlyMatch(before, db.rows, id, b.phone, b.password);
    }
  }

  /** After an insert under `id` that no earlier record matches, the only record matching `login` is the new one. */
  lemma OnlyMatch(before: map<nat, Record>, after: map<nat, Record>, id: nat, login: string, password: string)
    requires id !in before && id in after && after == before[id := after[id]]
    requires MatchesEither(after[id], login, login) && Compare(password, after[id].password)
    requires forall k :: k in before ==> !MatchesEither(before[k], login, login)
    ensures exists k :: k in after && MatchesEither(after[k], login, login)
    ensures forall k :: k in after && MatchesEither(after[k], login, login) ==> k == id && Compare(password, after[k].password)
  {
    assert id in after && MatchesEither(after[id], login, login);
  }
}
