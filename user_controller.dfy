/**
 * The user resource: listing with search and filter, reading, updating and
 * deleting one user, each behind the rule that only an admin may act on a
 * record other than their own.
 */
module UserController {
  import opened Wrappers
  import opened Strings
  import opened UserModel
  import opened Http
  import opened MulterConfig

  /** An admin may act on any record, anyone else only on their own. */
  predicate MayAccess(requester: UserView, id: nat) {
    requester.role == Admin || requester.id == id
  }

  // ---------------------------------------------------------------- listing

  /** `search` and `filterBy`/`value` count only when they are non-empty. */
  predicate Given(s: Option<string>) {
    s.Some? && s.value != ""
  }

  /** The columns a list may be filtered on. */
  function FilterColumn(name: string): (c: Option<Column>)
    ensures c.Some? <==> name == "state" || name == "city" || name == "country"
  {
    if name == "state" then Some(State)
    else if name == "city" then Some(City)
    else if name == "country" then Some(Country)
    else None
  }

  /**
   * Which records the list route is meant to show, stated on the record's
   * own fields: the search text occurs in the name or the email, and a
   * recognised filter column holds exactly the filter value; an empty or
   * missing search or filter, and a filter on any other column, is ignored.
   */
  ghost predicate Listed(q: ListQuery, r: Record) {
    && (!Given(q.search)
        || (exists i: nat :: OccursAt(r.name, q.search.value, i))
        || (exists i: nat :: OccursAt(r.email, q.search.value, i)))
    && (!Given(q.filterBy) || !Given(q.value)
        || ((q.filterBy.value == "state" ==> r.state == q.value.value)
            && (q.filterBy.value == "city" ==> r.city == q.value.value)
            && (q.filterBy.value == "country" ==> r.country == q.value.value)))
  }

  lemma ContainsIff(s: string, sub: string)
    ensures Contains(s, sub) <==> exists i: nat :: OccursAt(s, sub, i)
  {
    if Contains(s, sub) {
      assert OccursAt(s, sub, IndexOf(s, sub).value);
    }
  }

  /** The `where` clause `listUsers` builds from the query string; it selects exactly the listed records. */
  method BuildWhere(q: ListQuery) returns (w: Where)
    ensures forall r :: Satisfies(w, r) <==> Listed(q, r)
  {
    w := Where(None, None);
    if Given(q.search) {
      w := w.(search := q.search);
    }
    if Given(q.filterBy) && Given(q.value) {
      var column := FilterColumn(q.filterBy.value);
      if column.Some? {
        w := w.(equals := Some((column.value, q.value.value)));
      }
    }
    forall r
      ensures Satisfies(w, r) <==> Listed(q, r)
    {
      if Given(q.search) {
        ContainsIff(r.name, q.search.value);
        ContainsIff(r.email, q.search.value);
      }
    }
  }

  /** `listUsers`: the listed records without passwords, newest first. */
  method ListUsers(db: UserTable, q: ListQuery) returns (resp: Response)
    requires db.Valid()
    ensures resp.status == 200 && resp.message.None? && resp.body.Users?
    ensures forall k :: k in db.rows ==> (WithoutPassword(db.rows[k]) in resp.body.users <==> Listed(q, db.rows[k]))
    ensures forall v :: v in resp.body.users ==>
      exists k :: k in db.rows && v == WithoutPassword(db.rows[k]) && Listed(q, db.rows[k])
    ensures forall i, j :: 0 <= i < j < |resp.body.users| ==>
      resp.body.users[i].id != resp.body.users[j].id && resp.body.users[i].createdAt >= resp.body.users[j].createdAt
  {
    var w := BuildWhere(q);
    var rs := db.FindAll(w);
    var views := seq(|rs|, i requires 0 <= i < |rs| => WithoutPassword(rs[i]));
    forall k | k in db.rows
      ensures WithoutPassword(db.rows[k]) in views <==> Listed(q, db.rows[k])
    {
      if WithoutPassword(db.rows[k]) in views {
        var i :| 0 <= i < |views| && views[i] == WithoutPassword(db.rows[k]);
        assert rs[i] in db.rows.Values;
        assert rs[i] == db.rows[k];
      }
      if Satisfies(w, db.rows[k]) {
        assert db.rows[k] in db.rows.Values;
        var i :| 0 <= i < |rs| && rs[i] == db.rows[k];
        assert views[i] == WithoutPassword(db.rows[k]);
      }
    }
    forall v | v in views
      ensures exists k :: k in db.rows && v == WithoutPassword(db.rows[k]) && Listed(q, db.rows[k])
    {
      var i :| 0 <= i < |views| && views[i] == v;
      assert rs[i] in db.rows.Values;
      var k :| k in db.rows && db.rows[k] == rs[i];
    }
    resp := Response(200, None, Users(views));
  }

  // ---------------------------------------------------------------- one user

  const NotFoundMessage := "User not found."
  const ViewDeniedMessage := "Access denied. You can only view your own profile."
  const UpdateDeniedMessage := "Access denied. You can only update your own profile."
  const DeleteDeniedMessage := "Access denied. You can only delete your own profile."

  /** `getUser`: 404 for a missing id (checked first), 403 for someone else's record. */
  method GetUser(db: UserTable, requester: UserView, id: nat) returns (resp: Response)
    requires db.Valid()
    ensures resp == Status(404, NotFoundMessage) <==> id !in db.rows
    ensures resp == Status(403, ViewDeniedMessage) <==> id in db.rows && !MayAccess(requester, id)
    ensures resp.status == 200 <==> id in db.rows && MayAccess(requester, id)
    ensures resp.status == 200 ==> resp == Response(200, None, OneUser(WithoutPassword(db.rows[id])))
  {
    if id !in db.rows {
      return Status(404, NotFoundMessage);
    }
    if !MayAccess(requester, id) {
      return Status(403, ViewDeniedMessage);
    }
    resp := Response(200, None, OneUser(WithoutPassword(db.rows[id])));
  }

  // ---------------------------------------------------------------- update

  const PasswordRuleMessage := "Password must be at least 6 characters and include a number."
  const InUseMessage := "Email or phone number already in use."
  const UpdateFailedMessage := "Failed to update user."
  const UpdatedMessage := "User updated successfully."

  /** The update route's password rule: at least six UTF-16 units, one of them a digit. */
  predicate PasswordAcceptable(p: string) {
    Utf16Length(p) >= 6 && HasDigit(p)
  }

  /** An empty or missing password means "keep the current one"; any other is checked and hashed. */
  function PasswordChange(p: Option<string>): (r: Result<Option<StoredPassword>, string>)
    ensures r.Err? <==> Given(p) && !PasswordAcceptable(p.value)
    ensures r.Err? ==> r.error == PasswordRuleMessage
    ensures r.Ok? ==> (r.value.Some? <==> Given(p))
    ensures r.Ok? && r.value.Some? ==> r.value.value.Digest? && forall x :: Compare(x, r.value.value) <==> BcryptKey(x) == BcryptKey(p.value)
  {
    if !Given(p) then Ok(None)
    else if !PasswordAcceptable(p.value) then Err(PasswordRuleMessage)
    else Ok(Some(Hash(p.value)))
  }

  /** The password handling as the source writes it: an empty password reaches the table unhashed. */
  function PasswordChangeAsWritten(p: Option<string>): (r: Result<Option<StoredPassword>, string>)
    ensures p == Some("") ==> r == Ok(Some(RawText("")))
    ensures p != Some("") ==> r == PasswordChange(p)
  {
    if p == Some("") then Ok(Some(RawText(""))) else PasswordChange(p)
  }

  /** The changes `updateUser` passes on once the password has been dealt with. */
  function Assemble(requester: UserView, b: UpdateBody, file: Option<StoredFile>, password: Option<StoredPassword>): Changes {
    Changes(b.name, b.email, b.phone, password,
            if file.Some? then Some("/uploads/" + file.value.filename) else b.profileImage,
            b.address, b.state, b.city, b.country, b.pincode,
            if requester.role != Admin && Given(b.role) then None else b.role)
  }

  /**
   * The fields `updateUser` hands to `User.update`: the body, with the
   * password hashed, the uploaded image's path and, for a non-admin, no
   * role; or the password rule's message.
   */
  function PrepareChanges(requester: UserView, b: UpdateBody, file: Option<StoredFile>): (r: Result<Changes, string>)
    ensures r.Err? <==> PasswordChange(b.password).Err?
    ensures r.Err? ==> r.error == PasswordRuleMessage
  {
    match PasswordChange(b.password)
    case Err(e) => Err(e)
    case Ok(password) => Ok(Assemble(requester, b, file, password))
  }

  /** `PrepareChanges` with the source's handling of an empty password. */
  function PrepareChangesAsWritten(requester: UserView, b: UpdateBody, file: Option<StoredFile>): (r: Result<Changes, string>)
    ensures b.password != Some("") ==> r == PrepareChanges(requester, b, file)
  {
    match PasswordChangeAsWritten(b.password)
    case Err(e) => Err(e)
    case Ok(password) => Ok(Assemble(requester, b, file, password))
  }

  /** A non-admin's update never changes the role: a requested role is dropped or refused. */
  lemma NonAdminKeepsRole(requester: UserView, b: UpdateBody, file: Option<StoredFile>, r: Record, now: nat)
    requires requester.role != Admin && PrepareChangesAsWritten(requester, b, file).Ok?
    ensures Changed(r, PrepareChangesAsWritten(requester, b, file).value, now).role == r.role
  {
    var c := PrepareChangesAsWritten(requester, b, file).value;
    if c.role.Some? {
      assert c.role.value == "";
    }
  }

  /** An admin's update sets the role that was asked for. */
  lemma AdminSetsRole(requester: UserView, b: UpdateBody, file: Option<StoredFile>, r: Record, now: nat, role: Role)
    requires requester.role == Admin && b.role == Some(RoleName(role)) && PrepareChangesAsWritten(requester, b, file).Ok?
    ensures Changed(r, PrepareChangesAsWritten(requester, b, file).value, now).role == role
    ensures RoleAcceptable(PrepareChangesAsWritten(requester, b, file).value.role)
  {
  }

  /** With the correction the changes only ever carry a digest as password, so the table keeps holding digests only. */
  lemma ChangesKeepHashes(requester: UserView, b: UpdateBody, file: Option<StoredFile>, r: Record, now: nat)
    requires PrepareChanges(requester, b, file).Ok? && r.password.Digest?
    ensures Changed(r, PrepareChanges(requester, b, file).value, now).password.Digest?
  {
  }

  /** Fields the request leaves out keep their values; the key and creation time never change. */
  lemma OnlySuppliedFieldsChange(requester: UserView, b: UpdateBody, file: Option<StoredFile>, r: Record, now: nat)
    requires PrepareChangesAsWritten(requester, b, file).Ok?
    ensures var n := Changed(r, PrepareChangesAsWritten(requester, b, file).value, now);
      && n.id == r.id && n.createdAt == r.createdAt && n.updatedAt == now
      && (b.name.None? ==> n.name == r.name)
      && (b.email.None? ==> n.email == r.email)
      && (b.phone.None? ==> n.phone == r.phone)
      && (b.password.None? ==> n.password == r.password)
      && (file.None? && b.profileImage.None? ==> n.profileImage == r.profileImage)
      && (b.address.None? ==> n.address == r.address)
      && (b.state.None? ==> n.state == r.state)
      && (b.city.None? ==> n.city == r.city)
      && (b.country.None? ==> n.country == r.country)
      && (b.pincode.None? ==> n.pincode == r.pincode)
  {
  }

  /**
   * Fields the request supplies are written as they were sent, except the
   * password, which is hashed unless it is empty, and the image, where an
   * uploaded file wins with its public path.
   */
  lemma SuppliedFieldsWritten(requester: UserView, b: UpdateBody, file: Option<StoredFile>, r: Record, now: nat)
    requires PrepareChangesAsWritten(requester, b, file).Ok?
    ensures var n := Changed(r, PrepareChangesAsWritten(requester, b, file).value, now);
      && (b.name.Some? ==> n.name == b.name.value)
      && (b.email.Some? ==> n.email == b.email.value)
      && (b.phone.Some? ==> n.phone == b.phone.value)
      && (Given(b.password) ==> n.password == Hash(b.password.value))
      && (b.password == Some("") ==> n.password == RawText(""))
      && (file.Some? ==> n.profileImage == Some("/uploads/" + file.value.filename))
      && (file.None? && b.profileImage.Some? ==> n.profileImage == b.profileImage)
      && (b.address.Some? ==> n.address == b.address)
      && (b.state.Some? ==> n.state == b.state.value)
      && (b.city.Some? ==> n.city == b.city.value)
      && (b.country.Some? ==> n.country == b.country.value)
      && (b.pincode.Some? ==> n.pincode == b.pincode.value)
  {
  }

  /** As written, an empty password replaces the digest with a value no password matches. */
  lemma EmptyPasswordLocksOut(requester: UserView, b: UpdateBody, file: Option<StoredFile>, r: Record, now: nat)
    requires b.password == Some("")
    ensures PrepareChangesAsWritten(requester, b, file).Ok?
    ensures var n := Changed(r, PrepareChangesAsWritten(requester, b, file).value, now);
      !n.password.Digest? && forall x :: !Compare(x, n.password)
  {
  }

  /** With the correction an empty password leaves the stored one, and so every login, as it was. */
  lemma EmptyPasswordKeepsPassword(requester: UserView, b: UpdateBody, file: Option<StoredFile>, r: Record, now: nat)
    requires b.password == Some("")
    ensures PrepareChanges(requester, b, file).Ok?
    ensures var n := Changed(r, PrepareChanges(requester, b, file).value, now);
      n.password == r.password && forall x :: Compare(x, n.password) <==> Compare(x, r.password)
  {
  }

  /**
   * The answer of `updateUser` and the rows after it, as a function of the
   * rows before it: 404, then 403, then the password rule (400), then the
   * database's answer.
   */
  function UpdateOutcome(rows: map<nat, Record>, isEmail: string -> bool, requester: UserView, id: nat,
                         b: UpdateBody, file: Option<StoredFile>, now: nat): (out: (Response, map<nat, Record>))
    ensures out.0.status != 200 ==> out.1 == rows
    ensures out.0.status == 200 ==> id in rows && out.1.Keys == rows.Keys && forall k :: k in rows && k != id ==> out.1[k] == rows[k]
  {
    if id !in rows then (Status(404, NotFoundMessage), rows)
    else if !MayAccess(requester, id) then (Status(403, UpdateDeniedMessage), rows)
    else match PrepareChangesAsWritten(requester, b, file)
      case Err(_) => (Status(400, PasswordRuleMessage), rows)
      case Ok(c) =>
        match UpdateError(rows, id, c, now, isEmail)
        case Some(UniqueViolation) => (Status(409, InUseMessage), rows)
        case Some(Rejected) => (Status(500, UpdateFailedMessage), rows)
        case None =>
          var after := rows[id := Changed(rows[id], c, now)];
          (Response(200, Some(UpdatedMessage), OneUser(Sanitized(after[id]))), after)
  }

  /**
   * `updateUser`: 404, then 403, then the password rule (400); the
   * database's unique indexes answer 409 and its other checks 500; success
   * answers 200 with the sanitized new record.  An empty password is
   * written as it is, as the handler does.
   */
  method UpdateUser(db: UserTable, requester: UserView, id: nat, b: UpdateBody, file: Option<StoredFile>, now: nat)
    returns (resp: Response)
    requires db.Valid()
    modifies db
    ensures db.Valid() && db.nextId == old(db.nextId)
    ensures (resp, db.rows) == UpdateOutcome(old(db.rows), db.isEmail, requester, id, b, file, now)
    ensures id !in old(db.rows) ==> resp == Status(404, NotFoundMessage)
    ensures id in old(db.rows) && !MayAccess(requester, id) ==> resp == Status(403, UpdateDeniedMessage)
    ensures id in old(db.rows) && MayAccess(requester, id) && PrepareChangesAsWritten(requester, b, file).Err? ==>
      resp == Status(400, PasswordRuleMessage)
    ensures id in old(db.rows) && MayAccess(requester, id) && PrepareChangesAsWritten(requester, b, file).Ok? ==>
      var c := PrepareChangesAsWritten(requester, b, file).value;
      var e := UpdateError(old(db.rows), id, c, now, db.isEmail);
      && (e == Some(UniqueViolation) ==> resp == Status(409, InUseMessage))
      && (e == Some(Rejected) ==> resp == Status(500, UpdateFailedMessage))
      && (e.None? ==>
            && db.rows == old(db.rows)[id := Changed(old(db.rows)[id], c, now)]
            && resp == Response(200, Some(UpdatedMessage), OneUser(Sanitized(db.rows[id]))))
    ensures resp.status != 200 ==> db.rows == old(db.rows)
    ensures old(PasswordsHashed(db.rows)) && b.password != Some("") ==> PasswordsHashed(db.rows)
    ensures resp.status == 200 && b.password == Some("") ==> db.rows[id].password == RawText("")
  {
    if id !in db.rows {
      return Status(404, NotFoundMessage);
    }
    if !MayAccess(requester, id) {
      return Status(403, UpdateDeniedMessage);
    }
    var prepared := PrepareChangesAsWritten(requester, b, file);
    if prepared.Err? {
      return Status(400, PasswordRuleMessage);
    }
    ghost var before := db.rows;
    if PasswordsHashed(before) && b.password != Some("") {
      ChangesKeepHashes(requester, b, file, before[id], now);
    }
    var updated := db.Update(id, prepared.value, now);
    match updated
    case Err(UniqueViolation) =>
      resp := Status(409, InUseMessage);
    case Err(Rejected) =>
      resp := Status(500, UpdateFailedMessage);
    case Ok(_) =>
      resp := Response(200, Some(UpdatedMessage), OneUser(Sanitized(db.rows[id])));
  }

  // ---------------------------------------------------------------- delete

  const DeletedMessage := "User deleted successfully."

  /** `deleteUser`: 404, then 403, then the record is removed. */
  method DeleteUser(db: UserTable, requester: UserView, id: nat) returns (resp: Response)
    requires db.Valid()
    modifies db
    ensures db.Valid() && db.nextId == old(db.nextId)
    ensures resp == Status(404, NotFoundMessage) <==> id !in old(db.rows)
    ensures resp == Status(403, DeleteDeniedMessage) <==> id in old(db.rows) && !MayAccess(requester, id)
    ensures resp == Status(200, DeletedMessage) <==> id in old(db.rows) && MayAccess(requester, id)
    ensures resp.status == 200 ==> db.rows == old(db.rows) - {id}
    ensures resp.status != 200 ==> db.rows == old(db.rows)
  {
    if id !in db.rows {
      return Status(404, NotFoundMessage);
    }
    if !MayAccess(requester, id) {
      return Status(403, DeleteDeniedMessage);
    }
    var n := db.Destroy(id);
    resp := Status(200, DeletedMessage);
  }

  /** Deleting the same record twice: the second request finds nothing. */
  method DeleteTwice(db: UserTable, requester: UserView, id: nat) returns (first: Response, second: Response)
    requires db.Valid()
    modifies db
    ensures first.status == 200 <==> id in old(db.rows) && MayAccess(requester, id)
    ensures first.status == 200 ==> id !in db.rows && second == Status(404, NotFoundMessage)
  {
    first := DeleteUser(db, requester, id);
    second := DeleteUser(db, requester, id);
  }
}
