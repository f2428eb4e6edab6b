/**
 * The `User` table: the record's columns, the schema's constraints (unique
 * email, unique phone, the role enumeration, the column lengths and which
 * columns may be null), and the table itself as a map from primary key to
 * record with the operations the controllers call on it.
 */
module UserModel {
  import opened Wrappers
  import opened Strings

  datatype Role = User | Admin

  /** The ENUM('user', 'admin') spelling of a role. */
  function RoleName(role: Role): (name: string)
    ensures ParseRole(name) == Some(role)
  {
    match role
    case User => "user"
    case Admin => "admin"
  }

  /** The role a column value denotes; anything outside the enumeration is rejected. */
  function ParseRole(s: string): (r: Option<Role>)
    ensures r.Some? <==> s == "user" || s == "admin"
    ensures s == "admin" <==> r == Some(Admin)
  {
    if s == "user" then Some(User) else if s == "admin" then Some(Admin) else None
  }

  // Column widths: STRING(n) is VARCHAR(n), plain STRING is VARCHAR(255).
  const NameWidth: nat := 100
  const EmailWidth: nat := 150
  const PhoneWidth: nat := 15
  const AddressWidth: nat := 150
  const StateWidth: nat := 50
  const CountryWidth: nat := 50
  const CityWidth: nat := 50
  const PincodeWidth: nat := 10
  const StringWidth: nat := 255

  /**
   * What the password column holds.  A bcrypt digest is abstracted to the
   * key it was computed from (salt and cost are not modelled); any other
   * text written to the column is `RawText`, which no password matches.
   */
  datatype StoredPassword = Digest(key: seq<nat>) | RawText(text: string)

  /** bcrypt reads no more than this many bytes of a password. */
  const BcryptKeyLimit: nat := 72

  /** The bytes of `plain` that bcrypt reads: its UTF-8 encoding, cut after 72 bytes. */
  function BcryptKey(plain: string): (k: seq<nat>)
    ensures |k| <= BcryptKeyLimit && k <= Utf8(plain)
    ensures |Utf8(plain)| <= BcryptKeyLimit ==> k == Utf8(plain)
    ensures |Utf8(plain)| > BcryptKeyLimit ==> k == Utf8(plain)[..BcryptKeyLimit]
  {
    var u := Utf8(plain);
    if |u| <= BcryptKeyLimit then u else u[..BcryptKeyLimit]
  }

  /** bcrypt's `hash(plain, 10)`. */
  function Hash(plain: string): (h: StoredPassword)
    ensures h.Digest?
    ensures forall other :: Compare(other, h) <==> BcryptKey(other) == BcryptKey(plain)
    ensures Compare(plain, h)
  {
    Digest(BcryptKey(plain))
  }

  /** bcrypt's `compare(plain, stored)`: true only for a digest of `plain`'s first 72 bytes. */
  predicate Compare(plain: string, stored: StoredPassword) {
    stored.Digest? && stored.key == BcryptKey(plain)
  }

  /** A digest of a password shorter than 72 bytes accepts that password and no other. */
  lemma ShortPasswordExact(plain: string, other: string)
    requires |Utf8(plain)| < BcryptKeyLimit
    ensures Compare(other, Hash(plain)) <==> other == plain
  {
    if Compare(other, Hash(plain)) {
      assert |BcryptKey(other)| < BcryptKeyLimit;
      assert BcryptKey(other) == Utf8(other);
      Utf8Injective(other, plain);
    }
  }

  /** Utf8 of ASCII text has one byte per character. */
  lemma {:induction false} AsciiUtf8(s: string)
    requires forall i :: 0 <= i < |s| ==> s[i] as int < 0x80
    ensures |Utf8(s)| == |s|
  {
    if s != [] {
      assert forall i :: 0 <= i < |s[1..]| ==> s[1..][i] == s[i + 1];
      AsciiUtf8(s[1..]);
    }
  }

  /** Two passwords that agree on their first 72 bytes share every digest: `a` 72 times, then `1` or `2`. */
  lemma LongPasswordsCollide()
    ensures var a := seq(BcryptKeyLimit, _ => 'a');
      a + "1" != a + "2" && Compare(a + "1", Hash(a + "2"))
  {
    var a := seq(BcryptKeyLimit, _ => 'a');
    AsciiUtf8(a);
    Utf8Append(a, "1");
    Utf8Append(a, "2");
    assert (a + "1")[BcryptKeyLimit] != (a + "2")[BcryptKeyLimit];
    assert BcryptKey(a + "1") == Utf8(a) == BcryptKey(a + "2");
  }

  /** One row of the table; `profileImage` and `address` are the nullable columns. */
  datatype Record = Record(
    id: nat,
    name: string,
    email: string,
    phone: string,
    password: StoredPassword,
    profileImage: Option<string>,
    address: Option<string>,
    state: string,
    country: string,
    city: string,
    pincode: string,
    role: Role,
    createdAt: nat,
    updatedAt: nat)

  predicate FitsOptional(s: Option<string>, width: nat) {
    s.None? || |s.value| <= width
  }

  predicate PasswordFits(p: StoredPassword) {
    p.Digest? || |p.text| <= StringWidth
  }

  /** Every column value fits its column's width. */
  predicate ColumnsFit(r: Record) {
    && |r.name| <= NameWidth
    && |r.email| <= EmailWidth
    && |r.phone| <= PhoneWidth
    && PasswordFits(r.password)
    && FitsOptional(r.profileImage, StringWidth)
    && FitsOptional(r.address, AddressWidth)
    && |r.state| <= StateWidth
    && |r.country| <= CountryWidth
    && |r.city| <= CityWidth
    && |r.pincode| <= PincodeWidth
  }

  /** What the model's validator (`isEmail`) and the column types accept. */
  predicate Storable(r: Record, isEmail: string -> bool) {
    isEmail(r.email) && ColumnsFit(r)
  }

  /** A role value the ENUM column accepts; an absent one takes the default. */
  predicate RoleAcceptable(role: Option<string>) {
    role.None? || ParseRole(role.value).Some?
  }

  /** Some record other than `id` already uses `email` or `phone`. */
  predicate ConflictsWith(rows: map<nat, Record>, id: nat, email: string, phone: string) {
    exists k :: k in rows && k != id && (rows[k].email == email || rows[k].phone == phone)
  }

  ghost predicate UniqueEmails(rows: map<nat, Record>) {
    forall a, b :: a in rows && b in rows && rows[a].email == rows[b].email ==> a == b
  }

  ghost predicate UniquePhones(rows: map<nat, Record>) {
    forall a, b :: a in rows && b in rows && rows[a].phone == rows[b].phone ==> a == b
  }

  /** The application's own invariant: the password column only ever holds digests. */
  ghost predicate PasswordsHashed(rows: map<nat, Record>) {
    forall k :: k in rows ==> rows[k].password.Digest?
  }

  /** The values given to `User.create`; an absent role takes the column default. */
  datatype NewUser = NewUser(
    name: string,
    email: string,
    phone: string,
    password: StoredPassword,
    profileImage: Option<string>,
    address: Option<string>,
    state: string,
    city: string,
    country: string,
    pincode: string,
    role: Option<string>)

  /** The row `User.create` would insert under primary key `id` at time `now`. */
  function Built(u: NewUser, id: nat, now: nat): (r: Record)
    ensures u.role.None? ==> r.role == User
  {
    Record(id, u.name, u.email, u.phone, u.password, u.profileImage, u.address,
           u.state, u.country, u.city, u.pincode,
           if u.role.Some? && ParseRole(u.role.value).Some? then ParseRole(u.role.value).value else User,
           now, now)
  }

  /** The values given to `User.update`: absent fields are left as they are. */
  datatype Changes = Changes(
    name: Option<string>,
    email: Option<string>,
    phone: Option<string>,
    password: Option<StoredPassword>,
    profileImage: Option<string>,
    address: Option<string>,
    state: Option<string>,
    city: Option<string>,
    country: Option<string>,
    pincode: Option<string>,
    role: Option<string>)

  function Pick<T>(change: Option<T>, current: T): T {
    if change.Some? then change.value else current
  }

  /** The row after `User.update` wrote `c` into `r` at time `now`. */
  function Changed(r: Record, c: Changes, now: nat): Record {
    Record(r.id,
           Pick(c.name, r.name), Pick(c.email, r.email), Pick(c.phone, r.phone),
           Pick(c.password, r.password),
           if c.profileImage.Some? then c.profileImage else r.profileImage,
           if c.address.Some? then c.address else r.address,
           Pick(c.state, r.state), Pick(c.country, r.country), Pick(c.city, r.city),
           Pick(c.pincode, r.pincode),
           if c.role.Some? && ParseRole(c.role.value).Some? then ParseRole(c.role.value).value else r.role,
           r.createdAt, now)
  }

  /** Why the database refuses a write: a unique index, or any other constraint. */
  datatype DbError = UniqueViolation | Rejected

  /** What the database says to writing `c` into the existing row `id`; `None` is success. */
  function UpdateError(rows: map<nat, Record>, id: nat, c: Changes, now: nat, isEmail: string -> bool): Option<DbError>
    requires id in rows
  {
    var r := Changed(rows[id], c, now);
    if !RoleAcceptable(c.role) || !Storable(r, isEmail) then Some(Rejected)
    else if ConflictsWith(rows, id, r.email, r.phone) then Some(UniqueViolation)
    else None
  }

  /**
   * A record as the API shows it: every column but the password.  The
   * update timestamp is present when only the password is excluded and
   * absent in the sanitized form.
   */
  datatype UserView = UserView(
    id: nat,
    name: string,
    email: string,
    phone: string,
    profileImage: Option<string>,
    address: Option<string>,
    state: string,
    country: string,
    city: string,
    pincode: string,
    role: Role,
    createdAt: nat,
    updatedAt: Option<nat>)

  /** The record a view came from, given the columns the view leaves out. */
  function Restored(v: UserView, password: StoredPassword, updatedAt: nat): Record {
    Record(v.id, v.name, v.email, v.phone, password, v.profileImage, v.address,
           v.state, v.country, v.city, v.pincode, v.role, v.createdAt, updatedAt)
  }

  /** `attributes: { exclude: ['password'] }`. */
  function WithoutPassword(r: Record): (v: UserView)
    ensures v.updatedAt == Some(r.updatedAt)
    ensures Restored(v, r.password, r.updatedAt) == r
  {
    UserView(r.id, r.name, r.email, r.phone, r.profileImage, r.address,
             r.state, r.country, r.city, r.pincode, r.role, r.createdAt, Some(r.updatedAt))
  }

  /** `sanitizeUser`: the record without its password and its update timestamp. */
  function Sanitized(r: Record): (v: UserView)
    ensures v.updatedAt.None?
    ensures Restored(v, r.password, r.updatedAt) == r
    ensures v == WithoutPassword(r).(updatedAt := None)
  {
    UserView(r.id, r.name, r.email, r.phone, r.profileImage, r.address,
             r.state, r.country, r.city, r.pincode, r.role, r.createdAt, None)
  }

  /** A record the filter `Where` of `findAll` selects. */
  datatype Column = State | City | Country

  function ColumnValue(r: Record, c: Column): string {
    match c
    case State => r.state
    case City => r.city
    case Country => r.country
  }

  datatype Where = Where(search: Option<string>, equals: Option<(Column, string)>)

  /** `name LIKE %s% OR email LIKE %s%`, and `column = value`, for whichever parts are present. */
  predicate Satisfies(w: Where, r: Record) {
    && (w.search.None? || Contains(r.name, w.search.value) || Contains(r.email, w.search.value))
    && (w.equals.None? || ColumnValue(r, w.equals.value.0) == w.equals.value.1)
  }

  predicate MatchesEither(r: Record, email: string, phone: string) {
    r.email == email || r.phone == phone
  }

  /** Records ordered by creation time, newest first. */
  ghost predicate NewestFirst(rs: seq<Record>) {
    forall i, j :: 0 <= i < j < |rs| ==> rs[i].createdAt >= rs[j].createdAt
  }

  /** `k` is one of `keys` and no record of `keys` is newer. */
  predicate IsNewest(rows: map<nat, Record>, keys: set<nat>, k: nat)
    requires keys <= rows.Keys
  {
    k in keys && forall j :: j in keys ==> rows[j].createdAt <= rows[k].createdAt
  }

  /** Every non-empty set of keys has a newest record. */
  lemma {:induction false} NewestExists(rows: map<nat, Record>, keys: set<nat>) returns (k: nat)
    requires keys != {} && keys <= rows.Keys
    ensures IsNewest(rows, keys, k)
  {
    var x :| x in keys;
    var rest := keys - {x};
    if rest == {} {
      forall j | j in keys
        ensures j == x
      {
        assert j !in rest;
      }
      k := x;
    } else {
      var m := NewestExists(rows, rest);
      k := if rows[x].createdAt <= rows[m].createdAt then m else x;
    }
  }

  /** Each key of `m` is the `id` of its record, as the table keeps them. */
  ghost predicate KeyedById(m: map<nat, Record>) {
    forall k :: k in m ==> m[k].id == k
  }

  /**
   * The state of a newest-first collection of the records of `m` that satisfy
   * `w`: `rs` holds, without repetition and newest first, the ones no longer
   * `pending`, and none of them is older than a pending one.
   */
  ghost predicate Collected(m: map<nat, Record>, w: Where, pending: set<nat>, rs: seq<Record>) {
    && pending <= m.Keys
    && (forall k :: k in pending ==> Satisfies(w, m[k]))
    && (forall i :: 0 <= i < |rs| ==> rs[i].id in m && m[rs[i].id] == rs[i] && rs[i].id !in pending)
    && (forall i :: 0 <= i < |rs| ==> Satisfies(w, rs[i]))
    && (forall k :: k in m && Satisfies(w, m[k]) && k !in pending ==> m[k] in rs)
    && (forall i, j :: 0 <= i < j < |rs| ==> rs[i].id != rs[j].id)
    && NewestFirst(rs)
    && (forall i, k :: 0 <= i < |rs| && k in pending ==> m[k].createdAt <= rs[i].createdAt)
  }

  /** Moving the newest pending record to the end of `rs` keeps the collection in order. */
  lemma CollectNewest(m: map<nat, Record>, w: Where, pending: set<nat>, rs: seq<Record>, k: nat)
    requires KeyedById(m) && Collected(m, w, pending, rs)
    requires k in pending && IsNewest(m, pending, k)
    ensures Collected(m, w, pending - {k}, rs + [m[k]])
  {
    var rs' := rs + [m[k]];
    assert m[k].id == k;
    forall i, j | 0 <= i < j < |rs'|
      ensures rs'[i].createdAt >= rs'[j].createdAt && rs'[i].id != rs'[j].id
    {
      if j == |rs| {
        assert rs'[i] == rs[i];
      }
    }
  }

  /** Once nothing is pending, `rs` is exactly the selected records, newest first. */
  lemma CollectedAll(m: map<nat, Record>, w: Where, rs: seq<Record>)
    requires Collected(m, w, {}, rs)
    ensures forall r :: r in rs <==> r in m.Values && Satisfies(w, r)
  {
    forall r | r in m.Values && Satisfies(w, r)
      ensures r in rs
    {
      var k :| k in m && m[k] == r;
    }
  }

  /** The `users` table, with its auto-increment counter. */
  class UserTable {
    var rows: map<nat, Record>
    var nextId: nat
    /** The `isEmail` validator of the `email` column (validator.js, not modelled). */
    const isEmail: string -> bool

    ghost predicate Valid()
      reads this
    {
      && 1 <= nextId
      && (forall id :: id in rows ==> 1 <= id < nextId && rows[id].id == id && Storable(rows[id], isEmail))
      && UniqueEmails(rows)
      && UniquePhones(rows)
    }

    constructor (isEmail: string -> bool)
      ensures Valid()
      ensures rows == map[] && nextId == 1 && this.isEmail == isEmail
    {
      rows := map[];
      nextId := 1;
      this.isEmail := isEmail;
    }

    /** `findOne({ where: { [Op.or]: [{ email }, { phone }] } })`: any one matching row. */
    method FindOneByEmailOrPhone(email: string, phone: string) returns (r: Option<Record>)
      requires Valid()
      ensures r.None? <==> forall k :: k in rows ==> !MatchesEither(rows[k], email, phone)
      ensures r.Some? ==> r.value.id in rows && rows[r.value.id] == r.value && MatchesEither(r.value, email, phone)
    {
      if exists k :: k in rows && MatchesEither(rows[k], email, phone) {
        var k :| k in rows && MatchesEither(rows[k], email, phone);
        r := Some(rows[k]);
      } else {
        r := None;
      }
    }

    /**
     * `User.create(u)`: the validators and column types are checked first,
     * then the unique indexes; only a successful insert uses up a key.
     */
    method Create(u: NewUser, now: nat) returns (r: Result<Record, DbError>)
      requires Valid()
      modifies this
      ensures Valid()
      ensures r.Ok? <==>
        RoleAcceptable(u.role) && Storable(Built(u, old(nextId), now), isEmail)
        && !ConflictsWith(old(rows), old(nextId), u.email, u.phone)
      ensures r == Err(UniqueViolation) <==>
        RoleAcceptable(u.role) && Storable(Built(u, old(nextId), now), isEmail)
        && ConflictsWith(old(rows), old(nextId), u.email, u.phone)
      ensures r.Ok? ==>
        && old(nextId) !in old(rows)
        && r.value == Built(u, old(nextId), now)
        && rows == old(rows)[old(nextId) := r.value]
        && nextId == old(nextId) + 1
      ensures r.Err? ==> rows == old(rows) && nextId == old(nextId)
    {
      var rec := Built(u, nextId, now);
      if !RoleAcceptable(u.role) || !Storable(rec, isEmail) {
        return Err(Rejected);
      }
      if ConflictsWith(rows, nextId, u.email, u.phone) {
        return Err(UniqueViolation);
      }
      rows := rows[nextId := rec];
      nextId := nextId + 1;
      r := Ok(rec);
    }

    /** `User.update(c, { where: { id } })`, returning the number of affected rows. */
    method Update(id: nat, c: Changes, now: nat) returns (r: Result<nat, DbError>)
      requires Valid()
      modifies this
      ensures Valid() && nextId == old(nextId)
      ensures id !in old(rows) ==> r == Ok(0) && rows == old(rows)
      ensures id in old(rows) && UpdateError(old(rows), id, c, now, isEmail).None? ==>
        r == Ok(1) && rows == old(rows)[id := Changed(old(rows)[id], c, now)]
      ensures id in old(rows) && UpdateError(old(rows), id, c, now, isEmail).Some? ==>
        r == Err(UpdateError(old(rows), id, c, now, isEmail).value) && rows == old(rows)
    {
      if id !in rows {
        return Ok(0);
      }
      var e := UpdateError(rows, id, c, now, isEmail);
      if e.Some? {
        return Err(e.value);
      }
      rows := rows[id := Changed(rows[id], c, now)];
      r := Ok(1);
    }

    /** `User.destroy({ where: { id } })`, returning the number of deleted rows. */
    method Destroy(id: nat) returns (n: nat)
      requires Valid()
      modifies this
      ensures Valid() && nextId == old(nextId)
      ensures rows == old(rows) - {id}
      ensures n == if id in old(rows) then 1 else 0
    {
      n := if id in rows then 1 else 0;
      rows := rows - {id};
    }

    /**
     * `findAll({ where: w, order: [['createdAt', 'DESC']] })`: every record
     * that satisfies `w`, each once, newest first (ties in no fixed order).
     */
    method FindAll(w: Where) returns (rs: seq<Record>)
      requires Valid()
      ensures forall r :: r in rs <==> r in rows.Values && Satisfies(w, r)
      ensures forall i, j :: 0 <= i < j < |rs| ==> rs[i].id != rs[j].id
      ensures NewestFirst(rs)
    {
      var m := rows;
      var pending := set k | k in m && Satisfies(w, m[k]);
      rs := [];
      while pending != {}
        invariant Collected(m, w, pending, rs)
        decreases pending
      {
        ghost var newest := NewestExists(m, pending);
        var k :| k in pending && IsNewest(m, pending, k);
        CollectNewest(m, w, pending, rs, k);
        rs := rs + [m[k]];
        pending := pending - {k};
      }
      CollectedAll(m, w, rs);
    }
  }
}
