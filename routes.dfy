/**
 * How the routers chain the middleware and the controllers: registration
 * goes through the upload, the rule set and the controller; every user
 * route goes through authentication first, and only the list route also
 * through the admin gate.
 */
module Routes {
  import opened Wrappers
  import opened UserModel
  import opened Tokens
  import opened Http
  import opened MulterConfig
  import opened Validation
  import opened AuthController
  import opened UserController
  import opened AdminMiddleware
  import opened AuthMiddleware

  /** The upload middleware on an optional file part. */
  function Uploaded(incoming: Option<IncomingFile>, millis: nat): (r: Result<Option<StoredFile>, string>)
    ensures incoming.None? ==> r == Ok(None)
    ensures incoming.Some? ==> (r.Ok? <==> Upload(incoming.value, millis).Ok?)
    ensures incoming.Some? && r.Ok? ==> r.value == Some(Upload(incoming.value, millis).value)
    ensures r.Err? ==> r.error in {FilterMessage, TooLargeMessage}
  {
    if incoming.None? then Ok(None)
    else match Upload(incoming.value, millis)
      case Ok(f) => Ok(Some(f))
      case Err(e) => Err(e)
  }

  /** An error the upload raises reaches the application's error handler, which answers 500 with its message. */
  function UploadFailure(message: string): (r: Response)
    ensures r.status == 500 && r.message == Some(message) && r.body.NoBody?
  {
    Status(500, message)
  }

  /**
   * `POST /api/auth/register`: upload, then `registerValidation`, then
   * `register`; the store changes only when all three let the request
   * through.
   */
  method RegisterRoute(db: UserTable, b: RegisterBody, incoming: Option<IncomingFile>, millis: nat, now: nat,
                       isNumeric: string -> bool)
    returns (resp: Response)
    requires db.Valid()
    modifies db
    ensures db.Valid()
    ensures Uploaded(incoming, millis).Err? ==>
      resp == UploadFailure(Uploaded(incoming, millis).error) && db.rows == old(db.rows)
    ensures Uploaded(incoming, millis).Ok? && RegisterValidation(b, Uploaded(incoming, millis).value, db.isEmail, isNumeric).Reject? ==>
      resp == RegisterValidation(b, Uploaded(incoming, millis).value, db.isEmail, isNumeric).response && db.rows == old(db.rows)
    ensures resp.status == 201 ==>
      && Uploaded(incoming, millis).Ok?
      && RegisterValidation(b, Uploaded(incoming, millis).value, db.isEmail, isNumeric).Proceed?
      && db.rows == old(db.rows)[old(db.nextId) := Registered(b, Uploaded(incoming, millis).value, old(db.nextId), now)]
    ensures resp.status != 201 ==> db.rows == old(db.rows)
  {
    var uploaded := Uploaded(incoming, millis);
    if uploaded.Err? {
      return UploadFailure(uploaded.error);
    }
    var checked := RegisterValidation(b, uploaded.value, db.isEmail, isNumeric);
    if checked.Reject? {
      return checked.response;
    }
    resp := Register(db, b, uploaded.value, now);
  }

  /** The four routes of `/api/users`. */
  datatype UserRequest =
    | ListAll(query: ListQuery)
    | GetOne(id: nat)
    | UpdateOne(id: nat, body: UpdateBody, upload: Option<IncomingFile>)
    | DeleteOne(id: nat)

  /**
   * `/api/users`: the authentication gate on every route, the admin gate on
   * the list route only, then the controller; the update route takes the
   * upload before `updateUser`.
   */
  method UsersRoute(db: UserTable, req: Request, header: Option<string>, parse: string -> Option<SignedToken>,
                    jwtSecret: string, now: nat, millis: nat, route: UserRequest)
    returns (resp: Response)
    requires db.Valid()
    modifies db, req
    ensures db.Valid()
    ensures var d := Decide(old(db.rows), header, parse, jwtSecret, now);
      d.Deny? ==> resp == d.response && db.rows == old(db.rows)
    ensures route.ListAll? || route.GetOne? ==> db.rows == old(db.rows)
    ensures var d := Decide(old(db.rows), header, parse, jwtSecret, now);
      route.ListAll? && d.Pass? && d.user.role != Admin ==> resp == Status(403, AdminOnlyMessage)
    ensures route.ListAll? && resp.status == 200 ==>
      var d := Decide(old(db.rows), header, parse, jwtSecret, now);
      d.Pass? && d.user.role == Admin && resp.body.Users?
    ensures var d := Decide(old(db.rows), header, parse, jwtSecret, now);
      route.GetOne? && d.Pass? && d.user.id == route.id ==>
      resp == Response(200, None, OneUser(d.user))
    ensures var d := Decide(old(db.rows), header, parse, jwtSecret, now);
      route.GetOne? && d.Pass? && route.id in old(db.rows) && !MayAccess(d.user, route.id) ==>
      resp == Status(403, ViewDeniedMessage)
    ensures var d := Decide(old(db.rows), header, parse, jwtSecret, now);
      route.UpdateOne? && d.Pass? && Uploaded(route.upload, millis).Err? ==>
      resp == UploadFailure(Uploaded(route.upload, millis).error) && db.rows == old(db.rows)
    ensures var d := Decide(old(db.rows), header, parse, jwtSecret, now);
      route.UpdateOne? && d.Pass? && Uploaded(route.upload, millis).Ok? ==>
      (resp, db.rows) == UpdateOutcome(old(db.rows), db.isEmail, d.user, route.id, route.body,
                                      Uploaded(route.upload, millis).value, now)
    ensures var d := Decide(old(db.rows), header, parse, jwtSecret, now);
      route.UpdateOne? && d.Pass? && Uploaded(route.upload, millis).Ok? &&
      route.id in old(db.rows) && !MayAccess(d.user, route.id) ==>
      resp == Status(403, UpdateDeniedMessage) && db.rows == old(db.rows)
    ensures var d := Decide(old(db.rows), header, parse, jwtSecret, now);
      route.DeleteOne? && d.Pass? && d.user.id == route.id ==>
      resp == Status(200, DeletedMessage) && db.rows == old(db.rows) - {route.id}
    ensures var d := Decide(old(db.rows), header, parse, jwtSecret, now);
      route.DeleteOne? && d.Pass? && route.id in old(db.rows) && !MayAccess(d.user, route.id) ==>
      resp == Status(403, DeleteDeniedMessage) && db.rows == old(db.rows)
    ensures var d := Decide(old(db.rows), header, parse, jwtSecret, now);
      route.ListAll? && d.Pass? && d.user.role == Admin ==>
      && resp.status == 200 && resp.body.Users?
      && (forall k :: k in old(db.rows) ==>
            (WithoutPassword(old(db.rows)[k]) in resp.body.users <==> Listed(route.query, old(db.rows)[k])))
      && (forall v :: v in resp.body.users ==>
            exists k :: k in old(db.rows) && v == WithoutPassword(old(db.rows)[k]) && Listed(route.query, old(db.rows)[k]))
    ensures var d := Decide(old(db.rows), header, parse, jwtSecret, now);
      route.GetOne? && d.Pass? ==>
      && (resp == Status(404, NotFoundMessage) <==> route.id !in old(db.rows))
      && (resp == Status(403, ViewDeniedMessage) <==> route.id in old(db.rows) && !MayAccess(d.user, route.id))
      && (resp.status == 200 <==> route.id in old(db.rows) && MayAccess(d.user, route.id))
      && (resp.status == 200 ==>
            route.id in old(db.rows) && resp == Response(200, None, OneUser(WithoutPassword(old(db.rows)[route.id]))))
    ensures var d := Decide(old(db.rows), header, parse, jwtSecret, now);
      route.DeleteOne? && d.Pass? ==>
      && (resp == Status(404, NotFoundMessage) <==> route.id !in old(db.rows))
      && (resp == Status(403, DeleteDeniedMessage) <==> route.id in old(db.rows) && !MayAccess(d.user, route.id))
      && (resp == Status(200, DeletedMessage) <==> route.id in old(db.rows) && MayAccess(d.user, route.id))
      && (resp.status == 200 ==> db.rows == old(db.rows) - {route.id})
      && (resp.status != 200 ==> db.rows == old(db.rows))
  {
    var gate := Authenticate(db, req, header, parse, jwtSecret, now);
    if gate.Reject? {
      return gate.response;
    }
    var requester := req.user.value;
    match route
    case ListAll(q) =>
      var admin := AdminGate(req.user);
      if admin.Reject? {
        resp := admin.response;
      } else {
        resp := ListUsers(db, q);
      }
    case GetOne(id) =>
      resp := GetUser(db, requester, id);
    case UpdateOne(id, b, incoming) =>
      var uploaded := Uploaded(incoming, millis);
      if uploaded.Err? {
        resp := UploadFailure(uploaded.error);
      } else {
        resp := UpdateUser(db, requester, id, b, uploaded.value, now);
      }
    case DeleteOne(id) =>
      resp := DeleteUser(db, requester, id);
  }
}
