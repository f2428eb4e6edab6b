/**
 * The shapes of the requests the backend receives and of the responses it
 * sends, and the request object that the authentication gate annotates.
 */
module Http {
  import opened Wrappers
  import opened UserModel
  import opened Tokens

  /** The multipart fields of a registration; only `address` and `role` may be left out. */
  datatype RegisterBody = RegisterBody(
    name: string,
    email: string,
    phone: string,
    password: string,
    address: Option<string>,
    state: string,
    city: string,
    country: string,
    pincode: string,
    role: Option<string>)

  /** The fields of an update request; each one may be left out. */
  datatype UpdateBody = UpdateBody(
    name: Option<string>,
    email: Option<string>,
    phone: Option<string>,
    password: Option<string>,
    profileImage: Option<string>,
    address: Option<string>,
    state: Option<string>,
    city: Option<string>,
    country: Option<string>,
    pincode: Option<string>,
    role: Option<string>)

  /** The query string of the list route. */
  datatype ListQuery = ListQuery(search: Option<string>, filterBy: Option<string>, value: Option<string>)

  /** One entry `{ [field]: message }` of a failed validation. */
  datatype FieldError = FieldError(field: string, message: string)

  /** The user object of a successful login. */
  datatype LoginUser = LoginUser(id: nat, name: string, email: string, role: Role)

  datatype Body =
    | NoBody
    | OneUser(user: UserView)
    | Users(users: seq<UserView>)
    | Session(account: LoginUser, tokens: TokenPair)
    | Errors(errors: seq<FieldError>)

  datatype Response = Response(status: nat, message: Option<string>, body: Body)

  function Status(status: nat, message: string): Response {
    Response(status, Some(message), NoBody)
  }

  /** What a middleware does with a request: pass it on to the next handler, or answer it. */
  datatype Outcome = Proceed | Reject(response: Response)

  /** The request object: `req.user` is set by the authentication gate. */
  class Request {
    var user: Option<UserView>

    constructor ()
      ensures user.None?
    {
      user := None;
    }
  }
}
