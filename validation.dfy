/**
 * The registration rule set: one rule chain per field, whose failures are
 * all collected, an inline image check that answers before any field error
 * is reported, and the catcher that turns collected failures into a 400.
 */
module Validation {
  import opened Wrappers
  import opened Strings
  import opened Http
  import opened MulterConfig

  /** One validator of one chain. */
  datatype Check =
    | NameMinLength | NameAlphabetic
    | EmailValid
    | PhoneLength | PhoneNumeric
    | PasswordMinLength | PasswordDigit
    | AddressMaxLength
    | StateRequired | CityRequired | CountryRequired
    | PincodeLength | PincodeNumeric

  /** The validators in the order the chains declare them. */
  const RegisterChecks: seq<Check> := [
    NameMinLength, NameAlphabetic, EmailValid, PhoneLength, PhoneNumeric,
    PasswordMinLength, PasswordDigit, AddressMaxLength,
    StateRequired, CityRequired, CountryRequired, PincodeLength, PincodeNumeric]

  function Field(c: Check): string {
    match c
    case NameMinLength | NameAlphabetic => "name"
    case EmailValid => "email"
    case PhoneLength | PhoneNumeric => "phone"
    case PasswordMinLength | PasswordDigit => "password"
    case AddressMaxLength => "address"
    case StateRequired => "state"
    case CityRequired => "city"
    case CountryRequired => "country"
    case PincodeLength | PincodeNumeric => "pincode"
  }

  function Message(c: Check): string {
    match c
    case NameMinLength => "Name must be at least 3 characters long."
    case NameAlphabetic => "Name must contain only alphabets and spaces."
    case EmailValid => "Must be a valid email address."
    case PhoneLength => "Phone must be 10 to 15 digits."
    case PhoneNumeric => "Phone must contain only digits."
    case PasswordMinLength => "Password must be at least 6 characters long."
    case PasswordDigit => "Password must contain at least one number."
    case AddressMaxLength => "Address cannot exceed 150 characters."
    case StateRequired => "State is required."
    case CityRequired => "City is required."
    case CountryRequired => "Country is required."
    case PincodeLength => "Pincode must be 4 to 10 digits."
    case PincodeNumeric => "Pincode must contain only digits."
  }

  /**
   * Whether one validator accepts the body.  `isLength` counts as
   * `IsLengthCount` does; `isEmail` and `isNumeric` are validator.js's and
   * are parameters here.
   */
  predicate Holds(c: Check, b: RegisterBody, isEmail: string -> bool, isNumeric: string -> bool) {
    match c
    case NameMinLength => IsLengthCount(b.name) >= 3
    case NameAlphabetic => LettersAndSpacesOnly(b.name)
    case EmailValid => isEmail(b.email)
    case PhoneLength => 10 <= IsLengthCount(b.phone) <= 15
    case PhoneNumeric => isNumeric(b.phone)
    case PasswordMinLength => IsLengthCount(b.password) >= 6
    case PasswordDigit => HasDigit(b.password)
    case AddressMaxLength => b.address.None? || IsLengthCount(b.address.value) <= 150
    case StateRequired => b.state != ""
    case CityRequired => b.city != ""
    case CountryRequired => b.country != ""
    case PincodeLength => 4 <= IsLengthCount(b.pincode) <= 10
    case PincodeNumeric => isNumeric(b.pincode)
  }

  function ErrorOf(c: Check): FieldError {
    FieldError(Field(c), Message(c))
  }

  /** Runs every validator of `checks` and collects the failures, in order. */
  function Failures(checks: seq<Check>, b: RegisterBody, isEmail: string -> bool, isNumeric: string -> bool): (errs: seq<FieldError>)
    ensures |errs| <= |checks|
    ensures forall c :: c in checks && !Holds(c, b, isEmail, isNumeric) ==> ErrorOf(c) in errs
    ensures forall e :: e in errs ==> exists c :: c in checks && !Holds(c, b, isEmail, isNumeric) && e == ErrorOf(c)
  {
    if checks == [] then []
    else
      var rest := Failures(checks[1..], b, isEmail, isNumeric);
      if Holds(checks[0], b, isEmail, isNumeric) then rest else [ErrorOf(checks[0])] + rest
  }

  lemma ErrorOfInjective(c: Check, d: Check)
    requires ErrorOf(c) == ErrorOf(d)
    ensures c == d
  {
  }

  /** No failure is collected exactly when every validator accepts the body. */
  lemma NoFailuresIffAllHold(b: RegisterBody, isEmail: string -> bool, isNumeric: string -> bool)
    ensures Failures(RegisterChecks, b, isEmail, isNumeric) == [] <==>
      forall c :: c in RegisterChecks ==> Holds(c, b, isEmail, isNumeric)
  {
    var errs := Failures(RegisterChecks, b, isEmail, isNumeric);
    if errs != [] {
      assert errs[0] in errs;
    }
  }

  /** A failed validator is reported with its own field and message. */
  lemma FailureReported(c: Check, b: RegisterBody, isEmail: string -> bool, isNumeric: string -> bool)
    requires c in RegisterChecks
    ensures ErrorOf(c) in Failures(RegisterChecks, b, isEmail, isNumeric) <==> !Holds(c, b, isEmail, isNumeric)
  {
    var errs := Failures(RegisterChecks, b, isEmail, isNumeric);
    if ErrorOf(c) in errs {
      var d :| d in RegisterChecks && !Holds(d, b, isEmail, isNumeric) && ErrorOf(c) == ErrorOf(d);
      ErrorOfInjective(c, d);
    }
  }

  const InvalidTypeMessage := "Invalid file type. Only JPG/PNG are allowed."
  const TooLargeImageMessage := "File size too large. Max 2MB allowed."
  /** `2 * 1024 * 1024`. */
  const ImageSizeLimit: nat := 2 * 1024 * 1024

  /** The inline image check: the exact mimetypes, then the size. */
  function ImageError(file: Option<StoredFile>): (e: Option<string>)
    ensures file.None? ==> e.None?
    ensures file.Some? && file.value.mimetype != "image/jpeg" && file.value.mimetype != "image/png" ==>
      e == Some(InvalidTypeMessage)
    ensures e.Some? && !(file.value.mimetype != "image/jpeg" && file.value.mimetype != "image/png") ==>
      e == Some(TooLargeImageMessage)
    ensures e.None? <==>
      (file.None? || ((file.value.mimetype == "image/jpeg" || file.value.mimetype == "image/png") && file.value.size <= ImageSizeLimit))
  {
    if file.None? then None
    else if file.value.mimetype != "image/jpeg" && file.value.mimetype != "image/png" then Some(InvalidTypeMessage)
    else if file.value.size > ImageSizeLimit then Some(TooLargeImageMessage)
    else None
  }

  const FailedMessage := "Validation failed."

  /** `registerValidation`: the field chains, the image check, then the catcher. */
  function RegisterValidation(b: RegisterBody, file: Option<StoredFile>, isEmail: string -> bool, isNumeric: string -> bool): (o: Outcome)
    ensures o.Proceed? <==> ImageError(file).None? && forall c :: c in RegisterChecks ==> Holds(c, b, isEmail, isNumeric)
    ensures ImageError(file).Some? ==> o == Reject(Status(400, ImageError(file).value))
    ensures ImageError(file).None? && o.Reject? ==>
      o.response == Response(400, Some(FailedMessage), Errors(Failures(RegisterChecks, b, isEmail, isNumeric)))
  {
    NoFailuresIffAllHold(b, isEmail, isNumeric);
    var errs := Failures(RegisterChecks, b, isEmail, isNumeric);
    if ImageError(file).Some? then Reject(Status(400, ImageError(file).value))
    else if errs != [] then Reject(Response(400, Some(FailedMessage), Errors(errs)))
    else Proceed
  }

  /**
   * The image size check never fires on a file the upload step let through:
   * the upload limit (2,000,000 bytes) is below the check's (2 MiB).
   */
  lemma SizeCheckUnreachable(f: IncomingFile, millis: nat)
    requires Upload(f, millis).Ok?
    ensures ImageError(Some(Upload(f, millis).value)) != Some(TooLargeImageMessage)
  {
  }

  /** The upload filter lets through mimetypes that the image check then rejects. */
  lemma FilterWiderThanImageCheck()
    ensures Upload(IncomingFile("me.jpg", "image/jpg", 1), 0).Ok?
    ensures ImageError(Some(Upload(IncomingFile("me.jpg", "image/jpg", 1), 0).value)) == Some(InvalidTypeMessage)
  {
    assert LastIndexOf("me.jpg", '/').None?;
    assert LastSegment("me.jpg") == "me.jpg";
    assert "me.jpg"[2] == '.';
    assert LastIndexBefore("me.jpg", '.', 3) == Some(2);
    assert Extname("me.jpg") == ".jpg";
    assert ToLower(".jpg") == ".jpg";
    ContainsAt(".jpg", "jpg", 1);
    ContainsAt("image/jpg", "jpg", 6);
  }
}
