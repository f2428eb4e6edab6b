/**
 * The registration form of the web client: `validateForm` checks the rules
 * one after the other and reports only the first that fails, and
 * `handleSubmit` sends the form as multipart data only when they all pass.
 * Lengths are JavaScript's `.length`, counted in UTF-16 code units.
 */
module ClientRegister {
  import opened Wrappers
  import opened Strings
  import opened Http
  import opened Validation

  /** The form's text fields, in the order the component declares them. */
  datatype Form = Form(
    name: string,
    email: string,
    phone: string,
    password: string,
    address: string,
    state: string,
    city: string,
    country: string,
    pincode: string)

  /** The form as the component first renders it. */
  const EmptyForm := Form("", "", "", "", "", "", "", "", "")

  /** The image the user picked. */
  datatype ClientFile = ClientFile(name: string, mimetype: string, size: nat)

  /** The client's own image limit. */
  const ClientImageLimit: nat := 2000000

  // ---------------------------------------------------------------- the email pattern

  predicate NoSpaceIn(s: string, lo: nat, hi: nat)
    requires lo <= hi <= |s|
  {
    forall k :: lo <= k < hi ==> !IsSpace(s[k])
  }

  /** `\S+@\S+\.\S+` matches `s` with its `@` at `at` and its `.` at `dot`. */
  predicate EmailShapeAt(s: string, at: nat, dot: nat) {
    && 1 <= at && at + 1 < dot && dot + 1 < |s|
    && s[at] == '@' && s[dot] == '.'
    && !IsSpace(s[at - 1]) && NoSpaceIn(s, at + 1, dot) && !IsSpace(s[dot + 1])
  }

  /** `/\S+@\S+\.\S+/.test(s)`: the pattern occurs anywhere in `s`, since it is not anchored. */
  predicate EmailFormat(s: string) {
    exists at: nat, dot: nat | at < |s| && dot < |s| :: EmailShapeAt(s, at, dot)
  }

  lemma EmailFormatExamples()
    ensures EmailFormat("a@b.c")
    ensures EmailFormat("not an email: a@b.c, really")
    ensures !EmailFormat("a@b")
    ensures !EmailFormat("a@.c")
  {
    assert EmailShapeAt("a@b.c", 1, 3);
    var s := "not an email: a@b.c, really";
    assert s[14] == 'a' && s[15] == '@' && s[16] == 'b' && s[17] == '.' && s[18] == 'c';
    assert EmailShapeAt(s, 15, 17);
  }

  // ---------------------------------------------------------------- the rules

  /** The client's rules, in the order `validateForm` checks them. */
  datatype ClientRule = NameRule | EmailRule | PhoneRule | PasswordRule | LocationRule | PincodeRule | ImageRule

  const ClientRules: seq<ClientRule> :=
    [NameRule, EmailRule, PhoneRule, PasswordRule, LocationRule, PincodeRule, ImageRule]

  predicate RulePasses(rule: ClientRule, f: Form, image: Option<ClientFile>) {
    match rule
    case NameRule => Utf16Length(f.name) >= 3 && LettersAndSpacesOnly(f.name)
    case EmailRule => EmailFormat(f.email)
    case PhoneRule => 10 <= Utf16Length(f.phone) <= 15 && DigitsOnly(f.phone)
    case PasswordRule => Utf16Length(f.password) >= 6 && HasDigit(f.password)
    case LocationRule => f.state != "" && f.city != "" && f.country != ""
    case PincodeRule => 4 <= Utf16Length(f.pincode) <= 10 && DigitsOnly(f.pincode)
    case ImageRule => image.None? || image.value.size <= ClientImageLimit
  }

  function RuleMessage(rule: ClientRule): string {
    match rule
    case NameRule => "Name must be 3+ chars, alphabets only."
    case EmailRule => "Invalid email format."
    case PhoneRule => "Phone must be 10-15 digits."
    case PasswordRule => "Password must be 6+ chars and include a number."
    case LocationRule => "State, City, and Country are required."
    case PincodeRule => "Pincode must be 4-10 digits."
    case ImageRule => "Image file size must be less than 2MB."
  }

  /** `rule` is the `i`-th rule and the first one that fails. */
  predicate FirstFailing(i: nat, f: Form, image: Option<ClientFile>)
    requires i < |ClientRules|
  {
    !RulePasses(ClientRules[i], f, image) && forall j :: 0 <= j < i ==> RulePasses(ClientRules[j], f, image)
  }

  /**
   * `validateForm`: `None` when every rule passes, otherwise the message of
   * the first rule, in the order name, email, phone, password, location,
   * pincode, image, that fails.
   */
  function ValidateForm(f: Form, image: Option<ClientFile>): (r: Option<string>)
    ensures r.None? <==> forall i :: 0 <= i < |ClientRules| ==> RulePasses(ClientRules[i], f, image)
    ensures r.Some? ==> exists i :: 0 <= i < |ClientRules| && FirstFailing(i, f, image) && r.value == RuleMessage(ClientRules[i])
    ensures forall i :: 0 <= i < |ClientRules| && FirstFailing(i, f, image) ==> r == Some(RuleMessage(ClientRules[i]))
  {
    if Utf16Length(f.name) < 3 || !LettersAndSpacesOnly(f.name) then
      assert FirstFailing(0, f, image);
      Some(RuleMessage(NameRule))
    else if !EmailFormat(f.email) then
      assert FirstFailing(1, f, image);
      Some(RuleMessage(EmailRule))
    else if Utf16Length(f.phone) < 10 || Utf16Length(f.phone) > 15 || !DigitsOnly(f.phone) then
      assert FirstFailing(2, f, image);
      Some(RuleMessage(PhoneRule))
    else if Utf16Length(f.password) < 6 || !HasDigit(f.password) then
      assert FirstFailing(3, f, image);
      Some(RuleMessage(PasswordRule))
    else if f.state == "" || f.city == "" || f.country == "" then
      assert FirstFailing(4, f, image);
      Some(RuleMessage(LocationRule))
    else if Utf16Length(f.pincode) < 4 || Utf16Length(f.pincode) > 10 || !DigitsOnly(f.pincode) then
      assert FirstFailing(5, f, image);
      Some(RuleMessage(PincodeRule))
    else if image.Some? && image.value.size > ClientImageLimit then
      assert FirstFailing(6, f, image);
      Some(RuleMessage(ImageRule))
    else
      None
  }

  /** The untouched form fails on the first rule, the name. */
  lemma EmptyFormFailsOnName(image: Option<ClientFile>)
    ensures ValidateForm(EmptyForm, image) == Some("Name must be 3+ chars, alphabets only.")
  {
  }

  // ---------------------------------------------------------------- submitting

  /** The keys of the form state, in the order `for (const key in formData)` visits them. */
  const FormKeys: seq<string> := ["name", "email", "phone", "password", "address", "state", "city", "country", "pincode"]

  function FieldValue(f: Form, key: string): string {
    if key == "name" then f.name
    else if key == "email" then f.email
    else if key == "phone" then f.phone
    else if key == "password" then f.password
    else if key == "address" then f.address
    else if key == "state" then f.state
    else if key == "city" then f.city
    else if key == "country" then f.country
    else if key == "pincode" then f.pincode
    else ""
  }

  /** One part of the multipart request. */
  datatype Part = TextPart(value: string) | FilePart(file: ClientFile)

  /**
   * `handleSubmit`: nothing is sent when `validateForm` fails; otherwise
   * every field of the form (an empty address included) and then the image,
   * if one was picked, are appended to a `FormData` that is sent.
   */
  method HandleSubmit(f: Form, image: Option<ClientFile>) returns (sent: Option<seq<(string, Part)>>)
    ensures sent.None? <==> ValidateForm(f, image).Some?
    ensures sent.Some? ==> |sent.value| == |FormKeys| + (if image.Some? then 1 else 0)
    ensures sent.Some? ==> forall i :: 0 <= i < |FormKeys| ==> sent.value[i] == (FormKeys[i], TextPart(FieldValue(f, FormKeys[i])))
    ensures sent.Some? && image.Some? ==> sent.value[|FormKeys|] == ("profile_image", FilePart(image.value))
  {
    if ValidateForm(f, image).Some? {
      return None;
    }
    var data: seq<(string, Part)> := [];
    for i := 0 to |FormKeys|
      invariant |data| == i
      invariant forall j :: 0 <= j < i ==> data[j] == (FormKeys[j], TextPart(FieldValue(f, FormKeys[j])))
    {
      data := data + [(FormKeys[i], TextPart(FieldValue(f, FormKeys[i])))];
    }
    if image.Some? {
      data := data + [("profile_image", FilePart(image.value))];
    }
    sent := Some(data);
  }

  // ---------------------------------------------------------------- against the server's rules

  /** The body the server reads from a submitted form: every key is present and no role is sent. */
  function SubmittedBody(f: Form): (b: RegisterBody)
    ensures b.address == Some(f.address) && b.role.None?
  {
    RegisterBody(f.name, f.email, f.phone, f.password, Some(f.address), f.state, f.city, f.country, f.pincode, None)
  }

  /** `.length` and `isLength` count `s` alike: no character outside the Basic Multilingual Plane and no presentation selector. */
  predicate CountsAlike(s: string) {
    forall i :: 0 <= i < |s| ==> s[i] as int <= 0xFFFF && !IsPresentationSelector(s[i])
  }

  /** What the client's name, phone and pincode rules accept is counted alike by both. */
  lemma RuleTextCountsAlike(s: string)
    requires DigitsOnly(s) || LettersAndSpacesOnly(s)
    ensures CountsAlike(s) && IsLengthCount(s) == Utf16Length(s)
  {
    IsLengthCountVersusUtf16(s);
  }

  /**
   * A form the client accepts passes the server's rules too, except the
   * three the client does not check the same way: the email (validator.js's
   * `isEmail`), the address length, and the password length, which the
   * server counts without surrogate pairs and presentation selectors.
   * `isNumeric` is assumed to accept digit strings.
   */
  lemma ClientValidServerAgrees(f: Form, image: Option<ClientFile>, isEmail: string -> bool, isNumeric: string -> bool, c: Check)
    requires ValidateForm(f, image).None?
    requires forall s :: DigitsOnly(s) ==> isNumeric(s)
    requires c in RegisterChecks && c != EmailValid && c != AddressMaxLength
    requires c == PasswordMinLength ==> CountsAlike(f.password)
    ensures Holds(c, SubmittedBody(f), isEmail, isNumeric)
  {
    assert RulePasses(NameRule, f, image) && RulePasses(PhoneRule, f, image);
    assert RulePasses(PasswordRule, f, image) && RulePasses(PincodeRule, f, image);
    RuleTextCountsAlike(f.name);
    RuleTextCountsAlike(f.phone);
    RuleTextCountsAlike(f.pincode);
    IsLengthCountVersusUtf16(f.password);
  }

  /** Three emoji and a digit: seven UTF-16 units, four for `isLength`. */
  lemma EmojiPasswordLengths()
    ensures Utf16Length("\U{1F600}\U{1F600}\U{1F600}1") == 7 && IsLengthCount("\U{1F600}\U{1F600}\U{1F600}1") == 4
    ensures HasDigit("\U{1F600}\U{1F600}\U{1F600}1")
  {
    var e := '\U{1F600}';
    LengthsOfPrepend('1', "");
    LengthsOfPrepend(e, "1");
    LengthsOfPrepend(e, [e] + "1");
    LengthsOfPrepend(e, [e, e] + "1");
    assert IsDigit("\U{1F600}\U{1F600}\U{1F600}1"[3]);
  }

  /** A password of three emoji and a digit is long enough for the client but not for the server. */
  lemma SupplementaryPasswordDisagrees()
    ensures var f := Form("Ann", "a@b.co", "1234567890", "\U{1F600}\U{1F600}\U{1F600}1", "", "S", "C", "K", "1234");
      && RulePasses(PasswordRule, f, None)
      && forall isEmail: string -> bool, isNumeric: string -> bool :: !Holds(PasswordMinLength, SubmittedBody(f), isEmail, isNumeric)
  {
    EmojiPasswordLengths();
  }

  /** `abcd1` and an emoji presentation selector: six UTF-16 units, five for `isLength`. */
  lemma SelectorPasswordLengths()
    ensures Utf16Length("abcd1\U{FE0F}") == 6 && IsLengthCount("abcd1\U{FE0F}") == 5
    ensures HasDigit("abcd1\U{FE0F}")
  {
    var v := '\U{FE0F}';
    LengthsOfPrepend(v, "");
    LengthsOfPrepend('1', [v]);
    LengthsOfPrepend('d', "1" + [v]);
    LengthsOfPrepend('c', "d1" + [v]);
    LengthsOfPrepend('b', "cd1" + [v]);
    LengthsOfPrepend('a', "bcd1" + [v]);
    assert IsDigit("abcd1\U{FE0F}"[4]);
  }

  /** A password in the Basic Multilingual Plane with an emoji presentation selector: six units for the client, five for the server. */
  lemma SelectorPasswordDisagrees()
    ensures var f := Form("Ann", "a@b.co", "1234567890", "abcd1\U{FE0F}", "", "S", "C", "K", "1234");
      && RulePasses(PasswordRule, f, None)
      && forall isEmail: string -> bool, isNumeric: string -> bool :: !Holds(PasswordMinLength, SubmittedBody(f), isEmail, isNumeric)
  {
    SelectorPasswordLengths();
  }
}
