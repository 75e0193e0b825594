/**
 * The message choice of validateField (assets/js/form.js): the value is
 * trimmed, then at most one message is picked, in a fixed priority —
 * required, then email shape, then phone shape.
 */
module FieldCheck {
  import opened Wrappers
  import opened Text
  import opened Patterns

  /** The field's `type` as far as validation looks at it. */
  datatype Kind = EmailInput | TelInput | OtherInput

  datatype Message = Required | BadEmail | BadPhone

  /** The text shown for each message; no two messages share a text. */
  function MessageText(m: Message): (r: string)
    ensures r == "This field is required" <==> m == Required
    ensures r == "Please enter a valid email address" <==> m == BadEmail
    ensures r == "Please enter a valid phone number" <==> m == BadPhone
  {
    match m
    case Required => "This field is required"
    case BadEmail => "Please enter a valid email address"
    case BadPhone => "Please enter a valid phone number"
  }

  /**
   * What the field demands of its value, read as conditions rather than as
   * an if-chain: something other than white space when required, the email
   * shape when it is an email field with something in it, and the phone
   * shape when it is a telephone field with something in it.
   */
  ghost predicate Acceptable(kind: Kind, required: bool, raw: string) {
    var v := Trim(raw);
    && (required ==> v != [])
    && (kind == EmailInput && v != [] ==> EmailPattern(v))
    && (kind == TelInput && v != [] ==> PhonePattern(v))
  }

  /** The message validateField picks for a field, or None when the field is valid. */
  function Check(kind: Kind, required: bool, raw: string): (r: Option<Message>)
  {
    var value := Trim(raw);
    if required && value == [] then Some(Required)
    else if kind == EmailInput && value != [] && !IsValidEmail(value) then Some(BadEmail)
    else if kind == TelInput && value != [] && !IsValidPhone(value) then Some(BadPhone)
    else None
  }

  /**
   * What Check means: no message exactly when the value meets every demand
   * on it; `Required` exactly when the field is required and blank, whatever
   * its kind; a shape message only for its own kind and a value that is not
   * blank.
   */
  lemma CheckMeaning(kind: Kind, required: bool, raw: string)
    ensures Check(kind, required, raw) == None <==> Acceptable(kind, required, raw)
    ensures Check(kind, required, raw) == Some(Required) <==> required && AllWhitespace(raw)
    ensures Check(kind, required, raw) == Some(BadEmail) ==> kind == EmailInput && !AllWhitespace(raw)
    ensures Check(kind, required, raw) == Some(BadPhone) ==> kind == TelInput && !AllWhitespace(raw)
  {
    TrimMeaning(raw);
    EmailCheckMatchesPattern(Trim(raw));
    PhoneCheckMatchesPattern(Trim(raw));
  }

  /** A required field holding only white space gets the required message, whatever its kind. */
  lemma BlankRequiredIsRequired(kind: Kind, raw: string)
    requires AllWhitespace(raw)
    ensures Check(kind, true, raw) == Some(Required)
  {
    CheckMeaning(kind, true, raw);
  }

  /** A field that is not required and holds only white space is valid, whatever its kind. */
  lemma BlankOptionalIsValid(kind: Kind, raw: string)
    requires AllWhitespace(raw)
    ensures Check(kind, false, raw) == None
  {
    CheckMeaning(kind, false, raw);
  }

  /** A field that is neither an email nor a telephone field is valid as soon as it holds something other than white space. */
  lemma FilledIsValid(kind: Kind, required: bool, raw: string)
    requires kind == OtherInput && !AllWhitespace(raw)
    ensures Check(kind, required, raw) == None
  {
    TrimMeaning(raw);
  }
}
