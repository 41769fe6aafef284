/**
 The registration input validator: three checks in a fixed order (presence,
 password length, email shape), the first failing one deciding the message.
 A `None` result is JavaScript's `null`, meaning the input is acceptable.
 */
module Validation {
  import opened JsValues
  import EmailPattern

  const MissingFields := "All fields are required."
  const PasswordTooShort := "Password must be at least 6 characters long."
  const InvalidEmailFormat := "Invalid email format."

  /** The smallest accepted password length, in characters. */
  const MinPasswordLength := 6

  /** The `{ name, email, password }` record a registration request carries. */
  datatype RegistrationInput = RegistrationInput(name: Field, email: Field, password: Field)

  /** All three fields are truthy: present and non-empty. */
  predicate AllPresent(data: RegistrationInput) {
    Truthy(data.name) && Truthy(data.email) && Truthy(data.password)
  }

  /** The input passes every check; the three field values are then usable strings. */
  predicate Acceptable(data: RegistrationInput) {
    && AllPresent(data)
    && |data.password.text| >= MinPasswordLength
    && EmailPattern.Matches(data.email.text)
  }

  /** The validator. Each message is returned exactly when its check is the
      first one to fail, and `None` exactly when all three pass. */
  function ValidateInput(data: RegistrationInput): (r: Option<string>)
    ensures r == Some(MissingFields) <==> !AllPresent(data)
    ensures r == Some(PasswordTooShort) <==> AllPresent(data) && |data.password.text| < MinPasswordLength
    ensures r == Some(InvalidEmailFormat) <==>
              AllPresent(data) && |data.password.text| >= MinPasswordLength && !EmailPattern.Matches(data.email.text)
    ensures r.None? <==> Acceptable(data)
    ensures r in {None, Some(MissingFields), Some(PasswordTooShort), Some(InvalidEmailFormat)}
  {
    if !Truthy(data.name) || !Truthy(data.email) || !Truthy(data.password) then
      Some(MissingFields)
    else if |data.password.text| < MinPasswordLength then
      Some(PasswordTooShort)
    else if !EmailPattern.Matches(data.email.text) then
      Some(InvalidEmailFormat)
    else
      None
  }

  /** A missing field decides the result on its own: two inputs that both
      miss a field get the same message, whatever their other fields hold. */
  lemma MissingFieldWins(d1: RegistrationInput, d2: RegistrationInput)
    requires !AllPresent(d1) && !AllPresent(d2)
    ensures ValidateInput(d1) == ValidateInput(d2) == Some(MissingFields)
  {
  }

  /** The length check comes before the email check: a short password is
      reported even when the email is malformed. */
  lemma LengthBeforeEmail(data: RegistrationInput)
    requires AllPresent(data) && |data.password.text| < MinPasswordLength
    requires !EmailPattern.Matches(data.email.text)
    ensures ValidateInput(data) == Some(PasswordTooShort)
  {
  }

  /** An instance of the ordering: "abc" with "not an email" draws the
      length message, though the email is malformed. */
  lemma LengthBeforeEmailExample()
    ensures !EmailPattern.Matches("not an email")
    ensures ValidateInput(RegistrationInput(Str("Ann"), Str("not an email"), Str("abc"))) == Some(PasswordTooShort)
  {
    var email := "not an email";
    assert !EmailPattern.NoSpace(email) by {
      assert IsJsSpace(email[3]);
    }
    EmailPattern.MatchesIffScanShape(email);
  }

  /** A password of exactly six characters passes the length check, whatever
      the other fields hold. */
  lemma SixCharactersSuffice(name: Field, email: Field, password: string)
    requires |password| == MinPasswordLength
    ensures ValidateInput(RegistrationInput(name, email, Str(password))) != Some(PasswordTooShort)
  {
  }

  /** Any accepted email contains exactly one '@' and no whitespace, and the
      part after the '@' has a '.' that is neither its first nor its last
      character. */
  lemma AcceptedEmailShape(data: RegistrationInput)
    requires ValidateInput(data).None?
    ensures data.email.Str?
    ensures multiset(data.email.text)['@'] == 1
    ensures EmailPattern.NoSpace(data.email.text)
    ensures exists a | 0 < a < |data.email.text| ::
              data.email.text[a] == '@' && EmailPattern.InteriorDot(data.email.text[a + 1..])
  {
    EmailPattern.AcceptedShape(data.email.text);
  }
}
