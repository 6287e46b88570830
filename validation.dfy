/**
 * The validation applied to a create-employee request: an ordered chain of
 * eight guards, the first failing one deciding the `BadRequest` message.
 */
module ValidationExtensions {
  import opened Wrappers
  import opened Models

  /**
   * The platform behaviour the validator relies on and that is not modelled:
   * `char.IsWhiteSpace`, `char.IsUpper`, `char.IsDigit` (Unicode categories),
   * and the `MailAddress` parser, which yields the parsed `Address` or `None`
   * where its constructor throws.
   */
  datatype Runtime = Runtime(
    isWhiteSpace: char -> bool,
    isUpper: char -> bool,
    isDigit: char -> bool,
    mailAddress: string -> Option<string>)

  const EmailRequired := "Email is required"
  const InvalidEmailFormat := "Invalid email format"
  const PasswordRequired := "Password is required"
  const PasswordTooShort := "Password must be at least 8 characters"
  const PasswordNeedsUpper := "Password must contain at least one uppercase letter"
  const PasswordNeedsDigit := "Password must contain at least one number"
  const FullNameRequired := "Full name is required"
  const FullNameTooShort := "Full name must be at least 2 characters"

  /** `string.IsNullOrWhiteSpace`: null, empty, or whitespace only. */
  predicate IsNullOrWhiteSpace(s: Option<string>, rt: Runtime)
  {
    s.None? || forall i :: 0 <= i < |s.value| ==> rt.isWhiteSpace(s.value[i])
  }

  /** `s.Any(p)` over the characters of a string. */
  predicate AnyChar(s: string, p: char -> bool)
  {
    exists i :: 0 <= i < |s| && p(s[i])
  }

  /**
   * The e-mail format test: the parser must accept the string, and the
   * address it reads must be the whole input unchanged; a string the parser
   * rejects is simply invalid.
   */
  predicate IsValidEmail(email: string, rt: Runtime)
    ensures IsValidEmail(email, rt) <==> rt.mailAddress(email) == Some(email)
  {
    match rt.mailAddress(email)
    case None => false
    case Some(address) => address == email
  }

  /** How validation ends: normally, or with the message of a `BadRequest`. */
  datatype Check = Pass | Fail(message: string)

  /** One guard of the chain: whether it is satisfied, and what it reports when not. */
  datatype Rule = Rule(holds: bool, message: string)

  /**
   * The eight guards in the order the validator applies them. A guard that
   * reads a field a former guard has already required states its own
   * requirement only; the `Some?` parts never decide.
   */
  function Rules(dto: CreateEmployeeDto, rt: Runtime): (rules: seq<Rule>)
    ensures |rules| == 8
  {
    [ Rule(!IsNullOrWhiteSpace(dto.email, rt), EmailRequired),
      Rule(dto.email.Some? && IsValidEmail(dto.email.value, rt), InvalidEmailFormat),
      Rule(!IsNullOrWhiteSpace(dto.password, rt), PasswordRequired),
      Rule(dto.password.Some? && |dto.password.value| >= 8, PasswordTooShort),
      Rule(dto.password.Some? && AnyChar(dto.password.value, rt.isUpper), PasswordNeedsUpper),
      Rule(dto.password.Some? && AnyChar(dto.password.value, rt.isDigit), PasswordNeedsDigit),
      Rule(!IsNullOrWhiteSpace(dto.fullName, rt), FullNameRequired),
      Rule(dto.fullName.Some? && |dto.fullName.value| >= 2, FullNameTooShort) ]
  }

  /** Rule `i` fails and every rule before it holds. */
  ghost predicate FirstFailing(rules: seq<Rule>, i: int)
  {
    0 <= i < |rules| && !rules[i].holds && forall j :: 0 <= j < i ==> rules[j].holds
  }

  /**
   * `ValidateEmployee`: returns normally exactly when all eight guards hold;
   * otherwise it fails with the message of the first guard, in source order,
   * that does not.
   */
  function ValidateEmployee(dto: CreateEmployeeDto, rt: Runtime): (r: Check)
    ensures r.Pass? <==> forall i :: 0 <= i < 8 ==> Rules(dto, rt)[i].holds
    ensures r.Fail? ==> exists i :: FirstFailing(Rules(dto, rt), i) && Rules(dto, rt)[i].message == r.message
  {
    var rules := Rules(dto, rt);
    if IsNullOrWhiteSpace(dto.email, rt) then
      assert FirstFailing(rules, 0);
      Fail(EmailRequired)
    else if !IsValidEmail(dto.email.value, rt) then
      assert FirstFailing(rules, 1);
      Fail(InvalidEmailFormat)
    else if IsNullOrWhiteSpace(dto.password, rt) then
      assert FirstFailing(rules, 2);
      Fail(PasswordRequired)
    else if |dto.password.value| < 8 then
      assert FirstFailing(rules, 3);
      Fail(PasswordTooShort)
    else if !AnyChar(dto.password.value, rt.isUpper) then
      assert FirstFailing(rules, 4);
      Fail(PasswordNeedsUpper)
    else if !AnyChar(dto.password.value, rt.isDigit) then
      assert FirstFailing(rules, 5);
      Fail(PasswordNeedsDigit)
    else if IsNullOrWhiteSpace(dto.fullName, rt) then
      assert FirstFailing(rules, 6);
      Fail(FullNameRequired)
    else if |dto.fullName.value| < 2 then
      assert FirstFailing(rules, 7);
      Fail(FullNameTooShort)
    else
      Pass
  }

  /** Validation that passes leaves no field null. */
  lemma PassedHasAllFields(dto: CreateEmployeeDto, rt: Runtime)
    requires ValidateEmployee(dto, rt).Pass?
    ensures dto.email.Some? && dto.password.Some? && dto.fullName.Some?
    ensures IsValidEmail(dto.email.value, rt)
    ensures |dto.password.value| >= 8 && |dto.fullName.value| >= 2
  {
    assert Rules(dto, rt)[0].holds && Rules(dto, rt)[2].holds && Rules(dto, rt)[6].holds;
  }

  /** A null, empty or blank e-mail is reported as missing, never as badly formatted. */
  lemma BlankEmailIsRequired(dto: CreateEmployeeDto, rt: Runtime)
    requires IsNullOrWhiteSpace(dto.email, rt)
    ensures ValidateEmployee(dto, rt) == Fail(EmailRequired)
    ensures ValidateEmployee(dto, rt) != Fail(InvalidEmailFormat)
  {
  }

  /** With a present e-mail, a blank password is reported as missing. */
  lemma BlankPasswordIsRequired(dto: CreateEmployeeDto, rt: Runtime)
    requires dto.email.Some? && !IsNullOrWhiteSpace(dto.email, rt) && IsValidEmail(dto.email.value, rt)
    requires IsNullOrWhiteSpace(dto.password, rt)
    ensures ValidateEmployee(dto, rt) == Fail(PasswordRequired)
  {
  }

  /** A non-blank password shorter than eight characters gets the length message. */
  lemma ShortPasswordIsTooShort(dto: CreateEmployeeDto, rt: Runtime)
    requires dto.email.Some? && !IsNullOrWhiteSpace(dto.email, rt) && IsValidEmail(dto.email.value, rt)
    requires dto.password.Some? && !IsNullOrWhiteSpace(dto.password, rt) && |dto.password.value| < 8
    ensures ValidateEmployee(dto, rt) == Fail(PasswordTooShort)
  {
  }

  /**
   * A long enough password without an upper-case letter gets the upper-case
   * message whether or not it has a digit; one with an upper-case letter but
   * no digit gets the digit message.
   */
  lemma PasswordCharacterClasses(dto: CreateEmployeeDto, rt: Runtime)
    requires dto.email.Some? && !IsNullOrWhiteSpace(dto.email, rt) && IsValidEmail(dto.email.value, rt)
    requires dto.password.Some? && !IsNullOrWhiteSpace(dto.password, rt) && |dto.password.value| >= 8
    ensures !AnyChar(dto.password.value, rt.isUpper) ==> ValidateEmployee(dto, rt) == Fail(PasswordNeedsUpper)
    ensures AnyChar(dto.password.value, rt.isUpper) && !AnyChar(dto.password.value, rt.isDigit) ==>
              ValidateEmployee(dto, rt) == Fail(PasswordNeedsDigit)
  {
  }

  /**
   * After a valid e-mail and password, a blank full name is reported as
   * missing and a non-blank one-character name as too short.
   */
  lemma FullNameChecks(dto: CreateEmployeeDto, rt: Runtime)
    requires forall i :: 0 <= i < 6 ==> Rules(dto, rt)[i].holds
    ensures IsNullOrWhiteSpace(dto.fullName, rt) ==> ValidateEmployee(dto, rt) == Fail(FullNameRequired)
    ensures dto.fullName.Some? && !IsNullOrWhiteSpace(dto.fullName, rt) && |dto.fullName.value| == 1 ==>
              ValidateEmployee(dto, rt) == Fail(FullNameTooShort)
  {
    assert Rules(dto, rt)[0].holds && Rules(dto, rt)[1].holds && Rules(dto, rt)[2].holds;
    assert Rules(dto, rt)[3].holds && Rules(dto, rt)[4].holds && Rules(dto, rt)[5].holds;
  }
}
