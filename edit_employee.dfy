/**
 * The edit form: two password tests that let an empty password through
 * (the stored one is kept), and the update payload, which carries a
 * password only when one was typed.
 */
module EditEmployeePage {
  import opened Wrappers
  import opened Models
  import opened Credentials
  import opened EmployeeServices

  /** The first password test: nothing typed, or at least 8 characters. */
  predicate PasswordLengthTest(value: Option<string>)
  {
    if IsNullOrEmpty(value) then true else |value.value| >= 8
  }

  predicate IsCapital(c: char)
  {
    'A' <= c <= 'Z'
  }

  /** The second password test, the pattern `[A-Z]`: nothing typed, or some capital letter. */
  predicate PasswordCapitalTest(value: Option<string>)
  {
    if IsNullOrEmpty(value) then true else exists i :: 0 <= i < |value.value| && IsCapital(value.value[i])
  }

  /** An empty or missing password passes both tests. */
  lemma EmptyPasswordPasses(value: Option<string>)
    requires IsNullOrEmpty(value)
    ensures PasswordLengthTest(value) && PasswordCapitalTest(value)
  {
  }

  /**
   * The tests decide a typed password by its length and its capitals
   * alone; no digit is asked for, unlike the server's rules.
   */
  lemma TypedPasswordTests(password: string)
    requires password != ""
    ensures PasswordLengthTest(Some(password)) <==> |password| >= 8
    ensures PasswordCapitalTest(Some(password)) <==> exists c :: c in password && IsCapital(c)
  {
    if c :| c in password && IsCapital(c) {
      var i :| 0 <= i < |password| && password[i] == c;
    }
  }

  /** The formik values of the form. */
  datatype FormValues = FormValues(fullName: string, email: string, password: string)

  /** The `updateData` object; the `password` key is absent when `password` is `None`. */
  datatype UpdatePayload = UpdatePayload(fullName: string, email: string, password: Option<string>)

  /** `updateData`: name and e-mail always, the password key only for a typed password. */
  function UpdateData(values: FormValues): (p: UpdatePayload)
    ensures p.fullName == values.fullName && p.email == values.email
    ensures p.password.Some? <==> values.password != ""
    ensures p.password.Some? ==> p.password.value == values.password
  {
    UpdatePayload(values.fullName, values.email,
                  if values.password != "" then Some(values.password) else None)
  }

  /** What the server reads from the payload; a missing key binds as null. */
  function ToUpdateDto(p: UpdatePayload): (dto: UpdateEmployeeDto)
    ensures dto.email == p.email && dto.fullName == p.fullName && dto.password == p.password
  {
    UpdateEmployeeDto(p.email, p.password, p.fullName)
  }

  /** What `onSubmit` does: nothing without a route id, otherwise send the payload for that id. */
  datatype Submission = NoOp | Send(id: string, payload: UpdatePayload)

  function OnSubmit(id: Option<string>, values: FormValues): (s: Submission)
    ensures IsNullOrEmpty(id) <==> s == NoOp
    ensures s.Send? ==> s.id == id.value && s.payload == UpdateData(values)
  {
    if IsNullOrEmpty(id) then NoOp else Send(id.value, UpdateData(values))
  }

  /**
   * Submitting the form with the password box left empty keeps the stored
   * hash; a typed password replaces it with that password's hash. The other
   * columns follow the form.
   */
  lemma SubmittedPasswordRule(e: Employee, values: FormValues, auth: AuthService)
    ensures var u := ApplyUpdate(e, ToUpdateDto(UpdateData(values)), auth);
            && u.email == values.email && u.fullName == values.fullName
            && (values.password == "" ==> u.passwordHash == e.passwordHash)
            && (values.password != "" ==> u.passwordHash == Some(auth.hashPassword(values.password)))
  {
  }
}
