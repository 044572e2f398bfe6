/** The administrator sign-in form (frontend/src/pages/Login.tsx): the
    field validation and the submit guard. The `login` call of the auth
    hook is an input saying whether it succeeded.
 */
module LoginPage {

  import opened Wrappers

  const EmailRequired: string := "El email es requerido"
  const EmailInvalid: string := "Email inválido"
  const PasswordRequired: string := "La contraseña es requerida"
  const PasswordShort: string := "La contraseña debe tener al menos 6 caracteres"
  const MinPasswordLength: nat := 6

  /** The JavaScript regular-expression class `\s`: the white-space and
      line-terminator characters of ECMAScript. */
  predicate IsSpace(c: char) {
    var u := c as int;
    || 0x09 <= u <= 0x0D || u == 0x20 || u == 0xA0 || u == 0x1680
    || 0x2000 <= u <= 0x200A || u == 0x2028 || u == 0x2029 || u == 0x202F
    || u == 0x205F || u == 0x3000 || u == 0xFEFF
  }

  /** `s[i..j]` holds no white space. */
  predicate NoSpace(s: string, i: int, j: int)
    requires 0 <= i <= j <= |s|
  {
    forall k :: i <= k < j ==> !IsSpace(s[k])
  }

  /** `s[p..e]` is a match of `\S+@\S+\.\S+` whose `@` is at `at` and
      whose `.` is at `dot`. */
  predicate MatchesAt(s: string, p: int, at: int, dot: int, e: int) {
    && 0 <= p < at && at + 1 < dot && dot + 1 < e <= |s|
    && NoSpace(s, p, at) && s[at] == '@'
    && NoSpace(s, at + 1, dot) && s[dot] == '.'
    && NoSpace(s, dot + 1, e)
  }

  /** `/\S+@\S+\.\S+/.test(s)`: some substring matches the pattern. */
  predicate EmailShaped(s: string) {
    exists p, at, dot, e | 0 <= p < |s| && 0 <= at < |s| && 0 <= dot < |s| && 0 <= e <= |s| ::
      MatchesAt(s, p, at, dot, e)
  }

  /** The shortest match with `@` at `at` and `.` at `dot`: one character
      before the `@` and one after the `.`. */
  predicate ShortMatch(s: string, at: int, dot: int) {
    MatchesAt(s, at - 1, at, dot, dot + 2)
  }

  /** A match can always be shrunk to one character on each side. */
  lemma ShortestMatch(s: string, p: int, at: int, dot: int, e: int)
    requires MatchesAt(s, p, at, dot, e)
    ensures ShortMatch(s, at, dot)
  {
  }

  /** A linear scan for the pattern: for each `@` preceded by a non-space
      character, walk the non-space run after it looking for a `.` that
      has at least one non-space character on each side. */
  method TestEmail(s: string) returns (found: bool)
    ensures found <==> EmailShaped(s)
  {
    var at := 1;
    while at < |s|
      invariant 1 <= at <= |s| || |s| == 0
      invariant forall a, d :: 1 <= a < at && 0 <= d < |s| ==> !ShortMatch(s, a, d)
    {
      if s[at] == '@' && !IsSpace(s[at - 1]) {
        var j := at + 1;
        while j < |s| && !IsSpace(s[j])
          invariant at + 1 <= j <= |s|
          invariant NoSpace(s, at + 1, j)
          invariant forall d :: at + 1 < d < j ==> !ShortMatch(s, at, d)
        {
          if s[j] == '.' && j > at + 1 && j + 1 < |s| && !IsSpace(s[j + 1]) {
            assert ShortMatch(s, at, j);
            return true;
          }
          j := j + 1;
        }
        assert forall d :: 0 <= d < |s| ==> !ShortMatch(s, at, d);
      }
      at := at + 1;
    }
    if EmailShaped(s) {
      var p, a, d, e :| 0 <= p < |s| && 0 <= a < |s| && 0 <= d < |s| && 0 <= e <= |s| && MatchesAt(s, p, a, d, e);
      ShortestMatch(s, p, a, d, e);
      assert false;
    }
    return false;
  }

  /** `password.length`: JavaScript counts UTF-16 code units, so a character
      outside the Basic Multilingual Plane counts twice. */
  function Utf16Length(s: string): (n: nat)
    ensures |s| <= n <= 2 * |s|
    ensures (forall i :: 0 <= i < |s| ==> s[i] as int <= 0xFFFF) ==> n == |s|
    decreases |s|
  {
    if |s| == 0 then 0
    else (if s[0] as int > 0xFFFF then 2 else 1) + Utf16Length(s[1..])
  }

  /** The `errors` object: a message per invalid field. */
  datatype FormErrors = FormErrors(email: Option<string>, password: Option<string>)

  /** The errors `validateForm` records. */
  function Validate(email: string, password: string): (r: FormErrors)
    ensures r.email == Some(EmailRequired) <==> email == ""
    ensures r.email == Some(EmailInvalid) <==> email != "" && !EmailShaped(email)
    ensures r.email.None? <==> EmailShaped(email)
    ensures r.password == Some(PasswordRequired) <==> password == ""
    ensures r.password == Some(PasswordShort) <==> password != "" && Utf16Length(password) < MinPasswordLength
    ensures r.password.None? <==> Utf16Length(password) >= MinPasswordLength
  {
    FormErrors(
      if email == "" then Some(EmailRequired)
      else if !EmailShaped(email) then Some(EmailInvalid)
      else None,
      if password == "" then Some(PasswordRequired)
      else if Utf16Length(password) < MinPasswordLength then Some(PasswordShort)
      else None)
  }

  /** `validateForm()`: true exactly when no error was recorded. */
  function ValidateForm(email: string, password: string): (r: (bool, FormErrors))
    ensures r.1 == Validate(email, password)
    ensures r.0 <==> EmailShaped(email) && Utf16Length(password) >= MinPasswordLength
  {
    var errors := Validate(email, password);
    (errors.email.None? && errors.password.None?, errors)
  }

  /** What `handleSubmit` did: the errors shown, whether `login` was
      called, and whether `onLoginSuccess` was. */
  datatype Submitted = Submitted(errors: FormErrors, loginCalled: bool, succeeded: bool)

  /** `handleSubmit()`; `loginOk` is whether `login` resolved. */
  function HandleSubmit(email: string, password: string, loginOk: bool): (r: Submitted)
    ensures r.errors == Validate(email, password)
    ensures r.loginCalled <==> r.errors == FormErrors(None, None)
    ensures r.succeeded <==> r.loginCalled && loginOk
  {
    var (valid, errors) := ValidateForm(email, password);
    if !valid then Submitted(errors, false, false)
    else Submitted(errors, true, loginOk)
  }

  /** The form never sends an address without `@`, nor a password shorter
      than six characters. */
  lemma SubmittedCredentialsAreShaped(email: string, password: string, loginOk: bool)
    requires HandleSubmit(email, password, loginOk).loginCalled
    ensures '@' in email && '.' in email && |email| >= 5
    ensures Utf16Length(password) >= MinPasswordLength && password != ""
  {
    var p, at, dot, e :| 0 <= p < |email| && 0 <= at < |email| && 0 <= dot < |email| && 0 <= e <= |email| &&
                         MatchesAt(email, p, at, dot, e);
    assert email[at] == '@' && email[dot] == '.';
  }
}
