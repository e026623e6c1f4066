/** The signup form of frontend/src/pages/SignupPage.tsx: the field validator, the
    email pattern `^[^\s@]+@[^\s@]+\.[^\s@]+$`, and the writes of a submission. */
module Signup {
  import opened Wrappers
  import opened Text

  datatype Form = Form(fullName: string, email: string, password: string, confirmPassword: string, reason: string)

  const NAME_REQUIRED: string := "Full name is required"
  const EMAIL_REQUIRED: string := "Email is required"
  const EMAIL_INVALID: string := "Invalid email format"
  const PASSWORD_REQUIRED: string := "Password is required"
  const PASSWORD_SHORT: string := "Password must be at least 8 characters"
  const PASSWORD_MISMATCH: string := "Passwords do not match"
  const REASON_REQUIRED: string := "Please provide a reason for joining"
  const MIN_PASSWORD_LENGTH: nat := 8

  /** `[^\s@]`. */
  predicate IsPlainChar(c: char)
  {
    !IsJsSpace(c) && c != '@'
  }

  /** `[^\s@]+`. */
  predicate Plain(s: string)
  {
    |s| > 0 && forall i :: 0 <= i < |s| ==> IsPlainChar(s[i])
  }

  /** The pattern matches with its '@' at `i` and its '.' at `j`. */
  predicate MatchesAt(s: string, i: int, j: int)
  {
    && 0 < i < j < |s|
    && s[i] == '@' && s[j] == '.'
    && Plain(s[..i]) && Plain(s[i + 1..j]) && Plain(s[j + 1..])
  }

  /** `/^[^\s@]+@[^\s@]+\.[^\s@]+$/.test(s)`: the string is one run of `[^\s@]`, an
      '@', another run, a '.', and a last run. */
  predicate EmailPattern(s: string)
  {
    exists i, j | 0 < i < j < |s| :: MatchesAt(s, i, j)
  }

  /** The accepted shape, told plainly: a non-empty local part, a single '@', and a
      domain, neither containing white space or '@', the domain holding a '.' that is
      neither its first nor its last character. */
  predicate EmailShape(s: string)
  {
    var i := FirstAt(s);
    && i < |s|
    && Plain(s[..i])
    && var domain := s[i + 1..];
       && (forall k :: 0 <= k < |domain| ==> IsPlainChar(domain[k]))
       && |domain| >= 3 && '.' in domain[1..|domain| - 1]
  }

  /** The pattern accepts exactly the strings of that shape. */
  lemma EmailPatternIff(s: string)
    ensures EmailPattern(s) <==> EmailShape(s)
  {
    if EmailPattern(s) {
      var i: int, j: int :| 0 < i < j < |s| && MatchesAt(s, i, j);
      MatchHasShape(s, i, j);
    }
    if EmailShape(s) {
      ShapeMatches(s);
    }
  }

  lemma MatchHasShape(s: string, i: int, j: int)
    requires MatchesAt(s, i, j)
    ensures EmailShape(s)
  {
    assert forall k :: 0 <= k < i ==> s[k] != '@' by {
      forall k | 0 <= k < i ensures s[k] != '@' {
        assert s[..i][k] == s[k];
      }
    }
    FirstAtIs(s, i);
    var domain := s[i + 1..];
    forall k | 0 <= k < |domain|
      ensures IsPlainChar(domain[k])
    {
      if i + 1 + k < j {
        assert domain[k] == s[i + 1..j][k];
      } else if i + 1 + k > j {
        assert domain[k] == s[j + 1..][k - (j - i)];
      }
    }
    assert domain[1..|domain| - 1][j - i - 2] == '.';
  }

  lemma ShapeMatches(s: string)
    requires EmailShape(s)
    ensures EmailPattern(s)
  {
    var i := FirstAt(s);
    var domain := s[i + 1..];
    var inner := domain[1..|domain| - 1];
    var k :| 0 <= k < |inner| && inner[k] == '.';
    var j := i + 2 + k;
    assert s[j] == '.';
    var mid := s[i + 1..j];
    assert Plain(mid) by {
      forall m | 0 <= m < |mid| ensures IsPlainChar(mid[m]) {
        assert mid[m] == domain[m];
      }
    }
    var last := s[j + 1..];
    assert Plain(last) by {
      forall m | 0 <= m < |last| ensures IsPlainChar(last[m]) {
        assert last[m] == domain[m + k + 2];
      }
    }
    assert MatchesAt(s, i, j);
  }

  /** The five checks of `validate`, one per field. */
  function NameError(f: Form): Option<string>
  {
    if IsBlank(f.fullName) then Some(NAME_REQUIRED) else None
  }

  function EmailError(f: Form): Option<string>
  {
    if IsBlank(f.email) then Some(EMAIL_REQUIRED)
    else if !EmailPattern(f.email) then Some(EMAIL_INVALID)
    else None
  }

  function PasswordError(f: Form): Option<string>
  {
    if f.password == "" then Some(PASSWORD_REQUIRED)
    else if Utf16Length(f.password) < MIN_PASSWORD_LENGTH then Some(PASSWORD_SHORT)
    else None
  }

  function ConfirmError(f: Form): Option<string>
  {
    if f.password != f.confirmPassword then Some(PASSWORD_MISMATCH) else None
  }

  function ReasonError(f: Form): Option<string>
  {
    if IsBlank(f.reason) then Some(REASON_REQUIRED) else None
  }

  /** The five keys of the error object, in the order `validate` checks them. */
  datatype Field = FullName | Email | Password | ConfirmPassword | Reason

  /** The key each field is stored under. */
  function Key(fl: Field): string
  {
    match fl
    case FullName => "fullName"
    case Email => "email"
    case Password => "password"
    case ConfirmPassword => "confirmPassword"
    case Reason => "reason"
  }

  /** The check of one field. */
  function ErrorOf(f: Form, fl: Field): Option<string>
  {
    match fl
    case FullName => NameError(f)
    case Email => EmailError(f)
    case Password => PasswordError(f)
    case ConfirmPassword => ConfirmError(f)
    case Reason => ReasonError(f)
  }

  /** `if (error) newErrors[key] = error`. */
  function Put(m: map<Field, string>, fl: Field, e: Option<string>): (r: map<Field, string>)
    ensures fl in r <==> fl in m || e.Some?
    ensures e.Some? ==> r[fl] == e.value
    ensures forall g :: g != fl ==> (g in r <==> g in m) && (g in m ==> r[g] == m[g])
  {
    if e.Some? then m[fl := e.value] else m
  }

  /** The error object built from the five checks' outcomes, in the page's order. */
  function Collect(n: Option<string>, em: Option<string>, p: Option<string>,
                   c: Option<string>, r: Option<string>): map<Field, string>
  {
    var e := Put(map[], FullName, n);
    var e := Put(e, Email, em);
    var e := Put(e, Password, p);
    var e := Put(e, ConfirmPassword, c);
    Put(e, Reason, r)
  }

  /** `validate`: the errors of the five fields. */
  function Validate(f: Form): map<Field, string>
  {
    Collect(NameError(f), EmailError(f), PasswordError(f), ConfirmError(f), ReasonError(f))
  }

  /** `Object.keys(errors).length === 0`. */
  predicate IsValid(f: Form)
  {
    |Validate(f)| == 0
  }

  /** Each outcome lands under its own field and nowhere else. */
  lemma CollectKeys(n: Option<string>, em: Option<string>, p: Option<string>,
                    c: Option<string>, r: Option<string>)
    ensures var e := Collect(n, em, p, c, r);
      && (FullName in e <==> n.Some?) && (n.Some? ==> e[FullName] == n.value)
      && (Email in e <==> em.Some?) && (em.Some? ==> e[Email] == em.value)
      && (Password in e <==> p.Some?) && (p.Some? ==> e[Password] == p.value)
      && (ConfirmPassword in e <==> c.Some?) && (c.Some? ==> e[ConfirmPassword] == c.value)
      && (Reason in e <==> r.Some?) && (r.Some? ==> e[Reason] == r.value)
  {
    var e1 := Put(map[], FullName, n);
    var e2 := Put(e1, Email, em);
    var e3 := Put(e2, Password, p);
    var e4 := Put(e3, ConfirmPassword, c);
    var e5 := Put(e4, Reason, r);
    assert Collect(n, em, p, c, r) == e5;
  }

  /** A field carries an error exactly when its own check fails, and the error is that
      check's message; no field's error hides or overwrites another's. */
  lemma ValidateKeys(f: Form)
    ensures forall fl :: fl in Validate(f) <==> ErrorOf(f, fl).Some?
    ensures forall fl :: fl in Validate(f) ==> Validate(f)[fl] == ErrorOf(f, fl).value
  {
    var n, em, p, c, r := NameError(f), EmailError(f), PasswordError(f), ConfirmError(f), ReasonError(f);
    CollectKeys(n, em, p, c, r);
    var e := Validate(f);
    assert e == Collect(n, em, p, c, r);
    forall fl
      ensures fl in e <==> ErrorOf(f, fl).Some?
      ensures fl in e ==> e[fl] == ErrorOf(f, fl).value
    {
      match fl
      case FullName => assert ErrorOf(f, fl) == n;
      case Email => assert ErrorOf(f, fl) == em;
      case Password => assert ErrorOf(f, fl) == p;
      case ConfirmPassword => assert ErrorOf(f, fl) == c;
      case Reason => assert ErrorOf(f, fl) == r;
    }
  }

  /** The keys are the page's five distinct names. */
  lemma KeysDistinct(a: Field, b: Field)
    ensures Key(a) == Key(b) <==> a == b
  {
    if a != b {
      assert Key(a)[0] != Key(b)[0];
    }
  }

  /** The error of each field, stated on the field alone: the name and the reason fail
      exactly when white space only; the email is "required" when white space only and
      otherwise "invalid" exactly when it lacks the accepted shape, so never both; the
      password is "required" when empty and otherwise too short below eight UTF-16
      units; the confirmation fails exactly when it differs, whatever the other fields
      are. */
  lemma FieldErrors(f: Form)
    ensures NameError(f).Some? <==> AllSpace(f.fullName)
    ensures AllSpace(f.email) ==> EmailError(f) == Some(EMAIL_REQUIRED)
    ensures !AllSpace(f.email) ==> (EmailError(f).Some? <==> !EmailShape(f.email))
    ensures !AllSpace(f.email) && EmailError(f).Some? ==> EmailError(f) == Some(EMAIL_INVALID)
    ensures f.password == "" ==> PasswordError(f) == Some(PASSWORD_REQUIRED)
    ensures f.password != "" ==> (PasswordError(f).Some? <==> Utf16Length(f.password) < MIN_PASSWORD_LENGTH)
    ensures f.password != "" && PasswordError(f).Some? ==> PasswordError(f) == Some(PASSWORD_SHORT)
    ensures ConfirmError(f).Some? <==> f.password != f.confirmPassword
    ensures ReasonError(f).Some? <==> AllSpace(f.reason)
  {
    BlankErrors(f);
    EmailErrorIff(f);
    PasswordErrors(f);
  }

  lemma PasswordErrors(f: Form)
    ensures f.password == "" ==> PasswordError(f) == Some(PASSWORD_REQUIRED)
    ensures f.password != "" ==> (PasswordError(f).Some? <==> Utf16Length(f.password) < MIN_PASSWORD_LENGTH)
    ensures f.password != "" && PasswordError(f).Some? ==> PasswordError(f) == Some(PASSWORD_SHORT)
    ensures ConfirmError(f).Some? <==> f.password != f.confirmPassword
  {
  }

  lemma BlankErrors(f: Form)
    ensures NameError(f).Some? <==> AllSpace(f.fullName)
    ensures ReasonError(f).Some? <==> AllSpace(f.reason)
  {
    BlankIff(f.fullName);
    BlankIff(f.reason);
  }

  lemma EmailErrorIff(f: Form)
    ensures AllSpace(f.email) ==> EmailError(f) == Some(EMAIL_REQUIRED)
    ensures !AllSpace(f.email) ==> (EmailError(f).Some? <==> !EmailShape(f.email))
    ensures !AllSpace(f.email) && EmailError(f).Some? ==> EmailError(f) == Some(EMAIL_INVALID)
  {
    BlankIff(f.email);
    EmailPatternIff(f.email);
  }

  /** The form passes exactly when every field is acceptable on its own terms. */
  predicate FieldsAcceptable(f: Form)
  {
    && !AllSpace(f.fullName)
    && EmailShape(f.email)
    && Utf16Length(f.password) >= MIN_PASSWORD_LENGTH
    && f.password == f.confirmPassword
    && !AllSpace(f.reason)
  }

  lemma ValidIff(f: Form)
    ensures IsValid(f) <==> FieldsAcceptable(f)
  {
    NoErrorsIff(f);
    FieldErrors(f);
    if EmailShape(f.email) {
      ShapeNotBlank(f.email);
    }
  }

  /** The form is valid exactly when none of the five checks fails. */
  lemma NoErrorsIff(f: Form)
    ensures IsValid(f) <==>
      && NameError(f).None? && EmailError(f).None? && PasswordError(f).None?
      && ConfirmError(f).None? && ReasonError(f).None?
  {
    ValidateKeys(f);
    var e := Validate(f);
    if !IsValid(f) {
      var fl :| fl in e;
      assert ErrorOf(f, fl).Some?;
    } else {
      assert FullName !in e && Email !in e && Password !in e;
      assert ConfirmPassword !in e && Reason !in e;
    }
  }

  /** An address of the accepted shape starts with a character that is not white
      space. */
  lemma ShapeNotBlank(s: string)
    requires EmailShape(s)
    ensures !AllSpace(s)
  {
    var i := FirstAt(s);
    assert s[..i][0] == s[0];
    assert !IsJsSpace(s[0]);
  }

  /** The rows a submission writes. */
  datatype SignupWrite =
    | InsertRequest(id: string, fullName: string, email: string, reason: string, status: string, role: string)
    | InsertProfile(id: string, fullName: string)

  /** The auth service's answer to `signUp`: an error with its message, or the new
      user's id (null when none was returned). */
  datatype SignUpReply = SignUpError(message: string) | SignedUp(userId: Option<string>)

  datatype SubmitResult = SubmitResult(writes: seq<SignupWrite>, submitError: Option<string>, redirected: bool)

  /** `err.message || "Signup failed"`. */
  function SubmitMessage(msg: string): string
  {
    if msg != "" then msg else "Signup failed"
  }

  /** `handleSubmit` once `validate()` has passed: the user is signed up, a pending
      access request with role "user" is inserted, then the profile, and the page goes
      to the login. `requestError` and `profileError` are the store's answers to the
      two inserts. */
  function SubmitValidated(f: Form, reply: SignUpReply, requestError: Option<string>,
                           profileError: Option<string>): SubmitResult
  {
    match reply
    case SignUpError(m) => SubmitResult([], Some(SubmitMessage(m)), false)
    case SignedUp(None) => SubmitResult([], Some("Signup failed"), false)
    case SignedUp(Some(id)) =>
      var request := InsertRequest(id, f.fullName, f.email, f.reason, "pending", "user");
      if requestError.Some? then SubmitResult([request], Some(SubmitMessage(requestError.value)), false)
      else
        var profile := InsertProfile(id, f.fullName);
        if profileError.Some? then SubmitResult([request, profile], Some(SubmitMessage(profileError.value)), false)
        else SubmitResult([request, profile], None, true)
  }

  /** `handleSubmit`: nothing is sent for a form that fails validation. */
  function HandleSubmit(f: Form, reply: SignUpReply, requestError: Option<string>,
                        profileError: Option<string>): SubmitResult
  {
    if !IsValid(f) then SubmitResult([], None, false)
    else SubmitValidated(f, reply, requestError, profileError)
  }

  /** Past validation, every access request written is pending with role "user" and
      carries the form's name, email and reason, the profile follows the request, the
      page moves on exactly when the user was created and both inserts succeed, and an
      error shown is never empty. A created user always gets the request insert, and the
      profile insert unless the request insert failed; without a created user nothing is
      written. */
  lemma SubmitValidatedWrites(f: Form, reply: SignUpReply, requestError: Option<string>, profileError: Option<string>)
    ensures var out := SubmitValidated(f, reply, requestError, profileError);
      && (forall k :: 0 <= k < |out.writes| && out.writes[k].InsertRequest? ==>
            var w := out.writes[k];
            w.status == "pending" && w.role == "user"
            && w.fullName == f.fullName && w.email == f.email && w.reason == f.reason)
      && (forall k :: 0 <= k < |out.writes| && out.writes[k].InsertProfile? ==>
            k > 0 && out.writes[k - 1].InsertRequest? && out.writes[k - 1].id == out.writes[k].id)
      && (out.redirected <==> reply.SignedUp? && reply.userId.Some? && requestError.None? && profileError.None?)
      && (out.redirected <==> out.submitError.None?)
      && (out.submitError.Some? ==> out.submitError.value != "")
      && (reply.SignedUp? && reply.userId.Some? ==>
            var request := InsertRequest(reply.userId.value, f.fullName, f.email, f.reason, "pending", "user");
            out.writes == if requestError.Some? then [request]
                          else [request, InsertProfile(reply.userId.value, f.fullName)])
      && (!(reply.SignedUp? && reply.userId.Some?) ==> out.writes == [])
  {
  }

  /** A submission writes only for a form that passes validation and otherwise behaves
      as past validation; a form that fails shows no submission error and stays. */
  lemma SubmitWrites(f: Form, reply: SignUpReply, requestError: Option<string>, profileError: Option<string>)
    ensures var out := HandleSubmit(f, reply, requestError, profileError);
      && (!IsValid(f) ==> out.writes == [] && out.submitError.None? && !out.redirected)
      && (IsValid(f) ==> out == SubmitValidated(f, reply, requestError, profileError))
  {
  }

  /** So nothing is written for a form with a blank name or reason, a malformed email, a
      short password or a mismatched confirmation. */
  lemma SubmitWritesOnlyAcceptable(f: Form, reply: SignUpReply, requestError: Option<string>, profileError: Option<string>)
    ensures HandleSubmit(f, reply, requestError, profileError).writes != [] ==> FieldsAcceptable(f)
  {
    SubmitWrites(f, reply, requestError, profileError);
    ValidIff(f);
  }
}
