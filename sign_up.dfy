/**
 * The sign-up form (src/components/SignUpForm.tsx): the rules each field is
 * checked against before the form submits, and what a submit does with the
 * outcome of the `signUp` request.
 *
 * The form library checks a field's rules in its own fixed order (`required`,
 * then `pattern`, then `validate`) and reports the first that fails; it calls
 * `onSubmit` only when no field fails. The request, the alerts and the navigation go to an effect log.
 */
module SignUp {
  import opened Js
  import EmailPattern

  const DUPLICATE_EMAIL_RESPONSE := "The email address is already being used."
  const DUPLICATE_EMAIL_MESSAGE := "이미 사용중인 이메일입니다."
  const SIGNED_UP_ALERT := "가입되었습니다."
  const SERVER_ERROR_ALERT := "서버와 통신 중 문제가 발생했습니다."
  const NAME_REQUIRED := "이름을 입력해주세요."
  const EMAIL_REQUIRED := "이메일을 입력해주세요."
  const EMAIL_MALFORMED := "올바르지 않은 형식입니다."
  const PASSWORD_REQUIRED := "비밀번호를 입력해주세요."
  const PASSWORD_MISMATCH := "비밀번호가 일치하지 않습니다."
  const LOGIN_PATH := "/login"

  datatype Fields = Fields(email: string, fullName: string, password: string, confirmPassword: string)

  /** `fullName`: `required`. */
  function FullNameError(value: string): (r: Option<string>)
    ensures r.Some? <==> value == ""
    ensures r.Some? ==> r.value == NAME_REQUIRED
  {
    if value == "" then Some(NAME_REQUIRED) else None
  }

  /** `email`: `required`, then the pattern. */
  function EmailError(value: string): (r: Option<string>)
    ensures r.None? <==> EmailPattern.HasEmailShape(value)
    ensures value == "" ==> r == Some(EMAIL_REQUIRED)
    ensures value != "" && r.Some? ==> r.value == EMAIL_MALFORMED
  {
    EmailPattern.MatchesIffShape(value);
    if value == "" then Some(EMAIL_REQUIRED)
    else if !EmailPattern.Matches(value) then Some(EMAIL_MALFORMED)
    else None
  }

  /** `password`: `required`. */
  function PasswordError(value: string): (r: Option<string>)
    ensures r.Some? <==> value == ""
    ensures r.Some? ==> r.value == PASSWORD_REQUIRED
  {
    if value == "" then Some(PASSWORD_REQUIRED) else None
  }

  /** `confirmPassword`: `required`, then equality with the `password` field. */
  function ConfirmPasswordError(value: string, password: string): (r: Option<string>)
    ensures r.None? <==> value != "" && value == password
    ensures value == "" ==> r == Some(PASSWORD_REQUIRED)
    ensures value != "" && value != password ==> r == Some(PASSWORD_MISMATCH)
  {
    if value == "" then Some(PASSWORD_REQUIRED)
    else if value != password then Some(PASSWORD_MISMATCH)
    else None
  }

  /** No field of the form fails its rules. */
  predicate FieldsPass(f: Fields)
  {
    && FullNameError(f.fullName).None?
    && EmailError(f.email).None?
    && PasswordError(f.password).None?
    && ConfirmPasswordError(f.confirmPassword, f.password).None?
  }

  /** The form passes exactly when every field is filled in, the email has the
      pattern's shape and the confirmation repeats the password. */
  lemma FieldsPassIff(f: Fields)
    ensures FieldsPass(f) <==>
      && f.fullName != ""
      && f.password != ""
      && f.confirmPassword == f.password
      && EmailPattern.Matches(f.email)
  {
    EmailPattern.MatchesIffShape(f.email);
    if EmailPattern.Matches(f.email) {
      EmailPattern.NoEmptyLabel(f.email);
    }
  }

  /** A call or browser action the form issues. The request carries the
      email, the password and the name; the confirmation is not sent. */
  datatype Effect =
    | SignUpRequest(email: string, password: string, fullName: string)
    | Alert(message: string)
    | Navigate(path: string)

  /** How the `signUp` request settles. */
  datatype SignUpOutcome = Registered | Rejected(error: Thrown)

  /** A submit of `data` whose request settles as `outcome` takes the message
      and the log from `message0`, `effects0` to `message`, `effects`: the
      request is issued first; only a success clears the message, with an
      alert and a move to the login page; only the duplicate-email response
      sets it; any other failure leaves it as it was (it is not cleared when a
      submit starts), and one without a response body raises an alert. */
  ghost predicate Submitted(message0: string, effects0: seq<Effect>, data: Fields, outcome: SignUpOutcome,
                            message: string, effects: seq<Effect>)
  {
    var sent := effects0 + [SignUpRequest(data.email, data.password, data.fullName)];
    match outcome
    case Registered =>
      && message == ""
      && effects == sent + [Alert(SIGNED_UP_ALERT), Navigate(LOGIN_PATH)]
    case Rejected(e) =>
      && (HasResponseData(e) && DataIs(e, DUPLICATE_EMAIL_RESPONSE) ==> message == DUPLICATE_EMAIL_MESSAGE)
      && (!(HasResponseData(e) && DataIs(e, DUPLICATE_EMAIL_RESPONSE)) ==> message == message0)
      && (HasResponseData(e) ==> effects == sent)
      && (!HasResponseData(e) ==> effects == sent + [Alert(SERVER_ERROR_ALERT)])
  }

  class SignUpForm {
    var errorMessage: string
    var effects: seq<Effect>

    /** The message under the form is empty or the duplicate-email message:
        no submit sets anything else. */
    ghost predicate Valid()
      reads this
    {
      errorMessage == "" || errorMessage == DUPLICATE_EMAIL_MESSAGE
    }

    constructor ()
      ensures Valid() && errorMessage == "" && effects == []
    {
      errorMessage := "";
      effects := [];
    }

    /** Whether the message under the form is rendered. */
    predicate ShowsErrorMessage()
      reads this
    {
      errorMessage != ""
    }

    /** The only message ever shown under the form is the duplicate-email
        one. */
    lemma ShownOnlyDuplicate()
      requires Valid()
      ensures ShowsErrorMessage() <==> errorMessage == DUPLICATE_EMAIL_MESSAGE
    {
    }

    /** `onSubmit(data)`, with the request settling as `outcome`. */
    method OnSubmit(data: Fields, outcome: SignUpOutcome)
      requires Valid()
      modifies this
      ensures Valid()
      ensures Submitted(old(errorMessage), old(effects), data, outcome, errorMessage, effects)
    {
      effects := effects + [SignUpRequest(data.email, data.password, data.fullName)];
      match outcome {
        case Registered =>
          errorMessage := "";
          effects := effects + [Alert(SIGNED_UP_ALERT), Navigate(LOGIN_PATH)];
        case Rejected(e) =>
          if HasResponseData(e) {
            if DataIs(e, DUPLICATE_EMAIL_RESPONSE) {
              errorMessage := DUPLICATE_EMAIL_MESSAGE;
            }
          } else {
            effects := effects + [Alert(SERVER_ERROR_ALERT)];
          }
      }
    }

    /** `handleSubmit(onSubmit)`: the submit runs only when every field
        passes its rules; otherwise nothing is sent and nothing changes. */
    method HandleSubmit(data: Fields, outcome: SignUpOutcome)
      requires Valid()
      modifies this
      ensures Valid()
      ensures !FieldsPass(data) ==> errorMessage == old(errorMessage) && effects == old(effects)
      ensures FieldsPass(data) ==> Submitted(old(errorMessage), old(effects), data, outcome, errorMessage, effects)
    {
      if FieldsPass(data) {
        OnSubmit(data, outcome);
      }
    }
  }
}
