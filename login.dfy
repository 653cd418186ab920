/**
 * The login form's submit (src/components/LoginForm.tsx): it clears the
 * error list, awaits `login` with the submitted email and password (the call
 * goes to an effect log), and on success stores the returned user and
 * token in the shared state; on failure it picks the messages to show from
 * the error it catches.
 */
module Login {
  import opened Js
  import opened Session

  const MISMATCH_RESPONSE := "Your email and password combination does not match an account."
  const WRONG_CREDENTIALS := "이메일 또는 비밀번호를 잘못 입력했습니다."
  const CHECK_INPUT := "입력하신 내용을 다시 확인해주세요."
  const SERVER_ERROR := "서버와 통신 중 문제가 발생했습니다."
  const EMAIL_REQUIRED := "이메일을 입력해주세요."
  const PASSWORD_REQUIRED := "비밀번호를 입력해주세요."

  /** `email` and `password`: `required`. */
  function RequiredError(value: string, message: string): (r: Option<string>)
    ensures r.Some? <==> value == ""
    ensures r.Some? ==> r.value == message
  {
    if value == "" then Some(message) else None
  }

  /** How the `login` request settles: with the response's user and token,
      or with a thrown error. */
  datatype LoginOutcome = LoggedIn(user: User, token: string) | Failed(error: Thrown)

  /** The error list once a submit has settled. */
  function MessagesAfter(outcome: LoginOutcome): (r: seq<string>)
    ensures r == [] <==> outcome.LoggedIn? || (HasResponseData(outcome.error) && !DataIs(outcome.error, MISMATCH_RESPONSE))
    ensures r == [WRONG_CREDENTIALS, CHECK_INPUT] <==> outcome.Failed? && DataIs(outcome.error, MISMATCH_RESPONSE)
    ensures r == [SERVER_ERROR] <==> outcome.Failed? && !HasResponseData(outcome.error)
  {
    match outcome
    case LoggedIn(_, _) => []
    case Failed(e) =>
      if HasResponseData(e) then
        if DataIs(e, MISMATCH_RESPONSE) then [WRONG_CREDENTIALS, CHECK_INPUT] else []
      else [SERVER_ERROR]
  }

  /** `errorMessages.length !== 0`: the error block is rendered. */
  predicate ShowsErrorBlock(messages: seq<string>)
  {
    |messages| != 0
  }

  /** After a submit the error block is rendered exactly when the login failed
      with anything but a response body other than the mismatch message. */
  lemma ErrorBlockAfterSubmit(outcome: LoginOutcome)
    ensures ShowsErrorBlock(MessagesAfter(outcome)) <==>
      outcome.Failed? && (!HasResponseData(outcome.error) || DataIs(outcome.error, MISMATCH_RESPONSE))
  {
  }

  /** The call the form issues: `login` with the submitted email and
      password. */
  datatype Effect = LoginRequest(email: string, password: string)

  /** The form's error list, the shared user and token it writes, and the
      calls it has issued. */
  class LoginForm {
    var errorMessages: seq<string>
    var user: User
    var token: string
    var effects: seq<Effect>

    constructor (sessionUser: User, sessionToken: string)
      ensures errorMessages == [] && user == sessionUser && token == sessionToken && effects == []
    {
      errorMessages := [];
      user := sessionUser;
      token := sessionToken;
      effects := [];
    }

    /** `onSubmit({ email, password })`, with `login` settling as `outcome`.
        The request carries the submitted fields; what the list held before
        is dropped; a failure leaves the user and token as they were. */
    method OnSubmit(email: string, password: string, outcome: LoginOutcome)
      modifies this
      ensures effects == old(effects) + [LoginRequest(email, password)]
      ensures errorMessages == MessagesAfter(outcome)
      ensures outcome.LoggedIn? ==> user == outcome.user && token == outcome.token
      ensures outcome.Failed? ==> user == old(user) && token == old(token)
    {
      errorMessages := [];
      effects := effects + [LoginRequest(email, password)];
      match outcome {
        case LoggedIn(u, t) =>
          user := u;
          token := t;
        case Failed(e) =>
          if HasResponseData(e) {
            if DataIs(e, MISMATCH_RESPONSE) {
              errorMessages := [WRONG_CREDENTIALS, CHECK_INPUT];
            }
          } else {
            errorMessages := [SERVER_ERROR];
          }
      }
    }

    /** `handleSubmit(onSubmit)`: both fields are `required`, and the submit
        runs only when neither is empty; otherwise nothing is sent and nothing
        changes. */
    method HandleSubmit(email: string, password: string, outcome: LoginOutcome)
      modifies this
      ensures email == "" || password == "" ==>
        errorMessages == old(errorMessages) && user == old(user) && token == old(token) && effects == old(effects)
      ensures email != "" && password != "" ==>
        effects == old(effects) + [LoginRequest(email, password)] && errorMessages == MessagesAfter(outcome)
      ensures email != "" && password != "" && outcome.LoggedIn? ==> user == outcome.user && token == outcome.token
      ensures email != "" && password != "" && outcome.Failed? ==> user == old(user) && token == old(token)
    {
      if RequiredError(email, EMAIL_REQUIRED).None? && RequiredError(password, PASSWORD_REQUIRED).None? {
        OnSubmit(email, password, outcome);
      }
    }
  }
}
