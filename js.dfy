/**
 * The few JavaScript value rules the components depend on: values that may be
 * `undefined`, truthiness of the values they test with `if` and `&&`, and the
 * shape of what a `catch (error)` block receives from the HTTP client.
 */
module Js {

  /** A value that may be `undefined`. */
  datatype Option<+T> = None | Some(value: T)

  /** A string that may be `undefined`, used as a condition: falsy when it is
      `undefined` and when it is the empty string. */
  predicate TruthyString(v: Option<string>)
  {
    v.Some? && v.value != ""
  }

  /** `error.response?.data`: `Undefined` when there is no response or no body;
      a body that is not a string is kept only by its truthiness. */
  datatype Payload = Undefined | Text(text: string) | NonText(truthy: bool)

  predicate TruthyPayload(p: Payload)
  {
    match p
    case Undefined => false
    case Text(s) => s != ""
    case NonText(t) => t
  }

  /** What a `catch (error)` block receives: an `AxiosError` with its response
      body, or any other thrown value. */
  datatype Thrown = AxiosError(data: Payload) | OtherError

  /** `error instanceof AxiosError && error.response?.data` */
  predicate HasResponseData(e: Thrown)
  {
    e.AxiosError? && TruthyPayload(e.data)
  }

  /** `error.response.data === expected`: strict equality holds for a string body only. */
  predicate DataIs(e: Thrown, expected: string)
  {
    e.AxiosError? && e.data == Text(expected)
  }
}
