/** The small part of JavaScript's semantics the utilities depend on:
    truthiness of optional strings and the completion of a call that may throw. */
module Js {
  import opened Options

  /** A JavaScript value used where a string is expected is truthy when it is
      a non-empty string; `undefined` and `""` are falsy. */
  predicate Truthy(s: Option<string>) {
    s.Some? && s.value != ""
  }

  /** A thrown error, reduced to its constructor name and its message. */
  datatype JsError = JsError(name: string, message: string)

  /** `new Error(message)`. */
  function NewError(message: string): JsError {
    JsError("Error", message)
  }

  /** How a call ended: it returned, or it threw (or its promise rejected). */
  datatype Completion = Returned | Threw(error: JsError)
}
