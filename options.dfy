/** An optional value: `None` stands for JavaScript's `undefined` (an argument
    that was not passed, a header that is missing), `Some(v)` for a value. */
module Options {

  datatype Option<+T> = None | Some(value: T) {

    /** The value, or `default` when there is none (a JavaScript default parameter). */
    function GetOr(default: T): T {
      match this
      case Some(v) => v
      case None => default
    }
  }
}
