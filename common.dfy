/** Value wrappers shared by the whole model: JavaScript's `undefined`/`null` and thrown errors. */
module Common {

  /** An optional value: `None` stands for `undefined` (or `null`) in the TypeScript source. */
  datatype Option<+T> = None | Some(value: T) {
    function GetOr(default: T): T {
      match this
      case Some(v) => v
      case None => default
    }
  }

  /** The outcome of an operation that may throw. */
  datatype Result<+T> = Success(value: T) | Failure(error: string)
}
