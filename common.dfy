/** Option and Result: the absent dictionary key and the caught exception. */
module Common {

  datatype Option<+T> = None | Some(value: T) {
    /** Python's `d.get(key, default)` once the lookup is an Option. */
    function GetOr(default: T): T {
      match this
      case Some(v) => v
      case None => default
    }
  }

  /** The outcome of a library call that may raise: the value or the exception's message. */
  datatype Result<+R> = Success(value: R) | Failure(message: string)

  function Min(a: int, b: int): int { if a <= b then a else b }
}
