/** Small value types shared by every module: optional values, and the outcome of
    PHP code that either returns a value or throws. */
module Base {

  datatype Option<+T> = None | Some(value: T) {
    /** The wrapped value, or `default` when absent (PHP's `??`). */
    function GetOr(default: T): T {
      match this
      case Some(v) => v
      case None => default
    }
  }

  /** The result of running PHP code: a returned value, or a thrown
      exception/error carrying its message. */
  datatype Outcome<+T> = Returned(value: T) | Threw(message: string)
}
