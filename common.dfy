/** Failure-carrying values shared by every module of the model. */
module Common {

  /** A value that may be absent: Python's `None` or a missing key. */
  datatype Option<+T> = None | Some(value: T) {
    /** `d.get(k, default)` once the lookup has produced this option. */
    function GetOr(default: T): T {
      if Some? then value else default
    }
  }

  /** The outcome of a step that may raise instead of returning. */
  datatype Result<+T, +E> = Success(value: T) | Failure(error: E)
}
