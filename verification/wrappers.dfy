/** The Option type used for every "may be absent" value of the model: a JSON
    property that is missing, a nullable field of a deserialised configuration,
    a cancelled prompt, or a directory listing that could not be read. */
module Wrappers {

  datatype Option<+T> = None | Some(value: T) {

    /** The wrapped value, or `default` when absent (C#'s `x ?? default`). */
    function GetOr(default: T): T {
      match this
      case Some(v) => v
      case None => default
    }
  }
}
