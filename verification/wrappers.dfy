/** The nullable-reference shape used throughout the model: a C# reference that may be null
    becomes an Option. */
module Wrappers {

  datatype Option<+T> = None | Some(value: T) {

    /** The held value, falling back to `default` for a null reference (C#'s `??`). */
    function GetOr(default: T): (r: T)
      ensures Some? ==> r == value
      ensures None? ==> r == default
    {
      match this
      case Some(v) => v
      case None => default
    }
  }
}
