/** Option and Result values, used wherever the Java code returns null or throws. */
module Wrappers {

  datatype Option<+T> = None | Some(value: T) {
    function GetOr(default: T): T {
      match this
      case Some(v) => v
      case None => default
    }
  }

  datatype Result<+R, +E> = Success(value: R) | Failure(error: E)

  /** The exceptions the modelled Java code can raise, with the message or the path they name. */
  datatype Failure =
    | IllegalState(message: string)
    | IllegalArgument(message: string)
    | NullPointer(message: string)
    | IndexOutOfBounds(message: string)
    | FileAlreadyExists(path: string)
    | FileNotFound(message: string)
    | Arithmetic(message: string)

  /** Java's rendering of a possibly-null string in a concatenation. */
  function JavaString(s: Option<string>): (r: string)
    ensures s.Some? ==> r == s.value
    ensures s.None? ==> r == "null"
  {
    match s
    case Some(v) => v
    case None => "null"
  }
}
