/** Option and Result values, and the Python exceptions the modelled code can raise. */
module Wrappers {

  /** A Python value that may be `None`. */
  datatype Option<+T> = None | Some(value: T)

  /** The exceptions raised by the modelled functions. */
  datatype Exception =
    | ValueError         // an argument is not a `str` or `pathlib.Path`
    | AttributeError     // `None.startswith(...)`
    | TypeError          // `Path / None`, or a list indexed by a string
    | FileNotFoundError  // a path that is not a regular file

  /** Either the value a Python function returns or the exception it raises. */
  datatype Result<+T> = Success(value: T) | Failure(error: Exception)

  /** A path-shaped argument: a `str`/`pathlib.Path` (given by its parts), or any other Python value. */
  datatype PathArg = PathLike(parts: seq<string>) | NotPathLike
}
