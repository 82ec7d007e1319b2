/** Option and Result values used for Python's `None` and for the exceptions the source raises. */
module Wrappers {

  datatype Option<+T> = None | Some(value: T)

  /** The exception kinds of the source that the model keeps as values. */
  datatype Error =
    | ValueError(message: string)   // `ValueError` from a failed `strptime`, `list.index` or lookup
    | IndexError                    // indexing an empty list
    | Abort                         // `click` context abort (`ctx.abort()`)
    | OverflowError                 // date arithmetic leaving 0001-01-01 .. 9999-12-31
    | AttributeError(message: string) // calling a method the object does not define
    | KeyError                      // looking up a key a dictionary does not hold

  datatype Result<+T> = Success(value: T) | Failure(error: Error)
}
