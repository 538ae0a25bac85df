/** Shared result types: Python's exceptions as values, and optional values. */
module Common {

  /** An optional value; `None` stands for Python's `None` and for "not found". */
  datatype Option<+T> = None | Some(value: T)

  /** The Python exceptions the modelled code can raise on bad input. */
  datatype PyError =
    | ValueError   // `range` called with a zero step
    | TypeError    // `'S:' in None` on an unpaired trailing line
    | IndexError   // indexing past the end of a list or of `str.split()`
    | KeyError     // looking up a dictionary key that is not there

  /** The value a Python call returns, or the exception it raises. */
  datatype Result<+T> = Success(value: T) | Failure(error: PyError)
}
