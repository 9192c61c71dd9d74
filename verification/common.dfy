/**
 * Small shared vocabulary: optional values, the exceptions the pipeline can
 * raise, and the record of one run (the files it wrote and how it ended).
 */
module Common {

  /** Python's `None` versus a present value. */
  datatype Option<+T> = None | Some(value: T)

  /** The exceptions the modelled code can raise. */
  datatype Error =
    /** A `KeyError` from indexing a data frame by a column it does not have. */
    | MissingColumn(column: string)
    /** An `IndexError` from taking a path segment that does not exist. */
    | SegmentMissing(path: string)
    /** A `ValueError` from `int()` applied to a segment that is not a decimal integer. */
    | NotAnInteger(text: string)
    /** An `AssertionError` raised by an `assert` statement, with its message. */
    | AssertionFailed(message: string)
    /** An `IndexError` from taking the first regex match of a URL that has none. */
    | NoMatch(url: string)

  /** How a call ends: it returns a value or raises. */
  datatype Outcome<+T> = Returned(value: T) | Raised(error: Error)

  /** One file written: its path and the rows it holds. */
  datatype Write<+R> = Write(path: string, rows: seq<R>)

  /** A call with its side effects: the files written, in order, and its outcome. */
  datatype Run<+R, +T> = Run(writes: seq<Write<R>>, outcome: Outcome<T>)
}
