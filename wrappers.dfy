/** Outcomes of the operations: a value, a returned error (Rust's `Err`
    propagated with `?`), or an abort of the process (`expect`/`unwrap`
    on a failure), which no caller can recover from. */
module Wrappers {

  /** The kinds of error the core returns in an `Err`. */
  datatype Error =
    | MissingField(field: string)  // a struct field the typed view requires is absent
    | InvalidType                  // a value is a string where a section is expected, or the reverse
    | InvalidAppId                 // an app key does not parse as a u32
    | NotFound                     // the file could not be read or decoded

  /** The message of the abort raised by `unwrap` on a failed result. */
  const UNWRAP_FAILED := "called `Result::unwrap()` on an `Err` value"

  /** A value that may be absent (`Option`). */
  datatype Option<+T> = None | Some(value: T)

  datatype Outcome<+T> = Ok(value: T) | Err(error: Error) | Panic(message: string)
  {
    predicate IsFailure() {
      !Ok?
    }

    function PropagateFailure<U>(): Outcome<U>
      requires !Ok?
    {
      if Err? then Err(error) else Panic(message)
    }

    function Extract(): T
      requires Ok?
    {
      value
    }
  }
}
