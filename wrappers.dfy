/** Option and Result values, and the exceptions the scripts can raise. */
module Wrappers {

  datatype Option<+T> = None | Some(value: T)

  /** The Python exception that ends a run. */
  datatype Fault =
    | KeyError(key: string)
    | IndexError
    | ValueError(text: string)
    | AssertionError
    | ZeroDivisionError
    | StopIteration
    | NameError(name: string)
    | UnknownFileType(name: string)

  /** Either a value or the exception that was raised instead. */
  datatype Result<+T> = Ok(value: T) | Err(fault: Fault) {

    predicate IsFailure() {
      Err?
    }

    function PropagateFailure<U>(): Result<U>
      requires Err?
    {
      Err(fault)
    }

    function Extract(): T
      requires Ok?
    {
      value
    }
  }
}
