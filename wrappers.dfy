/** Failure-compatible result types shared by every module of the model, and the
    Python exception classes that the modelled code raises. */
module Wrappers {

  /** The Python exceptions raised by the modelled code. */
  datatype PyError =
    | ValueError
    | IndexError
    | TypeError
    | KeyError
    | ZeroDivisionError
    | AttributeError
    | StopIteration
    /** Raised when Python's limit on nested calls is exceeded, as an endless recursion does */
    | RecursionError
    /** `struct.error`, raised by `struct.pack` on a value its field cannot hold */
    | StructError

  datatype Option<+T> = None | Some(value: T)

  /** The outcome of a Python procedure that returns nothing: `Fail(e)` when it raises `e`. */
  datatype Outcome = Pass | Fail(error: PyError)

  /** `Ok(v)` when the Python code returns `v`, `Err(e)` when it raises `e`. */
  datatype Result<+T> = Ok(value: T) | Err(error: PyError) {
    predicate IsFailure() { Err? }

    function PropagateFailure<U>(): Result<U>
      requires Err?
    {
      Err(error)
    }

    function Extract(): T
      requires Ok?
    {
      value
    }
  }
}
