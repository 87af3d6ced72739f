/** Failure-carrying values shared by every module of the model.

    The modelled program is written in Python and signals failure by raising.
    Each exception class it can raise on a modelled path is one constructor of
    `Error`; an operation that may raise returns a `Result`. */
module Wrappers {

  datatype Option<+T> = None | Some(value: T)

  /** The Python exception classes raised on the modelled paths. */
  datatype Error =
    | KeyError            // missing dict key, missing pandas group or label
    | TypeError           // subscripting or iterating None, `str + None`
    | ValueError          // bad literal for int()/float(), max() of an empty sequence
    | IndexError          // list index out of range, pop from an empty list
    | ZeroDivisionError   // division by zero
    | OverflowError       // a datetime past year 9999
    | UnboundLocalError   // a local variable read before any assignment
    | StatisticsError     // statistics.mean of an empty sequence
    | RaisedException     // a bare `raise Exception(...)` of the program itself
    | AttributeError      // reading an attribute an object never set

  datatype Result<+T> = Ok(value: T) | Err(error: Error) {
    predicate IsFailure() { Err? }

    function PropagateFailure<U>(): Result<U>
      requires Err?
    {
      Err(error)
    }

    function Extract(): T
      requires Ok?
    {
      value
    }
  }
}
