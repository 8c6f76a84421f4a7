/** Results and the Python exceptions the modelled code can raise. */
module Outcomes {

  /** The exception kinds that the modelled Python code raises. */
  datatype Error =
    | TypeError          // wrong operand types, or item assignment on a tuple
    | ValueError         // `str.index` without a match, `int()` of bad text, non-positive bins
    | IndexError         // list or array index out of range
    | ZeroDivisionError  // a division by a zero total
    | AssertionError     // a failed `assert` guard
    | AttributeError     // an unknown attribute name
    | Unsupported        // a comparison this model does not cover (mixed Color/Grey kinds)

  /** A value, or the exception that was raised instead of producing it. */
  datatype Result<+T> = Ok(value: T) | Err(error: Error) {
    predicate IsFailure() { Err? }

    function PropagateFailure<U>(): Result<U>
      requires Err?
    {
      Err(error)
    }

    function Extract(): T
      requires Ok?
    {
      value
    }
  }

  datatype Option<+T> = None | Some(value: T)
}
