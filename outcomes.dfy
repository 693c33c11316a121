/**
 * The outcome of an operation of the tool: a value, or the Java exception that
 * the operation throws instead of returning one.
 */
module Outcomes {

  /** The exceptions that the modelled code can raise and nobody catches. */
  datatype Exception =
    | NumberFormat            // java.lang.NumberFormatException
    | Arithmetic              // java.lang.ArithmeticException
    | NullPointer             // java.lang.NullPointerException
    | StringIndexOutOfBounds  // java.lang.StringIndexOutOfBoundsException

  datatype Result<+T> = Ok(value: T) | Err(error: Exception) {

    predicate IsFailure() {
      Err?
    }

    function PropagateFailure<U>(): Result<U>
      requires Err?
    {
      Err(error)
    }

    function Extract(): T
      requires Ok?
    {
      value
    }
  }
}
