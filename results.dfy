/** The failure kinds a duration operation can end with, and a result type that
    carries either a value or one of them. */
module Results {

  /** `ArithmeticException` is split by cause: a value outside the 64-bit range,
      a zero divisor, and a decimal that cannot be turned into whole nanoseconds
      without rounding. `CalendricalParseException` keeps only its error index. */
  datatype Error =
    | Overflow
    | DivisionByZero
    | Inexact
    | ParseFailure(errorIndex: nat)

  datatype Result<+T> = Ok(value: T) | Err(error: Error) {

    predicate IsFailure() {
      Err?
    }

    function PropagateFailure<U>(): Result<U>
      requires Err?
    {
      Err(error)
    }

    function Extract(): T
      requires Ok?
    {
      value
    }
  }

  datatype Option<+T> = None | Some(value: T)
}
