/** The exceptions mod.ts can throw, as values. */
module Failures {

  /** `RangeError` (a zero denominator), `TypeError` (an argument shape the
      `Rat` entry point does not accept) and `SyntaxError` (text that `BigInt`
      cannot read as an integer). */
  datatype Error = RangeError | TypeError | SyntaxError

  /** The outcome of an operation that may throw. */
  datatype Result<+T> = Ok(value: T) | Err(error: Error) {
    predicate IsFailure() {
      Err?
    }

    function PropagateFailure<U>(): Result<U>
      requires Err?
    {
      Err(error)
    }

    function Extract(): T
      requires Ok?
    {
      value
    }
  }
}
