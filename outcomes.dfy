/** The two ways a call into the library can end besides returning: a Java
    `null` (Option.None) or a thrown exception (Result.Err). */
module Outcomes {

  /** The unchecked exceptions the modelled code throws. */
  datatype Exception =
    | IllegalArgument     // java.lang.IllegalArgumentException
    | ArithmeticOverflow  // java.lang.ArithmeticException ("overflow")

  datatype Option<+T> = None | Some(value: T)

  datatype Result<+T> = Ok(value: T) | Err(error: Exception) {
    predicate IsFailure() {
      Err?
    }

    function PropagateFailure<U>(): Result<U>
      requires Err?
    {
      Err(error)
    }

    function Extract(): T
      requires Ok?
    {
      value
    }
  }
}
