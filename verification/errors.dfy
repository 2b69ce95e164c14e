/** The error values the interpreter core can produce, and a result type
    that carries either a value or one of them. */
module Errors {

  datatype Error =
    | OutOfBounds      // an address at or above 0xFFF
    | ReservedRegion   // a write below 0x200
    | ImageTooLarge    // a program image longer than the general region

  datatype Result<+T> = Ok(value: T) | Err(error: Error) {

    predicate IsFailure() {
      Err?
    }

    function PropagateFailure<U>(): Result<U>
      requires Err?
    {
      Err(error)
    }

    function Extract(): T
      requires Ok?
    {
      value
    }
  }
}
