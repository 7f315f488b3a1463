/** Failure-compatible result types shared by every module of the model.

    The Java code reports failures by throwing; each exception class that can
    escape one of the modelled operations is one constructor of `Error`.
 */
module Wrappers {

  /** A Java reference that may be `null` (None) or point at a value (Some). */
  datatype Option<+T> = None | Some(value: T)

  /** The exceptions the modelled operations throw. */
  datatype Error =
    | NumberFormat            // java.lang.NumberFormatException
    | IllegalArgument         // java.lang.IllegalArgumentException
    | IndexOutOfBounds        // IndexOutOfBoundsException thrown by an explicit guard
    | ArrayIndexOutOfBounds   // ArrayIndexOutOfBoundsException thrown by an array access
    | MismatchDimension       // the project's MismatchDimensionException
    | NoSuchElement           // java.util.NoSuchElementException from a Scanner
    | StringIndexOutOfBounds  // StringIndexOutOfBoundsException from String.substring

  /** Either a value or the exception that was thrown instead. */
  datatype Result<+T> = Ok(value: T) | Err(error: Error) {

    predicate IsFailure() {
      Err?
    }

    function PropagateFailure<U>(): Result<U>
      requires Err?
    {
      Err(error)
    }

    function Extract(): T
      requires Ok?
    {
      value
    }
  }
}
