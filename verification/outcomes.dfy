/** Failure-carrying results shared by every component: `null` returns become
    `Option`, thrown exceptions become `Result.Err` with the exception's kind. */
module Outcomes {

  /** The Java exceptions the modelled code throws. */
  datatype Fault =
    | IndexOutOfBounds   // java.lang.IndexOutOfBoundsException
    | NoSuchElement      // java.util.NoSuchElementException
    | IllegalState       // java.lang.IllegalStateException
    | NullPointer        // java.lang.NullPointerException

  /** A possibly-null reference. */
  datatype Option<+T> = None | Some(value: T)

  /** A call that either returns a value or throws. */
  datatype Result<+T> = Ok(value: T) | Err(fault: Fault)
}
