/** Optional values and the exceptions the list and its iterator throw. */
module Outcomes {

  /** A possibly absent value: Java's `null` for an argument, `Optional` for a result. */
  datatype Option<+T> = None | Some(value: T)

  /** The unchecked exceptions the list raises. */
  datatype Exception =
    | NullPointer             // a null element argument
    | IndexOutOfBounds        // get with an index outside [0, size)
    | NoSuchElement           // next on an exhausted iterator
    | IllegalState            // iterator remove without a pending next
    | ConcurrentModification  // iterator used after a foreign structural change

  /** Either a normal return or a thrown exception. */
  datatype Result<+T> = Ok(value: T) | Throw(error: Exception)
}
