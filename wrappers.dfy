/** Option and Result values, and the Java exceptions the modelled code throws. */
module Wrappers {
  datatype Option<T> = None | Some(value: T)

  /** The unchecked exceptions thrown by the modelled classes. */
  datatype Exception =
    | IllegalArgument
    | NullPointer
    | NoSuchElement
    | IndexOutOfBounds

  /** `Err(e)` stands for "the call throws `e`". */
  datatype Result<T> = Ok(value: T) | Err(error: Exception)

  /** The range of a Java `int`. */
  predicate IsInt32(v: int)
  {
    -0x8000_0000 <= v < 0x8000_0000
  }

  /** The outcome of a `void` method: it returns normally or throws `error`. */
  datatype Status = Success | Failure(error: Exception)
}
