/** Option and Result: the absent neighbour slot, the back-pointer of the root,
    and the exceptions the source raises. */
module Wrappers {

  datatype Option<+T> = None | Some(value: T)

  datatype Result<+T, +E> = Success(value: T) | Failure(error: E)

  /** The exceptions of the source that the model keeps as error values. */
  datatype Error =
    | IndexOutOfRange   // indexing or popping an empty deque, list or array
    | DivisionByZero    // a zero divisor or a zero arange step
}
