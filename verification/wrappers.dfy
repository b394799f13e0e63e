/** Failure-compatible result types shared by the decoder modules. */
module Wrappers {

  datatype Option<+T> = None | Some(value: T)

  /** Why a decode stopped: `count` bytes were requested at byte `offset`
      of the input but the input ends before them. */
  datatype DecodeError = UnexpectedEof(offset: int, count: nat)

  /** The outcome of a read: a value, or the error that stopped it.
      Usable with `:-`. */
  datatype Result<+T> = Success(value: T) | Failure(error: DecodeError) {

    predicate IsFailure() {
      Failure?
    }

    function PropagateFailure<U>(): Result<U>
      requires Failure?
    {
      Failure(error)
    }

    function Extract(): T
      requires Success?
    {
      value
    }
  }
}
