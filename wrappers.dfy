/** Failure-compatible wrappers shared by the whole model. */
module Wrappers {

  /** A value that may be absent. Used both for nullable results of the source
      (`int?`) and, in the decoders, for "the source raises here". */
  datatype Option<+T> = None | Some(value: T) {
    predicate IsFailure() { None? }

    function PropagateFailure<U>(): Option<U>
      requires None?
    {
      None
    }

    function Extract(): T
      requires Some?
    {
      value
    }
  }

  /** The outcome of an operation that the source ends with an exception on purpose. */
  datatype Result<+T, +E> = Success(value: T) | Failure(error: E) {
    predicate IsFailure() { Failure? }

    function PropagateFailure<U>(): Result<U, E>
      requires Failure?
    {
      Failure(error)
    }

    function Extract(): T
      requires Success?
    {
      value
    }
  }

  /** The exceptions the core raises deliberately or on caller-controlled input. */
  datatype Error =
    | NegativeCapacity   // `new List<ResourceEntry>(count)` with a negative count
    | ShctNotFound       // the hull marker scan found nothing (InvalidDataException)
    | AbsOverflow        // `Math.Abs(int.MinValue)` in the packed encoder
}
