/** Failure-compatible wrappers and the fixed-width integer types that the
    change-map tool's C declarations use. */
module Common {

  /** A value that may be absent (a NULL pointer, a missing metadata key,
      a stale cache). */
  datatype Option<+T> = None | Some(value: T)

  /** The outcome of an operation that the C code either completes or
      aborts on (g_assert, g_error, exit). */
  datatype Result<+T, +E> = Success(value: T) | Failure(error: E) {

    predicate IsFailure() {
      Failure?
    }

    function PropagateFailure<U>(): Result<U, E>
      requires Failure?
    {
      Failure(error)
    }

    function Extract(): T
      requires Success?
    {
      value
    }
  }

  /** uint8_t */
  type U8 = x: int | 0 <= x < 0x100

  /** uint32_t */
  type U32 = x: int | 0 <= x < 0x1_0000_0000

  function Max(a: real, b: real): real {
    if a < b then b else a
  }
}
