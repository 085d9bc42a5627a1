/** The exceptions the key-recovery loop can raise, as `Failure` values,
    and the `Option`/`Result` types that carry them. */
module Results {

  /** The exceptions the attack loop can raise on malformed input, in the
      order the loop reaches them for a key position. */
  datatype Error =
    | SubkeyIndex        // `plaintext[subkey]`: a plaintext shorter than the key position
    | NotTwoDimensional  // `numpy.shape(traces)[1]`: traces empty or not a rectangular matrix
    | EmptyMax           // `max(correlations)`: traces with zero samples

  datatype Option<+T> = None | Some(value: T)

  datatype Result<+T> = Success(value: T) | Failure(error: Error) {

    predicate IsFailure() {
      Failure?
    }

    function PropagateFailure<U>(): Result<U>
      requires Failure?
    {
      Failure(error)
    }

    function Extract(): T
      requires Success?
    {
      value
    }
  }
}
