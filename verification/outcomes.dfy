/** Failure-carrying results of the decoder's stages.

    The key-length estimator and the key recoverer can fail for a given
    text; each failure is returned as a value instead of being read from
    uninitialised memory or computed by a division by zero.
 */
module Outcomes {

  /** An optional value. */
  datatype Option<+T> = None | Some(value: T)

  /** Why an analysis of the ciphertext could not produce a key. */
  datatype Failure =
    | NoCrossing                       // no coincidence count rose above the threshold
    | SingleCrossing                   // exactly one count did, so no gap was measured
    | EmptyKeyPosition(position: nat)  // a key position holds no letter to analyse

  /** Either a value or the failure that prevented it. */
  datatype Result<+T> = Ok(value: T) | Err(error: Failure) {

    predicate IsFailure() {
      Err?
    }

    function PropagateFailure<U>(): Result<U>
      requires Err?
    {
      Err(error)
    }

    function Extract(): T
      requires Ok?
    {
      value
    }
  }
}
