/** Failure-carrying results: every exception the modelled Python raises
    becomes an `Err` value instead of a precondition. */
module Errors {

  datatype Option<T> = None | Some(value: T)

  /** The exceptions raised by the melt-pool tracking utilities. */
  datatype Error =
    | ZeroDivision            // `/` by a zero coefficient or a zero coordinate difference
    | WindowTooLarge          // "Window size and/or offset too large."
    | NegativeDimension       // np.zeros asked for a negative extent
    | IndexOutOfRange         // an index outside [-n, n) of its axis
    | EmptyReduction          // max or argmax over an empty axis
    | UnknownMethod(name: string)  // a gradient filter family that is not offered
    | NothingToStack          // np.stack of an empty sequence of arrays
    | ShapeMismatch           // np.stack of arrays of different shapes

  datatype Result<T> = Ok(value: T) | Err(error: Error)
}
