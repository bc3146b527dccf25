/** The exceptions raised by the interpolation routines, as values. */
module Results {

  /** Why a call failed: the `ValueError`s the routines raise, the
      `IndexError` numpy raises when the cached routine indexes a `y` array
      that is shorter than its `x` array, and the one case in which a routine
      returns without raising but its value is an IEEE infinity or NaN. */
  datatype Error =
    | TooFewPoints      // "at least two data points are required"
    | LengthMismatch    // x and y have different lengths
    | NotFourPoints     // the 4-point routine got something other than 4 points
    | DuplicateX        // an interval of zero width reached the coefficient step
    | IndexOutOfRange   // a sort permutation indexed past the end of y
    | NonFinite         // a division by a zero boundary width: inf or nan is returned

  datatype Result<+T> = Ok(value: T) | Err(error: Error)
}
