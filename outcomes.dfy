/** Failure-carrying values used by the date arithmetic.  A null reference in
    the original API becomes `None`; each exception type becomes a variant of
    `Error`. */
module Outcomes {

  datatype Option<+T> = None | Some(value: T)

  /** The conditions the date arithmetic reports instead of returning a date. */
  datatype Error =
    | MissingArgument   // a required period was absent (ArgumentNullException)
    | InvalidArgument   // a period with a time unit used on a date (ArgumentException)
    | Overflow          // a result outside the representable years (OverflowException)
    | InvalidDate       // a (year, month, day) triple that is not a calendar date

  datatype Result<+T> = Ok(value: T) | Err(error: Error)
}
