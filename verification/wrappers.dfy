/** Failure-carrying datatypes shared by the reservation model.
    `None` stands for the null cell (NaN / NaT) a table column may hold. */
module Wrappers {

  datatype Option<+T> = None | Some(value: T)

  /** Either the accepted value or the first error found. */
  datatype Result<+T, +E> = Ok(value: T) | Err(error: E)
}
