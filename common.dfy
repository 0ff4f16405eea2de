/** Small value types shared by every module of the store model. */
module Common {

  /** A value that may be absent: a nullable column, an optional request field, `.first()` on no rows. */
  datatype Option<+T> = None | Some(value: T) {
    function GetOr(default: T): T {
      if Some? then value else default
    }
  }

  /** The outcome of a service call that either returns a value or throws one of its errors. */
  datatype Result<+T, +E> = Ok(value: T) | Err(error: E)

  /** The outcome of a check that returns nothing on success and throws on failure. */
  datatype Outcome<+E> = Pass | Fail(error: E)

  /** A row as a query returns it: the table's primary key beside the selected columns. */
  datatype Keyed<+T> = Keyed(id: int, row: T)
}
