/** The three exception classes of the domain, and the result wrappers that
    carry them instead of raising. */
module Errors {

  /** One case per exception class; the messages the source attaches are not modelled. */
  datatype Error =
    | MenuValidationError    // malformed input, or an unknown order id at the restaurant level
    | MenuItemExistsError    // a catalog key that is already taken
    | MenuItemNotFoundError  // a catalog or order-line key that is absent

  datatype Option<+T> = None | Some(value: T)

  /** The outcome of an operation that returns a value or raises. */
  datatype Result<+T> = Ok(value: T) | Err(error: Error)

  /** The outcome of an operation that returns nothing or raises. */
  datatype Outcome = Pass | Fail(error: Error)
}
