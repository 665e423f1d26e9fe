/** Optional values and the failure outcomes of the inventory operations. */
module Outcomes {

  /** A value that may be absent (a request field or query parameter that was not sent). */
  datatype Option<+T> = None | Some(value: T)

  /** A text field that JavaScript treats as truthy: present and not the empty string. */
  predicate Given(p: Option<string>) {
    p.Some? && p.value != []
  }

  /** The domain errors the inventory controller answers with. */
  datatype Error =
    | DuplicateName      // 400 "Sweet with this name already exists"
    | NotFound           // 404 "Sweet not found"
    | InvalidQuantity    // 400 "Invalid quantity"
    | InsufficientStock  // 400 "Insufficient stock"
    | ValidationError    // 400 raised by the schema validators and reported by the catch branch

  datatype Result<+T> = Ok(value: T) | Err(error: Error)
}
