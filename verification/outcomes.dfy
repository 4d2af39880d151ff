/** The two failures of the tree, returned instead of thrown. */
module Outcomes {

  datatype Error =
    | DuplicateValue  // Insert of a key already present
    | EmptyTree       // GetMin or GetMax without a root

  datatype Result<T> = Ok(value: T) | Err(error: Error)
}
