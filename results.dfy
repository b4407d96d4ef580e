/** Error kinds raised by the tree map, and the wrappers that carry them in
    place of C++ exceptions. */
module Results {

  /** One constructor per exception the map throws. */
  datatype Error =
    | EmptyTree     // std::out_of_range("Empty tree")
    | InvalidKey    // std::invalid_argument("Invalid Key")
    | DuplicateKey  // std::invalid_argument("Duplicate Key")
    | NoFloor       // std::invalid_argument("No Floor exists for the given key")
    | NoCeil        // std::invalid_argument("No Ceil exists for the given key")

  /** The outcome of an operation that returns a value or throws. */
  datatype Result<+T> = Ok(value: T) | Err(error: Error)

  /** The outcome of a void operation that may throw. */
  datatype Outcome = Pass | Fail(error: Error)

  datatype Option<+T> = None | Some(value: T)
}
