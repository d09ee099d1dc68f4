/** Error kinds of the game core and the result type that carries them.
    The C++ code throws `std::out_of_range` and `std::invalid_argument`;
    here each throwing operation returns `Err` with the matching kind
    instead. `UndefinedBehaviour` marks the places where the C++ code would
    index a vector past its end: the model reports it instead of picking an
    arbitrary outcome. */
module Results {

  datatype Error =
    | OutOfRange          // std::out_of_range
    | InvalidArgument     // std::invalid_argument
    | UndefinedBehaviour  // an out-of-bounds std::vector access

  datatype Result<+T> = Ok(value: T) | Err(error: Error)
}
