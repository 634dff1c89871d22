/** The exceptions the core throws, as values. */
module Errors {

  datatype Error =
    | IllegalArgument(message: string)   // IllegalArgumentException
    | IndexOutOfBounds(index: int)       // IndexOutOfBoundsException from List.get

  datatype Result<T> = Ok(value: T) | Err(error: Error)
}
