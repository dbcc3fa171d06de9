/** The plain `Option` and `Result` datatypes used across the model:
    `Option` stands for a nullable reference or an optional capability,
    `Result` for an operation that can end in a .NET exception. */
module Options {

  datatype Option<+T> = None | Some(value: T)

  datatype Result<+T, +E> = Success(value: T) | Failure(error: E)
}
