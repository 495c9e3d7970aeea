/// Optional values and results with an error, as the dashboard's steps use
/// them: `None` stands for Python's `None`, `Failure` for a step that stops
/// the page.
module Wrappers {

  datatype Option<+T> = None | Some(value: T)

  datatype Result<+R, +E> = Success(value: R) | Failure(error: E)
}
