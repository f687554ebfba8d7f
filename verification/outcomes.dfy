/** The .NET exceptions the modelled code throws, and the result of an
    operation that either completes or throws one of them. */
module Outcomes {

  datatype Exception =
    | ArgumentException
    | InvalidOperationException
    | KeyNotFoundException
    | FormatException
    | IndexOutOfRangeException

  datatype Outcome<+T> = Done(value: T) | Threw(error: Exception)

  datatype Option<+T> = None | Some(value: T)
}
