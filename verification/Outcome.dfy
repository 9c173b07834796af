/** Results of operations that may raise. */
module Outcome {

  datatype Option<+T> = None | Some(value: T)

  datatype Error =
    | NoBracket              // ValueError: the interval does not bracket a root
    | CalculationError
    | InputError
    | LocalTimeError
    | KeyError
    | IndexError
    | ValueError
    | OverflowError

  datatype Result<+T> = Ok(value: T) | Err(error: Error)
}
