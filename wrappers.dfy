/** Optional values and error-carrying results, standing in for Python's
    `None` and for the exceptions the engine raises. */
module Wrappers {

  datatype Option<+T> = None | Some(value: T)

  datatype Result<+T> = Ok(value: T) | Err(error: Error)

  /** The exceptions raised by the modelled code. */
  datatype Error =
    | OutOfBounds      // ValueError: placement outside the 8x8 board
    | NotEmpty         // ValueError: target cell already holds a disc
    | NotValidMove     // ValueError: placement not among the legal actions
    | NotTerminal      // ValueError: reward asked of a non-terminal state
    | BadMoveFormat    // ValueError: move text is neither "pass" nor like "d3"
    | MissingCoordinate // TypeError: the range check compared a None row, or a None column under an on-board row, with 0
    | ZeroDivision     // ZeroDivisionError: visit normalisation with no visits
}
