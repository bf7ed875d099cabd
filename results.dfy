// Outcomes shared by the register engine, the parsers and the operator
// handlers.
module Results {

  datatype Option<T> = None | Some(value: T)

  /**
   * The outcome of an operation: a value, an error message the calculator
   * shows to the user, or a panic, where the program would abort (an
   * arithmetic overflow in the literal parser, for instance).
   */
  datatype Result<T> = Ok(value: T) | Err(msg: string) | Panic
}
