/** The failures the planner's Python code can raise, as values. */
module Exceptions {

  /** The built-in exceptions the modelled code can raise:
      ValueError from int() and from unpacking the wrong number of tokens,
      KeyError from a dictionary lookup, EOFError from input() at the end of input. */
  datatype Exception = ValueError | KeyError | EOFError

  /** The value an operation returns, or the exception it raises. */
  datatype Result<+T> = Ok(value: T) | Err(error: Exception)
}
