/** Fatal diagnostics of the compiler, as values.

    Every error in the source prints a message (with a caret under the
    offending column for the located ones) and exits the process; here an
    error is a value carrying its message tag and, where the source points at
    the input, the index of the character it points at. The source computes
    a byte offset; the two agree, since any character outside ASCII is
    already an invalid token. */
module Errors {

  datatype CompileError =
    | InvalidToken(loc: nat)                      // "invalid token"
    | ExpectedToken(expected: string, loc: nat)   // "expected \")\""
    | ExpectedExpression(loc: nat)                // "expected an expression"
    | ExtraToken(loc: nat)                        // "extra token"
    | NotAnLvalue                                 // "not a lvalue"
    | InvalidExpression                           // "invalid expression"
    | InvalidStatement                            // "invalid statement"

  /** The outcome of a stage: a value, or the one error that stops compilation. */
  datatype Result<+T> = Ok(value: T) | Err(error: CompileError) {
    predicate IsFailure() {
      Err?
    }

    function PropagateFailure<U>(): Result<U>
      requires Err?
    {
      Err(error)
    }

    function Extract(): T
      requires Ok?
    {
      value
    }
  }

  /** A value that may be missing: a run of the machine that faults, or an
      evaluation that divides by zero. */
  datatype Option<+T> = None | Some(value: T) {
    predicate IsFailure() {
      None?
    }

    function PropagateFailure<U>(): Option<U>
      requires None?
    {
      None
    }

    function Extract(): T
      requires Some?
    {
      value
    }
  }
}
