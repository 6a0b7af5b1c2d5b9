/** How a Python call of the tool completes, and Python's optional value. */
module Python {

  /** `Optional[T]`: `None` or a value. */
  datatype Option<T> = None | Some(value: T)

  /** The exceptions other than `SystemExit` that the modelled code can raise. */
  datatype PyError =
    | TypeError   // a call with a keyword argument the callee does not accept
    | OSError     // a failure of the temporary rebase-plan file

  /**
   * The three ways a call ends: it returns a value, the process exits through
   * `sys.exit(code)` (a `SystemExit`, which `except Exception` does not catch),
   * or it raises an exception that `except Exception` catches.
   */
  datatype Status<T> = Return(value: T) | Exit(code: int) | Raise(error: PyError)
}
