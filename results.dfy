/** Failure-compatible wrappers used throughout the model, and the kinds of
    error the editor's code can raise on the paths that are modelled. */
module Results {

  datatype Option<+T> = None | Some(value: T)

  /** The exceptions raised by the modelled code. */
  datatype Error =
    | IndexOutOfRange          // IndexError: a tuple, list or bytearray index out of range
    | StructRange              // struct.error: a value outside its format, or too few bytes
    | MissingKey               // KeyError: a dictionary lookup of an absent key
    | MissingAttribute         // AttributeError: getattr of an attribute never set
    | ValueRejected(message: string)  // ValueError raised by a constructor
    | Exit(message: string)    // sys.exit(message)
    | UsageError(message: string)     // parser.error(message), which exits

  datatype Result<+T> = Success(value: T) | Failure(error: Error) {
    predicate IsFailure() { Failure? }

    function PropagateFailure<U>(): Result<U>
      requires Failure?
    {
      Failure(error)
    }

    function Extract(): T
      requires Success?
    {
      value
    }
  }

  /** The result of an operation that returns nothing but may raise. */
  datatype Outcome = Pass | Fail(error: Error)
}
