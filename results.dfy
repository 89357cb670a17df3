/** Values returned by the modelled Python code: a value, or the exception it raises. */
module Results {

  /** `None` or a value: the optional arguments of the resolver functions. */
  datatype Option<+T> = None | Some(value: T)

  /** The exceptions the modelled code raises or lets escape. */
  datatype Error =
    /** `raise ValueError(message)` written in the source itself. */
    | ValueError(message: string)
    /** `raise Exception(message)` written in the source itself. */
    | Exception(message: string)
    /** ValueError from `random.randint(a, b)` when `a > b`. */
    | EmptyRange
    /** IndexError from `random.choice` on an empty sequence. */
    | EmptySequence
    /** ValueError from `list.index` when the element is absent. */
    | NotInList
    /** IndexError from `list[index]` outside `-len <= index < len`. */
    | IndexOutOfRange
    /** AttributeError from reading `.value` of `None`. */
    | NoneHasNoValue
    /** ValueError from the `datetime(year, month, day)` constructor. */
    | InvalidDate

  datatype Result<+T> = Ok(value: T) | Err(error: Error)
}
