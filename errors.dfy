/** Failure values shared by the row codec and the query engine.
    Each Python exception the core raises becomes one variant of Error;
    the message text the source formats (with a timestamp) is not modelled,
    the fields and headers it reports are. */
module Errors {

  datatype Option<+T> = None | Some(value: T)

  /** Why a ValueError was raised. */
  datatype ValueCause =
    | UnknownCondition(message: string)            // a clause names a condition outside the table
    | ArityMismatch(headerCount: nat, valueCount: nat) // a data line has the wrong number of tokens
    | DateParse                                    // a BEFORE/AFTER field value the date parser refuses

  datatype Error =
    | FieldHeaderError(fields: seq<string>, headers: set<string>)
    | ConditionTypeError(valueType: string, conditions: seq<string>)
    | ValueError(cause: ValueCause)
    | AttributeError
    | TypeError
    | KeyError
    | IndexError

  datatype Result<+T> = Ok(value: T) | Err(error: Error) {
    predicate IsFailure() { Err? }
    function PropagateFailure<U>(): Result<U>
      requires Err?
    {
      Err(error)
    }
    function Extract(): T
      requires Ok?
    {
      value
    }
  }
}
