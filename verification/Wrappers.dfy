/** Option and Result, the failure-compatible types used for nil pointers and Go errors. */
module Wrappers {

  datatype Option<+T> = None | Some(value: T)

  /** The ways in which reading or writing the wire format fails. */
  datatype Error =
    | Truncated          // the stream ended inside a value
    | VarintOverflow     // a varint went on past the tenth byte
    | UnknownRef         // a content reference the reader or the writer does not handle
    | UnknownTag         // an any-value tag that is not defined
    | BadContent         // content data of the wrong Go type for its reference

  datatype Result<+T> = Ok(value: T) | Err(error: Error) {

    predicate IsFailure() {
      Err?
    }

    function PropagateFailure<U>(): Result<U>
      requires Err?
    {
      Err(error)
    }

    function Extract(): T
      requires Ok?
    {
      value
    }
  }
}
