/** Failure-carrying datatypes shared by the whole model. */
module Wrappers {

  /** A value that may be absent: JavaScript's `null`/`undefined` results and
      the "no match" answer of a search. */
  datatype Option<+T> = None | Some(value: T)

  /** The one way the field-normalisation engine can fail: the denominator
      pattern `/((\w+\s?)+)/` finds no word character, `exec` returns `null`,
      and indexing it with `[0]` throws a TypeError. */
  datatype Fault = DenominatorNotFound

  /** The result of a computation that either returns a value or throws. */
  datatype Result<+T> = Ok(value: T) | Err(fault: Fault)
}
