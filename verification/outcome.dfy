/** Optional values, the error kinds the linked list signals, and the
    Ok/Err result every fallible operation returns instead of raising. */
module Outcome {

  /** An optional value: used for the constructor's `limit` argument,
      which may be absent (Python `None`). */
  datatype Option<+T> = None | Some(value: T)

  /** The three ways a list operation can fail. The source raises an
      `IndexError` in every case and tells them apart only by message text:
      - Full: `append` on a list whose size equals its limit;
      - Empty: `remove`, `peek` or `contain` on a list of size zero;
      - NotFound: `remove` of a value no node holds. */
  datatype Error = Full | Empty | NotFound

  /** The outcome of an operation that either returns a value or raises. */
  datatype Result<+R> = Ok(value: R) | Err(error: Error)
}
