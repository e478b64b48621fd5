/** Optional values and the one error the tree can raise. */
module Wrappers {

  /** Python's `None` or a value. */
  datatype Option<T> = None | Some(value: T)

  /** The exception `remove` raises for an absent item. */
  datatype Error = KeyError

  /** A value, or the exception raised instead of returning one. */
  datatype Result<T> = Ok(value: T) | Err(error: Error)
}
