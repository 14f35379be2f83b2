/** Optional values and the success-or-error results that stand for Python's
    `None` and for the exceptions the pipeline lets propagate. */
module Wrappers {

  datatype Option<+T> = None | Some(value: T)

  datatype Result<+R, +E> = Ok(value: R) | Err(error: E)
}
