/** Option and Result values used for the outcomes that the C code signals with
    return codes (-1, 0) or early returns. */
module Wrappers {

  datatype Option<+T> = None | Some(value: T)

  datatype Result<+T, +E> = Ok(value: T) | Err(problem: E)
}
