/** Optional values and results with an error, the two shapes the Rust code
    uses as `Option<T>` and as "either a value or a fatal condition". */
module Outcomes {

  datatype Option<T> = None | Some(value: T)

  datatype Result<T, E> = Ok(value: T) | Err(error: E)
}
