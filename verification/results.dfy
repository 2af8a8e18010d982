/** Optional values and success/failure results, used wherever the driver
    either reports an error (a `False` return, a raised exception) or has
    nothing to return. */
module Results {

  datatype Option<+T> = None | Some(value: T)

  datatype Result<+T, +E> = Ok(value: T) | Err(error: E)
}
