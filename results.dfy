/** Optional values and results with an error, used for parse failures,
    validation failures and HTTP errors. */
module Results {

  datatype Option<T> = None | Some(value: T)

  datatype Result<T, E> = Ok(value: T) | Err(error: E)
}
