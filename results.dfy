/** Option and Result, the two wrappers the walker's Rust signatures use
    (`Option<T>` and `io::Result<T>`). */
module Results {

  datatype Option<+T> = None | Some(value: T)

  datatype Result<+T, +E> = Ok(value: T) | Err(error: E)
}
