/** Option and Result, spelled as in the Rust standard library. */
module Wrappers {

  datatype Option<+T> = None | Some(value: T)

  datatype Result<+T, +E> = Ok(value: T) | Err(error: E)
  {
    /** Keeps the success value and discards the error, like Rust's `Result::ok`. */
    function ToOption(): (o: Option<T>)
      ensures o.Some? <==> Ok?
      ensures o.Some? ==> o.value == value
    {
      match this
      case Ok(v) => Some(v)
      case Err(_) => None
    }
  }
}
