/** Option and Result values shared by every module of the model. */
module Wrappers {
  datatype Option<T> = None | Some(value: T)
  {
    predicate IsSome() { Some? }

    function UnwrapOr(default: T): T
    {
      match this
      case Some(v) => v
      case None => default
    }
  }

  /** A Rust `Result<T, E>`: either a value or the error the source returns. */
  datatype Result<T, E> = Ok(value: T) | Err(error: E)
}
