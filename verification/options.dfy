/** Optional values and results shared by the whole model: `Option` stands for a
    value pandas may hold as NaN (or a Python `None`), `Result` for an operation
    that may raise. */
module Options {

  datatype Option<+T> = None | Some(value: T) {

    /** The value, or `default` when it is missing. */
    function GetOr(default: T): T {
      match this
      case Some(v) => v
      case None => default
    }
  }

  datatype Result<+T, +E> = Ok(value: T) | Err(error: E)
}
