/** The `Option` type used wherever the crawler's Rust code returns an `Option`
    or falls back with `unwrap_or`. */
module Options {

  datatype Option<+T> = None | Some(value: T) {

    /** `unwrap_or(default)`: the carried value, or the default on `None`. */
    function GetOr(default: T): T {
      match this
      case Some(v) => v
      case None => default
    }
  }

  /** A Rust `Result`: a value, or the error that `?` propagates. */
  datatype Result<+T, +E> = Ok(value: T) | Err(error: E)
}
