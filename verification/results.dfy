/** The `Option` and `Result` shapes of the Rust source. */
module Results {

  datatype Option<+T> = None | Some(value: T) {

    /** The wrapped value, or `default` for `None` (Rust's `unwrap_or`). */
    function GetOr(default: T): (v: T)
      ensures this.Some? ==> v == this.value
      ensures this.None? ==> v == default
    {
      match this
      case Some(v) => v
      case None => default
    }
  }

  datatype Result<+T, +E> = Ok(value: T) | Err(error: E)
}
