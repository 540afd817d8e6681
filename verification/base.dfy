/** Optional values and error results, the two ways the modelled code reports absence and failure. */
module Base {

  /** A value that may be absent: JavaScript's `undefined` for an optional field or a failed `match`. */
  datatype Option<T> = None | Some(value: T) {
    function OrElse(fallback: T): T {
      if Some? then value else fallback
    }
  }

  /** The outcome of an operation that throws on bad input. */
  datatype Result<T> = Ok(value: T) | Err(message: string)
}
