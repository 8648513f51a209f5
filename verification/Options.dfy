/** The shapes used throughout: a possibly missing value, a value or an error, and 128-bit ids. */
module Options {
  datatype Option<+T> = None | Some(value: T)
  {
    function GetOr(default: T): T {
      match this
      case None => default
      case Some(v) => v
    }
  }

  type Uuid = n: nat | n < 0x1_0000_0000_0000_0000_0000_0000_0000_0000

  datatype Result<+T, +E> = Ok(value: T) | Err(error: E)
}
