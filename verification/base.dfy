/** Small failure-compatible wrappers shared by the other modules. */
module Base {

  /** An optional value: the Rust `Option`. */
  datatype Option<+T> = None | Some(value: T)

  /** The value of a computation that may abort: the Rust panics of the
      scanner become `Err` values carrying the reason. */
  datatype Result<+T, +E> = Ok(value: T) | Err(error: E)

  function Min(a: nat, b: nat): (m: nat)
    ensures m <= a && m <= b
    ensures m == a || m == b
  {
    if a <= b then a else b
  }
}
