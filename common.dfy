/** Small helpers shared by the typing-session model. */
module Common {

  /** A value that may be absent (a JavaScript `null`). */
  datatype Option<T> = None | Some(value: T)

  function Max(a: int, b: int): int { if a >= b then a else b }

  function Min(a: int, b: int): int { if a <= b then a else b }
}
