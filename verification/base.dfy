/** Small shared vocabulary: an optional value and integer minimum. */
module Base {

  /** A value that may be absent: a missing request field, a SQL NULL. */
  datatype Option<+T> = None | Some(value: T)

  function Min(a: int, b: int): (m: int)
    ensures m <= a && m <= b
    ensures m == a || m == b
  {
    if a <= b then a else b
  }
}
