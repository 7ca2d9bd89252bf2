/** Small shared datatypes. */
module Common {

  /** A value that may be absent: an unselected file, a missing form field or
      query argument. */
  datatype Option<+T> = None | Some(value: T)

  function Min(a: int, b: int): int
  {
    if a <= b then a else b
  }
}
