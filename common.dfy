/** Small shared vocabulary: optional values (Python's `None`) and bytes. */
module Common {

  /** A Python value that may be `None`. */
  datatype Option<+T> = None | Some(value: T)

  /** One byte of a file's content. */
  newtype byte = b: int | 0 <= b < 256

  function Min(a: int, b: int): int
  {
    if a <= b then a else b
  }
}
