/** Shared by the message and hash table modules. */
module Common {

  /** A value, or a null pointer */
  datatype Option<+T> = None | Some(value: T)

  const INT_MAX: int := 0x7fff_ffff
}
