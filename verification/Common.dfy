/** What the models of the client tools share. */
module Common {
  datatype Option<T> = None | Some(value: T)

  newtype byte = x: int | 0 <= x < 256

  const NUL := '\0'

  predicate IsSpace(c: char) {
    c == ' ' || '\t' <= c <= '\r'
  }
}
