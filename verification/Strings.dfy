/** C strings, over any kind of character. */
module Strings {
  /** The terminator is not among the characters; it is implied at the end. */
  predicate CString<T(==)>(s: seq<T>, nul: T) {
    nul !in s
  }
}
