/** What several modules share. */
module Common {
  datatype Option<+T> = None | Some(value: T)

  /** The longest text libxml2 keeps without the option for huge documents, tree.h. */
  const XML_MAX_TEXT_LENGTH := 10000000

  const INT_MAX := 0x7FFF_FFFF

  predicate StartsWith<T(==)>(s: seq<T>, prefix: seq<T>)
  {
    |prefix| <= |s| && s[..|prefix|] == prefix
  }
}
