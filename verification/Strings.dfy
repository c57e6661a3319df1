/** What counts as white space, shared by the modules that strip text. */
module Strings {
  /** White space as Python's str.strip has it, among ASCII characters. */
  predicate IsSpace(c: char) {
    c == ' ' || '\t' <= c <= '\r' || '\U{1C}' <= c <= '\U{1F}'
  }
}
