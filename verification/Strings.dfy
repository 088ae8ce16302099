/** Text that several of the tools look at in the same way. */
module Strings {

  /** `part in text`. */
  predicate Contains(text: string, part: string) {
    exists i :: 0 <= i <= |text| && part <= text[i..]
  }

  /** `[A-Za-z0-9._-]`, the characters of artifact names. */
  predicate NameChar(c: char) {
    'A' <= c <= 'Z' || 'a' <= c <= 'z' || '0' <= c <= '9' || c == '.' || c == '_' || c == '-'
  }
}
