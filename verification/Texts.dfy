/** Searching in text. */
module Texts {

  /** Python's `part in s`. */
  predicate Contains(s: string, part: string) {
    exists i :: 0 <= i <= |s| && part <= s[i..]
  }
}
