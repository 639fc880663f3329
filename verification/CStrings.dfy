/** C strings: the characters without the terminator; a pointer into one is an index. */
module CStrings {

  /** *p, with the terminator at the end. */
  function At(s: string, i: nat): char {
    if i < |s| then s[i] else '\0'
  }
}
