/** Small facts on texts that several modules share. */
module Strings {

  /** A copy into a buffer of `size` bytes: what does not fit is copied as nothing. */
  function Copied(s: string, size: nat): string { if |s| < size then s else "" }

  lemma Grouped(a: string, b: string, c: string)
    ensures (a + b) + c == a + (b + c)
  {}

  lemma Regroup(a: string, b: string, c: string, d: string)
    ensures a + (b + (c + d)) == (a + (b + c)) + d
  {}
}
