/** Searching a text, as several agents do to cut names and keys apart. */
module Texts {

  /** The position of the first `c`, or the length of the text. */
  function FirstOf(s: string, c: char): (k: nat)
    ensures k <= |s| && (k < |s| ==> s[k] == c) && forall i :: 0 <= i < k ==> s[i] != c
  {
    if s == "" || s[0] == c then 0 else 1 + FirstOf(s[1..], c)
  }
}
