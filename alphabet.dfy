/** The 26-letter alphabet `a`..`z` over which the dictionary and the
    corrector work, and the letter <-> child-slot conversion the trie uses. */
module Alphabet {

  predicate IsLetter(c: char) {
    'a' <= c <= 'z'
  }

  /** A string every character of which is a lower-case letter. */
  predicate IsWord(s: string) {
    forall i | 0 <= i < |s| :: IsLetter(s[i])
  }

  /** The letter of child slot `i`: `(char) ('a' + i)`. */
  function Letter(i: nat): (c: char)
    requires i < 26
    ensures IsLetter(c)
  {
    (('a' as int) + i) as char
  }

  /** The child slot of a letter: `letter - 'a'`. */
  function Index(c: char): (i: nat)
    requires IsLetter(c)
    ensures i < 26 && Letter(i) == c
    ensures forall j | 0 <= j < 26 && Letter(j) == c :: j == i
  {
    (c as int) - ('a' as int)
  }

}
