/**
 * Words as the handler sees them: the validation pattern `^[a-zA-Z]+$`
 * and the lower-casing used for every comparison of two words.
 */
module Words {

  predicate IsUpper(c: char) { 'A' <= c <= 'Z' }

  predicate IsLowerLetter(c: char) { 'a' <= c <= 'z' }

  /** One character of the class `[a-zA-Z]`. */
  predicate IsLetter(c: char) { IsUpper(c) || IsLowerLetter(c) }

  /** The whole string matches `^[a-zA-Z]+$`: at least one character, all ASCII letters. */
  predicate IsAlphaWord(s: string)
  {
    |s| > 0 && forall i :: 0 <= i < |s| ==> IsLetter(s[i])
  }

  function LowerChar(c: char): char
  {
    if IsUpper(c) then (c as int - 'A' as int + 'a' as int) as char else c
  }

  /**
   * `toLowerCase` restricted to ASCII: every upper-case letter becomes the
   * lower-case letter at the same place in the alphabet, and every other
   * character is kept.
   */
  function Lower(s: string): (r: string)
    ensures |r| == |s|
    ensures forall i :: 0 <= i < |s| && IsUpper(s[i]) ==>
              IsLowerLetter(r[i]) && r[i] as int - 'a' as int == s[i] as int - 'A' as int
    ensures forall i :: 0 <= i < |s| && !IsUpper(s[i]) ==> r[i] == s[i]
    decreases |s|
  {
    if s == [] then [] else [LowerChar(s[0])] + Lower(s[1..])
  }

  /** The comparison `a.toLowerCase() === b.toLowerCase()`. */
  predicate SameWord(a: string, b: string)
  {
    Lower(a) == Lower(b)
  }
}
