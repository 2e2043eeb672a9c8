/** Lower-casing of strings, as `str.lower()` does it for the ASCII letters. */
module Text {

  predicate IsUpper(c: char) {
    'A' <= c <= 'Z'
  }

  /** A string with no upper-case letter. */
  predicate IsLowerCase(s: string) {
    forall i | 0 <= i < |s| :: !IsUpper(s[i])
  }

  function LowerChar(c: char): (d: char)
    ensures !IsUpper(d)
    ensures IsUpper(c) ==> d as int == c as int + ('a' as int - 'A' as int)
    ensures !IsUpper(c) ==> d == c
  {
    if IsUpper(c) then (c as int - 'A' as int + 'a' as int) as char else c
  }

  /** `s.lower()`: every upper-case letter is replaced by its lower-case
      partner, every other character is kept, and nothing moves. */
  function Lower(s: string): (r: string)
    ensures |r| == |s|
    ensures IsLowerCase(r)
    ensures forall i | 0 <= i < |s| :: r[i] == LowerChar(s[i])
  {
    if s == [] then [] else [LowerChar(s[0])] + Lower(s[1..])
  }

  /** Lower-casing changes a string exactly when it holds an upper-case letter. */
  lemma LowerFixesExactlyLowerCase(s: string)
    ensures Lower(s) == s <==> IsLowerCase(s)
  {
  }

  /** Lower-casing twice is lower-casing once. */
  lemma LowerIdempotent(s: string)
    ensures Lower(Lower(s)) == Lower(s)
  {
  }
}
